/** The Pyth v2 price and product account records, as far as the two programs
    touch them, and their byte images. Each record keeps the fields the programs
    read or write; every other byte of the account is carried, untouched, in an
    opaque `rest` block. The crate that defines the real records is not part of
    this model, so the field order below is a stand-in: the four-byte fields the
    programs touch come first, then the eight-byte ones, each run little-endian
    and in declaration order, and `rest` follows. */
module PythState {

  import opened Bytes
  import opened Layout

  /** Format sentinel written at the start of every Pyth account. */
  const MAGIC: u32 := 0xa1b2c3d4
  const VERSION_2: u32 := 2

  /** `AccountType` tags. */
  const ACCOUNT_TYPE_PRODUCT: u32 := 2
  const ACCOUNT_TYPE_PRICE: u32 := 3

  /** `PriceType::Price` and `PriceStatus::Trading`; zero is `Unknown` in both. */
  const PRICE_TYPE_PRICE: u32 := 1
  const PRICE_STATUS_TRADING: u32 := 1

  /** `size_of::<PriceAccount>()`, also the length of the older `Price` record. */
  const PRICE_ACCOUNT_SIZE: nat := 3312
  /** `PROD_ACCT_SIZE`: a 48-byte header followed by the `PROD_ATTR_SIZE` attribute block. */
  const PROD_ACCT_SIZE: nat := 512
  const PROD_HDR_SIZE: nat := 48
  const PROD_ATTR_SIZE: nat := 464
  const PUBKEY_SIZE: nat := 32

  type Pubkey = s: seq<byte> | |s| == PUBKEY_SIZE witness Zeros(PUBKEY_SIZE)
  type AttrBlock = s: seq<byte> | |s| == PROD_ATTR_SIZE witness Zeros(PROD_ATTR_SIZE)

  // ---------------------------------------------------------------------
  // Price account
  // ---------------------------------------------------------------------

  /** A `{val, numer, denom}` triple; only `val` carries meaning for the mock. */
  datatype Rational = Rational(val: i64, numer: i64, denom: i64)

  /** The aggregate price sub-record (its `corp_act` field lies in `rest`). */
  datatype PriceInfo = PriceInfo(price: i64, conf: u64, status: u32, pubSlot: u64)

  /** The touched fields take 7 four-byte words and 11 eight-byte words. */
  const PRICE_U32_COUNT: nat := 7
  const PRICE_U64_COUNT: nat := 11
  const PRICE_FIELDS_SIZE: nat := 4 * PRICE_U32_COUNT + 8 * PRICE_U64_COUNT
  const PRICE_REST_SIZE: nat := PRICE_ACCOUNT_SIZE - PRICE_FIELDS_SIZE

  type PriceRest = s: seq<byte> | |s| == PRICE_REST_SIZE witness Zeros(PRICE_REST_SIZE)

  datatype PriceAccount = PriceAccount(
    magic: u32,
    ver: u32,
    atype: u32,
    size: u32,
    ptype: u32,
    expo: i32,
    lastSlot: u64,
    validSlot: u64,
    emaPrice: Rational,
    emaConf: Rational,
    agg: PriceInfo,
    rest: PriceRest)

  /** The all-zero record, `std::mem::zeroed()`. */
  const ZERO_PRICE_ACCOUNT: PriceAccount :=
    PriceAccount(0, 0, 0, 0, 0, 0, 0, 0, Rational(0, 0, 0), Rational(0, 0, 0),
                 PriceInfo(0, 0, 0, 0), Zeros(PRICE_REST_SIZE))

  /** The four-byte fields, raw: the header, the exponent's bit pattern, the status. */
  function PriceU32s(p: PriceAccount): seq<u32>
  {
    [p.magic, p.ver, p.atype, p.size, p.ptype, I32AsU32(p.expo), p.agg.status]
  }

  /** The eight-byte fields, raw: slots, both rationals, the aggregate price, confidence and slot. */
  function PriceU64s(p: PriceAccount): seq<u64>
  {
    [p.lastSlot, p.validSlot,
     I64AsU64(p.emaPrice.val), I64AsU64(p.emaPrice.numer), I64AsU64(p.emaPrice.denom),
     I64AsU64(p.emaConf.val), I64AsU64(p.emaConf.numer), I64AsU64(p.emaConf.denom),
     I64AsU64(p.agg.price), p.agg.conf, p.agg.pubSlot]
  }

  /** The image of the fields the record names: the four-byte run, then the eight-byte run. */
  function EncodePriceHead(p: PriceAccount): (h: seq<byte>)
    ensures |h| == PRICE_FIELDS_SIZE
  {
    EncodeU32s(PriceU32s(p)) + EncodeU64s(PriceU64s(p))
  }

  /** The record whose named fields the head image holds and whose other bytes are `rest`. */
  function DecodePriceHead(h: seq<byte>, rest: PriceRest): (p: PriceAccount)
    requires |h| == PRICE_FIELDS_SIZE
    ensures p.rest == rest
  {
    var w := DecodeU32s(PRICE_U32_COUNT, h[..4 * PRICE_U32_COUNT]);
    var d := DecodeU64s(PRICE_U64_COUNT, h[4 * PRICE_U32_COUNT..]);
    PriceAccount(
      w[0], w[1], w[2], w[3], w[4], U32AsI32(w[5]), d[0], d[1],
      Rational(U64AsI64(d[2]), U64AsI64(d[3]), U64AsI64(d[4])),
      Rational(U64AsI64(d[5]), U64AsI64(d[6]), U64AsI64(d[7])),
      PriceInfo(U64AsI64(d[8]), d[9], w[6], d[10]),
      rest)
  }

  lemma PriceHeadRoundTrip(p: PriceAccount)
    ensures DecodePriceHead(EncodePriceHead(p), p.rest) == p
  {
    var h := EncodePriceHead(p);
    assert h[..4 * PRICE_U32_COUNT] == EncodeU32s(PriceU32s(p));
    assert h[4 * PRICE_U32_COUNT..] == EncodeU64s(PriceU64s(p));
    U32sDecodeEncode(PriceU32s(p));
    U64sDecodeEncode(PriceU64s(p));
    I32AsU32RoundTrip(p.expo);
    I64AsU64RoundTrip(p.emaPrice.val);
    I64AsU64RoundTrip(p.emaPrice.numer);
    I64AsU64RoundTrip(p.emaPrice.denom);
    I64AsU64RoundTrip(p.emaConf.val);
    I64AsU64RoundTrip(p.emaConf.numer);
    I64AsU64RoundTrip(p.emaConf.denom);
    I64AsU64RoundTrip(p.agg.price);
  }

  lemma PriceHeadWordsImage(h: seq<byte>, rest: PriceRest)
    requires |h| == PRICE_FIELDS_SIZE
    ensures EncodeU32s(PriceU32s(DecodePriceHead(h, rest))) == h[..4 * PRICE_U32_COUNT]
  {
    var w := DecodeU32s(PRICE_U32_COUNT, h[..4 * PRICE_U32_COUNT]);
    U32AsI32RoundTrip(w[5]);
    assert PriceU32s(DecodePriceHead(h, rest)) == w;
    U32sEncodeDecode(h[..4 * PRICE_U32_COUNT]);
  }

  lemma PriceHeadDoublesImage(h: seq<byte>, rest: PriceRest)
    requires |h| == PRICE_FIELDS_SIZE
    ensures EncodeU64s(PriceU64s(DecodePriceHead(h, rest))) == h[4 * PRICE_U32_COUNT..]
  {
    var d := DecodeU64s(PRICE_U64_COUNT, h[4 * PRICE_U32_COUNT..]);
    U64AsI64RoundTrip(d[2]);
    U64AsI64RoundTrip(d[3]);
    U64AsI64RoundTrip(d[4]);
    U64AsI64RoundTrip(d[5]);
    U64AsI64RoundTrip(d[6]);
    U64AsI64RoundTrip(d[7]);
    U64AsI64RoundTrip(d[8]);
    assert PriceU64s(DecodePriceHead(h, rest)) == d;
    U64sEncodeDecode(h[4 * PRICE_U32_COUNT..]);
  }

  lemma PriceHeadImageRoundTrip(h: seq<byte>, rest: PriceRest)
    requires |h| == PRICE_FIELDS_SIZE
    ensures EncodePriceHead(DecodePriceHead(h, rest)) == h
  {
    PriceHeadWordsImage(h, rest);
    PriceHeadDoublesImage(h, rest);
    assert h == h[..4 * PRICE_U32_COUNT] + h[4 * PRICE_U32_COUNT..];
  }

  /** The byte image of a price record. */
  function EncodePriceAccount(p: PriceAccount): (b: seq<byte>)
    ensures |b| == PRICE_ACCOUNT_SIZE
    ensures b[PRICE_FIELDS_SIZE..] == p.rest
  {
    EncodePriceHead(p) + p.rest
  }

  /** The price record a 3312-byte image reads as; every image reads as one. */
  function DecodePriceAccount(b: seq<byte>): (p: PriceAccount)
    requires |b| == PRICE_ACCOUNT_SIZE
    ensures p.rest == b[PRICE_FIELDS_SIZE..]
  {
    DecodePriceHead(b[..PRICE_FIELDS_SIZE], b[PRICE_FIELDS_SIZE..])
  }

  lemma PriceAccountRoundTrip(p: PriceAccount)
    ensures DecodePriceAccount(EncodePriceAccount(p)) == p
  {
    assert EncodePriceAccount(p)[..PRICE_FIELDS_SIZE] == EncodePriceHead(p);
    PriceHeadRoundTrip(p);
  }

  lemma PriceAccountImageRoundTrip(b: seq<byte>)
    requires |b| == PRICE_ACCOUNT_SIZE
    ensures EncodePriceAccount(DecodePriceAccount(b)) == b
  {
    PriceHeadImageRoundTrip(b[..PRICE_FIELDS_SIZE], b[PRICE_FIELDS_SIZE..]);
    assert b == b[..PRICE_FIELDS_SIZE] + b[PRICE_FIELDS_SIZE..];
  }

  /** `std::mem::zeroed()`: the image of the zero record is all zero bytes. */
  lemma ZeroPriceAccountImage()
    ensures EncodePriceAccount(ZERO_PRICE_ACCOUNT) == Zeros(PRICE_ACCOUNT_SIZE)
  {
    var z := ZERO_PRICE_ACCOUNT;
    U32sZeros(PriceU32s(z));
    U64sZeros(PriceU64s(z));
    assert Zeros(4 * PRICE_U32_COUNT) + Zeros(8 * PRICE_U64_COUNT) + Zeros(PRICE_REST_SIZE)
        == Zeros(PRICE_ACCOUNT_SIZE);
  }

  /** Two price records with the same image are the same record. */
  lemma PriceAccountImageInjective(p: PriceAccount, q: PriceAccount)
    requires EncodePriceAccount(p) == EncodePriceAccount(q)
    ensures p == q
  {
    PriceAccountRoundTrip(p);
    PriceAccountRoundTrip(q);
  }

  // ---------------------------------------------------------------------
  // Product account
  // ---------------------------------------------------------------------

  const PRODUCT_FIELDS_SIZE: nat := 16

  datatype ProductAccount = ProductAccount(
    magic: u32,
    ver: u32,
    atype: u32,
    size: u32,
    pxAcc: Pubkey,
    attr: AttrBlock)

  /** The byte image of a product record: header words, the price key, the attributes. */
  function EncodeProductAccount(q: ProductAccount): (b: seq<byte>)
    ensures |b| == PROD_ACCT_SIZE
    ensures b[PRODUCT_FIELDS_SIZE..PROD_HDR_SIZE] == q.pxAcc
    ensures b[PROD_HDR_SIZE..] == q.attr
  {
    var b := EncodeU32s([q.magic, q.ver, q.atype, q.size]) + q.pxAcc + q.attr;
    assert b[PRODUCT_FIELDS_SIZE..PROD_HDR_SIZE] == q.pxAcc;
    b
  }

  function DecodeProductAccount(b: seq<byte>): (q: ProductAccount)
    requires |b| == PROD_ACCT_SIZE
    ensures q.pxAcc == b[PRODUCT_FIELDS_SIZE..PROD_HDR_SIZE]
    ensures q.attr == b[PROD_HDR_SIZE..]
  {
    var w := DecodeU32s(4, b[..PRODUCT_FIELDS_SIZE]);
    ProductAccount(w[0], w[1], w[2], w[3], b[PRODUCT_FIELDS_SIZE..PROD_HDR_SIZE], b[PROD_HDR_SIZE..])
  }

  lemma ProductAccountRoundTrip(q: ProductAccount)
    ensures DecodeProductAccount(EncodeProductAccount(q)) == q
  {
    var b := EncodeProductAccount(q);
    assert b[..PRODUCT_FIELDS_SIZE] == EncodeU32s([q.magic, q.ver, q.atype, q.size]);
    U32sDecodeEncode([q.magic, q.ver, q.atype, q.size]);
  }

  lemma ProductAccountImageRoundTrip(b: seq<byte>)
    requires |b| == PROD_ACCT_SIZE
    ensures EncodeProductAccount(DecodeProductAccount(b)) == b
  {
    var head := b[..PRODUCT_FIELDS_SIZE];
    var w := DecodeU32s(4, head);
    var q := DecodeProductAccount(b);
    assert [q.magic, q.ver, q.atype, q.size] == w;
    U32sEncodeDecode(head);
    assert b == head + b[PRODUCT_FIELDS_SIZE..PROD_HDR_SIZE] + b[PROD_HDR_SIZE..];
  }
}
