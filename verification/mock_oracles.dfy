/** The mock-oracles program: it stamps and updates Pyth price/product accounts
    and Switchboard aggregator accounts through zero-copy record views of the
    accounts' bytes. Each instruction is a function from the accounts' regions
    (and its arguments, with the clock's slot as one of them) to the regions
    after the instruction, or to the failure that aborts it. */
module MockOracles {

  import opened Bytes
  import opened Results
  import opened Region
  import opened PythState
  import opened SwitchboardState

  // ---------------------------------------------------------------------
  // Zero-copy record views
  // ---------------------------------------------------------------------

  /** `load_account_as_mut::<T>`: a view of exactly the bytes [0, size_of::<T>()),
      which panics when the region is shorter than the record. */
  function LoadAccountAsMut(region: Region, size: nat): (r: Result<seq<byte>>)
    ensures r.Success? <==> size <= |region|
    ensures r.Failure? ==> r.error == IndexOutOfBounds
    ensures r.Success? ==> |r.value| == size
    ensures r.Success? ==> forall i :: 0 <= i < size ==> r.value[i] == region[i]
  {
    Slice(region, 0, size)
  }

  /** The price record seen through the view. */
  function LoadPriceAccount(region: Region): (r: Result<PriceAccount>)
    ensures r.Success? <==> |region| >= PRICE_ACCOUNT_SIZE
    ensures r.Failure? ==> r.error == IndexOutOfBounds
    ensures r.Success? ==> EncodePriceAccount(r.value) == region[..PRICE_ACCOUNT_SIZE]
  {
    var bytes :- LoadAccountAsMut(region, PRICE_ACCOUNT_SIZE);
    PriceAccountImageRoundTrip(bytes);
    Success(DecodePriceAccount(bytes))
  }

  /** Field writes through the view: the record's image replaces the viewed bytes. */
  function StorePriceAccount(region: Region, p: PriceAccount): (r: Region)
    requires |region| >= PRICE_ACCOUNT_SIZE
    ensures |r| == |region|
    ensures r[PRICE_ACCOUNT_SIZE..] == region[PRICE_ACCOUNT_SIZE..]
    ensures LoadPriceAccount(r) == Success(p)
  {
    var r := Splice(region, 0, EncodePriceAccount(p));
    PriceAccountRoundTrip(p);
    PriceAccountImageInjective(LoadPriceAccount(r).value, p);
    r
  }

  /** Storing back the record just loaded leaves the region as it was. */
  lemma StoreLoadedPrice(region: Region)
    requires |region| >= PRICE_ACCOUNT_SIZE
    ensures StorePriceAccount(region, LoadPriceAccount(region).value) == region
  {
    var r := StorePriceAccount(region, LoadPriceAccount(region).value);
    assert r[..PRICE_ACCOUNT_SIZE] == region[..PRICE_ACCOUNT_SIZE];
    assert r == r[..PRICE_ACCOUNT_SIZE] + r[PRICE_ACCOUNT_SIZE..];
    assert region == region[..PRICE_ACCOUNT_SIZE] + region[PRICE_ACCOUNT_SIZE..];
  }

  /** Two stores in a row leave only the second record. */
  lemma StorePriceTwice(region: Region, p: PriceAccount, q: PriceAccount)
    requires |region| >= PRICE_ACCOUNT_SIZE
    ensures StorePriceAccount(StorePriceAccount(region, p), q) == StorePriceAccount(region, q)
  {
    SpliceTwice(region, 0, EncodePriceAccount(p), EncodePriceAccount(q));
  }

  function LoadProductAccount(region: Region): (r: Result<ProductAccount>)
    ensures r.Success? <==> |region| >= PROD_ACCT_SIZE
    ensures r.Failure? ==> r.error == IndexOutOfBounds
    ensures r.Success? ==> EncodeProductAccount(r.value) == region[..PROD_ACCT_SIZE]
  {
    var bytes :- LoadAccountAsMut(region, PROD_ACCT_SIZE);
    ProductAccountImageRoundTrip(bytes);
    Success(DecodeProductAccount(bytes))
  }

  function StoreProductAccount(region: Region, q: ProductAccount): (r: Region)
    requires |region| >= PROD_ACCT_SIZE
    ensures |r| == |region|
    ensures r[PROD_ACCT_SIZE..] == region[PROD_ACCT_SIZE..]
    ensures LoadProductAccount(r) == Success(q)
  {
    var r := Splice(region, 0, EncodeProductAccount(q));
    ProductAccountRoundTrip(q);
    ProductAccountRoundTrip(LoadProductAccount(r).value);
    r
  }

  // ---------------------------------------------------------------------
  // init_pyth
  // ---------------------------------------------------------------------

  /** The key of the attribute pair, ASCII `quote_currency`. */
  const QUOTE_CURRENCY_KEY: seq<byte> :=
    [0x71, 0x75, 0x6f, 0x74, 0x65, 0x5f, 0x63, 0x75, 0x72, 0x72, 0x65, 0x6e, 0x63, 0x79]

  /** `QUOTE_CURRENCY`: ASCII `USD` null-padded to 32 bytes. */
  const QUOTE_CURRENCY: seq<byte> := [0x55, 0x53, 0x44] + Zeros(29)

  /** One product attribute: a key and its value. */
  datatype Attr = Attr(key: seq<byte>, value: seq<byte>)

  /** `len() as u8`: a length truncated to one byte. */
  function LenAsU8(s: seq<byte>): (b: byte)
    ensures |s| < 256 ==> b == |s|
  {
    |s| % 256
  }

  /** A key/value pair as the product record stores it: each part after its length byte. */
  function EncodeAttr(a: Attr): (b: seq<byte>)
    ensures |b| == 2 + |a.key| + |a.value|
  {
    [LenAsU8(a.key)] + a.key + [LenAsU8(a.value)] + a.value
  }

  /** The pairs one after another; every pair takes at least its two length bytes. */
  function EncodeAttrs(attrs: seq<Attr>): (b: seq<byte>)
    ensures |b| >= 2 * |attrs|
    ensures |b| == 0 <==> |attrs| == 0
    ensures |attrs| > 0 ==>
      |EncodeAttr(attrs[0])| <= |b| && b[..|EncodeAttr(attrs[0])|] == EncodeAttr(attrs[0])
  {
    if |attrs| == 0 then [] else EncodeAttr(attrs[0]) + EncodeAttrs(attrs[1..])
  }

  /** Reads length-prefixed pairs until the end of the block or a zero key
      length, which marks the zero-filled tail; `None` when a length runs past
      the end of the block. */
  function DecodeAttrs(b: seq<byte>): (r: Option<seq<Attr>>)
    decreases |b|
  {
    if |b| == 0 || b[0] == 0 then Some([])
    else
      var kl: nat := b[0];
      if |b| < kl + 2 then None
      else
        var vl: nat := b[kl + 1];
        if |b| < kl + vl + 2 then None
        else
          match DecodeAttrs(b[kl + vl + 2..])
          case None => None
          case Some(more) => Some([Attr(b[1..kl + 1], b[kl + 2..kl + vl + 2])] + more)
  }

  /** A pair the encoder writes faithfully and the decoder can tell from padding. */
  predicate Encodable(a: Attr)
  {
    0 < |a.key| < 256 && |a.value| < 256
  }

  /** One encodable pair in front of more bytes decodes as the pair, then whatever the rest decodes as. */
  lemma DecodeAttrStep(a: Attr, more: seq<byte>)
    requires Encodable(a)
    ensures DecodeAttrs(EncodeAttr(a) + more) ==
      match DecodeAttrs(more)
      case None => None
      case Some(rest) => Some([a] + rest)
  {
    var kl := |a.key|;
    var vl := |a.value|;
    var tail := [LenAsU8(a.value)] + (a.value + more);
    var b := [LenAsU8(a.key)] + (a.key + tail);
    assert EncodeAttr(a) + more == b;
    assert b[0] == kl;
    assert b[1..] == a.key + tail;
    assert b[1..kl + 1] == a.key;
    assert b[kl + 1..] == tail;
    assert b[kl + 1] == vl;
    assert b[kl + 2..] == a.value + more;
    assert b[kl + 2..kl + vl + 2] == a.value;
    assert b[kl + vl + 2..] == more;
  }

  /** Decoding the encoded pairs, followed by zero padding, gives the pairs back. */
  lemma {:induction false} DecodeEncodeAttrs(attrs: seq<Attr>, padding: nat)
    requires forall i :: 0 <= i < |attrs| ==> Encodable(attrs[i])
    ensures DecodeAttrs(EncodeAttrs(attrs) + Zeros(padding)) == Some(attrs)
  {
    if |attrs| == 0 {
      assert EncodeAttrs(attrs) + Zeros(padding) == Zeros(padding);
    } else {
      var more := EncodeAttrs(attrs[1..]) + Zeros(padding);
      assert EncodeAttrs(attrs) + Zeros(padding) == EncodeAttr(attrs[0]) + more;
      DecodeEncodeAttrs(attrs[1..], padding);
      DecodeAttrStep(attrs[0], more);
      assert [attrs[0]] + attrs[1..] == attrs;
    }
  }

  /** The attribute block `init_pyth` builds: the `quote_currency` pair copied
      into the front of a zeroed `PROD_ATTR_SIZE` buffer. */
  function QuoteCurrencyAttrs(): (b: AttrBlock)
    ensures b[..48] == EncodeAttrs([Attr(QUOTE_CURRENCY_KEY, QUOTE_CURRENCY)])
    ensures b[48..] == Zeros(PROD_ATTR_SIZE - 48)
  {
    var attr := EncodeAttr(Attr(QUOTE_CURRENCY_KEY, QUOTE_CURRENCY));
    Splice(Zeros(PROD_ATTR_SIZE), 0, attr)
  }

  /** The block byte by byte: 14, `quote_currency`, 32, `USD`, then zeros to the end. */
  lemma QuoteCurrencyAttrsBytes()
    ensures |QuoteCurrencyAttrs()| == 464
    ensures QuoteCurrencyAttrs()[0] == 14
    ensures QuoteCurrencyAttrs()[1..15] ==
      [0x71, 0x75, 0x6f, 0x74, 0x65, 0x5f, 0x63, 0x75, 0x72, 0x72, 0x65, 0x6e, 0x63, 0x79]
    ensures QuoteCurrencyAttrs()[15] == 32
    ensures QuoteCurrencyAttrs()[16..19] == [0x55, 0x53, 0x44]
    ensures forall i :: 19 <= i < 464 ==> QuoteCurrencyAttrs()[i] == 0
  {
    var b := QuoteCurrencyAttrs();
    var attr := EncodeAttr(Attr(QUOTE_CURRENCY_KEY, QUOTE_CURRENCY));
    assert attr == [14] + QUOTE_CURRENCY_KEY + [32] + QUOTE_CURRENCY;
    assert b[..48] == attr;
    assert b[1..15] == attr[1..15] == QUOTE_CURRENCY_KEY;
    assert b[16..48] == QUOTE_CURRENCY;
    assert b[16..19] == QUOTE_CURRENCY[..3];
    forall i | 19 <= i < 464 ensures b[i] == 0 {
      if i < 48 {
        assert b[i] == QUOTE_CURRENCY[i - 16];
      }
    }
  }

  /** Read back, the block holds exactly the one pair (`quote_currency`, `USD`). */
  lemma QuoteCurrencyAttrsDecode()
    ensures DecodeAttrs(QuoteCurrencyAttrs()) == Some([Attr(QUOTE_CURRENCY_KEY, QUOTE_CURRENCY)])
  {
    var pair := Attr(QUOTE_CURRENCY_KEY, QUOTE_CURRENCY);
    var attr := EncodeAttr(pair);
    assert EncodeAttrs([pair]) == attr by {
      assert [pair][1..] == [];
    }
    assert QuoteCurrencyAttrs() == attr + Zeros(PROD_ATTR_SIZE - |attr|);
    DecodeEncodeAttrs([pair], PROD_ATTR_SIZE - |attr|);
  }

  /** The header fields `init_pyth` stamps on the price record. */
  predicate PriceHeaderStamped(p: PriceAccount)
  {
    && p.magic == MAGIC
    && p.ver == VERSION_2
    && p.atype == ACCOUNT_TYPE_PRICE
    && p.size as int == PRICE_ACCOUNT_SIZE
    && p.ptype == PRICE_TYPE_PRICE
  }

  /** `p` and `q` agree on everything but the stamped header fields. */
  predicate SameOutsidePriceHeader(p: PriceAccount, q: PriceAccount)
  {
    p.(magic := q.magic, ver := q.ver, atype := q.atype, size := q.size, ptype := q.ptype) == q
  }

  function StampPriceHeader(p: PriceAccount): (q: PriceAccount)
    ensures PriceHeaderStamped(q)
    ensures SameOutsidePriceHeader(p, q)
  {
    p.(magic := MAGIC, ver := VERSION_2, atype := ACCOUNT_TYPE_PRICE,
       size := PRICE_ACCOUNT_SIZE as u32, ptype := PRICE_TYPE_PRICE)
  }

  /** The product record `init_pyth` writes: every field is set, so it does not
      depend on the record that was there before. */
  function StampProduct(priceKey: Pubkey): (q: ProductAccount)
    ensures q.magic == MAGIC && q.ver == VERSION_2
    ensures q.atype == ACCOUNT_TYPE_PRODUCT && q.size as int == PROD_ACCT_SIZE
    ensures q.pxAcc == priceKey
    ensures q.attr == QuoteCurrencyAttrs()
    ensures DecodeAttrs(q.attr) == Some([Attr(QUOTE_CURRENCY_KEY, QUOTE_CURRENCY)])
  {
    QuoteCurrencyAttrsDecode();
    ProductAccount(MAGIC, VERSION_2, ACCOUNT_TYPE_PRODUCT, PROD_ACCT_SIZE as u32, priceKey, QuoteCurrencyAttrs())
  }

  datatype PythAccounts = PythAccounts(price: Region, product: Region)

  /** `init_pyth`: stamps the price record's header and writes a complete product
      record that points at the price account's key. */
  function InitPyth(priceRegion: Region, productRegion: Region, priceKey: Pubkey): (r: Result<PythAccounts>)
    ensures r.Success? <==> |priceRegion| >= PRICE_ACCOUNT_SIZE && |productRegion| >= PROD_ACCT_SIZE
    ensures r.Failure? ==> r.error == IndexOutOfBounds
    ensures r.Success? ==>
      && |r.value.price| == |priceRegion|
      && r.value.price[PRICE_ACCOUNT_SIZE..] == priceRegion[PRICE_ACCOUNT_SIZE..]
      && LoadPriceAccount(r.value.price).Success?
      && PriceHeaderStamped(LoadPriceAccount(r.value.price).value)
      && SameOutsidePriceHeader(LoadPriceAccount(priceRegion).value, LoadPriceAccount(r.value.price).value)
    ensures r.Success? ==>
      && |r.value.product| == |productRegion|
      && r.value.product[PROD_ACCT_SIZE..] == productRegion[PROD_ACCT_SIZE..]
      && LoadProductAccount(r.value.product).Success?
      && var q := LoadProductAccount(r.value.product).value;
         && q.magic == MAGIC && q.ver == VERSION_2 && q.atype == ACCOUNT_TYPE_PRODUCT
         && q.size as int == PROD_ACCT_SIZE && q.pxAcc == priceKey && q.attr == QuoteCurrencyAttrs()
  {
    var price :- LoadPriceAccount(priceRegion);
    var priceRegion' := StorePriceAccount(priceRegion, StampPriceHeader(price));
    var product :- LoadProductAccount(productRegion);
    var productRegion' := StoreProductAccount(productRegion, StampProduct(priceKey));
    Success(PythAccounts(priceRegion', productRegion'))
  }

  /** Running `init_pyth` a second time changes nothing. */
  lemma InitPythIdempotent(priceRegion: Region, productRegion: Region, priceKey: Pubkey)
    requires InitPyth(priceRegion, productRegion, priceKey).Success?
    ensures var once := InitPyth(priceRegion, productRegion, priceKey).value;
            InitPyth(once.price, once.product, priceKey) == Success(once)
  {
    var once := InitPyth(priceRegion, productRegion, priceKey).value;
    var p := LoadPriceAccount(priceRegion).value;
    assert once.price == StorePriceAccount(priceRegion, StampPriceHeader(p));
    assert StampPriceHeader(StampPriceHeader(p)) == StampPriceHeader(p);
    StorePriceTwice(priceRegion, StampPriceHeader(p), StampPriceHeader(p));
    SpliceTwice(productRegion, 0, EncodeProductAccount(StampProduct(priceKey)), EncodeProductAccount(StampProduct(priceKey)));
  }

  // ---------------------------------------------------------------------
  // set_pyth_price
  // ---------------------------------------------------------------------

  /** The arguments of `set_pyth_price`, with the clock's slot. */
  datatype PythPriceUpdate = PythPriceUpdate(price: i64, conf: u64, expo: i32, emaPrice: i64, emaConf: u64, slot: u64)

  /** `p` and `q` agree on everything `set_pyth_price` does not write. */
  predicate SameOutsidePriceUpdate(p: PriceAccount, q: PriceAccount)
  {
    p.(expo := q.expo, emaPrice := q.emaPrice, emaConf := q.emaConf, lastSlot := q.lastSlot,
       agg := p.agg.(price := q.agg.price, conf := q.agg.conf, pubSlot := q.agg.pubSlot, status := q.agg.status)) == q
  }

  /** The fields `set_pyth_price` writes hold the update's values. */
  predicate ShowsPriceUpdate(q: PriceAccount, u: PythPriceUpdate)
  {
    && q.agg.price == u.price
    && q.agg.conf == u.conf
    && q.expo == u.expo
    && q.emaPrice == Rational(u.emaPrice, 1, 1)
    && q.emaConf.val == U64AsI64(u.emaConf) && q.emaConf.numer == 1 && q.emaConf.denom == 1
    && q.lastSlot == u.slot
    && q.agg.pubSlot == u.slot
    && q.agg.status == PRICE_STATUS_TRADING
  }

  function ApplyPriceUpdate(p: PriceAccount, u: PythPriceUpdate): (q: PriceAccount)
    ensures ShowsPriceUpdate(q, u)
    ensures SameOutsidePriceUpdate(p, q)
  {
    p.(agg := p.agg.(price := u.price, conf := u.conf, pubSlot := u.slot, status := PRICE_STATUS_TRADING),
       expo := u.expo,
       emaPrice := Rational(u.emaPrice, 1, 1),
       emaConf := Rational(U64AsI64(u.emaConf), 1, 1),
       lastSlot := u.slot)
  }

  /** `set_pyth_price`: writes the price, confidence, exponent, both EMA rationals,
      both slots and the Trading status; every other byte stays. */
  function SetPythPrice(region: Region, u: PythPriceUpdate): (r: Result<Region>)
    ensures r.Success? <==> |region| >= PRICE_ACCOUNT_SIZE
    ensures r.Failure? ==> r.error == IndexOutOfBounds
    ensures r.Success? ==>
      && |r.value| == |region|
      && r.value[PRICE_ACCOUNT_SIZE..] == region[PRICE_ACCOUNT_SIZE..]
      && LoadPriceAccount(r.value).Success?
      && ShowsPriceUpdate(LoadPriceAccount(r.value).value, u)
      && SameOutsidePriceUpdate(LoadPriceAccount(region).value, LoadPriceAccount(r.value).value)
  {
    var price :- LoadPriceAccount(region);
    Success(StorePriceAccount(region, ApplyPriceUpdate(price, u)))
  }

  /** A later `set_pyth_price` replaces an earlier one entirely: the result
      depends only on the last update, so repeating an update changes nothing. */
  lemma SetPythPriceOverwrites(region: Region, u1: PythPriceUpdate, u2: PythPriceUpdate)
    requires |region| >= PRICE_ACCOUNT_SIZE
    ensures SetPythPrice(SetPythPrice(region, u1).value, u2) == SetPythPrice(region, u2)
  {
    var p := LoadPriceAccount(region).value;
    var q := ApplyPriceUpdate(p, u1);
    assert ApplyPriceUpdate(q, u2) == ApplyPriceUpdate(p, u2);
    StorePriceTwice(region, q, ApplyPriceUpdate(p, u2));
  }

  lemma SetPythPriceIdempotent(region: Region, u: PythPriceUpdate)
    requires |region| >= PRICE_ACCOUNT_SIZE
    ensures SetPythPrice(SetPythPrice(region, u).value, u) == SetPythPrice(region, u)
  {
    SetPythPriceOverwrites(region, u, u);
  }

  /** `ema_conf as i64` wraps: a confidence of 2^63 or more is stored as a negative value. */
  lemma SetPythPriceEmaConfWraps(region: Region, u: PythPriceUpdate)
    requires |region| >= PRICE_ACCOUNT_SIZE
    ensures LoadPriceAccount(SetPythPrice(region, u).value).value.emaConf.val
         == if u.emaConf >= TWO_63 then u.emaConf - TWO_64 else u.emaConf
  {
  }

  /** `set_pyth_price` applied to each update in turn. */
  function SetPythPrices(region: Region, us: seq<PythPriceUpdate>): (r: Result<Region>)
    ensures r.Success? <==> |us| == 0 || |region| >= PRICE_ACCOUNT_SIZE
    ensures r.Success? ==> |r.value| == |region|
    ensures r.Success? && |region| >= PRICE_ACCOUNT_SIZE ==>
              r.value[PRICE_ACCOUNT_SIZE..] == region[PRICE_ACCOUNT_SIZE..]
    decreases |us|
  {
    if |us| == 0 then Success(region)
    else
      var next :- SetPythPrice(region, us[0]);
      SetPythPrices(next, us[1..])
  }

  /** The fields only `init_pyth` writes survive any number of price updates. */
  lemma {:induction false} PriceHeaderSurvivesUpdates(region: Region, us: seq<PythPriceUpdate>)
    requires |region| >= PRICE_ACCOUNT_SIZE
    ensures SetPythPrices(region, us).Success?
    ensures var p := LoadPriceAccount(region).value;
            var q := LoadPriceAccount(SetPythPrices(region, us).value).value;
            q.magic == p.magic && q.ver == p.ver && q.atype == p.atype && q.size == p.size && q.ptype == p.ptype
    decreases |us|
  {
    if |us| > 0 {
      var next := SetPythPrice(region, us[0]).value;
      var p := LoadPriceAccount(region).value;
      var q := LoadPriceAccount(next).value;
      assert SameOutsidePriceUpdate(p, q);
      assert q.magic == p.magic && q.ver == p.ver && q.atype == p.atype && q.size == p.size && q.ptype == p.ptype;
      PriceHeaderSurvivesUpdates(next, us[1..]);
      assert SetPythPrices(region, us) == SetPythPrices(next, us[1..]);
    }
  }

  /** The SDK's scenario for Pyth: `init_pyth` on freshly created accounts, then
      `set_pyth_price` with price 10 and every other argument at its default of
      0, then again with price 20; each time the record reads back the price
      just set, at exponent 0, with the stamped header intact. */
  lemma PythPriceScenario(priceRegion: Region, productRegion: Region, priceKey: Pubkey, slot1: u64, slot2: u64)
    requires |priceRegion| == PRICE_ACCOUNT_SIZE && |productRegion| == PROD_ACCT_SIZE
    ensures InitPyth(priceRegion, productRegion, priceKey).Success?
    ensures var init := InitPyth(priceRegion, productRegion, priceKey).value;
            var first := SetPythPrice(init.price, PythPriceUpdate(10, 0, 0, 0, 0, slot1));
            && first.Success?
            && var p := LoadPriceAccount(first.value).value;
               && p.agg.price == 10 && p.expo == 0 && p.agg.status == PRICE_STATUS_TRADING
               && PriceHeaderStamped(p)
               && var second := SetPythPrice(first.value, PythPriceUpdate(20, 0, 0, 0, 0, slot2));
                  && second.Success?
                  && LoadPriceAccount(second.value).value.agg.price == 20
                  && PriceHeaderStamped(LoadPriceAccount(second.value).value)
  {
  }

  // ---------------------------------------------------------------------
  // init_switchboard and set_switchboard_price
  // ---------------------------------------------------------------------

  /** `init_switchboard`: copies the discriminator into bytes [0, 8). */
  function InitSwitchboard(region: Region): (r: Result<Region>)
    ensures r.Success? <==> |region| >= DISCRIMINATOR_SIZE
    ensures r.Failure? ==> r.error == IndexOutOfBounds
    ensures r.Success? ==> |r.value| == |region|
    ensures r.Success? ==> r.value[..DISCRIMINATOR_SIZE] == [217, 230, 65, 101, 201, 162, 27, 125]
    ensures r.Success? ==> r.value[DISCRIMINATOR_SIZE..] == region[DISCRIMINATOR_SIZE..]
  {
    CopyFromSlice(region, 0, DISCRIMINATOR_SIZE, AGGREGATOR_DISCRIMINATOR)
  }

  /** The aggregator record viewed through bytes [8, 8 + size_of::<AggregatorAccountData>()). */
  function LoadAggregator(region: Region): (r: Result<AggregatorAccountData>)
    ensures r.Success? <==> |region| >= SWITCHBOARD_ACCOUNT_SIZE
    ensures r.Failure? ==> r.error == IndexOutOfBounds
    ensures r.Success? ==> EncodeAggregator(r.value) == region[DISCRIMINATOR_SIZE..SWITCHBOARD_ACCOUNT_SIZE]
  {
    var bytes :- Slice(region, DISCRIMINATOR_SIZE, DISCRIMINATOR_SIZE + AGGREGATOR_DATA_SIZE);
    AggregatorImageRoundTrip(bytes);
    Success(DecodeAggregator(bytes))
  }

  function StoreAggregator(region: Region, a: AggregatorAccountData): (r: Region)
    requires |region| >= SWITCHBOARD_ACCOUNT_SIZE
    ensures |r| == |region|
    ensures r[..DISCRIMINATOR_SIZE] == region[..DISCRIMINATOR_SIZE]
    ensures r[SWITCHBOARD_ACCOUNT_SIZE..] == region[SWITCHBOARD_ACCOUNT_SIZE..]
    ensures LoadAggregator(r) == Success(a)
  {
    var r := Splice(region, DISCRIMINATOR_SIZE, EncodeAggregator(a));
    AggregatorImageInjective(LoadAggregator(r).value, a);
    r
  }

  /** The arguments of `set_switchboard_price`, with the clock's slot. */
  datatype SwitchboardPriceUpdate = SwitchboardPriceUpdate(price: i64, expo: i32, slot: u64)

  /** The fields `set_switchboard_price` writes hold the update's values. */
  predicate ShowsSwitchboardUpdate(a: AggregatorAccountData, u: SwitchboardPriceUpdate)
  {
    && a.minOracleResults == 1
    && a.latestConfirmedRound.numSuccess == 1
    && a.latestConfirmedRound.result.mantissa == u.price
    && a.latestConfirmedRound.result.scale == I32AsU32(u.expo)
    && a.latestConfirmedRound.roundOpenSlot == u.slot
  }

  function ApplySwitchboardUpdate(a: AggregatorAccountData, u: SwitchboardPriceUpdate): (b: AggregatorAccountData)
    ensures ShowsSwitchboardUpdate(b, u)
    ensures b.rest == a.rest
  {
    a.(minOracleResults := 1,
       latestConfirmedRound := a.latestConfirmedRound.(
         numSuccess := 1,
         result := SwitchboardDecimal(I64AsI128(u.price), I32AsU32(u.expo)),
         roundOpenSlot := u.slot))
  }

  /** `set_switchboard_price`: rewrites the minimum result count and the
      confirmed round's success count, result and opening slot together. */
  function SetSwitchboardPrice(region: Region, u: SwitchboardPriceUpdate): (r: Result<Region>)
    ensures r.Success? <==> |region| >= DISCRIMINATOR_SIZE + AGGREGATOR_DATA_SIZE
    ensures r.Failure? ==> r.error == IndexOutOfBounds
    ensures r.Success? ==>
      && |r.value| == |region|
      && r.value[..DISCRIMINATOR_SIZE] == region[..DISCRIMINATOR_SIZE]
      && r.value[SWITCHBOARD_ACCOUNT_SIZE..] == region[SWITCHBOARD_ACCOUNT_SIZE..]
      && LoadAggregator(r.value).Success?
      && ShowsSwitchboardUpdate(LoadAggregator(r.value).value, u)
      && LoadAggregator(r.value).value.rest == LoadAggregator(region).value.rest
  {
    var a :- LoadAggregator(region);
    Success(StoreAggregator(region, ApplySwitchboardUpdate(a, u)))
  }

  /** The second of two updates decides the result alone: nothing of the first remains. */
  lemma SetSwitchboardPriceOverwrites(region: Region, u1: SwitchboardPriceUpdate, u2: SwitchboardPriceUpdate)
    requires |region| >= SWITCHBOARD_ACCOUNT_SIZE
    ensures SetSwitchboardPrice(SetSwitchboardPrice(region, u1).value, u2) == SetSwitchboardPrice(region, u2)
  {
    var a := LoadAggregator(region).value;
    var b := ApplySwitchboardUpdate(a, u1);
    assert ApplySwitchboardUpdate(b, u2) == ApplySwitchboardUpdate(a, u2);
    SpliceTwice(region, DISCRIMINATOR_SIZE, EncodeAggregator(b), EncodeAggregator(ApplySwitchboardUpdate(a, u2)));
  }

  /** The mantissa's bytes are the price's eight bytes followed by eight copies of its sign byte. */
  lemma SwitchboardMantissaImage(region: Region, u: SwitchboardPriceUpdate)
    requires |region| >= SWITCHBOARD_ACCOUNT_SIZE
    ensures EncodeI128(LoadAggregator(SetSwitchboardPrice(region, u).value).value.latestConfirmedRound.result.mantissa)
         == EncodeLE(I64AsU64(u.price), 8) + Fill(8, if u.price < 0 then 0xFF else 0x00)
  {
    SignExtensionImage(u.price);
  }

  /** `expo as u32` wraps: a negative exponent is stored as 2^32 + expo. */
  lemma SwitchboardScaleWraps(region: Region, u: SwitchboardPriceUpdate)
    requires |region| >= SWITCHBOARD_ACCOUNT_SIZE
    ensures LoadAggregator(SetSwitchboardPrice(region, u).value).value.latestConfirmedRound.result.scale
         == if u.expo < 0 then TWO_32 + u.expo else u.expo
  {
  }

  /** The SDK's scenario for Switchboard: `init_switchboard` on a freshly created
      account, then `set_switchboard_price` with 10, with 20, and with the SDK's
      default of -1, all at exponent 0; each time the confirmed round reads back
      the price just set, and the discriminator stays in place. */
  lemma SwitchboardPriceScenario(region: Region, slot1: u64, slot2: u64, slot3: u64)
    requires |region| == SWITCHBOARD_ACCOUNT_SIZE
    ensures InitSwitchboard(region).Success?
    ensures var first := SetSwitchboardPrice(InitSwitchboard(region).value, SwitchboardPriceUpdate(10, 0, slot1));
            && first.Success?
            && LoadAggregator(first.value).value.latestConfirmedRound.result == SwitchboardDecimal(10, 0)
            && var second := SetSwitchboardPrice(first.value, SwitchboardPriceUpdate(20, 0, slot2));
               && second.Success?
               && LoadAggregator(second.value).value.latestConfirmedRound.result == SwitchboardDecimal(20, 0)
               && var third := SetSwitchboardPrice(second.value, SwitchboardPriceUpdate(-1, 0, slot3));
                  && third.Success?
                  && third.value[..DISCRIMINATOR_SIZE] == AGGREGATOR_DISCRIMINATOR
                  && LoadAggregator(third.value).value.latestConfirmedRound.result == SwitchboardDecimal(-1, 0)
  {
  }
}
