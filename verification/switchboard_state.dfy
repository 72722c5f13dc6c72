/** The Switchboard v2 aggregator account, as far as the mock touches it. The
    account starts with an 8-byte discriminator; the `AggregatorAccountData`
    record follows it. The record keeps the fields the mock writes and carries
    every other byte in an opaque `rest` block. The crate that defines the real
    record is not part of this model, so the field order is a stand-in: the
    four-byte words, then the 16-byte mantissa, then the slot, then `rest`. */
module SwitchboardState {

  import opened Bytes
  import opened Layout

  /** The tag that identifies an aggregator account to generic readers. */
  const AGGREGATOR_DISCRIMINATOR: seq<byte> := [217, 230, 65, 101, 201, 162, 27, 125]
  const DISCRIMINATOR_SIZE: nat := 8

  /** Length of an aggregator account: the discriminator and the record. */
  const SWITCHBOARD_ACCOUNT_SIZE: nat := 3851
  /** `size_of::<AggregatorAccountData>()`. */
  const AGGREGATOR_DATA_SIZE: nat := SWITCHBOARD_ACCOUNT_SIZE - DISCRIMINATOR_SIZE

  const AGGREGATOR_FIELDS_SIZE: nat := 4 * 3 + 16 + 8
  const AGGREGATOR_REST_SIZE: nat := AGGREGATOR_DATA_SIZE - AGGREGATOR_FIELDS_SIZE

  type AggregatorRest = s: seq<byte> | |s| == AGGREGATOR_REST_SIZE witness Zeros(AGGREGATOR_REST_SIZE)

  /** A decimal `mantissa * 10^(-scale)`. */
  datatype SwitchboardDecimal = SwitchboardDecimal(mantissa: i128, scale: u32)

  /** The fields of `latest_confirmed_round` that the mock writes; the round's
      other fields lie in the record's `rest`. */
  datatype AggregatorRound = AggregatorRound(numSuccess: u32, result: SwitchboardDecimal, roundOpenSlot: u64)

  datatype AggregatorAccountData = AggregatorAccountData(
    minOracleResults: u32,
    latestConfirmedRound: AggregatorRound,
    rest: AggregatorRest)

  /** The 16-byte little-endian two's-complement image of an i128. */
  function EncodeI128(x: i128): (b: seq<byte>)
    ensures |b| == 16
  {
    Pow256Widths();
    EncodeLE(I128AsU128(x), 16)
  }

  function DecodeI128(b: seq<byte>): (x: i128)
    requires |b| == 16
  {
    Pow256Widths();
    U128AsI128(DecodeLE(b))
  }

  lemma I128DecodeEncode(x: i128)
    ensures DecodeI128(EncodeI128(x)) == x
  {
    Pow256Widths();
    DecodeEncodeLE(I128AsU128(x), 16);
    I128AsU128RoundTrip(x);
  }

  lemma I128EncodeDecode(b: seq<byte>)
    requires |b| == 16
    ensures EncodeI128(DecodeI128(b)) == b
  {
    Pow256Widths();
    U128AsI128RoundTrip(DecodeLE(b));
    EncodeDecodeLE(b);
  }

  function AggregatorU32s(a: AggregatorAccountData): seq<u32>
  {
    [a.minOracleResults, a.latestConfirmedRound.numSuccess, a.latestConfirmedRound.result.scale]
  }

  /** The image of the fields the record names: the four-byte words, the
      mantissa, the slot. */
  function EncodeAggregatorHead(a: AggregatorAccountData): (h: seq<byte>)
    ensures |h| == AGGREGATOR_FIELDS_SIZE
  {
    EncodeU32s(AggregatorU32s(a))
      + EncodeI128(a.latestConfirmedRound.result.mantissa)
      + EncodeU64s([a.latestConfirmedRound.roundOpenSlot])
  }

  /** The record whose named fields the head image holds and whose other bytes are `rest`. */
  function DecodeAggregatorHead(h: seq<byte>, rest: AggregatorRest): (a: AggregatorAccountData)
    requires |h| == AGGREGATOR_FIELDS_SIZE
    ensures a.rest == rest
  {
    var w := DecodeU32s(3, h[..12]);
    var m := DecodeI128(h[12..28]);
    var d := DecodeU64s(1, h[28..]);
    AggregatorAccountData(w[0], AggregatorRound(w[1], SwitchboardDecimal(m, w[2]), d[0]), rest)
  }

  lemma AggregatorHeadRoundTrip(a: AggregatorAccountData)
    ensures DecodeAggregatorHead(EncodeAggregatorHead(a), a.rest) == a
  {
    var r := a.latestConfirmedRound;
    var w := EncodeU32s(AggregatorU32s(a));
    var m := EncodeI128(r.result.mantissa);
    var d := EncodeU64s([r.roundOpenSlot]);
    var h := EncodeAggregatorHead(a);
    assert h[..12] == w && h[12..28] == m && h[28..] == d;
    U32sDecodeEncode(AggregatorU32s(a));
    U64sDecodeEncode([r.roundOpenSlot]);
    I128DecodeEncode(r.result.mantissa);
  }

  lemma AggregatorHeadWordsImage(h: seq<byte>, rest: AggregatorRest)
    requires |h| == AGGREGATOR_FIELDS_SIZE
    ensures EncodeU32s(AggregatorU32s(DecodeAggregatorHead(h, rest))) == h[..12]
  {
    var w := DecodeU32s(3, h[..12]);
    assert AggregatorU32s(DecodeAggregatorHead(h, rest)) == w;
    U32sEncodeDecode(h[..12]);
  }

  lemma AggregatorHeadMantissaImage(h: seq<byte>, rest: AggregatorRest)
    requires |h| == AGGREGATOR_FIELDS_SIZE
    ensures EncodeI128(DecodeAggregatorHead(h, rest).latestConfirmedRound.result.mantissa) == h[12..28]
  {
    I128EncodeDecode(h[12..28]);
  }

  lemma AggregatorHeadSlotImage(h: seq<byte>, rest: AggregatorRest)
    requires |h| == AGGREGATOR_FIELDS_SIZE
    ensures EncodeU64s([DecodeAggregatorHead(h, rest).latestConfirmedRound.roundOpenSlot]) == h[28..]
  {
    var d := DecodeU64s(1, h[28..]);
    assert [DecodeAggregatorHead(h, rest).latestConfirmedRound.roundOpenSlot] == d;
    U64sEncodeDecode(h[28..]);
  }

  lemma AggregatorHeadImageRoundTrip(h: seq<byte>, rest: AggregatorRest)
    requires |h| == AGGREGATOR_FIELDS_SIZE
    ensures EncodeAggregatorHead(DecodeAggregatorHead(h, rest)) == h
  {
    var a := DecodeAggregatorHead(h, rest);
    var w := EncodeU32s(AggregatorU32s(a));
    var m := EncodeI128(a.latestConfirmedRound.result.mantissa);
    var d := EncodeU64s([a.latestConfirmedRound.roundOpenSlot]);
    assert w == h[..12] by { AggregatorHeadWordsImage(h, rest); }
    assert m == h[12..28] by { AggregatorHeadMantissaImage(h, rest); }
    assert d == h[28..] by { AggregatorHeadSlotImage(h, rest); }
    assert EncodeAggregatorHead(a) == w + m + d;
    SplitThree(h, 12, 28);
  }

  /** The byte image of the record (without the discriminator). */
  function EncodeAggregator(a: AggregatorAccountData): (b: seq<byte>)
    ensures |b| == AGGREGATOR_DATA_SIZE
    ensures b[AGGREGATOR_FIELDS_SIZE..] == a.rest
  {
    EncodeAggregatorHead(a) + a.rest
  }

  /** The record an image of `size_of::<AggregatorAccountData>()` bytes reads as. */
  function DecodeAggregator(b: seq<byte>): (a: AggregatorAccountData)
    requires |b| == AGGREGATOR_DATA_SIZE
    ensures a.rest == b[AGGREGATOR_FIELDS_SIZE..]
  {
    DecodeAggregatorHead(b[..AGGREGATOR_FIELDS_SIZE], b[AGGREGATOR_FIELDS_SIZE..])
  }

  lemma AggregatorRoundTrip(a: AggregatorAccountData)
    ensures DecodeAggregator(EncodeAggregator(a)) == a
  {
    var b := EncodeAggregator(a);
    assert b[..AGGREGATOR_FIELDS_SIZE] == EncodeAggregatorHead(a);
    AggregatorHeadRoundTrip(a);
  }

  lemma AggregatorImageRoundTrip(b: seq<byte>)
    requires |b| == AGGREGATOR_DATA_SIZE
    ensures EncodeAggregator(DecodeAggregator(b)) == b
  {
    AggregatorHeadImageRoundTrip(b[..AGGREGATOR_FIELDS_SIZE], b[AGGREGATOR_FIELDS_SIZE..]);
    assert b == b[..AGGREGATOR_FIELDS_SIZE] + b[AGGREGATOR_FIELDS_SIZE..];
  }

  /** Two aggregator records with the same image are the same record. */
  lemma AggregatorImageInjective(a: AggregatorAccountData, c: AggregatorAccountData)
    requires EncodeAggregator(a) == EncodeAggregator(c)
    ensures a == c
  {
    AggregatorRoundTrip(a);
    AggregatorRoundTrip(c);
  }
}
