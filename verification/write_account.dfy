/** The write-account program: three cruder writers that put bytes into an
    account without loading a record view first. `write` lays caller bytes
    over the tail of the account, `write_pyth_price` overwrites the whole
    account with the image of a mostly zeroed Pyth price record, and
    `write_switchboard_price` writes a type tag and a serialised aggregator
    for one board type and nothing for the others. */
module WriteAccount {

  import opened Bytes
  import opened Results
  import opened Region
  import opened PythState
  import opened MockOracles

  // ---------------------------------------------------------------------
  // write
  // ---------------------------------------------------------------------

  /** `write`: `account_data[offset..].copy_from_slice(&data[..])`. The range runs to the
      end of the account, so the bytes must fill the whole tail exactly. */
  function Write(region: Region, offset: nat, data: seq<byte>): (r: Result<Region>)
    ensures r.Success? <==> offset <= |region| && |data| == |region| - offset
    ensures r.Failure? ==> r.error == (if offset <= |region| then LengthMismatch else IndexOutOfBounds)
    ensures r.Success? ==> |r.value| == |region|
    ensures r.Success? ==> r.value[..offset] == region[..offset]
    ensures r.Success? ==> r.value[offset..] == data
  {
    CopyFromSlice(region, offset, |region|, data)
  }

  /** What `write` put there reads back from the offset to the end. */
  lemma WriteReadBack(region: Region, offset: nat, data: seq<byte>)
    requires offset <= |region| && |data| == |region| - offset
    ensures Slice(Write(region, offset, data).value, offset, |region|) == Success(data)
  {
  }

  /** A second `write` at the same offset hides the first completely. */
  lemma WriteOverwrites(region: Region, offset: nat, d1: seq<byte>, d2: seq<byte>)
    requires offset <= |region| && |d1| == |region| - offset && |d2| == |d1|
    ensures Write(Write(region, offset, d1).value, offset, d2) == Write(region, offset, d2)
  {
    var once := Write(region, offset, d1).value;
    var twice := Write(once, offset, d2).value;
    var direct := Write(region, offset, d2).value;
    assert twice == twice[..offset] + twice[offset..];
    assert direct == direct[..offset] + direct[offset..];
  }

  /** `write` is idempotent: repeating it with the same arguments changes nothing more. */
  lemma WriteIdempotent(region: Region, offset: nat, data: seq<byte>)
    requires Write(region, offset, data).Success?
    ensures Write(Write(region, offset, data).value, offset, data) == Write(region, offset, data)
  {
    WriteOverwrites(region, offset, data, data);
  }

  /** Writing back the bytes a region already holds changes nothing. */
  lemma WriteSameIsNoOp(region: Region, offset: nat)
    requires offset <= |region|
    ensures Write(region, offset, region[offset..]) == Success(region)
  {
    var r := Write(region, offset, region[offset..]).value;
    assert r == r[..offset] + r[offset..];
    assert region == region[..offset] + region[offset..];
  }

  // ---------------------------------------------------------------------
  // write_pyth_price
  // ---------------------------------------------------------------------

  /** The record `write_pyth_price` builds: `std::mem::zeroed()` with the price
      type, the valid slot, the aggregate price and the exponent set. */
  function PythPriceImage(price: i64, expo: i32, slot: u64): (p: PriceAccount)
    ensures p.ptype == PRICE_TYPE_PRICE && p.validSlot == slot && p.agg.price == price && p.expo == expo
    ensures p.(ptype := 0, validSlot := 0, agg := p.agg.(price := 0), expo := 0) == ZERO_PRICE_ACCOUNT
  {
    ZERO_PRICE_ACCOUNT.(ptype := PRICE_TYPE_PRICE, validSlot := slot,
                        agg := ZERO_PRICE_ACCOUNT.agg.(price := price), expo := expo)
  }

  /** `write_pyth_price`: the record's image is copied over the whole account,
      which must be exactly one record long. */
  function WritePythPrice(region: Region, price: i64, expo: i32, slot: u64): (r: Result<Region>)
    ensures r.Success? <==> |region| == PRICE_ACCOUNT_SIZE
    ensures r.Failure? ==> r.error == LengthMismatch
    ensures r.Success? ==> r.value == EncodePriceAccount(PythPriceImage(price, expo, slot))
    ensures r.Success? ==> LoadPriceAccount(r.value) == Success(PythPriceImage(price, expo, slot))
  {
    var r :- CopyFromSlice(region, 0, |region|, EncodePriceAccount(PythPriceImage(price, expo, slot)));
    PriceAccountRoundTrip(PythPriceImage(price, expo, slot));
    assert r[..PRICE_ACCOUNT_SIZE] == r;
    Success(r)
  }

  /** The result does not depend on what the account held before. */
  lemma WritePythPriceIgnoresPrior(r1: Region, r2: Region, price: i64, expo: i32, slot: u64)
    requires |r1| == |r2|
    ensures WritePythPrice(r1, price, expo, slot) == WritePythPrice(r2, price, expo, slot)
  {
    if |r1| == PRICE_ACCOUNT_SIZE {
      var a := WritePythPrice(r1, price, expo, slot).value;
      var b := WritePythPrice(r2, price, expo, slot).value;
      assert a == a[..PRICE_ACCOUNT_SIZE] && b == b[..PRICE_ACCOUNT_SIZE];
      PriceAccountImageInjective(LoadPriceAccount(a).value, LoadPriceAccount(b).value);
      assert a == EncodePriceAccount(PythPriceImage(price, expo, slot)) == b;
    }
  }

  /** Unlike `init_pyth`, this writer leaves the header zeroed: no magic number,
      no version, no account type, and the status stays `Unknown`. */
  lemma WritePythPriceLeavesHeaderBlank(region: Region, price: i64, expo: i32, slot: u64)
    requires |region| == PRICE_ACCOUNT_SIZE
    ensures var p := LoadPriceAccount(WritePythPrice(region, price, expo, slot).value).value;
            && !PriceHeaderStamped(p)
            && p.magic == 0 && p.ver == 0 && p.atype == 0 && p.size == 0
            && p.agg.status == 0 && p.agg.conf == 0 && p.lastSlot == 0
  {
  }

  // ---------------------------------------------------------------------
  // write_switchboard_price
  // ---------------------------------------------------------------------

  /** `SwitchboardAccountType::TYPE_AGGREGATOR`, the tag of an aggregator account. */
  const TYPE_AGGREGATOR: byte := 2

  /** `serialize_into_slice(message, out)` with the serialiser's output given as
      `serialized`: it is written at the front of `out` when it fits, and the
      serialiser reports an error when it does not. */
  function SerializeIntoSlice(out: seq<byte>, serialized: seq<byte>): (r: Result<seq<byte>>)
    ensures r.Success? <==> |serialized| <= |out|
    ensures r.Failure? ==> r.error == SerializeFailed
    ensures r.Success? ==> |r.value| == |out|
    ensures r.Success? ==> r.value[..|serialized|] == serialized
    ensures r.Success? ==> r.value[|serialized|..] == out[|serialized|..]
  {
    if |serialized| <= |out| then Success(Splice(out, 0, serialized)) else Failure(SerializeFailed)
  }

  /** `write_switchboard_price`: for board type 0, byte 0 becomes the aggregator
      tag and the serialised aggregator follows from byte 1; other board types
      leave the account alone. */
  function WriteSwitchboardPrice(region: Region, boardType: byte, serialized: seq<byte>): (r: Result<Region>)
    ensures boardType != 0 ==> r == Success(region)
    ensures boardType == 0 ==>
      (r.Success? <==> 1 <= |region| && |serialized| <= |region| - 1)
    ensures boardType == 0 && r.Failure? ==>
      r.error == (if |region| == 0 then IndexOutOfBounds else SerializeFailed)
    ensures boardType == 0 && r.Success? ==>
      && |r.value| == |region|
      && r.value[0] == TYPE_AGGREGATOR
      && r.value[1..1 + |serialized|] == serialized
      && r.value[1 + |serialized|..] == region[1 + |serialized|..]
  {
    if boardType != 0 then Success(region)
    else if |region| == 0 then Failure(IndexOutOfBounds)
    else
      var tagged := region[0 := TYPE_AGGREGATOR];
      var out :- SerializeIntoSlice(tagged[1..], serialized);
      var r := [tagged[0]] + out;
      assert r[1..] == out;
      Success(r)
  }

  /** Writing the same serialised aggregator twice leaves what one write left. */
  lemma WriteSwitchboardPriceIdempotent(region: Region, boardType: byte, serialized: seq<byte>)
    requires WriteSwitchboardPrice(region, boardType, serialized).Success?
    ensures var once := WriteSwitchboardPrice(region, boardType, serialized).value;
            WriteSwitchboardPrice(once, boardType, serialized) == Success(once)
  {
    if boardType == 0 {
      var once := WriteSwitchboardPrice(region, boardType, serialized).value;
      var twice := WriteSwitchboardPrice(once, boardType, serialized).value;
      var k := 1 + |serialized|;
      assert twice == [twice[0]] + twice[1..k] + twice[k..];
      assert once == [once[0]] + once[1..k] + once[k..];
    }
  }

  /** The result depends on the old account only beyond the tag and the
      serialised bytes: two accounts that agree there end up identical. */
  lemma WriteSwitchboardPriceOverwritesFront(r1: Region, r2: Region, serialized: seq<byte>)
    requires |r1| == |r2| && 1 + |serialized| <= |r1|
    requires r1[1 + |serialized|..] == r2[1 + |serialized|..]
    ensures WriteSwitchboardPrice(r1, 0, serialized) == WriteSwitchboardPrice(r2, 0, serialized)
  {
    var a := WriteSwitchboardPrice(r1, 0, serialized).value;
    var b := WriteSwitchboardPrice(r2, 0, serialized).value;
    var k := 1 + |serialized|;
    assert a == [a[0]] + a[1..k] + a[k..];
    assert b == [b[0]] + b[1..k] + b[k..];
  }
}
