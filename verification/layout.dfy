/** Runs of equal-width little-endian words. A record's integer fields are laid
    out as such runs; every bit pattern of the right length decodes to words and
    back, which is what makes the zero-copy reinterpretation of an account's
    bytes a bijection. */
module Layout {

  import opened Bytes

  /** Every word fits in w bytes. */
  predicate FitIn(w: nat, vs: seq<nat>)
  {
    forall i :: 0 <= i < |vs| ==> vs[i] < Pow256(w)
  }

  /** The words one after another, each as its w-byte little-endian image. */
  function EncodeWords(w: nat, vs: seq<nat>): (b: seq<byte>)
    requires FitIn(w, vs)
    ensures |b| == w * |vs|
  {
    if |vs| == 0 then []
    else
      assert FitIn(w, vs[1..]) by {
        forall i | 0 <= i < |vs| - 1 ensures vs[1..][i] < Pow256(w) {
          assert vs[1..][i] == vs[i + 1];
        }
      }
      EncodeLE(vs[0], w) + EncodeWords(w, vs[1..])
  }

  /** The n words of width w that the bytes hold. */
  function DecodeWords(w: nat, n: nat, b: seq<byte>): (vs: seq<nat>)
    requires |b| == w * n
    ensures |vs| == n
    ensures FitIn(w, vs)
  {
    if n == 0 then []
    else
      MulStep(w, n);
      var tail := DecodeWords(w, n - 1, b[w..]);
      var vs := [DecodeLE(b[..w])] + tail;
      assert forall i :: 0 < i < |vs| ==> vs[i] == tail[i - 1];
      vs
  }

  lemma {:induction false} DecodeEncodeWords(w: nat, vs: seq<nat>)
    requires FitIn(w, vs)
    ensures DecodeWords(w, |vs|, EncodeWords(w, vs)) == vs
  {
    if |vs| > 0 {
      var b := EncodeWords(w, vs);
      assert FitIn(w, vs[1..]) by {
        forall i | 0 <= i < |vs| - 1 ensures vs[1..][i] < Pow256(w) {
          assert vs[1..][i] == vs[i + 1];
        }
      }
      assert b[..w] == EncodeLE(vs[0], w);
      assert b[w..] == EncodeWords(w, vs[1..]);
      DecodeEncodeLE(vs[0], w);
      DecodeEncodeWords(w, vs[1..]);
    }
  }

  /** A sequence is its three consecutive pieces put back together. */
  lemma SplitThree<T>(s: seq<T>, i: nat, j: nat)
    requires i <= j <= |s|
    ensures s == s[..i] + s[i..j] + s[j..]
  {
  }

  lemma MulStep(w: nat, n: nat)
    requires n > 0
    ensures w * n == w + w * (n - 1)
  {
  }

  lemma {:induction false} EncodeDecodeWords(w: nat, n: nat, b: seq<byte>)
    requires |b| == w * n
    ensures EncodeWords(w, DecodeWords(w, n, b)) == b
  {
    if n > 0 {
      MulStep(w, n);
      var head := b[..w];
      var tail := b[w..];
      var vs := DecodeWords(w, n, b);
      assert vs == [DecodeLE(head)] + DecodeWords(w, n - 1, tail);
      assert vs[1..] == DecodeWords(w, n - 1, tail);
      assert EncodeLE(vs[0], w) == head by { EncodeDecodeLE(head); }
      assert EncodeWords(w, vs[1..]) == tail by { EncodeDecodeWords(w, n - 1, tail); }
      assert EncodeWords(w, vs) == EncodeLE(vs[0], w) + EncodeWords(w, vs[1..]);
      assert b == head + tail;
    }
  }

  /** A run of zero words is all zero bytes. */
  lemma {:induction false} EncodeWordsZeros(w: nat, vs: seq<nat>)
    requires forall i :: 0 <= i < |vs| ==> vs[i] == 0
    ensures FitIn(w, vs)
    ensures EncodeWords(w, vs) == Zeros(w * |vs|)
  {
    if |vs| > 0 {
      assert forall i :: 0 <= i < |vs| - 1 ==> vs[1..][i] == vs[i + 1];
      EncodeWordsZeros(w, vs[1..]);
      EncodeLEZero(w);
      MulStep(w, |vs|);
      assert Zeros(w) + Zeros(w * (|vs| - 1)) == Zeros(w * |vs|);
    }
  }

  // Typed runs: the word bounds come from the element type.

  function EncodeU32s(vs: seq<u32>): (b: seq<byte>)
    ensures |b| == 4 * |vs|
  {
    Pow256Widths();
    EncodeWords(4, vs)
  }

  function DecodeU32s(n: nat, b: seq<byte>): (vs: seq<u32>)
    requires |b| == 4 * n
    ensures |vs| == n
  {
    Pow256Widths();
    var ws := DecodeWords(4, n, b);
    seq(n, i requires 0 <= i < n => ws[i] as u32)
  }

  function EncodeU64s(vs: seq<u64>): (b: seq<byte>)
    ensures |b| == 8 * |vs|
  {
    Pow256Widths();
    EncodeWords(8, vs)
  }

  function DecodeU64s(n: nat, b: seq<byte>): (vs: seq<u64>)
    requires |b| == 8 * n
    ensures |vs| == n
  {
    Pow256Widths();
    var ws := DecodeWords(8, n, b);
    seq(n, i requires 0 <= i < n => ws[i] as u64)
  }

  lemma U32sDecodeEncode(vs: seq<u32>)
    ensures DecodeU32s(|vs|, EncodeU32s(vs)) == vs
  {
    Pow256Widths();
    DecodeEncodeWords(4, vs);
  }

  lemma U32sEncodeDecode(b: seq<byte>)
    requires |b| % 4 == 0
    ensures EncodeU32s(DecodeU32s(|b| / 4, b)) == b
  {
    Pow256Widths();
    EncodeDecodeWords(4, |b| / 4, b);
    assert DecodeU32s(|b| / 4, b) == DecodeWords(4, |b| / 4, b);
  }

  lemma U64sDecodeEncode(vs: seq<u64>)
    ensures DecodeU64s(|vs|, EncodeU64s(vs)) == vs
  {
    Pow256Widths();
    DecodeEncodeWords(8, vs);
  }

  lemma U64sEncodeDecode(b: seq<byte>)
    requires |b| % 8 == 0
    ensures EncodeU64s(DecodeU64s(|b| / 8, b)) == b
  {
    Pow256Widths();
    EncodeDecodeWords(8, |b| / 8, b);
    assert DecodeU64s(|b| / 8, b) == DecodeWords(8, |b| / 8, b);
  }

  lemma U32sZeros(vs: seq<u32>)
    requires forall i :: 0 <= i < |vs| ==> vs[i] == 0
    ensures EncodeU32s(vs) == Zeros(4 * |vs|)
  {
    EncodeWordsZeros(4, vs);
  }

  lemma U64sZeros(vs: seq<u64>)
    requires forall i :: 0 <= i < |vs| ==> vs[i] == 0
    ensures EncodeU64s(vs) == Zeros(8 * |vs|)
  {
    EncodeWordsZeros(8, vs);
  }
}
