/** Byte strings as the storage layer handles them: clamped slices, big-endian numbers, pieces of a stream. */
module ByteStrings {

  type Byte = b: int | 0 <= b < 256
  type Bytes = seq<Byte>

  datatype Option<+T> = None | Some(value: T)

  function Min(a: int, b: int): (r: int) { if a < b then a else b }

  function Max(a: int, b: int): (r: int) { if a < b then b else a }

  /** A slice whose bounds may lie beyond the end, as in Python for non-negative bounds. */
  function Slice<T>(s: seq<T>, lo: int, hi: int): (r: seq<T>)
  {
    var from := Max(0, Min(lo, |s|));
    var to := Max(0, Min(hi, |s|));
    if from <= to then s[from..to] else []
  }

  lemma SliceLengths<T>(s: seq<T>, lo: nat, hi: nat)
    ensures lo <= hi ==> |Slice(s, lo, hi)| == Max(0, Min(hi, |s|) - lo)
    ensures hi <= lo || |s| <= lo ==> Slice(s, lo, hi) == []
  {
  }

  lemma SliceAt<T>(s: seq<T>, lo: nat, hi: nat, i: nat)
    requires i < |Slice(s, lo, hi)|
    ensures lo + i < |s| && Slice(s, lo, hi)[i] == s[lo + i]
  {
  }

  /** A slice cut at m is its two parts. */
  lemma SliceSplit<T>(s: seq<T>, lo: int, m: int, hi: int)
    requires 0 <= lo <= m <= hi
    ensures Slice(s, lo, hi) == Slice(s, lo, m) + Slice(s, m, hi)
  {
  }

  lemma SliceClip<T>(s: seq<T>, lo: nat, hi: nat)
    ensures Slice(s, lo, Min(|s|, hi)) == Slice(s, lo, hi)
  {
  }

  /** A prefix of a slice from the start that has its length is that part of the whole. */
  lemma PrefixOfLength<T>(s: seq<T>, part: seq<T>, hi: nat)
    requires part <= Slice(s, 0, hi) && |part| == hi
    ensures hi <= |s| && part == s[..hi]
  {
  }

  lemma SliceCut<T>(s: seq<T>, lo: nat, m: nat, hi: nat)
    requires lo <= m && lo <= hi
    ensures var part, all := Slice(s, lo, Min(m, hi)), Slice(s, lo, hi);
            part <= all && (|s| < m || hi <= m ==> part == all) && all == part + Slice(s, m, hi)
  {
    if |s| < m || hi <= m {
      SliceLengths(s, m, hi);
    } else {
      SliceSplit(s, lo, m, hi);
    }
  }

  /** A slice of a slice, in the coordinates of the whole. */
  lemma SliceOfSlice<T>(s: seq<T>, lo: int, hi: int, from: int, to: int)
    requires 0 <= lo <= hi && 0 <= from <= to
    ensures Slice(Slice(s, lo, hi), from, to) == Slice(s, lo + from, Min(hi, lo + to))
  {
    hide Slice;
    var inner := Slice(s, lo, hi);
    var a, b := Slice(inner, from, to), Slice(s, lo + from, Min(hi, lo + to));
    SliceLengths(s, lo, hi);
    SliceLengths(inner, from, to);
    SliceLengths(s, lo + from, Min(hi, lo + to));
    assert |a| == |b|;
    forall i | 0 <= i < |a| ensures a[i] == b[i] {
      SliceAt(inner, from, to, i);
      SliceAt(s, lo, hi, from + i);
      SliceAt(s, lo + from, Min(hi, lo + to), i);
    }
  }

  /** A slice that starts in the second part of a concatenation. */
  lemma SliceOfTail<T>(a: seq<T>, b: seq<T>, lo: nat, hi: nat)
    requires |a| <= lo <= hi
    ensures Slice(a + b, lo, hi) == Slice(b, lo - |a|, hi - |a|)
  {
  }

  /** A slice that reaches just to the end of the first part, or beyond an empty second part. */
  lemma SliceOfHead<T>(a: seq<T>, b: seq<T>, hi: nat)
    requires hi == |a| || (b == [] && |a| <= hi)
    ensures Slice(a + b, 0, hi) == a
  {
  }

  predicate StartsWith<T(==)>(s: seq<T>, prefix: seq<T>) {
    |prefix| <= |s| && s[..|prefix|] == prefix
  }

  // ---- pieces of a stream ----

  function Flatten(pieces: seq<Bytes>): (bytes: Bytes) {
    if pieces == [] then [] else pieces[0] + Flatten(pieces[1..])
  }

  lemma {:induction false} FlattenConcat(a: seq<Bytes>, b: seq<Bytes>)
    ensures Flatten(a + b) == Flatten(a) + Flatten(b)
  {
    if a == [] {
      assert a + b == b;
    } else {
      assert (a + b)[1..] == a[1..] + b;
      FlattenConcat(a[1..], b);
    }
  }

  // ---- big-endian numbers ----

  function Pow256(width: nat): (p: nat)
    ensures p > 0
  {
    if width == 0 then 1 else 256 * Pow256(width - 1)
  }

  lemma Pow256Values()
    ensures Pow256(4) == 0x1_0000_0000
    ensures Pow256(8) == 0x1_0000_0000_0000_0000
  {
    assert Pow256(1) == 256;
    assert Pow256(2) == 0x1_0000;
    assert Pow256(3) == 0x100_0000;
    assert Pow256(4) == 0x1_0000_0000;
    assert Pow256(5) == 0x100_0000_0000;
    assert Pow256(6) == 0x1_0000_0000_0000;
    assert Pow256(7) == 0x100_0000_0000_0000;
  }

  /** `int.to_bytes(width, "big")` where it does not overflow. */
  function ToBig(n: nat, width: nat): (s: Bytes)
    ensures |s| == width
  {
    if width == 0 then [] else ToBig(n / 256, width - 1) + [n % 256]
  }

  /** `int.from_bytes(s, "big")`. */
  function FromBig(s: Bytes): (n: nat) {
    if s == [] then 0 else 256 * FromBig(s[..|s| - 1]) + s[|s| - 1]
  }

  lemma {:induction false} BigRoundTrip(n: nat, width: nat)
    requires n < Pow256(width)
    ensures FromBig(ToBig(n, width)) == n
  {
    if width > 0 {
      var s := ToBig(n, width);
      assert s[..|s| - 1] == ToBig(n / 256, width - 1);
      BigRoundTrip(n / 256, width - 1);
    }
  }

  lemma {:induction false} FromBigBound(s: Bytes)
    ensures FromBig(s) < Pow256(|s|)
    ensures ToBig(FromBig(s), |s|) == s
  {
    if s != [] {
      FromBigBound(s[..|s| - 1]);
      assert s == s[..|s| - 1] + [s[|s| - 1]];
    }
  }
}
