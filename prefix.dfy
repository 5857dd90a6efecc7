/** CIDR prefix matching, shared by both address families (RFC 4632): an
    address is a sequence of w-bit parts, most significant first (four 8-bit
    octets, or eight 16-bit groups), and two addresses match on a prefix of n
    bits when the top n bits of their big-endian values agree. */
module Prefix {

  import opened Arith

  /** The low w bits of x, most significant first. */
  function Bits(x: nat, w: nat): (r: seq<bool>)
    ensures |r| == w
  {
    if w == 0 then [] else Bits(x / 2, w - 1) + [x % 2 == 1]
  }

  /** The number a bit string denotes, most significant bit first. */
  function BitsValue(bs: seq<bool>): (r: nat)
    ensures r < Pow2(|bs|)
  {
    if bs == [] then 0
    else 2 * BitsValue(bs[..|bs| - 1]) + (if bs[|bs| - 1] then 1 else 0)
  }

  predicate PartsFit(parts: seq<nat>, w: nat) {
    forall i :: 0 <= i < |parts| ==> parts[i] < Pow2(w)
  }

  /** The big-endian value of parts of w bits each. */
  function Value(parts: seq<nat>, w: nat): nat
  {
    if parts == [] then 0 else Value(parts[..|parts| - 1], w) * Pow2(w) + parts[|parts| - 1]
  }

  /** The bits of parts of w bits each, concatenated in order. */
  function PartsBits(parts: seq<nat>, w: nat): (r: seq<bool>)
    ensures |r| == w * |parts|
  {
    if parts == [] then []
    else PartsBits(parts[..|parts| - 1], w) + Bits(parts[|parts| - 1], w)
  }

  /** Part-by-part comparison: the first part is compared on its top
      min(w, n) bits by shifting away the others, and the rest of the address
      on the n - w bits that remain. A prefix of 0 (or less) always matches;
      one beyond the width compares the whole address. */
  function MatchParts(a: seq<nat>, b: seq<nat>, w: nat, n: int): bool
    requires |a| == |b|
  {
    if n <= 0 || a == [] then true
    else
      var shift := if w - n < 0 then 0 else w - n;
      a[0] / Pow2(shift) == b[0] / Pow2(shift) && MatchParts(a[1..], b[1..], w, n - w)
  }

  /** Reading the bits back gives the number. */
  lemma {:induction false} BitsRoundTrip(x: nat, w: nat)
    requires x < Pow2(w)
    ensures BitsValue(Bits(x, w)) == x
  {
    if w > 0 {
      BitsRoundTrip(x / 2, w - 1);
      var bs := Bits(x, w);
      assert bs[..|bs| - 1] == Bits(x / 2, w - 1);
    }
  }

  lemma BitsInjective(x: nat, y: nat, w: nat)
    requires x < Pow2(w) && y < Pow2(w)
    ensures Bits(x, w) == Bits(y, w) <==> x == y
  {
    BitsRoundTrip(x, w);
    BitsRoundTrip(y, w);
  }

  /** The bits of hi * 2^k + lo are those of hi followed by those of lo. */
  lemma {:induction false} BitsConcat(hi: nat, lo: nat, m: nat, k: nat)
    requires lo < Pow2(k)
    ensures Bits(hi * Pow2(k) + lo, m + k) == Bits(hi, m) + Bits(lo, k)
  {
    if k > 0 {
      var h := hi * Pow2(k - 1);
      var x := hi * Pow2(k) + lo;
      assert x == 2 * h + lo;
      assert x / 2 == h + lo / 2 && x % 2 == lo % 2;
      BitsConcat(hi, lo / 2, m, k - 1);
    }
  }

  /** The top n of W bits of x are the bits of x shifted right by W - n. */
  lemma {:induction false} BitsPrefix(x: nat, wd: nat, n: nat)
    requires n <= wd
    ensures Bits(x, wd)[..n] == Bits(x / Pow2(wd - n), n)
  {
    if n < wd {
      BitsPrefix(x / 2, wd - 1, n);
      DivDiv(x, 2, Pow2(wd - 1 - n));
    }
  }

  /** Two numbers of W bits agree on their top n bits exactly when they are
      equal once shifted right by W - n. */
  lemma TopBitsEqual(x: nat, y: nat, wd: nat, n: nat)
    requires x < Pow2(wd) && y < Pow2(wd) && n <= wd
    ensures Bits(x, wd)[..n] == Bits(y, wd)[..n] <==> x / Pow2(wd - n) == y / Pow2(wd - n)
  {
    DivNat(x, Pow2(wd - n));
    DivNat(y, Pow2(wd - n));
    var qx, qy := x / Pow2(wd - n), y / Pow2(wd - n);
    BitsPrefix(x, wd, n);
    BitsPrefix(y, wd, n);
    TopBitsBound(x, wd, n);
    TopBitsBound(y, wd, n);
    BitsInjective(qx, qy, n);
  }

  /** Shifting a number of W bits right by W - n leaves fewer than n bits. */
  lemma {:induction false} TopBitsBound(x: nat, wd: nat, n: nat)
    requires x < Pow2(wd) && n <= wd
    ensures x / Pow2(wd - n) < Pow2(n)
  {
    var p, d := Pow2(n), Pow2(wd - n);
    Pow2Add(n, wd - n);
    assert n + (wd - n) == wd;
    DivBound(x, p, d);
  }

  lemma {:induction false} ValueBound(parts: seq<nat>, w: nat)
    requires PartsFit(parts, w)
    ensures Value(parts, w) < Pow2(w * |parts|)
  {
    if parts != [] {
      var init, last := parts[..|parts| - 1], parts[|parts| - 1];
      ValueBound(init, w);
      MulAddBound(Value(init, w), Pow2(w), Pow2(w * |init|), last);
      MulSucc(w, |init|);
      Pow2Add(w * |init|, w);
    }
  }

  /** The bits of the parts are the bits of the value they denote. */
  lemma {:induction false} PartsBitsValue(parts: seq<nat>, w: nat)
    requires PartsFit(parts, w)
    ensures PartsBits(parts, w) == Bits(Value(parts, w), w * |parts|)
  {
    if parts != [] {
      var init, last := parts[..|parts| - 1], parts[|parts| - 1];
      PartsBitsValue(init, w);
      MulSucc(w, |init|);
      BitsConcat(Value(init, w), last, w * |init|, w);
    }
  }

  lemma {:induction false} PartsBitsFront(parts: seq<nat>, w: nat)
    requires |parts| >= 1
    ensures PartsBits(parts, w) == Bits(parts[0], w) + PartsBits(parts[1..], w)
  {
    if |parts| > 1 {
      var init := parts[..|parts| - 1];
      PartsBitsFront(init, w);
      assert init[1..] == parts[1..][..|parts| - 2];
    }
  }

  lemma SplitConcat<T>(x1: seq<T>, x2: seq<T>, y1: seq<T>, y2: seq<T>)
    requires |x1| == |y1|
    ensures x1 + x2 == y1 + y2 <==> x1 == y1 && x2 == y2
  {
    if x1 + x2 == y1 + y2 {
      assert x1 == (x1 + x2)[..|x1|] && y1 == (y1 + y2)[..|x1|];
      assert x2 == (x1 + x2)[|x1|..] && y2 == (y1 + y2)[|x1|..];
    }
  }

  /** The part-by-part comparison is equality of the first n bits. */
  lemma {:induction false} MatchPartsBits(a: seq<nat>, b: seq<nat>, w: nat, n: nat)
    requires |a| == |b| && PartsFit(a, w) && PartsFit(b, w)
    requires n <= w * |a|
    ensures MatchParts(a, b, w, n) <==> PartsBits(a, w)[..n] == PartsBits(b, w)[..n]
  {
    if n > 0 {
      assert a != [];
      PartsBitsFront(a, w);
      PartsBitsFront(b, w);
      var ra, rb := PartsBits(a[1..], w), PartsBits(b[1..], w);
      if n <= w {
        assert PartsBits(a, w)[..n] == Bits(a[0], w)[..n];
        assert PartsBits(b, w)[..n] == Bits(b[0], w)[..n];
        TopBitsEqual(a[0], b[0], w, n);
      } else {
        assert PartsBits(a, w)[..n] == Bits(a[0], w) + ra[..n - w];
        assert PartsBits(b, w)[..n] == Bits(b[0], w) + rb[..n - w];
        SplitConcat(Bits(a[0], w), ra[..n - w], Bits(b[0], w), rb[..n - w]);
        BitsInjective(a[0], b[0], w);
        MulSucc(w, |a[1..]|);
        MatchPartsBits(a[1..], b[1..], w, n - w);
      }
    }
  }

  /** The part-by-part comparison is equality of the two values once the
      low (W - n) bits are shifted out, W being the width of the address. */
  lemma MatchPartsValue(a: seq<nat>, b: seq<nat>, w: nat, n: nat)
    requires |a| == |b| && PartsFit(a, w) && PartsFit(b, w)
    requires n <= w * |a|
    ensures MatchParts(a, b, w, n) <==>
      Value(a, w) / Pow2(w * |a| - n) == Value(b, w) / Pow2(w * |a| - n)
  {
    MatchPartsBits(a, b, w, n);
    PartsBitsValue(a, w);
    PartsBitsValue(b, w);
    ValueBound(a, w);
    ValueBound(b, w);
    TopBitsEqual(Value(a, w), Value(b, w), w * |a|, n);
  }

  /** A prefix as long as the address (or longer) demands equality. */
  lemma {:induction false} MatchPartsFull(a: seq<nat>, b: seq<nat>, w: nat, n: int)
    requires |a| == |b| && w >= 1 && n >= w * |a|
    ensures MatchParts(a, b, w, n) <==> a == b
  {
    if a != [] {
      MulSucc(w, |a[1..]|);
      MatchPartsFull(a[1..], b[1..], w, n - w);
      assert a == [a[0]] + a[1..] && b == [b[0]] + b[1..];
    }
  }

  /** Matching on a prefix implies matching on every shorter prefix. */
  lemma {:induction false} MatchPartsShorter(a: seq<nat>, b: seq<nat>, w: nat, m: int, n: int)
    requires |a| == |b| && m <= n && MatchParts(a, b, w, n)
    ensures MatchParts(a, b, w, m)
  {
    if m > 0 && a != [] {
      var sn := if w - n < 0 then 0 else w - n;
      var sm := if w - m < 0 then 0 else w - m;
      Pow2Add(sn, sm - sn);
      DivDiv(a[0], Pow2(sn), Pow2(sm - sn));
      DivDiv(b[0], Pow2(sn), Pow2(sm - sn));
      MatchPartsShorter(a[1..], b[1..], w, m - w, n - w);
    }
  }
}
