/** IPv6 addresses (Press\Utils\IPAddr\IPv6): a value of eight 16-bit groups
    (or sixteen bytes folded pairwise), the text form of section 2.2 of
    RFC 4291 (hexadecimal groups, one "::" standing for a run of zero groups,
    an optional dotted IPv4 tail), the uncompressed and the canonical
    renderings (the latter after section 4.2 of RFC 5952) and CIDR matching. */
module IPv6 {

  import opened Wrappers
  import opened Text
  import Prefix
  import IPv4

  /** An IPv6 address: its groups, most significant first. */
  datatype Address = Address(parts: seq<int>)

  predicate IsGroup(x: int) {
    0 <= x <= 0xffff
  }

  /** Every address the library hands out has eight groups in [0, 0xffff]. */
  predicate Valid(a: Address) {
    |a.parts| == 8 && forall i :: 0 <= i < 8 ==> IsGroup(a.parts[i])
  }

  /** Pairs of bytes read as 16-bit groups, high byte first. */
  function FoldBytes(bytes: seq<int>): (r: seq<int>)
    requires |bytes| % 2 == 0
    ensures |r| == |bytes| / 2
    ensures forall i :: 0 <= i < |r| ==> r[i] == bytes[2 * i] * 256 + bytes[2 * i + 1]
  {
    if bytes == [] then []
    else
      var rest := FoldBytes(bytes[2..]);
      assert forall k :: 0 <= k < |rest| ==>
        bytes[2..][2 * k] == bytes[2 * (k + 1)] && bytes[2..][2 * k + 1] == bytes[2 * (k + 1) + 1];
      [bytes[0] * 256 + bytes[1]] + rest
  }

  /** new IPv6(parts): eight groups in [0, 0xffff], or sixteen bytes in
      [0, 0xff] that are folded into eight groups; anything else is refused. */
  function FromParts(s: seq<int>): (r: Option<Address>)
    ensures r.Some? <==>
      || (|s| == 8 && forall i :: 0 <= i < 8 ==> 0 <= s[i] <= 0xffff)
      || (|s| == 16 && forall i :: 0 <= i < 16 ==> 0 <= s[i] <= 0xff)
    ensures r.Some? ==> Valid(r.value)
    ensures r.Some? && |s| == 8 ==> r.value.parts == s
    ensures r.Some? && |s| == 16 ==> r.value.parts == FoldBytes(s)
  {
    if |s| == 8 && forall i :: 0 <= i < 8 ==> 0 <= s[i] <= 0xffff then Some(Address(s))
    else if |s| == 16 && forall i :: 0 <= i < 16 ==> 0 <= s[i] <= 0xff then
      var r := FoldBytes(s);
      assert forall i :: 0 <= i < 8 ==> IsGroup(r[i]) by {
        forall i | 0 <= i < 8
          ensures IsGroup(r[i])
        {
          assert 0 <= s[2 * i] <= 0xff && 0 <= s[2 * i + 1] <= 0xff;
        }
      }
      Some(Address(r))
    else None
  }

  // ---------------------------------------------------------------- rendering

  /** Each group as a lower-case hexadecimal numeral without leading zeros. */
  function HexGroups(ps: seq<nat>): (r: seq<string>)
    ensures |r| == |ps|
    ensures forall i :: 0 <= i < |ps| ==> r[i] == ToDigits(ps[i], 16)
  {
    if ps == [] then [] else [ToDigits(ps[0], 16)] + HexGroups(ps[1..])
  }

  /** toNormalizedString(): all eight groups, joined by colons. */
  function ToNormalizedString(a: Address): (r: string)
    requires Valid(a)
    ensures Split(r, ':') == HexGroups(a.parts)
    ensures NoDoubleColon(r)
  {
    var fs := HexGroups(a.parts);
    assert forall i, j :: 0 <= i < |fs| && 0 <= j < |fs[i]| ==> IsHexDigit(fs[i][j]);
    SplitJoin(fs, ':');
    JoinNoDoubleSep(fs, ':');
    Join(fs, ':')
  }

  /** The number of consecutive zero groups from index i on: the run ends at
      the end or at a non-zero group. */
  function ZeroRunAt(ps: seq<int>, i: nat): (r: nat)
    requires i <= |ps|
    ensures i + r <= |ps|
    ensures i + r == |ps| || ps[i + r] != 0
    decreases |ps| - i
  {
    if i < |ps| && ps[i] == 0 then 1 + ZeroRunAt(ps, i + 1) else 0
  }

  /** Every group of the run ZeroRunAt(ps, i) counts is zero. */
  lemma {:induction false} ZeroRunSpec(ps: seq<int>, i: nat)
    requires i <= |ps|
    ensures forall j :: i <= j < i + ZeroRunAt(ps, i) ==> ps[j] == 0
    decreases |ps| - i
  {
    if i < |ps| && ps[i] == 0 {
      ZeroRunSpec(ps, i + 1);
    }
  }

  /** The longest run of zero groups that starts at index i or later, as
      (start, length); of equally long runs the earliest. */
  function LongestZeroRun(ps: seq<int>, i: nat): (r: (nat, nat))
    requires i <= |ps|
    ensures i <= r.0 <= |ps| && r.1 == ZeroRunAt(ps, r.0)
    decreases |ps| - i
  {
    if i == |ps| then (i, 0)
    else
      var here := ZeroRunAt(ps, i);
      var later := LongestZeroRun(ps, i + 1);
      if here >= later.1 then (i, here) else later
  }

  /** The run LongestZeroRun(ps, i) names is no shorter than any run from i
      on, and every run before it is strictly shorter. */
  lemma {:induction false} LongestZeroRunFrom(ps: seq<int>, i: nat)
    requires i <= |ps|
    ensures var (s, l) := LongestZeroRun(ps, i);
      && (forall j :: i <= j <= |ps| ==> ZeroRunAt(ps, j) <= l)
      && (forall j :: i <= j < s ==> ZeroRunAt(ps, j) < l)
    decreases |ps| - i
  {
    if i < |ps| {
      LongestZeroRunFrom(ps, i + 1);
    }
  }

  /** toString(): the canonical text. The longest run of two or more zero
      groups (the first of equally long ones) becomes "::"; without such a
      run this is the normalized text. */
  function ToString(a: Address): (r: string)
    requires Valid(a)
    ensures r == ToNormalizedString(a) <==> forall j :: 0 <= j < 7 ==> !(a.parts[j] == 0 && a.parts[j + 1] == 0)
  {
    var (s, l) := LongestZeroRun(a.parts, 0);
    AdjacentZeros(a.parts);
    if l < 2 then ToNormalizedString(a)
    else
      var ps: seq<nat> := a.parts;
      var h, t := Join(HexGroups(ps[..s]), ':'), Join(HexGroups(ps[s + l..]), ':');
      CompressedIsNotNormalized(h, t, ToNormalizedString(a));
      h + "::" + t
  }

  /** A text with "::" in it is no text without one. */
  lemma CompressedIsNotNormalized(h: string, t: string, n: string)
    requires NoDoubleColon(n)
    ensures h + "::" + t != n
  {
    assert (h + "::" + t)[|h|] == ':' && (h + "::" + t)[|h| + 1] == ':';
  }

  /** Two adjacent zero groups exist exactly when the longest zero run has
      two or more groups. */
  lemma AdjacentZeros(ps: seq<int>)
    ensures (exists j :: 0 <= j < |ps| - 1 && ps[j] == 0 && ps[j + 1] == 0) <==>
      LongestZeroRun(ps, 0).1 >= 2
  {
    var (s, l) := LongestZeroRun(ps, 0);
    if exists j :: 0 <= j < |ps| - 1 && ps[j] == 0 && ps[j + 1] == 0 {
      var j :| 0 <= j < |ps| - 1 && ps[j] == 0 && ps[j + 1] == 0;
      assert ZeroRunAt(ps, j) == 1 + ZeroRunAt(ps, j + 1);
      assert ZeroRunAt(ps, j + 1) == 1 + ZeroRunAt(ps, j + 2);
      LongestZeroRunFrom(ps, 0);
    }
    if l >= 2 {
      ZeroRunSpec(ps, s);
      assert ps[s] == 0 && ps[s + 1] == 0;
    }
  }

  // ------------------------------------------------------------------ parsing

  /** The position of the first "::" in s, if there is one. */
  function FindDoubleColon(s: string): (r: Option<nat>)
    ensures r.Some? ==> r.value + 1 < |s| && s[r.value] == ':' && s[r.value + 1] == ':'
  {
    if |s| < 2 then None
    else if s[0] == ':' && s[1] == ':' then Some(0)
    else
      match FindDoubleColon(s[1..])
      case None => None
      case Some(k) => Some(k + 1)
  }

  /** s holds no "::". */
  predicate NoDoubleColon(s: string) {
    forall i :: 0 <= i < |s| - 1 ==> !(s[i] == ':' && s[i + 1] == ':')
  }

  /** A field of one or more hexadecimal digits, upper or lower case, of any
      length: how wide the value is, is checked only after expansion. */
  function HexField(f: string): Option<nat>
  {
    if |f| >= 1 && AllDigits(f, 16) then Some(DigitsValue(f, 16)) else None
  }

  /** The values of all fields, or None as soon as one is not hexadecimal. */
  function HexFields(fs: seq<string>): Option<seq<nat>>
  {
    if fs == [] then Some([])
    else
      match (HexField(fs[0]), HexFields(fs[1..]))
      case (Some(v), Some(vs)) => Some([v] + vs)
      case _ => None
  }

  /** The two 16-bit groups four octets make: the first two octets and the
      last two, each pair big-endian. */
  function EmbeddedGroups(o: seq<int>): seq<nat>
    requires IPv4.ValidOctets(o)
  {
    [o[0] * 256 + o[1], o[2] * 256 + o[3]]
  }

  /** A dotted IPv4 tail: exactly four IPv4 numerals (decimal, octal or
      hexadecimal), each worth at most 255, read as two groups. With four
      groups this is the IPv4 reading of the field. */
  function IPv4Tail(f: string): (r: Option<seq<nat>>)
    ensures r.Some? <==> |Split(f, '.')| == 4 && IPv4.Parse(f).Some?
    ensures r.Some? ==> r.value == EmbeddedGroups(IPv4.Parse(f).value.octets)
  {
    var gs := Split(f, '.');
    if |gs| != 4 then None
    else
      match IPv4.GroupValues(gs)
      case None => None
      case Some(os) => if IPv4.ValidOctets(os) then Some(EmbeddedGroups(os)) else None
  }

  /** The groups of a colon-separated section; the empty text is no group.
      When the section ends the address, its last field may be an IPv4 tail. */
  function Section(s: string, last: bool): Option<seq<nat>>
  {
    if s == [] then Some([])
    else
      var fs := Split(s, ':');
      if last && '.' in fs[|fs| - 1] then
        match (HexFields(fs[..|fs| - 1]), IPv4Tail(fs[|fs| - 1]))
        case (Some(h), Some(t)) => Some(h + t)
        case _ => None
      else HexFields(fs)
  }

  function Zeros(n: nat): (r: seq<nat>)
    ensures |r| == n && forall i :: 0 <= i < n ==> r[i] == 0
  {
    if n == 0 then [] else [0] + Zeros(n - 1)
  }

  /** The groups before and after "::" with the zero groups "::" stands for
      in between: as many as the explicit groups leave to eight, which may be
      none; more than eight explicit groups are refused. */
  function Fill(h: seq<nat>, t: seq<nat>): Option<seq<nat>>
  {
    if |h| + |t| <= 8 then Some(h + Zeros(8 - |h| - |t|) + t) else None
  }

  /** The groups around the first "::": the head holds plain groups, and the
      rest holds no second "::" and may end in an IPv4 tail. */
  function Around(head: string, rest: string): Option<seq<nat>>
  {
    var h, t := Section(head, false), Section(rest, true);
    if FindDoubleColon(rest).Some? || h.None? || t.None? then None else Fill(h.value, t.value)
  }

  /** The lenient reading: at most one "::", expanded to the zero groups it
      stands for; without "::", two or more fields. Group values are not yet
      bounded by 0xffff, and without "::" the number of groups is not yet
      checked. */
  function Expand(text: string): (r: Option<seq<nat>>)
    ensures r.Some? && FindDoubleColon(text).Some? ==> |r.value| == 8
  {
    match FindDoubleColon(text)
    case None => if |Split(text, ':')| >= 2 then Section(text, true) else None
    case Some(i) => if i + 2 > |text| then None else Around(text[..i], text[i + 2..])
  }

  /** isIPv6(text): the text has the shape of an IPv6 address. */
  predicate IsIPv6(text: string): (r: bool)
    ensures r ==> ':' in text
  {
    if ':' in text then Expand(text).Some?
    else SplitWithoutSep(text, ':'); Expand(text).Some?
  }

  /** Every colon-separated field other than a dotted IPv4 tail has at most
      four characters: the strict reading takes groups of one to four
      hexadecimal digits, the lenient one groups of any width. */
  predicate NarrowFields(text: string) {
    var fs := Split(text, ':');
    forall i :: 0 <= i < |fs| ==> '.' in fs[i] || |fs[i]| <= 4
  }

  /** parse(text): the lenient reading, which must give eight groups in
      [0, 0xffff], each written with at most four digits. */
  function Parse(text: string): (r: Option<Address>)
    ensures r.Some? ==> Valid(r.value) && IsIPv6(text) && r.value.parts == Expand(text).value
    ensures r.Some? <==>
      (IsIPv6(text) && |Expand(text).value| == 8 &&
       (forall i :: 0 <= i < 8 ==> Expand(text).value[i] <= 0xffff) &&
       NarrowFields(text))
  {
    match Expand(text)
    case None => None
    case Some(vs) =>
      if |vs| == 8 && (forall i :: 0 <= i < 8 ==> vs[i] <= 0xffff) && NarrowFields(text)
      then Some(Address(vs)) else None
  }

  /** isValid(text): the text parses to an address. */
  predicate IsValid(text: string): (r: bool)
    ensures r ==> IsIPv6(text) && NarrowFields(text)
  {
    Parse(text).Some?
  }

  /** isValid on an argument that may be absent (null): absent is not valid. */
  predicate IsValidInput(text: Option<string>): (r: bool)
    ensures r ==> text.Some? && IsIPv6(text.value)
  {
    text.Some? && IsValid(text.value)
  }

  // -------------------------------------------------------------- CIDR match

  /** match(other, n): the two addresses agree on their top n bits. */
  function Match(a: Address, b: Address, n: int): (r: bool)
    requires Valid(a) && Valid(b)
    ensures n <= 0 ==> r
    ensures n >= 128 ==> (r <==> a == b)
  {
    if n >= 128 then Prefix.MatchPartsFull(a.parts, b.parts, 16, n); Prefix.MatchParts(a.parts, b.parts, 16, n)
    else Prefix.MatchParts(a.parts, b.parts, 16, n)
  }
}
