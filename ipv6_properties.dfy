/** What the IPv6 model promises: the sixteen-byte form denotes the same
    128-bit number as the eight groups, both renderings are read back by
    parse(), the canonical one compresses the longest (first) zero run, a
    second "::" is refused, an IPv4 tail supplies the last two groups, and
    match() compares the top n of the 128 bits. */
module IPv6Properties {

  import opened Wrappers
  import opened Arith
  import opened Text
  import Prefix
  import IPv4
  import IPv4Properties
  import opened IPv6

  // ---------------------------------------------------------- construction

  /** Folding pairs of bytes keeps the big-endian number they denote. */
  lemma {:induction false} FoldValue(bytes: seq<nat>, groups: seq<nat>)
    requires |bytes| == 2 * |groups|
    requires forall i :: 0 <= i < |groups| ==> groups[i] == bytes[2 * i] * 256 + bytes[2 * i + 1]
    ensures Prefix.Value(groups, 16) == Prefix.Value(bytes, 8)
  {
    if groups != [] {
      var m := |groups| - 1;
      FoldValue(bytes[..2 * m], groups[..m]);
      Pow2Values();
      var init := bytes[..2 * m + 1];
      assert init[..2 * m] == bytes[..2 * m];
      assert bytes[..|bytes| - 1] == init;
      assert groups[..|groups| - 1] == groups[..m];
    }
  }

  /** new IPv6(sixteen bytes) is the address whose 128-bit number the bytes
      spell, the same one eight groups of that number give. */
  lemma FromBytes(bytes: seq<int>)
    requires |bytes| == 16 && forall i :: 0 <= i < 16 ==> 0 <= bytes[i] <= 0xff
    ensures FromParts(bytes).Some?
    ensures Prefix.Value(FromParts(bytes).value.parts, 16) == Prefix.Value(bytes, 8)
    ensures FromParts(FromParts(bytes).value.parts) == FromParts(bytes)
  {
    var a := FromParts(bytes).value;
    FoldValue(bytes, a.parts);
  }

  // ------------------------------------------------------------ hex fields

  /** The fields fs are hexadecimal numerals of the values vs. */
  predicate HexFieldsAre(fs: seq<string>, vs: seq<nat>) {
    |fs| == |vs| && forall i :: 0 <= i < |fs| ==> HexField(fs[i]) == Some(vs[i])
  }

  /** A hexadecimal field holds neither a colon nor a dot. */
  lemma HexFieldChars(f: string)
    requires HexField(f).Some?
    ensures |f| >= 1 && ':' !in f && '.' !in f
  {
    assert forall j :: 0 <= j < |f| ==> IsHexDigit(f[j]);
  }

  lemma {:induction false} HexFieldsEach(fs: seq<string>, vs: seq<nat>)
    requires HexFieldsAre(fs, vs)
    ensures HexFields(fs) == Some(vs)
  {
    if fs != [] {
      HexFieldsEach(fs[1..], vs[1..]);
      assert [vs[0]] + vs[1..] == vs;
    }
  }

  /** A field whose value is wider than anything is no numeral at all. */
  lemma {:induction false} HexFieldsReject(fs: seq<string>, k: nat)
    requires k < |fs| && HexField(fs[k]).None?
    ensures HexFields(fs).None?
  {
    if k > 0 {
      HexFieldsReject(fs[1..], k - 1);
    }
  }

  /** The groups as toNormalizedString() writes them are their own numerals. */
  lemma HexGroupsAre(ps: seq<nat>)
    ensures HexFieldsAre(HexGroups(ps), ps)
  {
  }

  /** Joining numerals by colons gives a section that reads back as their values. */
  lemma SectionOfFields(fs: seq<string>, vs: seq<nat>, last: bool)
    requires HexFieldsAre(fs, vs)
    ensures Section(Join(fs, ':'), last) == Some(vs)
    ensures NoDoubleColon(Join(fs, ':'))
    ensures |Join(fs, ':')| >= 1 ==> Join(fs, ':')[0] != ':' && Join(fs, ':')[|Join(fs, ':')| - 1] != ':'
  {
    forall i | 0 <= i < |fs|
      ensures |fs[i]| >= 1 && ':' !in fs[i] && '.' !in fs[i]
    {
      HexFieldChars(fs[i]);
    }
    JoinNoDoubleSep(fs, ':');
    HexFieldsEach(fs, vs);
    if fs != [] {
      SplitJoin(fs, ':');
    }
  }

  // ------------------------------------------------------------------- "::"

  /** FindDoubleColon finds the first "::", and finds none only when there is none. */
  lemma {:induction false} FindDoubleColonSpec(s: string)
    ensures FindDoubleColon(s).None? <==> NoDoubleColon(s)
    ensures FindDoubleColon(s).Some? ==>
      var k := FindDoubleColon(s).value;
      k + 1 < |s| && s[k] == ':' && s[k + 1] == ':' && NoDoubleColon(s[..k + 1])
  {
    if |s| >= 2 && !(s[0] == ':' && s[1] == ':') {
      FindDoubleColonSpec(s[1..]);
      if FindDoubleColon(s[1..]).Some? {
        var k := FindDoubleColon(s[1..]).value;
        assert s[1..][..k + 1] == s[1..k + 2];
        var u := s[..k + 2];
        forall i | 0 <= i < k + 1
          ensures !(u[i] == ':' && u[i + 1] == ':')
        {
          if i > 0 {
            assert u[i] == s[1..][..k + 1][i - 1];
          }
        }
      } else {
        forall i | 0 <= i < |s| - 1
          ensures !(s[i] == ':' && s[i + 1] == ':')
        {
          if i > 0 {
            assert s[i] == s[1..][i - 1];
          }
        }
      }
    }
  }

  /** A text with "::" at i has a first "::", at i or before. */
  lemma {:induction false} FindDoubleColonBefore(s: string, i: nat)
    requires i + 1 < |s| && s[i] == ':' && s[i + 1] == ':'
    ensures FindDoubleColon(s).Some? && FindDoubleColon(s).value <= i
  {
    if i > 0 && !(s[0] == ':' && s[1] == ':') {
      FindDoubleColonBefore(s[1..], i - 1);
    }
  }

  /** The first "::" of x + "::" + y is the one after x when x has none
      and does not end in a colon. */
  lemma FindDoubleColonAfter(x: string, y: string)
    requires NoDoubleColon(x) && (x == [] || x[|x| - 1] != ':')
    ensures FindDoubleColon(x + "::" + y) == Some(|x|)
  {
    var s := x + "::" + y;
    FindDoubleColonSpec(s);
    assert s[|x|] == ':' && s[|x| + 1] == ':';
  }

  /** A text with a first "::" after x is expanded around it. */
  lemma ExpandAt(s: string, x: string, y: string)
    requires s == x + "::" + y
    requires NoDoubleColon(x) && (x == [] || x[|x| - 1] != ':')
    ensures Expand(s) == Around(x, y)
  {
    FindDoubleColonAfter(x, y);
    assert s[..|x|] == x && s[|x| + 2..] == y;
  }

  lemma AroundSome(x: string, y: string, h: seq<nat>, t: seq<nat>)
    requires FindDoubleColon(y).None?
    requires Section(x, false) == Some(h) && Section(y, true) == Some(t)
    ensures Around(x, y) == Fill(h, t)
  {
  }

  lemma FillZeros(h: seq<nat>, t: seq<nat>)
    requires |h| + |t| <= 8
    ensures Fill(h, t) == Some(h + Zeros(8 - |h| - |t|) + t)
  {
  }

  /** Expanding around the first "::": the head is a section of plain groups,
      the rest a section that may end in an IPv4 tail; "::" stands for the
      zero groups they leave to eight. */
  lemma ExpandAround(s: string, x: string, y: string, h: seq<nat>, t: seq<nat>)
    requires s == x + "::" + y
    requires NoDoubleColon(x) && (x == [] || x[|x| - 1] != ':') && NoDoubleColon(y)
    requires Section(x, false) == Some(h) && Section(y, true) == Some(t)
    ensures Expand(s) == Fill(h, t)
  {
    FindDoubleColonSpec(y);
    ExpandAt(s, x, y);
    AroundSome(x, y, h, t);
  }

  /** A rest after the first "::" that is no section makes the text no
      address. */
  lemma ExpandRejectsRest(s: string, x: string, y: string)
    requires s == x + "::" + y
    requires NoDoubleColon(x) && (x == [] || x[|x| - 1] != ':')
    requires Section(y, true).None?
    ensures Expand(s).None?
  {
    ExpandAt(s, x, y);
  }

  /** Numerals around one "::" expand to their values with the missing
      groups filled by zeros. */
  lemma ExpandCompressed(hs: seq<string>, hv: seq<nat>, ts: seq<string>, tv: seq<nat>)
    requires HexFieldsAre(hs, hv) && HexFieldsAre(ts, tv) && |hv| + |tv| <= 8
    ensures Expand(Join(hs, ':') + "::" + Join(ts, ':')) == Some(hv + Zeros(8 - |hv| - |tv|) + tv)
  {
    SectionOfFields(hs, hv, false);
    SectionOfFields(ts, tv, true);
    ExpandAround(Join(hs, ':') + "::" + Join(ts, ':'), Join(hs, ':'), Join(ts, ':'), hv, tv);
    FillZeros(hv, tv);
  }

  // ----------------------------------------------------------- field width

  /** Fields without a colon and of at most four characters. */
  predicate ShortFields(fs: seq<string>) {
    forall i :: 0 <= i < |fs| ==> ':' !in fs[i] && |fs[i]| <= 4
  }

  lemma ShortSplit(fs: seq<string>)
    requires ShortFields(fs)
    ensures forall i :: 0 <= i < |Split(Join(fs, ':'), ':')| ==> |Split(Join(fs, ':'), ':')[i]| <= 4
  {
    if fs != [] {
      SplitJoin(fs, ':');
    }
  }

  /** Short fields joined by colons pass the width check of the strict reading. */
  lemma NarrowJoin(fs: seq<string>)
    requires ShortFields(fs)
    ensures NarrowFields(Join(fs, ':'))
  {
    ShortSplit(fs);
  }

  /** "::" between two texts is one empty field between their fields. */
  lemma SplitCompressed(x: string, y: string)
    ensures Split(x + "::" + y, ':') == Split(x, ':') + ([""] + Split(y, ':'))
  {
    assert x + "::" + y == x + [':'] + ([] + [':'] + y);
    assert [] + [':'] + y == [':'] + y;
    SplitAround(x, ':', [':'] + y);
    SplitAround([], ':', y);
  }

  /** Fields of at most four characters, an empty one among them. */
  lemma ShortAround(a: seq<string>, b: seq<string>)
    requires forall i :: 0 <= i < |a| ==> |a[i]| <= 4
    requires forall i :: 0 <= i < |b| ==> |b[i]| <= 4
    ensures forall i :: 0 <= i < |a + ([""] + b)| ==> |(a + ([""] + b))[i]| <= 4
  {
    var fs := a + ([""] + b);
    forall i | 0 <= i < |fs|
      ensures |fs[i]| <= 4
    {
      if i < |a| {
        assert fs[i] == a[i];
      } else if i > |a| {
        assert fs[i] == b[i - |a| - 1];
      }
    }
  }

  /** So do short fields around one "::", which adds one empty field. */
  lemma NarrowCompressed(hs: seq<string>, ts: seq<string>)
    requires ShortFields(hs) && ShortFields(ts)
    ensures NarrowFields(Join(hs, ':') + "::" + Join(ts, ':'))
  {
    var x, y := Join(hs, ':'), Join(ts, ':');
    SplitCompressed(x, y);
    ShortSplit(hs);
    ShortSplit(ts);
    ShortAround(Split(x, ':'), Split(y, ':'));
  }

  /** The numerals toNormalizedString() writes for groups of at most 0xffff
      are short. */
  lemma HexGroupsShort(ps: seq<nat>)
    requires forall i :: 0 <= i < |ps| ==> ps[i] <= 0xffff
    ensures ShortFields(HexGroups(ps))
  {
    Pow2Values();
    forall i | 0 <= i < |ps|
      ensures ':' !in HexGroups(ps)[i] && |HexGroups(ps)[i]| <= 4
    {
      HexWidth(ps[i], 4);
      HexFieldChars(HexGroups(ps)[i]);
    }
  }

  /** A field of five or more digits fails the width check, whatever its value. */
  lemma WideFieldIsNotNarrow(x: string, f: string)
    requires ':' !in f && '.' !in f && |f| >= 5
    ensures !NarrowFields(x + [':'] + f)
  {
    SplitAround(x, ':', f);
    SplitWithoutSep(f, ':');
    var fs := Split(x + [':'] + f, ':');
    assert fs[|fs| - 1] == f;
  }

  /** An expansion of eight groups of at most 0xffff, written with at most
      four digits each, is what parse() returns. */
  lemma ParseOfExpand(s: string, parts: seq<nat>)
    requires Expand(s) == Some(parts) && NarrowFields(s)
    requires |parts| == 8 && forall i :: 0 <= i < 8 ==> parts[i] <= 0xffff
    ensures IsIPv6(s) && Parse(s) == Some(Address(parts))
  {
  }

  /** A text that is not an IPv6 address is not a valid one either. */
  lemma ValidIsIPv6(s: string)
    ensures IsValid(s) ==> IsIPv6(s)
    ensures !IsIPv6(s) <==> Expand(s).None?
  {
  }

  /** Two or more fields without "::" expand to their values. */
  lemma ExpandFull(fs: seq<string>, vs: seq<nat>)
    requires HexFieldsAre(fs, vs) && |fs| >= 2
    ensures Expand(Join(fs, ':')) == Some(vs)
  {
    SectionOfFields(fs, vs, true);
    FindDoubleColonSpec(Join(fs, ':'));
    SplitJoin(fs, ':');
  }

  /** A text with two "::" is refused, whatever stands around them. */
  lemma TwoDoubleColons(x: string, y: string, z: string)
    ensures Expand(x + "::" + y + "::" + z).None?
  {
    var s := x + "::" + y + "::" + z;
    var p := |x| + 2 + |y|;
    assert s[|x|] == ':' && s[|x| + 1] == ':' && s[p] == ':' && s[p + 1] == ':';
    FindDoubleColonBefore(s, |x|);
    var k := FindDoubleColon(s).value;
    var rest := s[k + 2..];
    assert rest[p - k - 2] == ':' && rest[p - k - 1] == ':';
    FindDoubleColonBefore(rest, p - k - 2);
    assert Expand(s) == Around(s[..k], rest);
  }

  // ------------------------------------------------------------ IPv4 tail

  /** The text of an IPv4 address has dots and no colon. */
  lemma IPv4TextChars(v: IPv4.Address)
    requires IPv4.Valid(v)
    ensures |IPv4.ToString(v)| >= 1 && ':' !in IPv4.ToString(v) && '.' in IPv4.ToString(v)
    ensures |Split(IPv4.ToString(v), '.')| == 4
  {
    var t := IPv4.ToString(v);
    var os: seq<nat> := v.octets;
    var ds := IPv4.Decimals(os);
    IPv4Properties.DecimalsHaveNoSep(os, ':');
    IPv4Properties.DecimalsHaveNoSep(os, '.');
    forall k | 0 <= k < |t|
      ensures t[k] != ':'
    {
      JoinChars(ds, '.', k);
    }
    assert t[|ds[0]|] == '.';
    SplitJoin(ds, '.');
  }

  /** The text of an IPv4 address, as a tail, is read back as the two groups
      its octets make. */
  lemma IPv4TailOfText(v: IPv4.Address)
    requires IPv4.Valid(v)
    ensures |IPv4.ToString(v)| >= 1 && ':' !in IPv4.ToString(v) && '.' in IPv4.ToString(v)
    ensures IPv4Tail(IPv4.ToString(v)) == Some(EmbeddedGroups(v.octets))
  {
    IPv4TextChars(v);
    IPv4Properties.ToStringRoundTrip(v);
  }

  lemma SectionParts(s: string)
    requires s != [] && '.' in Split(s, ':')[|Split(s, ':')| - 1]
    ensures Section(s, true) ==
      var fs := Split(s, ':');
      match (HexFields(fs[..|fs| - 1]), IPv4Tail(fs[|fs| - 1]))
      case (Some(h), Some(t)) => Some(h + t)
      case _ => None
  {
  }

  /** A dotted IPv4 address as the last field supplies the last two groups. */
  lemma SectionWithIPv4Tail(fs: seq<string>, vs: seq<nat>, t: string, tail: seq<nat>)
    requires HexFieldsAre(fs, vs)
    requires |t| >= 1 && ':' !in t && '.' in t && IPv4Tail(t) == Some(tail)
    ensures Section(Join(fs + [t], ':'), true) == Some(vs + tail)
  {
    var all := fs + [t];
    forall i | 0 <= i < |all|
      ensures |all[i]| >= 1 && ':' !in all[i]
    {
      if i < |fs| {
        HexFieldChars(fs[i]);
      }
    }
    SplitJoin(all, ':');
    JoinNoDoubleSep(all, ':');
    assert all[..|all| - 1] == fs;
    HexFieldsEach(fs, vs);
    SectionParts(Join(all, ':'));
  }

  /** Fields that hold no colon join into a text without "::". */
  lemma FieldsNoDoubleColon(fs: seq<string>)
    requires forall i :: 0 <= i < |fs| ==> |fs[i]| >= 1 && ':' !in fs[i]
    ensures NoDoubleColon(Join(fs, ':'))
  {
    JoinNoDoubleSep(fs, ':');
  }

  /** A dotted tail that is no IPv4 address makes the section no section. */
  lemma SectionRejectsTail(fs: seq<string>, t: string)
    requires forall i :: 0 <= i < |fs| ==> |fs[i]| >= 1 && ':' !in fs[i]
    requires |t| >= 1 && ':' !in t && '.' in t && IPv4Tail(t).None?
    ensures Section(Join(fs + [t], ':'), true).None?
  {
    var all := fs + [t];
    SplitJoin(all, ':');
    SectionParts(Join(all, ':'));
  }

  lemma FfffField()
    ensures HexFieldsAre(["ffff"], [0xffff])
  {
    HexGroupsAre([0xffff]);
    assert HexGroups([0xffff]) == [ToDigits(0xffff, 16)];
    assert ToDigits(0xffff, 16) == "ffff";
  }

  lemma MappedFields(t: string, tail: seq<nat>)
    requires |t| >= 1 && ':' !in t && '.' in t && IPv4Tail(t) == Some(tail)
    ensures Section(Join(["ffff", t], ':'), true) == Some([0xffff] + tail)
    ensures NoDoubleColon(Join(["ffff", t], ':'))
  {
    FfffField();
    SectionWithIPv4Tail(["ffff"], [0xffff], t, tail);
    assert ["ffff"] + [t] == ["ffff", t];
    FieldsNoDoubleColon(["ffff", t]);
  }

  lemma MappedSection(t: string, tail: seq<nat>)
    requires |t| >= 1 && ':' !in t && '.' in t && IPv4Tail(t) == Some(tail)
    ensures Section("ffff:" + t, true) == Some([0xffff] + tail)
    ensures NoDoubleColon("ffff:" + t)
  {
    MappedFields(t, tail);
    assert Join(["ffff", t], ':') == "ffff:" + t;
  }

  lemma MappedFill(tail: seq<nat>)
    requires |tail| == 2
    ensures Fill([], [0xffff] + tail) == Some(Zeros(5) + ([0xffff] + tail))
  {
    var h: seq<nat>, t := [], [0xffff] + tail;
    assert |h| == 0 && |t| == 3;
    FillZeros(h, t);
    assert h + Zeros(5) == Zeros(5);
  }

  lemma MappedAround(s: string, t: string, tail: seq<nat>)
    requires s == "::ffff:" + t
    requires |t| >= 1 && ':' !in t && '.' in t && IPv4Tail(t) == Some(tail)
    ensures Expand(s) == Fill([], [0xffff] + tail)
  {
    MappedSection(t, tail);
    assert Section("", false) == Some([]);
    ExpandAround(s, "", "ffff:" + t, [], [0xffff] + tail);
  }

  lemma MappedExpand(s: string, t: string, tail: seq<nat>)
    requires s == "::ffff:" + t
    requires |t| >= 1 && ':' !in t && '.' in t && IPv4Tail(t) == Some(tail) && |tail| == 2
    ensures Expand(s) == Some(Zeros(5) + ([0xffff] + tail))
  {
    MappedAround(s, t, tail);
    MappedFill(tail);
  }

  /** The fields of "::ffff:" and a dotted tail pass the width check. */
  lemma MappedNarrow(t: string)
    requires ':' !in t && '.' in t
    ensures NarrowFields("::ffff:" + t)
  {
    var r := "ffff" + [':'] + t;
    assert "::ffff:" + t == [] + [':'] + ([] + [':'] + r);
    SplitAround([], ':', [] + [':'] + r);
    SplitAround([], ':', r);
    SplitAfterField("ffff", ':', t);
    SplitWithoutSep(t, ':');
  }

  /** An IPv4-mapped address (::ffff:a.b.c.d, section 2.5.5.2 of RFC 4291)
      reads as five zero groups, 0xffff, then the two groups the IPv4
      address makes. */
  lemma ParseMapped(v: IPv4.Address)
    requires IPv4.Valid(v)
    ensures Parse("::ffff:" + IPv4.ToString(v)) ==
      Some(Address([0, 0, 0, 0, 0, 0xffff] + EmbeddedGroups(v.octets)))
  {
    var t := IPv4.ToString(v);
    var s := "::ffff:" + t;
    IPv4TailOfText(v);
    MappedExpand(s, t, EmbeddedGroups(v.octets));
    MappedNarrow(t);
    var o := v.octets;
    assert IPv4.IsOctet(o[0]) && IPv4.IsOctet(o[1]) && IPv4.IsOctet(o[2]) && IPv4.IsOctet(o[3]);
    assert Zeros(5) + ([0xffff] + EmbeddedGroups(v.octets)) == [0, 0, 0, 0, 0, 0xffff] + EmbeddedGroups(v.octets);
  }

  // -------------------------------------------------------------- rendering

  /** toNormalizedString() is read back by parse(). */
  lemma NormalizedRoundTrip(a: Address)
    requires Valid(a)
    ensures Parse(ToNormalizedString(a)) == Some(a)
  {
    var ps: seq<nat> := a.parts;
    HexGroupsAre(ps);
    ExpandFull(HexGroups(ps), ps);
    HexGroupsShort(ps);
    NarrowJoin(HexGroups(ps));
  }

  /** Cutting a run of zeros out and putting as many zeros back gives the
      same groups. */
  lemma ZeroRunSplice(ps: seq<nat>, s: nat)
    requires s <= |ps|
    ensures s + ZeroRunAt(ps, s) <= |ps|
    ensures ps[..s] + Zeros(ZeroRunAt(ps, s)) + ps[s + ZeroRunAt(ps, s)..] == ps
  {
    var l := ZeroRunAt(ps, s);
    ZeroRunSpec(ps, s);
    assert Zeros(l) == ps[s..s + l];
    assert ps[..s] + ps[s..s + l] + ps[s + l..] == ps;
  }

  /** The run of l zero groups at s is a longest one (section 4.2.3 of
      RFC 5952), and of the longest ones the first. */
  predicate IsLongestZeroRun(ps: seq<int>, s: nat, l: nat)
    requires s <= |ps|
  {
    && l == ZeroRunAt(ps, s)
    && (forall j :: 0 <= j <= |ps| ==> ZeroRunAt(ps, j) <= l)
    && (forall j :: 0 <= j < s ==> ZeroRunAt(ps, j) < l)
  }

  /** Where the zero groups are exactly the l groups from s on, that run is
      the one toString() compresses. */
  lemma SingleZeroRun(ps: seq<int>, s: nat, l: nat)
    requires 1 <= l && s + l <= |ps|
    requires forall j :: 0 <= j < |ps| ==> (ps[j] == 0 <==> s <= j < s + l)
    ensures LongestZeroRun(ps, 0) == (s, l)
  {
    forall j | 0 <= j <= |ps|
      ensures ZeroRunAt(ps, j) <= l && (ZeroRunAt(ps, j) == l <==> j == s)
    {
      var r := ZeroRunAt(ps, j);
      ZeroRunSpec(ps, j);
      if s <= j <= s + l {
        assert s + l < |ps| ==> ps[s + l] != 0;
      } else {
        assert j < |ps| ==> ps[j] != 0;
      }
    }
    var (s0, l0) := LongestZeroRun(ps, 0);
    LongestZeroRunFrom(ps, 0);
    assert ZeroRunAt(ps, s) <= l0 && ZeroRunAt(ps, s0) == l0;
  }

  /** LongestZeroRun picks the first of the longest zero runs, and there is
      only one such run. */
  lemma LongestZeroRunSpec(ps: seq<int>)
    ensures LongestZeroRun(ps, 0).0 <= |ps|
    ensures IsLongestZeroRun(ps, LongestZeroRun(ps, 0).0, LongestZeroRun(ps, 0).1)
    ensures forall s: nat, l: nat :: s <= |ps| && IsLongestZeroRun(ps, s, l) ==>
      (s, l) == LongestZeroRun(ps, 0)
  {
    var (s0, l0) := LongestZeroRun(ps, 0);
    LongestZeroRunFrom(ps, 0);
    forall s: nat, l: nat | s <= |ps| && IsLongestZeroRun(ps, s, l)
      ensures (s, l) == (s0, l0)
    {
      assert ZeroRunAt(ps, s0) <= l && ZeroRunAt(ps, s) <= l0;
    }
  }

  /** What toString() writes without a run of two or more zero groups: the
      normalized text. */
  lemma ToStringNormalized(a: Address)
    requires Valid(a) && LongestZeroRun(a.parts, 0).1 < 2
    ensures ToString(a) == ToNormalizedString(a)
  {
  }

  /** What toString() writes otherwise: the groups before the longest (first)
      run of zero groups, "::", and the groups after it. */
  lemma ToStringCompressed(a: Address, s: nat, l: nat)
    requires Valid(a) && LongestZeroRun(a.parts, 0) == (s, l) && 2 <= l
    ensures s + l <= 8
    ensures ToString(a) == Join(HexGroups(a.parts[..s]), ':') + "::" + Join(HexGroups(a.parts[s + l..]), ':')
  {
  }

  /** toString() is read back by parse(). */
  lemma ToStringRoundTrip(a: Address)
    requires Valid(a)
    ensures Parse(ToString(a)) == Some(a)
  {
    var ps: seq<nat> := a.parts;
    var (s, l) := LongestZeroRun(ps, 0);
    if l < 2 {
      NormalizedRoundTrip(a);
    } else {
      CompressedRoundTrip(a, s, l);
    }
  }

  /** The same, when toString() compresses the run of l zero groups at s. */
  lemma CompressedRoundTrip(a: Address, s: nat, l: nat)
    requires Valid(a) && LongestZeroRun(a.parts, 0) == (s, l) && 2 <= l
    ensures Parse(ToString(a)) == Some(a)
  {
    var ps: seq<nat> := a.parts;
    ToStringCompressed(a, s, l);
    CompressedRunParse(ps, s, l);
  }

  /** Groups written around "::" in place of the run of l zero groups at s
      are read back as the same groups. */
  lemma CompressedRunParse(ps: seq<nat>, s: nat, l: nat)
    requires |ps| == 8 && forall i :: 0 <= i < 8 ==> ps[i] <= 0xffff
    requires s + l <= 8 && l == ZeroRunAt(ps, s)
    ensures Parse(Join(HexGroups(ps[..s]), ':') + "::" + Join(HexGroups(ps[s + l..]), ':')) == Some(Address(ps))
  {
    ZeroRunSplice(ps, s);
    var h, t := ps[..s], ps[s + l..];
    assert h + Zeros(8 - |h| - |t|) + t == ps;
    CompressedParse(h, t, ps);
  }

  /** Groups written around "::" are read back with the zeros between them
      restored. */
  lemma CompressedParse(h: seq<nat>, t: seq<nat>, ps: seq<nat>)
    requires |ps| == 8 && |h| + |t| <= 8 && h + Zeros(8 - |h| - |t|) + t == ps
    requires forall i :: 0 <= i < 8 ==> ps[i] <= 0xffff
    ensures Parse(Join(HexGroups(h), ':') + "::" + Join(HexGroups(t), ':')) == Some(Address(ps))
  {
    assert forall i :: 0 <= i < |h| ==> h[i] == ps[i];
    assert forall i :: 0 <= i < |t| ==> t[i] == ps[8 - |t| + i];
    CompressedExpand(h, t);
    ParseOfExpand(Join(HexGroups(h), ':') + "::" + Join(HexGroups(t), ':'), ps);
  }

  /** Groups written around "::" expand to themselves with zeros between, and
      every field is narrow. */
  lemma CompressedExpand(h: seq<nat>, t: seq<nat>)
    requires |h| + |t| <= 8
    requires forall i :: 0 <= i < |h| ==> h[i] <= 0xffff
    requires forall i :: 0 <= i < |t| ==> t[i] <= 0xffff
    ensures Expand(Join(HexGroups(h), ':') + "::" + Join(HexGroups(t), ':')) == Some(h + Zeros(8 - |h| - |t|) + t)
    ensures NarrowFields(Join(HexGroups(h), ':') + "::" + Join(HexGroups(t), ':'))
  {
    HexGroupsAre(h);
    HexGroupsAre(t);
    ExpandCompressed(HexGroups(h), h, HexGroups(t), t);
    HexGroupsShort(h);
    HexGroupsShort(t);
    NarrowCompressed(HexGroups(h), HexGroups(t));
  }

  // ------------------------------------------------------------------- match

  lemma GroupsFit(a: Address)
    requires Valid(a)
    ensures Prefix.PartsFit(a.parts, 16)
  {
    Pow2Values();
  }

  /** match(b, n) compares the top n bits of the two 128-bit numbers. */
  lemma MatchValue(a: Address, b: Address, n: nat)
    requires Valid(a) && Valid(b) && n <= 128
    ensures Match(a, b, n) <==>
      Prefix.Value(a.parts, 16) / Pow2(128 - n) == Prefix.Value(b.parts, 16) / Pow2(128 - n)
  {
    GroupsFit(a);
    GroupsFit(b);
    Prefix.MatchPartsValue(a.parts, b.parts, 16, n);
  }

  /** The same, as bit strings: the first n of the 128 bits agree. */
  lemma MatchBits(a: Address, b: Address, n: nat)
    requires Valid(a) && Valid(b) && n <= 128
    ensures Match(a, b, n) <==>
      Prefix.Bits(Prefix.Value(a.parts, 16), 128)[..n] == Prefix.Bits(Prefix.Value(b.parts, 16), 128)[..n]
  {
    GroupsFit(a);
    GroupsFit(b);
    Prefix.MatchPartsBits(a.parts, b.parts, 16, n);
    Prefix.PartsBitsValue(a.parts, 16);
    Prefix.PartsBitsValue(b.parts, 16);
  }

  /** An address matching on n bits matches on every shorter prefix. */
  lemma MatchShorter(a: Address, b: Address, m: int, n: int)
    requires Valid(a) && Valid(b) && m <= n && Match(a, b, n)
    ensures Match(a, b, m)
  {
    Prefix.MatchPartsShorter(a.parts, b.parts, 16, m, n);
  }
}
