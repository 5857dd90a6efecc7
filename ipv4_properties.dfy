/** What the IPv4 model guarantees: rendering and parsing are inverse, the
    three format checks are ordered by strictness, a single group is the
    whole 32-bit number, matching compares the top bits of that number,
    parseCIDR reads back what it is given, and range() follows the
    special-purpose table. */
module IPv4Properties {

  import opened Wrappers
  import opened Arith
  import opened Text
  import Prefix
  import opened IPv4

  // ---------------------------------------------------------------- numerals

  /** Each notation's numeral reads back as the number it renders. */
  lemma GroupValueNumeral(n: nat, notation: Notation)
    ensures GroupValue(Numeral(n, notation)) == Some(n)
  {
    var g := Numeral(n, notation);
    match notation
    case Decimal =>
    case Octal =>
      assert g[1..] == ToDigits(n, 8);
    case Hexadecimal =>
      assert g[2..] == ToDigits(n, 16);
  }

  /** A group holding a character that is neither a hexadecimal digit nor the
      'x' of a hexadecimal prefix is not a numeral. */
  lemma GroupValueRejects(g: string, k: nat)
    requires k < |g| && !IsHexDigit(g[k]) && g[k] != 'x' && g[k] != 'X'
    ensures GroupValue(g) == None
  {
    if |g| >= 2 && g[0] == '0' && (g[1] == 'x' || g[1] == 'X') {
      assert g[2..][k - 2] == g[k];
    } else if |g| >= 2 && g[0] == '0' {
      assert g[1..][k - 1] == g[k];
    }
  }

  lemma DecimalsHaveNoSep(os: seq<nat>, sep: char)
    requires !IsHexDigit(sep)
    ensures forall i :: 0 <= i < |os| ==> sep !in Decimals(os)[i] && |Decimals(os)[i]| >= 1
  {
    forall i | 0 <= i < |os|
      ensures sep !in Decimals(os)[i]
    {
      var d := Decimals(os)[i];
      assert forall j :: 0 <= j < |d| ==> IsHexDigit(d[j]);
    }
  }

  /** A text of four dotted groups is an IPv4 shape exactly when every group
      is a numeral, whatever the values, and is then read value by value; it
      is valid exactly when each value is an octet. */
  lemma FourGroupsLenient(t: string)
    requires |Split(t, '.')| == 4
    ensures Parser(t) == GroupValues(Split(t, '.'))
    ensures IsValid(t) <==> Parser(t).Some? && ValidOctets(Parser(t).value)
  {
  }

  lemma OctetsFit(a: Address)
    requires Valid(a)
    ensures Prefix.PartsFit(a.octets, 8)
  {
    Pow2Values();
    ValidOctetsEach(a.octets);
  }

  /** The 32-bit number of an address, octet by octet. */
  lemma Uint32Octets(a: Address)
    requires Valid(a)
    ensures ToUint32(a) ==
      a.octets[0] * 0x100_0000 + a.octets[1] * 0x1_0000 + a.octets[2] * 0x100 + a.octets[3]
  {
    Pow2Values();
    var o: seq<nat> := a.octets;
    assert o[..3][..2] == o[..2] && o[..2][..1] == o[..1] && o[..1][..0] == [];
    assert Prefix.Value(o[..1], 8) == o[0];
    assert Prefix.Value(o[..2], 8) == o[0] * 256 + o[1];
    assert Prefix.Value(o[..3], 8) == (o[0] * 256 + o[1]) * 256 + o[2];
  }

  // ------------------------------------------------- rendering and formats

  /** toString() is read back by parse(), and is a four-part decimal. */
  lemma {:induction false} ToStringRoundTrip(a: Address)
    requires Valid(a)
    ensures Parse(ToString(a)) == Some(a)
    ensures IsValidFourPartDecimal(ToString(a))
  {
    var os: seq<nat> := a.octets;
    var fs, t := Decimals(os), ToString(a);
    DecimalsHaveNoSep(os, '.');
    SplitJoin(fs, '.');
    forall i | 0 <= i < 4
      ensures GroupValue(fs[i]) == Some(os[i])
    {
      GroupValueNumeral(os[i], Decimal);
    }
    var vals := GroupValues(fs).value;
    assert vals == os;
    assert Parser(t) == Some(os);
    forall i | 0 <= i < 4
      ensures IsCanonicalDecimal(fs[i])
    {
    }
  }

  /** A four-part decimal text is exactly the rendering of the address it
      denotes: with ToStringRoundTrip, the four-part decimals are the texts
      toString() produces. */
  lemma FourPartDecimalIsToString(t: string)
    requires IsValidFourPartDecimal(t)
    ensures ToString(Parse(t).value) == t
  {
    var gs := Split(t, '.');
    CanonicalDecimals(gs);
    var vals := GroupValues(gs).value;
    assert Parser(t) == Collapse(vals);
  }

  /** Canonical decimals are read as values that render back to them. */
  lemma CanonicalDecimals(gs: seq<string>)
    requires forall i :: 0 <= i < |gs| ==> IsCanonicalDecimal(gs[i])
    ensures GroupValues(gs).Some? && Decimals(GroupValues(gs).value) == gs
  {
    forall i | 0 <= i < |gs|
      ensures GroupValue(gs[i]) == Some(DigitsValue(gs[i], 10))
      ensures ToDigits(DigitsValue(gs[i], 10), 10) == gs[i]
    {
      CanonicalDecimal(gs[i]);
    }
  }

  /** A canonical decimal is read as its decimal value and rendered back as
      itself. */
  lemma CanonicalDecimal(g: string)
    requires IsCanonicalDecimal(g)
    ensures GroupValue(g) == Some(DigitsValue(g, 10))
    ensures ToDigits(DigitsValue(g, 10), 10) == g
  {
    ToDigitsOfValue(g, 10);
  }

  /** The three checks go from strict to lenient. */
  lemma FormatStrictness(t: string)
    ensures IsValidFourPartDecimal(t) ==> IsValid(t)
    ensures IsValid(t) ==> IsIPv4(t)
  {
  }

  /** parse() is idempotent through toString(). */
  lemma ParseToStringParse(t: string)
    requires IsValid(t)
    ensures Parse(ToString(Parse(t).value)) == Parse(t)
  {
    ToStringRoundTrip(Parse(t).value);
  }

  // ---------------------------------------------- one group: a 32-bit number

  lemma {:induction false} BigEndianOfValue(o: seq<nat>)
    requires Prefix.PartsFit(o, 8)
    ensures Prefix.Value(o, 8) < Pow2(8 * |o|)
    ensures BigEndian(Prefix.Value(o, 8), |o|) == o
  {
    Prefix.ValueBound(o, 8);
    if o != [] {
      Pow2Values();
      var init := o[..|o| - 1];
      BigEndianOfValue(init);
      var v := Prefix.Value(o, 8);
      DivUnique(v, 256, Prefix.Value(init, 8), o[|o| - 1]);
      assert o == init + [o[|o| - 1]];
    }
  }

  /** A text of one group is the address whose 32-bit number the group
      denotes, and is not an address at all when that number needs more than
      32 bits. */
  lemma SingleGroup(g: string)
    requires '.' !in g && GroupValue(g).Some?
    ensures IsIPv4(g) <==> GroupValue(g).value < 0x1_0000_0000
    ensures IsIPv4(g) ==> IsValid(g) && ToUint32(Parse(g).value) == GroupValue(g).value
  {
    Pow2Values();
    SplitWithoutSep(g, '.');
    var v := GroupValue(g).value;
    assert GroupValues([g]).value == [v];
    if v < 0x1_0000_0000 {
      CollapseOne(v);
    }
  }

  /** One group below 2^32 collapses to the four octets of its value. */
  lemma CollapseOne(v: nat)
    requires v < 0x1_0000_0000
    ensures Collapse([v]).Some? && ValidOctets(Collapse([v]).value)
    ensures Prefix.Value(Collapse([v]).value, 8) == v
  {
    Pow2Values();
    var os := Collapse([v]).value;
    assert os[0..] == os;
    assert forall i :: 0 <= i < 4 ==> os[i] < Pow2(8);
  }

  /** A numeral holds no dot and no slash. */
  lemma NumeralChars(n: nat, notation: Notation)
    ensures '.' !in Numeral(n, notation) && '/' !in Numeral(n, notation)
  {
    var g := Numeral(n, notation);
    assert forall j :: 0 <= j < |g| ==> IsHexDigit(g[j]) || g[j] == 'x';
  }

  /** Two addresses with the same 32-bit number are the same address. */
  lemma Uint32Injective(a: Address, b: Address)
    requires Valid(a) && Valid(b) && ToUint32(a) == ToUint32(b)
    ensures a == b
  {
    OctetsFit(a);
    OctetsFit(b);
    ValidOctetsEach(a.octets);
    ValidOctetsEach(b.octets);
    var x: seq<nat>, y: seq<nat> := a.octets, b.octets;
    BigEndianOfValue(x);
    BigEndianOfValue(y);
  }

  /** The 32-bit number of an address, written in any of the three
      notations, parses back to the address. */
  lemma Uint32RoundTrip(a: Address, notation: Notation)
    requires Valid(a)
    ensures Parse(Numeral(ToUint32(a), notation)) == Some(a)
  {
    var g := Numeral(ToUint32(a), notation);
    GroupValueNumeral(ToUint32(a), notation);
    NumeralChars(ToUint32(a), notation);
    OctetsFit(a);
    Prefix.ValueBound(a.octets, 8);
    Pow2Values();
    SingleGroup(g);
    Uint32Injective(Parse(g).value, a);
  }

  // ------------------------------------------------------------------- match

  /** match(b, n) compares the top n bits of the two 32-bit numbers. */
  lemma MatchValue(a: Address, b: Address, n: nat)
    requires Valid(a) && Valid(b) && n <= 32
    ensures Match(a, b, n) <==> ToUint32(a) / Pow2(32 - n) == ToUint32(b) / Pow2(32 - n)
  {
    OctetsFit(a);
    OctetsFit(b);
    Prefix.MatchPartsValue(a.octets, b.octets, 8, n);
  }

  /** The same, as bit strings: the first n bits agree. */
  lemma MatchBits(a: Address, b: Address, n: nat)
    requires Valid(a) && Valid(b) && n <= 32
    ensures Match(a, b, n) <==>
      Prefix.Bits(ToUint32(a), 32)[..n] == Prefix.Bits(ToUint32(b), 32)[..n]
  {
    OctetsFit(a);
    OctetsFit(b);
    Prefix.MatchPartsBits(a.octets, b.octets, 8, n);
    Prefix.PartsBitsValue(a.octets, 8);
    Prefix.PartsBitsValue(b.octets, 8);
  }

  /** An address matching on n bits matches on every shorter prefix. */
  lemma MatchShorter(a: Address, b: Address, m: int, n: int)
    requires Valid(a) && Valid(b) && m <= n && Match(a, b, n)
    ensures Match(a, b, m)
  {
    Prefix.MatchPartsShorter(a.octets, b.octets, 8, m, n);
  }

  // --------------------------------------------------------------- parseCIDR

  lemma NoSlashInToString(a: Address)
    requires Valid(a)
    ensures '/' !in ToString(a)
  {
    var os: seq<nat> := a.octets;
    DecimalsHaveNoSep(os, '/');
    forall k | 0 <= k < |ToString(a)|
      ensures ToString(a)[k] != '/'
    {
      JoinChars(Decimals(os), '.', k);
    }
  }

  /** parseCIDR splits at the last "/": the text after it must be a decimal
      length of at most 32, the text before it a valid address. */
  lemma ParseCidrSplit(addr: string, len: string)
    requires '/' !in len
    ensures ParseCidr(addr + "/" + len).Some? <==>
      |len| >= 1 && AllDigits(len, 10) && DigitsValue(len, 10) <= 32 && IsValid(addr)
    ensures ParseCidr(addr + "/" + len).Some? ==>
      ParseCidr(addr + "/" + len).value == (Parse(addr).value, DigitsValue(len, 10))
  {
    var t := addr + "/" + len;
    assert t[|addr|] == '/';
    var i := LastIndexOf(t, '/');
    assert t[..i] == addr && t[i + 1..] == len;
  }

  /** parseCIDR reads back an address and a length written out in full. */
  lemma ParseCidrRoundTrip(a: Address, n: nat)
    requires Valid(a) && n <= 32
    ensures ParseCidr(ToString(a) + "/" + ToDigits(n, 10)) == Some((a, n))
  {
    var len := ToDigits(n, 10);
    assert '/' !in len by {
      assert forall j :: 0 <= j < |len| ==> IsHexDigit(len[j]);
    }
    ParseCidrSplit(ToString(a), len);
    ToStringRoundTrip(a);
  }

  // ---------------------------------------------------------------- range()

  /** The special ranges in terms of the octets, one RFC block at a time;
      the broadcast address is checked before the class E block that holds it. */
  function Classify(a: Address): Range
    requires Valid(a)
  {
    var o := a.octets;
    if o[0] == 0 then Unspecified
    else if o[0] == 10 || (o[0] == 172 && 16 <= o[1] < 32) || (o[0] == 192 && o[1] == 168) then Private
    else if o[0] == 100 && 64 <= o[1] < 128 then CarrierGradeNat
    else if o[0] == 127 then Loopback
    else if o[0] == 169 && o[1] == 254 then LinkLocal
    else if 224 <= o[0] < 240 then Multicast
    else if o == [255, 255, 255, 255] then Broadcast
    else if 240 <= o[0] then Reserved
    else Unicast
  }

  /** A prefix of at most 8 bits compares the first octets alone. */
  lemma MatchFirstOctet(a: Address, b: Address, n: nat)
    requires Valid(a) && Valid(b) && 1 <= n <= 8
    ensures Match(a, b, n) <==> a.octets[0] / Pow2(8 - n) == b.octets[0] / Pow2(8 - n)
  {
    var x, y := a.octets, b.octets;
    assert Prefix.MatchParts(x, y, 8, n) ==
      (x[0] / Pow2(8 - n) == y[0] / Pow2(8 - n) && Prefix.MatchParts(x[1..], y[1..], 8, n - 8));
  }

  /** A prefix of 9 to 16 bits compares the first octets whole and the
      second ones on the bits that remain. */
  lemma MatchSecondOctet(a: Address, b: Address, n: nat)
    requires Valid(a) && Valid(b) && 8 < n <= 16
    ensures Match(a, b, n) <==>
      a.octets[0] == b.octets[0] && a.octets[1] / Pow2(16 - n) == b.octets[1] / Pow2(16 - n)
  {
    var x, y := a.octets, b.octets;
    assert Pow2(0) == 1;
    assert Prefix.MatchParts(x, y, 8, n) ==
      (x[0] == y[0] && Prefix.MatchParts(x[1..], y[1..], 8, n - 8));
    assert x[1..][0] == x[1] && y[1..][0] == y[1];
    assert Prefix.MatchParts(x[1..], y[1..], 8, n - 8) ==
      (x[1] / Pow2(16 - n) == y[1] / Pow2(16 - n) && Prefix.MatchParts(x[2..], y[2..], 8, n - 16));
    assert x[1..][1..] == x[2..] && y[1..][1..] == y[2..];
  }

  // Whether a falls in each block of the table, in terms of its octets.

  lemma BlockUnspecified(a: Address)
    requires Valid(a)
    ensures var o := a.octets;
      Match(a, SpecialRanges[0].base, SpecialRanges[0].length) <==> o[0] == 0
  {
    MatchFirstOctet(a, SpecialRanges[0].base, 8);
    Pow2Values();
    assert Pow2(0) == 1;
  }

  lemma BlockPrivate10(a: Address)
    requires Valid(a)
    ensures var o := a.octets;
      Match(a, SpecialRanges[1].base, SpecialRanges[1].length) <==> o[0] == 10
  {
    MatchFirstOctet(a, SpecialRanges[1].base, 8);
    assert Pow2(0) == 1;
  }

  lemma BlockPrivate172(a: Address)
    requires Valid(a)
    ensures var o := a.octets;
      Match(a, SpecialRanges[2].base, SpecialRanges[2].length) <==> o[0] == 172 && 16 <= o[1] < 32
  {
    MatchSecondOctet(a, SpecialRanges[2].base, 12);
    Pow2Values();
  }

  lemma BlockPrivate192(a: Address)
    requires Valid(a)
    ensures var o := a.octets;
      Match(a, SpecialRanges[3].base, SpecialRanges[3].length) <==> o[0] == 192 && o[1] == 168
  {
    MatchSecondOctet(a, SpecialRanges[3].base, 16);
    assert Pow2(0) == 1;
  }

  lemma BlockCarrierGradeNat(a: Address)
    requires Valid(a)
    ensures var o := a.octets;
      Match(a, SpecialRanges[4].base, SpecialRanges[4].length) <==> o[0] == 100 && 64 <= o[1] < 128
  {
    MatchSecondOctet(a, SpecialRanges[4].base, 10);
    assert Pow2(6) == 64;
  }

  lemma BlockLoopback(a: Address)
    requires Valid(a)
    ensures var o := a.octets;
      Match(a, SpecialRanges[5].base, SpecialRanges[5].length) <==> o[0] == 127
  {
    MatchFirstOctet(a, SpecialRanges[5].base, 8);
    assert Pow2(0) == 1;
  }

  lemma BlockLinkLocal(a: Address)
    requires Valid(a)
    ensures var o := a.octets;
      Match(a, SpecialRanges[6].base, SpecialRanges[6].length) <==> o[0] == 169 && o[1] == 254
  {
    MatchSecondOctet(a, SpecialRanges[6].base, 16);
    assert Pow2(0) == 1;
  }

  lemma BlockMulticast(a: Address)
    requires Valid(a)
    ensures var o := a.octets;
      Match(a, SpecialRanges[7].base, SpecialRanges[7].length) <==> 224 <= o[0] < 240
  {
    MatchFirstOctet(a, SpecialRanges[7].base, 4);
    Pow2Values();
  }

  lemma BlockBroadcast(a: Address)
    requires Valid(a)
    ensures var o := a.octets;
      Match(a, SpecialRanges[8].base, SpecialRanges[8].length) <==> o == [255, 255, 255, 255]
  {
  }

  lemma BlockReserved(a: Address)
    requires Valid(a)
    ensures var o := a.octets;
      Match(a, SpecialRanges[9].base, SpecialRanges[9].length) <==> 240 <= o[0]
  {
    MatchFirstOctet(a, SpecialRanges[9].base, 4);
    Pow2Values();
  }

  /** The table is searched in order: the result is unicast exactly when
      no block holds the address, and otherwise the label of the first block
      that does. */
  lemma {:induction false} FirstMatchSpec(a: Address, table: seq<Block>)
    requires Valid(a) && BlocksValid(table)
    ensures FirstMatch(a, table) == Unicast <==>
      forall i :: 0 <= i < |table| ==> !Match(a, table[i].base, table[i].length)
    ensures FirstMatch(a, table) != Unicast ==>
      exists i: nat :: FirstMatchAt(a, table, i) && table[i].range == FirstMatch(a, table)
  {
    if table != [] {
      if Match(a, table[0].base, table[0].length) {
        assert FirstMatchAt(a, table, 0);
      } else {
        FirstMatchSpec(a, table[1..]);
        assert forall i :: 1 <= i < |table| ==> table[i] == table[1..][i - 1];
        var r := FirstMatch(a, table);
        if r != Unicast {
          var i: nat :| FirstMatchAt(a, table[1..], i) && table[1..][i].range == r;
          assert FirstMatchAt(a, table, i + 1);
        }
      }
    }
  }

  /** The first block a falls in names its range. */
  lemma FirstMatchAtRange(a: Address, table: seq<Block>, i: nat)
    requires Valid(a) && BlocksValid(table) && FirstMatchAt(a, table, i)
    ensures FirstMatch(a, table) == table[i].range
  {
    FirstMatchSpec(a, table);
    var r := FirstMatch(a, table);
    var j: nat :| FirstMatchAt(a, table, j) && table[j].range == r;
    assert !(j < i) && !(i < j);
  }

  /** Every block of the table has a valid base address. */
  lemma BlockBases()
    ensures BlocksValid(SpecialRanges)
  {
  }

  /** range() agrees with the octet-level classification. */
  lemma RangeOfClassify(a: Address)
    requires Valid(a)
    ensures RangeOf(a) == Classify(a)
  {
    var o0 := a.octets[0];
    if o0 < 100 {
      RangeOfClassifyA(a);
    } else if o0 < 170 {
      RangeOfClassifyB(a);
    } else if o0 < 224 {
      RangeOfClassifyC(a);
    } else {
      RangeOfClassifyD(a);
    }
  }

  lemma RangeOfClassifyA(a: Address)
    requires Valid(a) && a.octets[0] < 100
    ensures RangeOf(a) == Classify(a)
  {
    BlockBases();
    BlockUnspecified(a);
    BlockPrivate10(a);
    BlockPrivate172(a);
    BlockPrivate192(a);
    BlockCarrierGradeNat(a);
    BlockLoopback(a);
    BlockLinkLocal(a);
    BlockMulticast(a);
    BlockBroadcast(a);
    BlockReserved(a);
    var o := a.octets;
    if o[0] == 0 {
      FirstMatchAtRange(a, SpecialRanges, 0);
    } else if o[0] == 10 {
      FirstMatchAtRange(a, SpecialRanges, 1);
    }
  }

  lemma RangeOfClassifyB(a: Address)
    requires Valid(a) && 100 <= a.octets[0] < 170
    ensures RangeOf(a) == Classify(a)
  {
    BlockBases();
    BlockUnspecified(a);
    BlockPrivate10(a);
    BlockPrivate172(a);
    BlockPrivate192(a);
    BlockCarrierGradeNat(a);
    BlockLoopback(a);
    BlockLinkLocal(a);
    BlockMulticast(a);
    BlockBroadcast(a);
    BlockReserved(a);
    var o := a.octets;
    if o[0] == 100 && 64 <= o[1] < 128 {
      FirstMatchAtRange(a, SpecialRanges, 4);
    } else if o[0] == 127 {
      FirstMatchAtRange(a, SpecialRanges, 5);
    } else if o[0] == 169 && o[1] == 254 {
      FirstMatchAtRange(a, SpecialRanges, 6);
    }
  }

  lemma RangeOfClassifyC(a: Address)
    requires Valid(a) && 170 <= a.octets[0] < 224
    ensures RangeOf(a) == Classify(a)
  {
    BlockBases();
    BlockUnspecified(a);
    BlockPrivate10(a);
    BlockPrivate172(a);
    BlockPrivate192(a);
    BlockCarrierGradeNat(a);
    BlockLoopback(a);
    BlockLinkLocal(a);
    BlockMulticast(a);
    BlockBroadcast(a);
    BlockReserved(a);
    var o := a.octets;
    if o[0] == 172 && 16 <= o[1] < 32 {
      FirstMatchAtRange(a, SpecialRanges, 2);
    } else if o[0] == 192 && o[1] == 168 {
      FirstMatchAtRange(a, SpecialRanges, 3);
    }
  }

  lemma RangeOfClassifyD(a: Address)
    requires Valid(a) && 224 <= a.octets[0]
    ensures RangeOf(a) == Classify(a)
  {
    if a.octets[0] < 240 {
      RangeOfMulticastBlock(a);
    } else if a.octets == [255, 255, 255, 255] {
      RangeOfBroadcastBlock(a);
    } else {
      RangeOfReservedBlock(a);
    }
  }

  lemma RangeOfMulticastBlock(a: Address)
    requires Valid(a) && 224 <= a.octets[0] < 240
    ensures RangeOf(a) == Classify(a)
  {
    BlockBases();
    BlockUnspecified(a);
    BlockPrivate10(a);
    BlockPrivate172(a);
    BlockPrivate192(a);
    BlockCarrierGradeNat(a);
    BlockLoopback(a);
    BlockLinkLocal(a);
    BlockMulticast(a);
    FirstMatchAtRange(a, SpecialRanges, 7);
  }

  lemma RangeOfBroadcastBlock(a: Address)
    requires Valid(a) && a.octets == [255, 255, 255, 255]
    ensures RangeOf(a) == Classify(a)
  {
    BlockBases();
    BlockUnspecified(a);
    BlockPrivate10(a);
    BlockPrivate172(a);
    BlockPrivate192(a);
    BlockCarrierGradeNat(a);
    BlockLoopback(a);
    BlockLinkLocal(a);
    BlockMulticast(a);
    BlockBroadcast(a);
    FirstMatchAtRange(a, SpecialRanges, 8);
  }

  lemma RangeOfReservedBlock(a: Address)
    requires Valid(a) && 240 <= a.octets[0] && a.octets != [255, 255, 255, 255]
    ensures RangeOf(a) == Classify(a)
  {
    BlockBases();
    BlockUnspecified(a);
    BlockPrivate10(a);
    BlockPrivate172(a);
    BlockPrivate192(a);
    BlockCarrierGradeNat(a);
    BlockLoopback(a);
    BlockLinkLocal(a);
    BlockMulticast(a);
    BlockBroadcast(a);
    BlockReserved(a);
    FirstMatchAtRange(a, SpecialRanges, 9);
  }

}
