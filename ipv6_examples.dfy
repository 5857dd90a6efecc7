/** The IPv6 behaviour the library's test suite pins down, each case derived
    from the general properties of the model. */
module IPv6Examples {

  import opened Wrappers
  import opened Arith
  import opened Text
  import IPv4
  import IPv4Examples
  import opened IPv6
  import opened IPv6Properties

  // ------------------------------------------------------------ constructor

  lemma ConstructFromGroups(groups: seq<int>)
    requires groups == [0x2001, 0xdb8, 0xf53a, 0, 0, 0, 0, 1]
    ensures FromParts(groups) == Some(Address(groups))
  {
    assert forall i :: 0 <= i < 8 ==> 0 <= groups[i] <= 0xffff;
  }

  /** The bytes of the test, folded pairwise. */
  lemma FoldsTestBytes(bytes: seq<int>)
    requires bytes == [0x20, 0x01, 0xd, 0xb8, 0xf5, 0x3a, 0, 0, 0, 0, 0, 0, 0, 0, 0, 1]
    ensures FoldBytes(bytes) == [0x2001, 0xdb8, 0xf53a, 0, 0, 0, 0, 1]
  {
    var r := FoldBytes(bytes);
    assert r[0] == 0x2001 && r[1] == 0xdb8 && r[2] == 0xf53a && r[7] == 1;
    assert r[3] == 0 && r[4] == 0 && r[5] == 0 && r[6] == 0;
  }

  lemma TestBytesFit(bytes: seq<int>)
    requires bytes == [0x20, 0x01, 0xd, 0xb8, 0xf5, 0x3a, 0, 0, 0, 0, 0, 0, 0, 0, 0, 1]
    ensures |bytes| == 16 && forall i :: 0 <= i < 16 ==> 0 <= bytes[i] <= 0xff
  {
  }

  /** Sixteen bytes give the same address as the eight groups they fold into. */
  lemma ConstructFromBytes(bytes: seq<int>)
    requires bytes == [0x20, 0x01, 0xd, 0xb8, 0xf5, 0x3a, 0, 0, 0, 0, 0, 0, 0, 0, 0, 1]
    ensures FromParts(bytes) == FromParts([0x2001, 0xdb8, 0xf53a, 0, 0, 0, 0, 1])
  {
    TestBytesFit(bytes);
    FoldsTestBytes(bytes);
    ConstructFromGroups([0x2001, 0xdb8, 0xf53a, 0, 0, 0, 0, 1]);
  }

  lemma RefusesWideGroup()
    ensures FromParts([0xfffff, 0, 0, 0, 0, 0, 0, 1]) == None
  {
    assert [0xfffff, 0, 0, 0, 0, 0, 0, 1][0] == 0xfffff;
  }

  lemma RefusesSevenGroups()
    ensures FromParts([0xfffff, 0, 0, 0, 0, 0, 1]) == None
  {
  }

  lemma RefusesWideByte()
    ensures FromParts([0xffff, 0, 0, 0, 0, 0, 0, 0, 0, 0, 0, 0, 0, 0, 0, 1]) == None
  {
    assert [0xffff, 0, 0, 0, 0, 0, 0, 0, 0, 0, 0, 0, 0, 0, 0, 1][0] == 0xffff;
  }

  /** The groups read back as given. */
  lemma PartAccess()
    ensures FromParts([0x2001, 0xdb8, 0xf53a, 0, 0, 42, 0, 1]).value.parts[5] == 42
  {
  }

  // -------------------------------------------------------------- rendering

  // The numerals of the groups the tests render, one lemma each.

  lemma Numeral2001()
    ensures ToDigits(0x2001, 16) == "2001"
  {
    ToDigitsOfValue("2001", 16);
  }

  lemma NumeralDb8()
    ensures ToDigits(0xdb8, 16) == "db8"
  {
    ToDigitsOfValue("db8", 16);
  }

  lemma NumeralF53a()
    ensures ToDigits(0xf53a, 16) == "f53a"
  {
    ToDigitsOfValue("f53a", 16);
  }

  lemma RenderedGroups(ps: seq<nat>)
    requires ps == [0x2001, 0xdb8, 0xf53a, 0, 0, 0, 0, 1]
    ensures HexGroups(ps) == ["2001", "db8", "f53a", "0", "0", "0", "0", "1"]
  {
    Numeral2001();
    NumeralDb8();
    NumeralF53a();
    HexDigitNumerals();
    var g := HexGroups(ps);
    assert g == [g[0], g[1], g[2], g[3], g[4], g[5], g[6], g[7]];
    assert g[0] == "2001" && g[1] == "db8" && g[2] == "f53a" && g[7] == "1";
    assert g[3] == "0" && g[4] == "0" && g[5] == "0" && g[6] == "0";
  }

  lemma HexDigitNumerals()
    ensures ToDigits(0, 16) == "0" && ToDigits(1, 16) == "1"
  {
  }

  lemma ZerosThenOne()
    ensures Join(["0", "0", "0", "1"], ':') == "0:0:0:1"
  {
  }

  lemma NormalizedHead()
    ensures Join(["2001", "db8", "f53a", "0"], ':') == "2001:db8:f53a:0"
  {
  }

  lemma NormalizedHalves()
    ensures Join(["2001", "db8", "f53a", "0"], ':') + ":" + Join(["0", "0", "0", "1"], ':') == "2001:db8:f53a:0:0:0:0:1"
  {
    NormalizedHead();
    ZerosThenOne();
    assert "2001:db8:f53a:0" + ":" + "0:0:0:1" == "2001:db8:f53a:0:0:0:0:1";
  }

  lemma NormalizedText()
    ensures Join(["2001", "db8", "f53a", "0", "0", "0", "0", "1"], ':') == "2001:db8:f53a:0:0:0:0:1"
  {
    JoinAppend(["2001", "db8", "f53a", "0"], ["0", "0", "0", "1"], ':');
    assert ["2001", "db8", "f53a", "0"] + ["0", "0", "0", "1"] == ["2001", "db8", "f53a", "0", "0", "0", "0", "1"];
    NormalizedHalves();
  }

  lemma RendersNormalized(a: Address)
    requires a == Address([0x2001, 0xdb8, 0xf53a, 0, 0, 0, 0, 1])
    ensures ToNormalizedString(a) == "2001:db8:f53a:0:0:0:0:1"
  {
    RenderedGroups(a.parts);
    NormalizedText();
  }

  lemma HeadGroups(h: seq<nat>)
    requires h == [0x2001, 0xdb8, 0xf53a] || h == [0x2001, 0xdb8]
    ensures h == [0x2001, 0xdb8, 0xf53a] ==> HexGroups(h) == ["2001", "db8", "f53a"]
    ensures h == [0x2001, 0xdb8] ==> HexGroups(h) == ["2001", "db8"]
  {
    Numeral2001();
    NumeralDb8();
    NumeralF53a();
    var g := HexGroups(h);
    assert g[0] == "2001" && g[1] == "db8";
    assert |h| == 3 ==> g[2] == "f53a";
  }

  /** toString() of an address whose only zero groups are the l groups from
      s on. */
  lemma RendersAround(a: Address, s: nat, l: nat, head: seq<nat>, tail: seq<nat>)
    requires Valid(a) && 2 <= l && s + l <= 8
    requires forall j :: 0 <= j < 8 ==> (a.parts[j] == 0 <==> s <= j < s + l)
    requires a.parts[..s] == head && a.parts[s + l..] == tail
    ensures ToString(a) == Join(HexGroups(head), ':') + "::" + Join(HexGroups(tail), ':')
  {
    SingleZeroRun(a.parts, s, l);
  }

  lemma CompressedText()
    ensures Join(["2001", "db8", "f53a"], ':') + "::" + Join(["1"], ':') == "2001:db8:f53a::1"
    ensures Join([], ':') + "::" + Join(["1"], ':') == "::1"
    ensures Join(["2001", "db8"], ':') + "::" + Join([], ':') == "2001:db8::"
  {
  }

  // The longest zero run of each rendered address, and its surroundings.

  lemma CompressedRun(a: Address)
    requires a == Address([0x2001, 0xdb8, 0xf53a, 0, 0, 0, 0, 1])
    ensures forall j :: 0 <= j < 8 ==> (a.parts[j] == 0 <==> 3 <= j < 7)
    ensures Valid(a) && a.parts[..3] == [0x2001, 0xdb8, 0xf53a] && a.parts[7..] == [1]
  {
  }

  lemma LeadingRun(a: Address)
    requires a == Address([0, 0, 0, 0, 0, 0, 0, 1])
    ensures forall j :: 0 <= j < 8 ==> (a.parts[j] == 0 <==> 0 <= j < 7)
    ensures Valid(a) && a.parts[..0] == [] && a.parts[7..] == [1]
  {
  }

  lemma TrailingRun(a: Address)
    requires a == Address([0x2001, 0xdb8, 0, 0, 0, 0, 0, 0])
    ensures forall j :: 0 <= j < 8 ==> (a.parts[j] == 0 <==> 2 <= j < 8)
    ensures Valid(a) && a.parts[..2] == [0x2001, 0xdb8] && a.parts[8..] == []
  {
  }

  lemma RendersCompressed(a: Address)
    requires a == Address([0x2001, 0xdb8, 0xf53a, 0, 0, 0, 0, 1])
    ensures ToString(a) == "2001:db8:f53a::1"
  {
    CompressedRun(a);
    HeadGroups([0x2001, 0xdb8, 0xf53a]);
    assert HexGroups([1]) == ["1"];
    RendersAround(a, 3, 4, [0x2001, 0xdb8, 0xf53a], [1]);
    CompressedText();
  }

  lemma RendersLeadingRun(a: Address)
    requires a == Address([0, 0, 0, 0, 0, 0, 0, 1])
    ensures ToString(a) == "::1"
  {
    LeadingRun(a);
    assert HexGroups([1]) == ["1"] && HexGroups([]) == [];
    RendersAround(a, 0, 7, [], [1]);
    CompressedText();
  }

  lemma RendersTrailingRun(a: Address)
    requires a == Address([0x2001, 0xdb8, 0, 0, 0, 0, 0, 0])
    ensures ToString(a) == "2001:db8::"
  {
    TrailingRun(a);
    HeadGroups([0x2001, 0xdb8]);
    assert HexGroups([]) == [];
    RendersAround(a, 2, 6, [0x2001, 0xdb8], []);
    CompressedText();
  }

  // ---------------------------------------------------------------- parsing

  /** A lower-case numeral as toString() writes it is a field of its value. */
  lemma Field(f: string, n: nat)
    requires ToDigits(n, 16) == f
    ensures HexField(f) == Some(n)
  {
  }

  lemma FieldF53A()
    ensures HexField("F53A") == Some(0xf53a)
  {
    assert "F53A"[..3] == "F53" && "F53"[..2] == "F5" && "F5"[..1] == "F" && "F"[..0] == "";
    assert DigitsValue("F5", 16) == 0xf5;
    assert DigitsValue("F53A", 16) == 0xf53a;
  }

  lemma UpperCaseFields(fs: seq<string>)
    requires fs == ["2001", "db8", "F53A"]
    ensures HexFieldsAre(fs, [0x2001, 0xdb8, 0xf53a])
  {
    Numeral2001();
    Field("2001", 0x2001);
    NumeralDb8();
    Field("db8", 0xdb8);
    FieldF53A();
  }

  lemma OneField(fs: seq<string>)
    requires fs == ["1"]
    ensures HexFieldsAre(fs, [1])
  {
    Field("1", 1);
  }

  lemma UpperCaseText()
    ensures Join(["2001", "db8", "F53A"], ':') + "::" + Join(["1"], ':') == "2001:db8:F53A::1"
  {
  }

  /** Upper-case digits are read like lower-case ones. */
  lemma ParsesUpperCase()
    ensures IsIPv6("2001:db8:F53A::1")
    ensures IsValid("2001:db8:F53A::1")
    ensures Parse("2001:db8:F53A::1") == Some(Address([0x2001, 0xdb8, 0xf53a, 0, 0, 0, 0, 1]))
  {
    UpperCaseFields(["2001", "db8", "F53A"]);
    OneField(["1"]);
    UpperCaseText();
    ParsesCompressed("2001:db8:F53A::1", ["2001", "db8", "F53A"], [0x2001, 0xdb8, 0xf53a], ["1"], [1],
      [0x2001, 0xdb8, 0xf53a, 0, 0, 0, 0, 1]);
  }

  lemma FieldWide()
    ensures HexField("200001") == Some(0x200001)
  {
    assert "200001"[..5] == "20000" && "20000"[..4] == "2000" && "2000"[..3] == "200";
    assert "200"[..2] == "20" && "20"[..1] == "2" && "2"[..0] == "";
    assert DigitsValue("200", 16) == 0x200;
    assert DigitsValue("200001", 16) == 0x200001;
  }

  lemma WideGroupExpands(s: string, y: string)
    requires y == "1" && s == "200001::" + y
    ensures Expand(s) == Some([0x200001, 0, 0, 0, 0, 0, 0, 1])
  {
    FieldWide();
    OneField([y]);
    assert s == Join(["200001"], ':') + "::" + Join([y], ':');
    ExpandCompressed(["200001"], [0x200001], [y], [1]);
    var z := Zeros(6);
    assert [0x200001] + z + [1] == [0x200001, z[0], z[1], z[2], z[3], z[4], z[5], 1];
  }

  /** A group wider than 16 bits is read by isIPv6() but refused by
      isValid(). */
  lemma WideGroupIsNotValid()
    ensures IsIPv6("200001::1") && !IsValid("200001::1")
  {
    WideGroupExpands("200001::1", "1");
    assert Expand("200001::1").value[0] > 0xffff;
  }

  /** A section that is a word is no section. */
  lemma WordSection()
    ensures Section("wtf", true).None?
  {
    SplitWithoutSep("wtf", ':');
    assert !IsDigit("wtf"[0], 16);
  }

  lemma RejectsWord()
    ensures !IsIPv6("fe80::wtf") && !IsValid("fe80::wtf")
  {
    WordSection();
    ExpandRejectsRest("fe80::wtf", "fe80", "wtf");
  }

  /** A trailing colon leaves an empty last field. */
  lemma TrailingColonSection()
    ensures Section("2:", true).None?
  {
    SplitJoin(["2", ""], ':');
    assert Join(["2", ""], ':') == "2:";
    HexFieldsReject(["2", ""], 1);
  }

  lemma RejectsTrailingColon()
    ensures !IsValid("2002::2:")
  {
    TrailingColonSection();
    ExpandRejectsRest("2002::2:", "2002", "2:");
  }

  lemma SecondDoubleColonText()
    ensures "2001:db8" + "::" + "F53A" + "::" + "1" == "2001:db8::F53A::1"
  {
  }

  lemma RejectsSecondDoubleColon()
    ensures !IsValid("2001:db8::F53A::1")
  {
    SecondDoubleColonText();
    TwoDoubleColons("2001:db8", "F53A", "1");
    ValidIsIPv6("2001:db8::F53A::1");
  }

  lemma RejectsAbsent()
    ensures !IsValidInput(None)
  {
  }

  // ------------------------------------------------------------ IPv4 tails

  lemma MappedText()
    ensures "::ffff:" + "192.168.1.1" == "::ffff:192.168.1.1"
  {
  }

  lemma MappedParts(v: IPv4.Address)
    requires v == IPv4.Address([192, 168, 1, 1])
    ensures IPv4.Valid(v)
    ensures [0, 0, 0, 0, 0, 0xffff] + EmbeddedGroups(v.octets) == [0, 0, 0, 0, 0, 0xffff, 0xc0a8, 0x0101]
  {
  }

  lemma ParsesMappedText(s: string, t: string)
    requires t == "192.168.1.1" && s == "::ffff:" + t
    ensures Parse(s) == Some(Address([0, 0, 0, 0, 0, 0xffff, 0xc0a8, 0x0101]))
  {
    var v := IPv4.Address([192, 168, 1, 1]);
    IPv4Examples.Rendering();
    MappedParts(v);
    ParseMapped(v);
  }

  /** An IPv4-mapped address is an IPv6 address. */
  lemma ParsesMapped()
    ensures IsIPv6("::ffff:192.168.1.1") && IsValid("::ffff:192.168.1.1")
    ensures Parse("::ffff:192.168.1.1") == Some(Address([0, 0, 0, 0, 0, 0xffff, 0xc0a8, 0x0101]))
  {
    ParsesMappedText("::ffff:192.168.1.1", "192.168.1.1");
  }

  /** A tail whose four groups are read but exceed an octet is no IPv4
      address. */
  lemma TailRejects(t: string, gs: seq<string>, vals: seq<nat>)
    requires |gs| == 4 && |vals| == 4 && Join(gs, '.') == t
    requires forall i :: 0 <= i < 4 ==> '.' !in gs[i] && IPv4.GroupValue(gs[i]) == Some(vals[i])
    requires !IPv4.ValidOctets(vals)
    ensures IPv4Tail(t).None?
  {
    SplitJoin(gs, '.');
    IPv4Examples.Groups(gs, vals);
  }

  lemma WideOctetGroups(gs: seq<string>, vals: seq<nat>)
    requires gs == ["300", "168", "1", "1"] && vals == [300, 168, 1, 1]
    ensures forall i :: 0 <= i < 4 ==> '.' !in gs[i] && IPv4.GroupValue(gs[i]) == Some(vals[i])
  {
    IPv4Examples.DecimalGroup("300", 300);
    IPv4Examples.DecimalGroup("168", 168);
    IPv4Examples.DecimalGroup("1", 1);
  }

  lemma WideOctetJoin()
    ensures Join(["300", "168", "1", "1"], '.') == "300.168.1.1"
  {
  }

  lemma WideOctetTail()
    ensures IPv4Tail("300.168.1.1").None?
  {
    WideOctetGroups(["300", "168", "1", "1"], [300, 168, 1, 1]);
    WideOctetJoin();
    TailRejects("300.168.1.1", ["300", "168", "1", "1"], [300, 168, 1, 1]);
  }

  lemma WideLastOctetGroups(gs: seq<string>, vals: seq<nat>)
    requires gs == ["222", "1", "41", "9000"] && vals == [222, 1, 41, 9000]
    ensures forall i :: 0 <= i < 4 ==> '.' !in gs[i] && IPv4.GroupValue(gs[i]) == Some(vals[i])
  {
    Group222();
    IPv4Examples.DecimalGroup("1", 1);
    Group41();
    Group9000();
  }

  lemma Group222()
    ensures '.' !in "222" && IPv4.GroupValue("222") == Some(222)
  {
    IPv4Examples.DecimalGroup("222", 222);
  }

  lemma Group41()
    ensures '.' !in "41" && IPv4.GroupValue("41") == Some(41)
  {
    IPv4Examples.DecimalGroup("41", 41);
  }

  lemma Group9000()
    ensures '.' !in "9000" && IPv4.GroupValue("9000") == Some(9000)
  {
    IPv4Examples.DecimalGroup("9000", 9000);
  }

  lemma WideLastOctetJoin()
    ensures Join(["222", "1", "41", "9000"], '.') == "222.1.41.9000"
  {
  }

  lemma WideLastOctetTail()
    ensures IPv4Tail("222.1.41.9000").None?
  {
    WideLastOctetGroups(["222", "1", "41", "9000"], [222, 1, 41, 9000]);
    WideLastOctetJoin();
    TailRejects("222.1.41.9000", ["222", "1", "41", "9000"], [222, 1, 41, 9000]);
  }

  /** "::ffff:" followed by a dotted tail that is refused. */
  lemma RejectsMappedTail(s: string, t: string)
    requires s == "::ffff:" + t
    requires |t| >= 1 && ':' !in t && '.' in t && IPv4Tail(t).None?
    ensures Expand(s).None?
  {
    SectionRejectsTail(["ffff"], t);
    assert Join(["ffff"] + [t], ':') == "ffff:" + t;
    ExpandRejectsRest(s, "", "ffff:" + t);
  }

  lemma WideOctetTailFacts(t: string)
    requires t == "300.168.1.1"
    ensures |t| >= 1 && ':' !in t && '.' in t && IPv4Tail(t).None?
  {
    WideOctetTail();
    WideOctetChars();
  }

  lemma WideOctetChars()
    ensures |"300.168.1.1"| >= 1 && ':' !in "300.168.1.1" && '.' in "300.168.1.1"
  {
    assert "300.168.1.1"[3] == '.';
  }

  lemma WideOctetExpand(s: string, t: string)
    requires t == "300.168.1.1" && s == "::ffff:" + t
    ensures Expand(s).None?
  {
    WideOctetTailFacts(t);
    RejectsMappedTail(s, t);
  }

  lemma RejectsWideOctet()
    ensures !IsIPv6("::ffff:300.168.1.1") && !IsValid("::ffff:300.168.1.1")
  {
    WideOctetExpand("::ffff:300.168.1.1", "300.168.1.1");
    ValidIsIPv6("::ffff:300.168.1.1");
  }

  lemma WideLastOctetTailFacts(t: string)
    requires t == "222.1.41.9000"
    ensures |t| >= 1 && ':' !in t && '.' in t && IPv4Tail(t).None?
  {
    WideLastOctetTail();
    WideLastOctetChars();
  }

  lemma WideLastOctetChars()
    ensures |"222.1.41.9000"| >= 1 && ':' !in "222.1.41.9000" && '.' in "222.1.41.9000"
  {
    assert "222.1.41.9000"[3] == '.';
  }

  lemma WideLastOctetExpand(s: string, t: string)
    requires t == "222.1.41.9000" && s == "::ffff:" + t
    ensures Expand(s).None?
  {
    WideLastOctetTailFacts(t);
    RejectsMappedTail(s, t);
  }

  lemma RejectsWideLastOctet()
    ensures !IsValid("::ffff:222.1.41.9000")
  {
    WideLastOctetExpand("::ffff:222.1.41.9000", "222.1.41.9000");
    ValidIsIPv6("::ffff:222.1.41.9000");
  }

  /** A dotted field that is not the last is not a hexadecimal field. */
  lemma InnerDottedJoin()
    ensures Join(["ffff", "300.168.1.1", "0"], ':') == "ffff:300.168.1.1:0"
  {
  }

  lemma InnerDottedField(f: string)
    requires f == "300.168.1.1"
    ensures HexField(f).None?
  {
    assert !IsDigit(f[3], 16);
  }

  lemma InnerDottedFields(fs: seq<string>)
    requires fs == ["ffff", "300.168.1.1", "0"]
    ensures forall i :: 0 <= i < |fs| ==> ':' !in fs[i]
  {
  }

  lemma InnerDottedSection(y: string)
    requires y == "ffff:300.168.1.1:0"
    ensures Section(y, true).None?
  {
    var fs := ["ffff", "300.168.1.1", "0"];
    InnerDottedJoin();
    InnerDottedFields(fs);
    InnerDottedField(fs[1]);
    SplitJoin(fs, ':');
    HexFieldsReject(fs, 1);
  }

  lemma InnerDottedExpand(s: string, y: string)
    requires y == "ffff:300.168.1.1:0" && s == "::" + y
    ensures Expand(s).None?
  {
    InnerDottedSection(y);
    assert s == "" + "::" + y;
    ExpandRejectsRest(s, "", y);
  }

  lemma RejectsInnerDotted()
    ensures !IsIPv6("::ffff:300.168.1.1:0") && !IsValid("::ffff:300.168.1.1:0")
  {
    InnerDottedExpand("::ffff:300.168.1.1:0", "ffff:300.168.1.1:0");
    ValidIsIPv6("::ffff:300.168.1.1:0");
  }

  // ------------------------------------------------------------- parse()

  /** The value of a numeral of up to four hexadecimal digits, digit by digit. */
  lemma Digits(f: string)
    requires 1 <= |f| <= 4 && AllDigits(f, 16)
    ensures |f| == 1 ==> DigitsValue(f, 16) == DigitValue(f[0])
    ensures |f| == 2 ==> DigitsValue(f, 16) == DigitValue(f[0]) * 16 + DigitValue(f[1])
    ensures |f| == 3 ==> DigitsValue(f, 16) == (DigitValue(f[0]) * 16 + DigitValue(f[1])) * 16 + DigitValue(f[2])
    ensures |f| == 4 ==> (DigitsValue(f, 16) ==
      ((DigitValue(f[0]) * 16 + DigitValue(f[1])) * 16 + DigitValue(f[2])) * 16 + DigitValue(f[3]))
  {
    var f3 := f[..|f| - 1];
    if |f| >= 2 {
      var f2 := f3[..|f3| - 1];
      if |f| >= 3 {
        var f1 := f2[..|f2| - 1];
        if |f| == 4 {
          assert DigitsValue(f1[..0], 16) == 0;
        }
      }
    }
  }

  /** A field of one to four digits of either case. */
  lemma HexDigits(f: string, n: nat)
    requires 1 <= |f| <= 4 && AllDigits(f, 16)
    requires |f| == 1 ==> n == DigitValue(f[0])
    requires |f| == 2 ==> n == DigitValue(f[0]) * 16 + DigitValue(f[1])
    requires |f| == 3 ==> n == (DigitValue(f[0]) * 16 + DigitValue(f[1])) * 16 + DigitValue(f[2])
    requires |f| == 4 ==> (n ==
      ((DigitValue(f[0]) * 16 + DigitValue(f[1])) * 16 + DigitValue(f[2])) * 16 + DigitValue(f[3]))
    ensures HexField(f) == Some(n)
  {
    Digits(f);
  }

  /** Numerals around one "::" expand to the groups of the address. */
  lemma ExpandsTo(s: string, hs: seq<string>, hv: seq<nat>, ts: seq<string>, tv: seq<nat>, parts: seq<nat>)
    requires s == Join(hs, ':') + "::" + Join(ts, ':')
    requires HexFieldsAre(hs, hv) && HexFieldsAre(ts, tv) && |hv| + |tv| <= 8
    requires |parts| == 8 && parts[..|hv|] == hv && parts[8 - |tv|..] == tv
    requires forall i :: |hv| <= i < 8 - |tv| ==> parts[i] == 0
    ensures Expand(s) == Some(parts)
  {
    ExpandCompressed(hs, hv, ts, tv);
    var z := Zeros(8 - |hv| - |tv|);
    var e := hv + z + tv;
    assert |e| == 8;
    forall i | 0 <= i < 8
      ensures e[i] == parts[i]
    {
      if i < |hv| {
        assert parts[..|hv|][i] == parts[i];
      } else if i >= 8 - |tv| {
        assert parts[8 - |tv|..][i - (8 - |tv|)] == parts[i];
      }
    }
    assert e == parts;
  }

  /** Numerals around one "::" whose expansion is eight groups of at most
      0xffff parse to that address. */
  lemma ParsesCompressed(s: string, hs: seq<string>, hv: seq<nat>, ts: seq<string>, tv: seq<nat>, parts: seq<nat>)
    requires s == Join(hs, ':') + "::" + Join(ts, ':')
    requires HexFieldsAre(hs, hv) && HexFieldsAre(ts, tv) && |hv| + |tv| <= 8
    requires |parts| == 8 && parts[..|hv|] == hv && parts[8 - |tv|..] == tv
    requires forall i :: |hv| <= i < 8 - |tv| ==> parts[i] == 0
    requires forall i :: 0 <= i < 8 ==> parts[i] <= 0xffff
    requires ShortFields(hs) && ShortFields(ts)
    ensures IsValid(s) && Parse(s) == Some(Address(parts))
  {
    ExpandsTo(s, hs, hv, ts, tv, parts);
    NarrowCompressed(hs, ts);
    ParseOfExpand(s, parts);
  }

  lemma LinkLocalFields(hs: seq<string>, ts: seq<string>)
    requires hs == ["fe80"] && ts == ["10"]
    ensures HexFieldsAre(hs, [0xfe80]) && HexFieldsAre(ts, [0x10])
  {
    HexDigits("fe80", 0xfe80);
    HexDigits("10", 0x10);
  }

  lemma LinkLocalText()
    ensures "fe80::10" == Join(["fe80"], ':') + "::" + Join(["10"], ':')
  {
  }

  lemma ParsesLinkLocal()
    ensures Parse("fe80::10") == Some(Address([0xfe80, 0, 0, 0, 0, 0, 0, 0x10]))
  {
    LinkLocalFields(["fe80"], ["10"]);
    LinkLocalText();
    ParsesCompressed("fe80::10", ["fe80"], [0xfe80], ["10"], [0x10], [0xfe80, 0, 0, 0, 0, 0, 0, 0x10]);
  }

  lemma FullFields(fs: seq<string>)
    requires fs == ["2001", "db8", "F53A", "0", "0", "0", "0", "1"]
    ensures HexFieldsAre(fs, [0x2001, 0xdb8, 0xf53a, 0, 0, 0, 0, 1])
  {
    HexDigits("2001", 0x2001);
    HexDigits("db8", 0xdb8);
    HexDigits("F53A", 0xf53a);
    HexDigits("0", 0);
    HexDigits("1", 1);
  }

  lemma FullHead()
    ensures Join(["2001", "db8", "F53A", "0"], ':') == "2001:db8:F53A:0"
  {
  }

  lemma FullHalves()
    ensures Join(["2001", "db8", "F53A", "0"], ':') + ":" + Join(["0", "0", "0", "1"], ':') == "2001:db8:F53A:0:0:0:0:1"
  {
    FullHead();
    ZerosThenOne();
    assert "2001:db8:F53A:0" + ":" + "0:0:0:1" == "2001:db8:F53A:0:0:0:0:1";
  }

  lemma FullText()
    ensures Join(["2001", "db8", "F53A", "0", "0", "0", "0", "1"], ':') == "2001:db8:F53A:0:0:0:0:1"
  {
    JoinAppend(["2001", "db8", "F53A", "0"], ["0", "0", "0", "1"], ':');
    assert ["2001", "db8", "F53A", "0"] + ["0", "0", "0", "1"] == ["2001", "db8", "F53A", "0", "0", "0", "0", "1"];
    FullHalves();
  }

  lemma FullGroupsFit(vs: seq<nat>)
    requires vs == [0x2001, 0xdb8, 0xf53a, 0, 0, 0, 0, 1]
    ensures |vs| == 8 && forall i :: 0 <= i < 8 ==> vs[i] <= 0xffff
  {
  }

  lemma FullNarrow(s: string)
    requires s == "2001:db8:F53A:0:0:0:0:1"
    ensures NarrowFields(s)
  {
    FullText();
    NarrowJoin(["2001", "db8", "F53A", "0", "0", "0", "0", "1"]);
  }

  lemma FullParse(s: string)
    requires s == "2001:db8:F53A:0:0:0:0:1"
    ensures Parse(s) == Some(Address([0x2001, 0xdb8, 0xf53a, 0, 0, 0, 0, 1]))
  {
    var fs := ["2001", "db8", "F53A", "0", "0", "0", "0", "1"];
    var vs: seq<nat> := [0x2001, 0xdb8, 0xf53a, 0, 0, 0, 0, 1];
    FullText();
    FullFields(fs);
    ExpandFull(fs, vs);
    assert Expand(s) == Some(vs);
    FullGroupsFit(vs);
    FullNarrow(s);
    ParseOfExpand(s, vs);
  }

  /** All eight groups written out, with upper-case digits. */
  lemma ParsesFull()
    ensures Parse("2001:db8:F53A:0:0:0:0:1") == Some(Address([0x2001, 0xdb8, 0xf53a, 0, 0, 0, 0, 1]))
  {
    FullParse("2001:db8:F53A:0:0:0:0:1");
  }

  lemma TrailingText()
    ensures "2001:db8:F53A::" == Join(["2001", "db8", "F53A"], ':') + "::" + Join([], ':')
  {
  }

  /** "::" at the end stands for the trailing zero groups. */
  lemma ParsesTrailing()
    ensures Parse("2001:db8:F53A::") == Some(Address([0x2001, 0xdb8, 0xf53a, 0, 0, 0, 0, 0]))
  {
    UpperCaseFields(["2001", "db8", "F53A"]);
    TrailingText();
    ParsesCompressed("2001:db8:F53A::", ["2001", "db8", "F53A"], [0x2001, 0xdb8, 0xf53a], [], [],
      [0x2001, 0xdb8, 0xf53a, 0, 0, 0, 0, 0]);
  }

  lemma LoopbackText()
    ensures "::1" == Join([], ':') + "::" + Join(["1"], ':')
    ensures "::" == Join([], ':') + "::" + Join([], ':')
  {
  }

  /** "::" at the start stands for the leading zero groups. */
  lemma ParsesLoopback()
    ensures Parse("::1") == Some(Address([0, 0, 0, 0, 0, 0, 0, 1]))
  {
    OneField(["1"]);
    LoopbackText();
    ParsesCompressed("::1", [], [], ["1"], [1], [0, 0, 0, 0, 0, 0, 0, 1]);
  }

  /** "::" alone is the unspecified address. */
  lemma ParsesUnspecified()
    ensures Parse("::") == Some(Address([0, 0, 0, 0, 0, 0, 0, 0]))
  {
    LoopbackText();
    ParsesCompressed("::", [], [], [], [], [0, 0, 0, 0, 0, 0, 0, 0]);
  }

  lemma FiveDigitField()
    ensures HexFieldsAre(["00001"], [1])
  {
    HexDigits("0001", 1);
    LeadingZero("0001", 16);
    assert "0" + "0001" == "00001";
  }

  lemma FiveDigitExpand(s: string)
    requires s == "::00001"
    ensures Expand(s) == Some([0, 0, 0, 0, 0, 0, 0, 1])
  {
    FiveDigitField();
    assert s == Join([], ':') + "::" + Join(["00001"], ':');
    ExpandsTo(s, [], [], ["00001"], [1], [0, 0, 0, 0, 0, 0, 0, 1]);
  }

  lemma FiveDigitWide(s: string)
    requires s == "::00001"
    ensures !NarrowFields(s)
  {
    assert s == ":" + [':'] + "00001";
    WideFieldIsNotNarrow(":", "00001");
  }

  /** A group of five digits is IPv6 but not valid, although its value fits
      in 16 bits: the strict reading takes at most four digits per group. */
  lemma FiveDigitFieldIsNotValid()
    ensures Expand("::00001") == Some([0, 0, 0, 0, 0, 0, 0, 1])
    ensures IsIPv6("::00001") && !IsValid("::00001")
  {
    FiveDigitExpand("::00001");
    FiveDigitWide("::00001");
  }

  lemma BarfsText()
    ensures "fe80" + "::" + "0" + "::" + "1" == "fe80::0::1"
  {
  }

  /** A second "::" makes parse() fail. */
  lemma BarfsAtSecondDoubleColon()
    ensures Parse("fe80::0::1") == None
  {
    BarfsText();
    TwoDoubleColons("fe80", "0", "1");
    ValidIsIPv6("fe80::0::1");
  }

  // ----------------------------------------------------------------- match()

  lemma Fields(fs: seq<string>, vs: seq<nat>)
    requires |fs| == |vs| <= 3
    requires |fs| >= 1 ==> HexField(fs[0]) == Some(vs[0])
    requires |fs| >= 2 ==> HexField(fs[1]) == Some(vs[1])
    requires |fs| >= 3 ==> HexField(fs[2]) == Some(vs[2])
    ensures HexFieldsAre(fs, vs)
  {
  }

  lemma BaseText()
    ensures "2001:db8:f53a::1" == Join(["2001", "db8", "f53a"], ':') + "::" + Join(["1"], ':')
  {
  }

  lemma BaseFields(hs: seq<string>, ts: seq<string>)
    requires hs == ["2001", "db8", "f53a"] && ts == ["1"]
    ensures HexFieldsAre(hs, [0x2001, 0xdb8, 0xf53a]) && HexFieldsAre(ts, [1])
  {
    HexDigits("2001", 0x2001);
    HexDigits("db8", 0xdb8);
    HexDigits("f53a", 0xf53a);
    HexDigits("1", 1);
    Fields(hs, [0x2001, 0xdb8, 0xf53a]);
    Fields(ts, [1]);
  }

  lemma BaseParse(s: string)
    requires s == "2001:db8:f53a::1"
    ensures Parse(s) == Some(Address([0x2001, 0xdb8, 0xf53a, 0, 0, 0, 0, 1]))
  {
    BaseFields(["2001", "db8", "f53a"], ["1"]);
    BaseText();
    ParsesCompressed(s, ["2001", "db8", "f53a"], [0x2001, 0xdb8, 0xf53a], ["1"], [1], [0x2001, 0xdb8, 0xf53a, 0, 0, 0, 0, 1]);
  }

  lemma SameSlash64Text()
    ensures "2001:db8:f53a::1:1" == Join(["2001", "db8", "f53a"], ':') + "::" + Join(["1", "1"], ':')
  {
  }

  lemma SameSlash64Fields(hs: seq<string>, ts: seq<string>)
    requires hs == ["2001", "db8", "f53a"] && ts == ["1", "1"]
    ensures HexFieldsAre(hs, [0x2001, 0xdb8, 0xf53a]) && HexFieldsAre(ts, [1, 1])
  {
    HexDigits("2001", 0x2001);
    HexDigits("db8", 0xdb8);
    HexDigits("f53a", 0xf53a);
    HexDigits("1", 1);
    Fields(hs, [0x2001, 0xdb8, 0xf53a]);
    Fields(ts, [1, 1]);
  }

  lemma SameSlash64Parse(s: string)
    requires s == "2001:db8:f53a::1:1"
    ensures Parse(s) == Some(Address([0x2001, 0xdb8, 0xf53a, 0, 0, 0, 1, 1]))
  {
    SameSlash64Fields(["2001", "db8", "f53a"], ["1", "1"]);
    SameSlash64Text();
    ParsesCompressed(s, ["2001", "db8", "f53a"], [0x2001, 0xdb8, 0xf53a], ["1", "1"], [1, 1], [0x2001, 0xdb8, 0xf53a, 0, 0, 0, 1, 1]);
  }

  lemma OtherSlash48Text()
    ensures "2001:db8:f53b::1:1" == Join(["2001", "db8", "f53b"], ':') + "::" + Join(["1", "1"], ':')
  {
  }

  lemma OtherSlash48Fields(hs: seq<string>, ts: seq<string>)
    requires hs == ["2001", "db8", "f53b"] && ts == ["1", "1"]
    ensures HexFieldsAre(hs, [0x2001, 0xdb8, 0xf53b]) && HexFieldsAre(ts, [1, 1])
  {
    HexDigits("2001", 0x2001);
    HexDigits("db8", 0xdb8);
    HexDigits("f53b", 0xf53b);
    HexDigits("1", 1);
    Fields(hs, [0x2001, 0xdb8, 0xf53b]);
    Fields(ts, [1, 1]);
  }

  lemma OtherSlash48Parse(s: string)
    requires s == "2001:db8:f53b::1:1"
    ensures Parse(s) == Some(Address([0x2001, 0xdb8, 0xf53b, 0, 0, 0, 1, 1]))
  {
    OtherSlash48Fields(["2001", "db8", "f53b"], ["1", "1"]);
    OtherSlash48Text();
    ParsesCompressed(s, ["2001", "db8", "f53b"], [0x2001, 0xdb8, 0xf53b], ["1", "1"], [1, 1], [0x2001, 0xdb8, 0xf53b, 0, 0, 0, 1, 1]);
  }

  lemma SameSlash44Text()
    ensures "2001:db8:f531::1:1" == Join(["2001", "db8", "f531"], ':') + "::" + Join(["1", "1"], ':')
  {
  }

  lemma SameSlash44Fields(hs: seq<string>, ts: seq<string>)
    requires hs == ["2001", "db8", "f531"] && ts == ["1", "1"]
    ensures HexFieldsAre(hs, [0x2001, 0xdb8, 0xf531]) && HexFieldsAre(ts, [1, 1])
  {
    HexDigits("2001", 0x2001);
    HexDigits("db8", 0xdb8);
    HexDigits("f531", 0xf531);
    HexDigits("1", 1);
    Fields(hs, [0x2001, 0xdb8, 0xf531]);
    Fields(ts, [1, 1]);
  }

  lemma SameSlash44Parse(s: string)
    requires s == "2001:db8:f531::1:1"
    ensures Parse(s) == Some(Address([0x2001, 0xdb8, 0xf531, 0, 0, 0, 1, 1]))
  {
    SameSlash44Fields(["2001", "db8", "f531"], ["1", "1"]);
    SameSlash44Text();
    ParsesCompressed(s, ["2001", "db8", "f531"], [0x2001, 0xdb8, 0xf531], ["1", "1"], [1, 1], [0x2001, 0xdb8, 0xf531, 0, 0, 0, 1, 1]);
  }

  lemma SameSlash40Text()
    ensures "2001:db8:f500::1" == Join(["2001", "db8", "f500"], ':') + "::" + Join(["1"], ':')
  {
  }

  lemma SameSlash40Fields(hs: seq<string>, ts: seq<string>)
    requires hs == ["2001", "db8", "f500"] && ts == ["1"]
    ensures HexFieldsAre(hs, [0x2001, 0xdb8, 0xf500]) && HexFieldsAre(ts, [1])
  {
    HexDigits("2001", 0x2001);
    HexDigits("db8", 0xdb8);
    HexDigits("f500", 0xf500);
    HexDigits("1", 1);
    Fields(hs, [0x2001, 0xdb8, 0xf500]);
    Fields(ts, [1]);
  }

  lemma SameSlash40Parse(s: string)
    requires s == "2001:db8:f500::1"
    ensures Parse(s) == Some(Address([0x2001, 0xdb8, 0xf500, 0, 0, 0, 0, 1]))
  {
    SameSlash40Fields(["2001", "db8", "f500"], ["1"]);
    SameSlash40Text();
    ParsesCompressed(s, ["2001", "db8", "f500"], [0x2001, 0xdb8, 0xf500], ["1"], [1], [0x2001, 0xdb8, 0xf500, 0, 0, 0, 0, 1]);
  }

  lemma OtherSlash40Text()
    ensures "2001:db9:f500::1" == Join(["2001", "db9", "f500"], ':') + "::" + Join(["1"], ':')
  {
  }

  lemma OtherSlash40Fields(hs: seq<string>, ts: seq<string>)
    requires hs == ["2001", "db9", "f500"] && ts == ["1"]
    ensures HexFieldsAre(hs, [0x2001, 0xdb9, 0xf500]) && HexFieldsAre(ts, [1])
  {
    HexDigits("2001", 0x2001);
    HexDigits("db9", 0xdb9);
    HexDigits("f500", 0xf500);
    HexDigits("1", 1);
    Fields(hs, [0x2001, 0xdb9, 0xf500]);
    Fields(ts, [1]);
  }

  lemma OtherSlash40Parse(s: string)
    requires s == "2001:db9:f500::1"
    ensures Parse(s) == Some(Address([0x2001, 0xdb9, 0xf500, 0, 0, 0, 0, 1]))
  {
    OtherSlash40Fields(["2001", "db9", "f500"], ["1"]);
    OtherSlash40Text();
    ParsesCompressed(s, ["2001", "db9", "f500"], [0x2001, 0xdb9, 0xf500], ["1"], [1], [0x2001, 0xdb9, 0xf500, 0, 0, 0, 0, 1]);
  }

  /** match() on parsed texts is match() on the addresses they denote. */
  lemma MatchesParsed(sa: string, sb: string, a: Address, b: Address, n: int)
    requires Parse(sa) == Some(a) && Parse(sb) == Some(b)
    ensures Valid(a) && Valid(b)
    ensures Match(Parse(sa).value, Parse(sb).value, n) == Match(a, b, n)
  {
  }

  lemma UnspecifiedGroups()
    ensures Match(Address([0x2001, 0xdb8, 0xf53a, 0, 0, 0, 0, 1]), Address([0, 0, 0, 0, 0, 0, 0, 0]), 0)
  {
    Pow2Values();
  }

  lemma MatchesUnspecified()
    ensures Parse("2001:db8:f53a::1").Some? && Parse("::").Some?
    ensures Match(Parse("2001:db8:f53a::1").value, Parse("::").value, 0)
  {
    BaseParse("2001:db8:f53a::1");
    ParsesUnspecified();
    UnspecifiedGroups();
    MatchesParsed("2001:db8:f53a::1", "::", Address([0x2001, 0xdb8, 0xf53a, 0, 0, 0, 0, 1]), Address([0, 0, 0, 0, 0, 0, 0, 0]), 0);
  }

  lemma SameSlash64Groups()
    ensures Match(Address([0x2001, 0xdb8, 0xf53a, 0, 0, 0, 0, 1]), Address([0x2001, 0xdb8, 0xf53a, 0, 0, 0, 1, 1]), 64)
  {
    Pow2Values();
  }

  lemma MatchesSameSlash64()
    ensures Parse("2001:db8:f53a::1").Some? && Parse("2001:db8:f53a::1:1").Some?
    ensures Match(Parse("2001:db8:f53a::1").value, Parse("2001:db8:f53a::1:1").value, 64)
  {
    BaseParse("2001:db8:f53a::1");
    SameSlash64Parse("2001:db8:f53a::1:1");
    SameSlash64Groups();
    MatchesParsed("2001:db8:f53a::1", "2001:db8:f53a::1:1", Address([0x2001, 0xdb8, 0xf53a, 0, 0, 0, 0, 1]), Address([0x2001, 0xdb8, 0xf53a, 0, 0, 0, 1, 1]), 64);
  }

  lemma OtherSlash48Groups()
    ensures !Match(Address([0x2001, 0xdb8, 0xf53a, 0, 0, 0, 0, 1]), Address([0x2001, 0xdb8, 0xf53b, 0, 0, 0, 1, 1]), 48)
  {
    Pow2Values();
  }

  lemma MatchesOtherSlash48()
    ensures Parse("2001:db8:f53a::1").Some? && Parse("2001:db8:f53b::1:1").Some?
    ensures !Match(Parse("2001:db8:f53a::1").value, Parse("2001:db8:f53b::1:1").value, 48)
  {
    BaseParse("2001:db8:f53a::1");
    OtherSlash48Parse("2001:db8:f53b::1:1");
    OtherSlash48Groups();
    MatchesParsed("2001:db8:f53a::1", "2001:db8:f53b::1:1", Address([0x2001, 0xdb8, 0xf53a, 0, 0, 0, 0, 1]), Address([0x2001, 0xdb8, 0xf53b, 0, 0, 0, 1, 1]), 48);
  }

  lemma SameSlash44Groups()
    ensures Match(Address([0x2001, 0xdb8, 0xf53a, 0, 0, 0, 0, 1]), Address([0x2001, 0xdb8, 0xf531, 0, 0, 0, 1, 1]), 44)
  {
    Pow2Values();
  }

  lemma MatchesSameSlash44()
    ensures Parse("2001:db8:f53a::1").Some? && Parse("2001:db8:f531::1:1").Some?
    ensures Match(Parse("2001:db8:f53a::1").value, Parse("2001:db8:f531::1:1").value, 44)
  {
    BaseParse("2001:db8:f53a::1");
    SameSlash44Parse("2001:db8:f531::1:1");
    SameSlash44Groups();
    MatchesParsed("2001:db8:f53a::1", "2001:db8:f531::1:1", Address([0x2001, 0xdb8, 0xf53a, 0, 0, 0, 0, 1]), Address([0x2001, 0xdb8, 0xf531, 0, 0, 0, 1, 1]), 44);
  }

  lemma SameSlash40Groups()
    ensures Match(Address([0x2001, 0xdb8, 0xf53a, 0, 0, 0, 0, 1]), Address([0x2001, 0xdb8, 0xf500, 0, 0, 0, 0, 1]), 40)
  {
    Pow2Values();
  }

  lemma MatchesSameSlash40()
    ensures Parse("2001:db8:f53a::1").Some? && Parse("2001:db8:f500::1").Some?
    ensures Match(Parse("2001:db8:f53a::1").value, Parse("2001:db8:f500::1").value, 40)
  {
    BaseParse("2001:db8:f53a::1");
    SameSlash40Parse("2001:db8:f500::1");
    SameSlash40Groups();
    MatchesParsed("2001:db8:f53a::1", "2001:db8:f500::1", Address([0x2001, 0xdb8, 0xf53a, 0, 0, 0, 0, 1]), Address([0x2001, 0xdb8, 0xf500, 0, 0, 0, 0, 1]), 40);
  }

  lemma OtherSlash40Groups()
    ensures !Match(Address([0x2001, 0xdb8, 0xf53a, 0, 0, 0, 0, 1]), Address([0x2001, 0xdb9, 0xf500, 0, 0, 0, 0, 1]), 40)
  {
    Pow2Values();
  }

  lemma MatchesOtherSlash40()
    ensures Parse("2001:db8:f53a::1").Some? && Parse("2001:db9:f500::1").Some?
    ensures !Match(Parse("2001:db8:f53a::1").value, Parse("2001:db9:f500::1").value, 40)
  {
    BaseParse("2001:db8:f53a::1");
    OtherSlash40Parse("2001:db9:f500::1");
    OtherSlash40Groups();
    MatchesParsed("2001:db8:f53a::1", "2001:db9:f500::1", Address([0x2001, 0xdb8, 0xf53a, 0, 0, 0, 0, 1]), Address([0x2001, 0xdb9, 0xf500, 0, 0, 0, 0, 1]), 40);
  }

  /** The full prefix matches the address itself. */
  lemma MatchesItself()
    ensures Parse("2001:db8:f53a::1").Some?
    ensures Match(Parse("2001:db8:f53a::1").value, Parse("2001:db8:f53a::1").value, 128)
  {
    BaseParse("2001:db8:f53a::1");
  }
}
