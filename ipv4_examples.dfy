/** The IPv4 behaviour the library's test suite pins down, each case derived
    from the general properties of the model. */
module IPv4Examples {

  import opened Wrappers
  import opened Arith
  import opened Text
  import opened IPv4
  import opened IPv4Properties

  /** A text of one to four numerals is read group by group. */
  lemma {:induction false} Groups(gs: seq<string>, vals: seq<nat>)
    requires 1 <= |gs| <= 4 && |vals| == |gs|
    requires forall i :: 0 <= i < |gs| ==> '.' !in gs[i] && GroupValue(gs[i]) == Some(vals[i])
    ensures Parser(Join(gs, '.')) == Collapse(vals)
  {
    SplitJoin(gs, '.');
    assert GroupValues(gs).value == vals;
  }

  lemma Constructor()
    ensures FromOctets([192, 168, 1, 2]).Some?
    ensures FromOctets([300, 1, 2, 3]) == None
    ensures FromOctets([8, 8, 8]) == None
    ensures FromOctets([42, 0, 0, 0]).value.octets[0] == 42
  {
    assert [300, 1, 2, 3][0] == 300;
  }

  lemma Rendering()
    ensures ToString(Address([192, 168, 1, 1])) == "192.168.1.1"
  {
    DottedText();
    var d := Decimals([192, 168, 1, 1]);
    assert d[0] == "192" && d[1] == "168" && d[2] == "1" && d[3] == "1";
    assert d == ["192", "168", "1", "1"];
  }

  /** A decimal numeral as toString() writes it. */
  lemma DecimalGroup(g: string, n: nat)
    requires ToDigits(n, 10) == g
    ensures GroupValue(g) == Some(n) && '.' !in g
  {
    GroupValueNumeral(n, Decimal);
    NumeralChars(n, Decimal);
  }

  /** A hexadecimal numeral with its "0x" prefix. */
  lemma HexGroup(g: string, n: nat)
    requires "0x" + ToDigits(n, 16) == g
    ensures GroupValue(g) == Some(n) && '.' !in g
  {
    GroupValueNumeral(n, Hexadecimal);
    NumeralChars(n, Hexadecimal);
  }

  /** An octal numeral with its leading "0". */
  lemma OctalGroup(g: string, n: nat)
    requires "0" + ToDigits(n, 8) == g
    ensures GroupValue(g) == Some(n) && '.' !in g
  {
    GroupValueNumeral(n, Octal);
    NumeralChars(n, Octal);
  }

  /** Four numerals are read one value each. */
  lemma FourGroups(t: string, gs: seq<string>, vals: seq<nat>)
    requires |gs| == 4 && |vals| == 4 && Join(gs, '.') == t
    requires forall i :: 0 <= i < 4 ==> '.' !in gs[i] && GroupValue(gs[i]) == Some(vals[i])
    ensures Parser(t) == Some(vals)
  {
    Groups(gs, vals);
  }

  // The texts of the tests, field by field (one lemma each: a literal text
  // is expensive for the solver to take apart).

  lemma OctalAndHexText()
    ensures Join(["192", "168", "007", "0xa"], '.') == "192.168.007.0xa"
  {
  }

  lemma OversizedGroupText()
    ensures Join(["1024", "0", "0", "1"], '.') == "1024.0.0.1"
  {
  }

  lemma HexGroupText()
    ensures Join(["0xc0", "168", "1", "1"], '.') == "0xc0.168.1.1"
  {
  }

  lemma OctalGroupText()
    ensures Join(["192", "0250", "1", "1"], '.') == "192.0250.1.1"
  {
  }

  lemma WordText()
    ensures Join(["8", "0xa", "wtf", "6"], '.') == "8.0xa.wtf.6"
  {
  }

  lemma WordLastText()
    ensures Join(["10", "0", "0", "wtf"], '.') == "10.0.0.wtf"
  {
  }

  // The lenient reading of each text the tests use, group by group.

  /** "007": a leading zero, then the octal numeral "07". */
  lemma PaddedOctalGroup()
    ensures GroupValue("007") == Some(7) && '.' !in "007"
  {
    LeadingZero("7", 8);
    assert "007"[1..] == "0" + "7";
  }

  lemma ReadsOctalAndHex()
    ensures Parser("192.168.007.0xa") == Some([192, 168, 7, 10])
  {
    PaddedOctalGroup();
    DecimalGroup("192", 192);
    DecimalGroup("168", 168);
    HexGroup("0xa", 10);
    OctalAndHexText();
    FourGroups("192.168.007.0xa", ["192", "168", "007", "0xa"], [192, 168, 7, 10]);
  }

  lemma ReadsOversizedGroup()
    ensures Parser("1024.0.0.1") == Some([1024, 0, 0, 1])
  {
    DecimalGroup("1024", 1024);
    DecimalGroup("0", 0);
    DecimalGroup("1", 1);
    OversizedGroupText();
    FourGroups("1024.0.0.1", ["1024", "0", "0", "1"], [1024, 0, 0, 1]);
  }

  lemma ReadsHexGroup()
    ensures Parser("0xc0.168.1.1") == Some([192, 168, 1, 1])
  {
    HexGroup("0xc0", 192);
    DecimalGroup("168", 168);
    DecimalGroup("1", 1);
    HexGroupText();
    FourGroups("0xc0.168.1.1", ["0xc0", "168", "1", "1"], [192, 168, 1, 1]);
  }

  lemma ReadsOctalGroup()
    ensures Parser("192.0250.1.1") == Some([192, 168, 1, 1])
  {
    DecimalGroup("192", 192);
    OctalGroup("0250", 168);
    DecimalGroup("1", 1);
    OctalGroupText();
    FourGroups("192.0250.1.1", ["192", "0250", "1", "1"], [192, 168, 1, 1]);
  }

  /** 192.168.1.1 as one 32-bit number. */
  lemma Uint32Example()
    ensures ToUint32(Address([192, 168, 1, 1])) == 3232235777
  {
    Uint32Octets(Address([192, 168, 1, 1]));
  }

  /** A single group holding the 32-bit number n of a, in some notation. */
  lemma ReadsSingleGroup(t: string, a: Address, n: nat, notation: Notation)
    requires Valid(a) && ToUint32(a) == n && Numeral(n, notation) == t
    ensures Parse(t) == Some(a)
  {
    Uint32RoundTrip(a, notation);
  }

  /** The octal-and-hex text is an address (isIPv4 and isValid both hold). */
  lemma AcceptsOctalAndHex()
    ensures IsIPv4("192.168.007.0xa") && IsValid("192.168.007.0xa")
  {
    ReadsOctalAndHex();
  }

  /** The oversized group passes isIPv4 but fails isValid. */
  lemma OversizedGroupIsNotValid()
    ensures IsIPv4("1024.0.0.1") && !IsValid("1024.0.0.1")
  {
    ReadsOversizedGroup();
  }

  lemma RejectsWord()
    ensures Parser("8.0xa.wtf.6") == None
  {
    SplitJoin(["8", "0xa", "wtf", "6"], '.');
    WordText();
    GroupValueRejects("wtf", 0);
  }

  /** A group that is a word fails both checks. */
  lemma WordIsNotIPv4()
    ensures !IsIPv4("8.0xa.wtf.6") && !IsValid("8.0xa.wtf.6")
  {
    RejectsWord();
  }

  lemma ParsesDottedDecimal()
    ensures Parse("192.168.1.1") == Some(Address([192, 168, 1, 1]))
  {
    DecimalGroup("192", 192);
    DecimalGroup("168", 168);
    DecimalGroup("1", 1);
    DottedText();
    FourGroups("192.168.1.1", ["192", "168", "1", "1"], [192, 168, 1, 1]);
  }

  lemma DottedText()
    ensures Join(["192", "168", "1", "1"], '.') == "192.168.1.1"
  {
  }

  /** A lenient reading of four octets is what parse() returns. */
  lemma ParseOfReading(t: string, os: seq<int>)
    requires Parser(t) == Some(os) && ValidOctets(os)
    ensures Parse(t) == Some(Address(os))
  {
  }

  lemma ParsesHexGroup()
    ensures Parse("0xc0.168.1.1") == Some(Address([192, 168, 1, 1]))
  {
    ReadsHexGroup();
    ParseOfReading("0xc0.168.1.1", [192, 168, 1, 1]);
  }

  lemma ParsesOctalGroup()
    ensures Parse("192.0250.1.1") == Some(Address([192, 168, 1, 1]))
  {
    ReadsOctalGroup();
    ParseOfReading("192.0250.1.1", [192, 168, 1, 1]);
  }

  lemma SingleHexText()
    ensures Numeral(3232235777, Hexadecimal) == "0xc0a80101"
  {
  }

  lemma ParsesSingleHex()
    ensures Parse("0xc0a80101") == Some(Address([192, 168, 1, 1]))
  {
    Uint32Example();
    SingleHexText();
    ReadsSingleGroup("0xc0a80101", Address([192, 168, 1, 1]), 3232235777, Hexadecimal);
  }

  lemma SingleOctalText()
    ensures Numeral(3232235777, Octal) == "030052000401"
  {
  }

  lemma ParsesSingleOctal()
    ensures Parse("030052000401") == Some(Address([192, 168, 1, 1]))
  {
    Uint32Example();
    SingleOctalText();
    ReadsSingleGroup("030052000401", Address([192, 168, 1, 1]), 3232235777, Octal);
  }

  lemma SingleDecimalText()
    ensures Numeral(3232235777, Decimal) == "3232235777"
  {
  }

  lemma ParsesSingleDecimal()
    ensures Parse("3232235777") == Some(Address([192, 168, 1, 1]))
  {
    Uint32Example();
    SingleDecimalText();
    ReadsSingleGroup("3232235777", Address([192, 168, 1, 1]), 3232235777, Decimal);
  }

  lemma BarfsOnWords()
    ensures Parse("10.0.0.wtf") == None
  {
    SplitJoin(["10", "0", "0", "wtf"], '.');
    WordLastText();
    GroupValueRejects("wtf", 0);
  }

  /** The answers of match() for 10.5.0.1 against the octets the test texts
      denote. */
  lemma MatchingValues()
    ensures var a := Address([10, 5, 0, 1]);
      && Match(a, Address([0, 0, 0, 0]), 0)
      && !Match(a, Address([11, 0, 0, 0]), 8)
      && Match(a, Address([10, 0, 0, 0]), 8)
      && Match(a, Address([10, 0, 0, 1]), 8)
      && Match(a, Address([10, 0, 0, 10]), 8)
      && Match(a, Address([10, 5, 5, 0]), 16)
      && !Match(a, Address([10, 4, 5, 0]), 16)
      && Match(a, Address([10, 4, 5, 0]), 15)
      && !Match(a, Address([10, 5, 0, 2]), 32)
      && Match(a, a, 32)
  {
    Pow2Values();
    assert Pow2(0) == 1 && Pow2(1) == 2;
  }

  // Digits of the numerals the tests write.

  lemma OneDigit(n: nat, s: string)
    requires n < 10 && |s| == 1 && s[0] as int == '0' as int + n
    ensures ToDigits(n, 10) == s
  {
  }

  lemma TwoDigits(n: nat, s: string)
    requires 10 <= n < 100 && |s| == 2
    requires s[0] as int == '0' as int + n / 10 && s[1] as int == '0' as int + n % 10
    ensures ToDigits(n, 10) == s
  {
    OneDigit(n / 10, s[..1]);
  }

  lemma ThreeDigits(n: nat, s: string)
    requires 100 <= n < 1000 && |s| == 3
    requires s[0] as int == '0' as int + n / 100
    requires s[1] as int == '0' as int + n / 10 % 10 && s[2] as int == '0' as int + n % 10
    ensures ToDigits(n, 10) == s
  {
    TwoDigits(n / 10, s[..2]);
  }

  /** The one-digit numerals the tests write. */
  lemma OneDigitNumerals()
    ensures ToDigits(0, 10) == "0"
    ensures ToDigits(1, 10) == "1"
    ensures ToDigits(2, 10) == "2"
    ensures ToDigits(3, 10) == "3"
    ensures ToDigits(4, 10) == "4"
    ensures ToDigits(5, 10) == "5"
    ensures ToDigits(8, 10) == "8"
  {
    OneDigit(0, "0");
    OneDigit(1, "1");
    OneDigit(2, "2");
    OneDigit(3, "3");
    OneDigit(4, "4");
    OneDigit(5, "5");
    OneDigit(8, "8");
  }

  /** The two-digit numerals the tests write. */
  lemma TwoDigitNumerals()
    ensures ToDigits(10, 10) == "10"
    ensures ToDigits(11, 10) == "11"
    ensures ToDigits(15, 10) == "15"
    ensures ToDigits(16, 10) == "16"
    ensures ToDigits(32, 10) == "32"
    ensures ToDigits(64, 10) == "64"
  {
    TwoDigits(10, "10");
    TwoDigits(11, "11");
    TwoDigits(15, "15");
    TwoDigits(16, "16");
    TwoDigits(32, "32");
    TwoDigits(64, "64");
  }

  /** The three-digit numerals the tests write. */
  lemma ThreeDigitNumerals()
    ensures ToDigits(100, 10) == "100"
    ensures ToDigits(127, 10) == "127"
    ensures ToDigits(168, 10) == "168"
    ensures ToDigits(169, 10) == "169"
    ensures ToDigits(192, 10) == "192"
    ensures ToDigits(224, 10) == "224"
    ensures ToDigits(240, 10) == "240"
    ensures ToDigits(254, 10) == "254"
    ensures ToDigits(255, 10) == "255"
  {
    ThreeDigits(100, "100");
    ThreeDigits(127, "127");
    ThreeDigits(168, "168");
    ThreeDigits(169, "169");
    ThreeDigits(192, "192");
    ThreeDigits(224, "224");
    ThreeDigits(240, "240");
    ThreeDigits(254, "254");
    ThreeDigits(255, "255");
  }

  /** Four numerals joined by dots, written out. */
  lemma JoinFour(d0: string, d1: string, d2: string, d3: string, sep: char)
    ensures Join([d0, d1, d2, d3], sep) == d0 + [sep] + d1 + [sep] + d2 + [sep] + d3
  {
    assert [d0, d1, d2, d3][1..] == [d1, d2, d3] && [d1, d2, d3][1..] == [d2, d3];
    assert [d2, d3][1..] == [d3];
    assert Join([d2, d3], sep) == d2 + [sep] + d3;
    assert Join([d1, d2, d3], sep) == d1 + [sep] + (d2 + [sep] + d3);
  }

  /** The octets of a, each written in decimal and joined by dots: the
      rendering of a. */
  lemma DottedDecimals(t: string, a: Address, d0: string, d1: string, d2: string, d3: string)
    requires Valid(a)
    requires ToDigits(a.octets[0], 10) == d0 && ToDigits(a.octets[1], 10) == d1
    requires ToDigits(a.octets[2], 10) == d2 && ToDigits(a.octets[3], 10) == d3
    requires d0 + "." + d1 + "." + d2 + "." + d3 == t
    ensures ToString(a) == t
  {
    var ds := Decimals(a.octets);
    assert ds == [d0, d1, d2, d3];
    JoinFour(d0, d1, d2, d3, '.');
  }

  /** A dotted-decimal text of the octets of a parses to a. */
  lemma Dotted(t: string, a: Address, d0: string, d1: string, d2: string, d3: string)
    requires Valid(a)
    requires ToDigits(a.octets[0], 10) == d0 && ToDigits(a.octets[1], 10) == d1
    requires ToDigits(a.octets[2], 10) == d2 && ToDigits(a.octets[3], 10) == d3
    requires d0 + "." + d1 + "." + d2 + "." + d3 == t
    ensures Parse(t) == Some(a)
  {
    DottedDecimals(t, a, d0, d1, d2, d3);
    ToStringRoundTrip(a);
  }

  /** A dotted-decimal text of the octets of a, then "/" and the decimal
      numeral of n, is read by parseCIDR as (a, n). */
  lemma Cidr(t: string, a: Address, n: nat, d0: string, d1: string, d2: string, d3: string, len: string)
    requires Valid(a) && n <= 32
    requires ToDigits(a.octets[0], 10) == d0 && ToDigits(a.octets[1], 10) == d1
    requires ToDigits(a.octets[2], 10) == d2 && ToDigits(a.octets[3], 10) == d3
    requires ToDigits(n, 10) == len
    requires d0 + "." + d1 + "." + d2 + "." + d3 + "/" + len == t
    ensures ParseCidr(t) == Some((a, n))
  {
    var dotted := d0 + "." + d1 + "." + d2 + "." + d3;
    DottedDecimals(dotted, a, d0, d1, d2, d3);
    ParseCidrRoundTrip(a, n);
  }

  // parse() of each address text of the match() test.

  lemma ParsesZeros()
    ensures Parse("0.0.0.0") == Some(Address([0, 0, 0, 0]))
  {
    OneDigitNumerals();
    Dotted("0.0.0.0", Address([0, 0, 0, 0]), "0", "0", "0", "0");
  }

  lemma ParsesEleven()
    ensures Parse("11.0.0.0") == Some(Address([11, 0, 0, 0]))
  {
    OneDigitNumerals();
    TwoDigitNumerals();
    Dotted("11.0.0.0", Address([11, 0, 0, 0]), "11", "0", "0", "0");
  }

  lemma ParsesTen()
    ensures Parse("10.0.0.0") == Some(Address([10, 0, 0, 0]))
  {
    OneDigitNumerals();
    TwoDigitNumerals();
    Dotted("10.0.0.0", Address([10, 0, 0, 0]), "10", "0", "0", "0");
  }

  lemma ParsesTenHostOne()
    ensures Parse("10.0.0.1") == Some(Address([10, 0, 0, 1]))
  {
    OneDigitNumerals();
    TwoDigitNumerals();
    Dotted("10.0.0.1", Address([10, 0, 0, 1]), "10", "0", "0", "1");
  }

  lemma ParsesTenHostTen()
    ensures Parse("10.0.0.10") == Some(Address([10, 0, 0, 10]))
  {
    OneDigitNumerals();
    TwoDigitNumerals();
    Dotted("10.0.0.10", Address([10, 0, 0, 10]), "10", "0", "0", "10");
  }

  lemma ParsesTenFiveFive()
    ensures Parse("10.5.5.0") == Some(Address([10, 5, 5, 0]))
  {
    OneDigitNumerals();
    TwoDigitNumerals();
    Dotted("10.5.5.0", Address([10, 5, 5, 0]), "10", "5", "5", "0");
  }

  lemma ParsesTenFour()
    ensures Parse("10.4.5.0") == Some(Address([10, 4, 5, 0]))
  {
    OneDigitNumerals();
    TwoDigitNumerals();
    Dotted("10.4.5.0", Address([10, 4, 5, 0]), "10", "4", "5", "0");
  }

  lemma ParsesTenFiveTwo()
    ensures Parse("10.5.0.2") == Some(Address([10, 5, 0, 2]))
  {
    OneDigitNumerals();
    TwoDigitNumerals();
    Dotted("10.5.0.2", Address([10, 5, 0, 2]), "10", "5", "0", "2");
  }

  /** match() of 10.5.0.1 against each parsed text and prefix length of the
      test, and against itself. */
  lemma Matching()
    ensures var a := Address([10, 5, 0, 1]);
      && Parse("0.0.0.0").Some? && Match(a, Parse("0.0.0.0").value, 0)
      && Parse("11.0.0.0").Some? && !Match(a, Parse("11.0.0.0").value, 8)
      && Parse("10.0.0.0").Some? && Match(a, Parse("10.0.0.0").value, 8)
      && Parse("10.0.0.1").Some? && Match(a, Parse("10.0.0.1").value, 8)
      && Parse("10.0.0.10").Some? && Match(a, Parse("10.0.0.10").value, 8)
      && Parse("10.5.5.0").Some? && Match(a, Parse("10.5.5.0").value, 16)
      && Parse("10.4.5.0").Some? && !Match(a, Parse("10.4.5.0").value, 16)
      && Match(a, Parse("10.4.5.0").value, 15)
      && Parse("10.5.0.2").Some? && !Match(a, Parse("10.5.0.2").value, 32)
      && Match(a, a, 32)
  {
    ParsesZeros();
    ParsesEleven();
    ParsesTen();
    ParsesTenHostOne();
    ParsesTenHostTen();
    ParsesTenFiveFive();
    ParsesTenFour();
    ParsesTenFiveTwo();
    MatchingValues();
  }

  // parseCIDR of each text of the CIDR test.

  lemma CidrAll()
    ensures ParseCidr("0.0.0.0/0") == Some((Address([0, 0, 0, 0]), 0))
  {
    OneDigitNumerals();
    Cidr("0.0.0.0/0", Address([0, 0, 0, 0]), 0, "0", "0", "0", "0", "0");
  }

  lemma CidrEleven()
    ensures ParseCidr("11.0.0.0/8") == Some((Address([11, 0, 0, 0]), 8))
  {
    OneDigitNumerals();
    TwoDigitNumerals();
    Cidr("11.0.0.0/8", Address([11, 0, 0, 0]), 8, "11", "0", "0", "0", "8");
  }

  lemma CidrEight()
    ensures ParseCidr("10.0.0.0/8") == Some((Address([10, 0, 0, 0]), 8))
  {
    OneDigitNumerals();
    TwoDigitNumerals();
    Cidr("10.0.0.0/8", Address([10, 0, 0, 0]), 8, "10", "0", "0", "0", "8");
  }

  lemma CidrEightHostOne()
    ensures ParseCidr("10.0.0.1/8") == Some((Address([10, 0, 0, 1]), 8))
  {
    OneDigitNumerals();
    TwoDigitNumerals();
    Cidr("10.0.0.1/8", Address([10, 0, 0, 1]), 8, "10", "0", "0", "1", "8");
  }

  lemma CidrEightHostTen()
    ensures ParseCidr("10.0.0.10/8") == Some((Address([10, 0, 0, 10]), 8))
  {
    OneDigitNumerals();
    TwoDigitNumerals();
    Cidr("10.0.0.10/8", Address([10, 0, 0, 10]), 8, "10", "0", "0", "10", "8");
  }

  lemma CidrSixteen()
    ensures ParseCidr("10.5.5.0/16") == Some((Address([10, 5, 5, 0]), 16))
  {
    OneDigitNumerals();
    TwoDigitNumerals();
    Cidr("10.5.5.0/16", Address([10, 5, 5, 0]), 16, "10", "5", "5", "0", "16");
  }

  lemma CidrSixteenOther()
    ensures ParseCidr("10.4.5.0/16") == Some((Address([10, 4, 5, 0]), 16))
  {
    OneDigitNumerals();
    TwoDigitNumerals();
    Cidr("10.4.5.0/16", Address([10, 4, 5, 0]), 16, "10", "4", "5", "0", "16");
  }

  lemma CidrFifteen()
    ensures ParseCidr("10.4.5.0/15") == Some((Address([10, 4, 5, 0]), 15))
  {
    OneDigitNumerals();
    TwoDigitNumerals();
    Cidr("10.4.5.0/15", Address([10, 4, 5, 0]), 15, "10", "4", "5", "0", "15");
  }

  lemma CidrFullOther()
    ensures ParseCidr("10.5.0.2/32") == Some((Address([10, 5, 0, 2]), 32))
  {
    OneDigitNumerals();
    TwoDigitNumerals();
    Cidr("10.5.0.2/32", Address([10, 5, 0, 2]), 32, "10", "5", "0", "2", "32");
  }

  lemma CidrFull()
    ensures ParseCidr("10.5.0.1/32") == Some((Address([10, 5, 0, 1]), 32))
  {
    OneDigitNumerals();
    TwoDigitNumerals();
    Cidr("10.5.0.1/32", Address([10, 5, 0, 1]), 32, "10", "5", "0", "1", "32");
  }

  /** match() of 10.5.0.1 given each pair parseCIDR reads from the texts of
      the test. */
  lemma CidrMatching()
    ensures var a := Address([10, 5, 0, 1]);
      && ParseCidr("0.0.0.0/0").Some? && MatchCidr(a, ParseCidr("0.0.0.0/0").value)
      && ParseCidr("11.0.0.0/8").Some? && !MatchCidr(a, ParseCidr("11.0.0.0/8").value)
      && ParseCidr("10.0.0.0/8").Some? && MatchCidr(a, ParseCidr("10.0.0.0/8").value)
      && ParseCidr("10.0.0.1/8").Some? && MatchCidr(a, ParseCidr("10.0.0.1/8").value)
      && ParseCidr("10.0.0.10/8").Some? && MatchCidr(a, ParseCidr("10.0.0.10/8").value)
      && ParseCidr("10.5.5.0/16").Some? && MatchCidr(a, ParseCidr("10.5.5.0/16").value)
      && ParseCidr("10.4.5.0/16").Some? && !MatchCidr(a, ParseCidr("10.4.5.0/16").value)
      && ParseCidr("10.4.5.0/15").Some? && MatchCidr(a, ParseCidr("10.4.5.0/15").value)
      && ParseCidr("10.5.0.2/32").Some? && !MatchCidr(a, ParseCidr("10.5.0.2/32").value)
      && ParseCidr("10.5.0.1/32").Some? && MatchCidr(a, ParseCidr("10.5.0.1/32").value)
  {
    CidrAll();
    CidrEleven();
    CidrEight();
    CidrEightHostOne();
    CidrEightHostTen();
    CidrSixteen();
    CidrSixteenOther();
    CidrFifteen();
    CidrFullOther();
    CidrFull();
    MatchingValues();
  }

  lemma CidrNoSlash()
    ensures ParseCidr("10.5.0.1") == None
  {
  }

  lemma CidrNegative()
    ensures ParseCidr("0.0.0.0/-1") == None
  {
    ParseCidrSplit("0.0.0.0", "-1");
  }

  lemma CidrTooLong()
    ensures ParseCidr("0.0.0.0/33") == None
  {
    ParseCidrSplit("0.0.0.0", "33");
    assert ToDigits(33, 10) == "33";
    ToDigitsOfValue("33", 10);
  }

  // range() of each address of the test table, one lemma per row: first on
  // the octets, then on what parse() reads from the text.

  lemma RangeZeroOctets(a: Address)
    requires a == Address([0, 0, 0, 0])
    ensures RangeOf(a).Name() == "unspecified"
  {
    assert Classify(a) == Unspecified;
    RangeOfClassify(a);
  }

  lemma RangeZero()
    ensures Parse("0.0.0.0").Some? && RangeOf(Parse("0.0.0.0").value).Name() == "unspecified"
  {
    ParsesZeros();
    RangeZeroOctets(Parse("0.0.0.0").value);
  }

  lemma RangeZeroNetworkOctets(a: Address)
    requires a == Address([0, 1, 0, 0])
    ensures RangeOf(a).Name() == "unspecified"
  {
    assert Classify(a) == Unspecified;
    RangeOfClassify(a);
  }

  lemma ParsesZeroNetworkAddress()
    ensures Parse("0.1.0.0") == Some(Address([0, 1, 0, 0]))
  {
    OneDigitNumerals();
    Dotted("0.1.0.0", Address([0, 1, 0, 0]), "0", "1", "0", "0");
  }

  lemma RangeZeroNetwork()
    ensures Parse("0.1.0.0").Some? && RangeOf(Parse("0.1.0.0").value).Name() == "unspecified"
  {
    ParsesZeroNetworkAddress();
    RangeZeroNetworkOctets(Parse("0.1.0.0").value);
  }

  lemma RangeTenOctets(a: Address)
    requires a == Address([10, 1, 0, 1])
    ensures RangeOf(a).Name() == "private"
  {
    assert Classify(a) == Private;
    RangeOfClassify(a);
  }

  lemma ParsesTenAddress()
    ensures Parse("10.1.0.1") == Some(Address([10, 1, 0, 1]))
  {
    OneDigitNumerals();
    TwoDigitNumerals();
    Dotted("10.1.0.1", Address([10, 1, 0, 1]), "10", "1", "0", "1");
  }

  lemma RangeTen()
    ensures Parse("10.1.0.1").Some? && RangeOf(Parse("10.1.0.1").value).Name() == "private"
  {
    ParsesTenAddress();
    RangeTenOctets(Parse("10.1.0.1").value);
  }

  lemma RangeSharedLowOctets(a: Address)
    requires a == Address([100, 64, 0, 0])
    ensures RangeOf(a).Name() == "carrierGradeNat"
  {
    assert Classify(a) == CarrierGradeNat;
    RangeOfClassify(a);
  }

  lemma ParsesSharedLowAddress()
    ensures Parse("100.64.0.0") == Some(Address([100, 64, 0, 0]))
  {
    OneDigitNumerals();
    TwoDigitNumerals();
    ThreeDigitNumerals();
    Dotted("100.64.0.0", Address([100, 64, 0, 0]), "100", "64", "0", "0");
  }

  lemma RangeSharedLow()
    ensures Parse("100.64.0.0").Some? && RangeOf(Parse("100.64.0.0").value).Name() == "carrierGradeNat"
  {
    ParsesSharedLowAddress();
    RangeSharedLowOctets(Parse("100.64.0.0").value);
  }

  lemma RangeSharedHighOctets(a: Address)
    requires a == Address([100, 127, 255, 255])
    ensures RangeOf(a).Name() == "carrierGradeNat"
  {
    assert Classify(a) == CarrierGradeNat;
    RangeOfClassify(a);
  }

  lemma SharedHighText()
    ensures "100" + "." + "127" + "." + "255" + "." + "255" == "100.127.255.255"
  {
  }

  lemma ParsesSharedHighAddress()
    ensures Parse("100.127.255.255") == Some(Address([100, 127, 255, 255]))
  {
    SharedHighText();
    ThreeDigitNumerals();
    Dotted("100.127.255.255", Address([100, 127, 255, 255]), "100", "127", "255", "255");
  }

  lemma RangeSharedHigh()
    ensures Parse("100.127.255.255").Some? && RangeOf(Parse("100.127.255.255").value).Name() == "carrierGradeNat"
  {
    ParsesSharedHighAddress();
    RangeSharedHighOctets(Parse("100.127.255.255").value);
  }

  lemma RangeOneNineTwoOctets(a: Address)
    requires a == Address([192, 168, 2, 1])
    ensures RangeOf(a).Name() == "private"
  {
    assert Classify(a) == Private;
    RangeOfClassify(a);
  }

  lemma ParsesOneNineTwoAddress()
    ensures Parse("192.168.2.1") == Some(Address([192, 168, 2, 1]))
  {
    OneDigitNumerals();
    ThreeDigitNumerals();
    Dotted("192.168.2.1", Address([192, 168, 2, 1]), "192", "168", "2", "1");
  }

  lemma RangeOneNineTwo()
    ensures Parse("192.168.2.1").Some? && RangeOf(Parse("192.168.2.1").value).Name() == "private"
  {
    ParsesOneNineTwoAddress();
    RangeOneNineTwoOctets(Parse("192.168.2.1").value);
  }

  lemma RangeMulticastOctets(a: Address)
    requires a == Address([224, 100, 0, 1])
    ensures RangeOf(a).Name() == "multicast"
  {
    assert Classify(a) == Multicast;
    RangeOfClassify(a);
  }

  lemma ParsesMulticastAddress()
    ensures Parse("224.100.0.1") == Some(Address([224, 100, 0, 1]))
  {
    OneDigitNumerals();
    ThreeDigitNumerals();
    Dotted("224.100.0.1", Address([224, 100, 0, 1]), "224", "100", "0", "1");
  }

  lemma RangeMulticast()
    ensures Parse("224.100.0.1").Some? && RangeOf(Parse("224.100.0.1").value).Name() == "multicast"
  {
    ParsesMulticastAddress();
    RangeMulticastOctets(Parse("224.100.0.1").value);
  }

  lemma RangeLinkLocalOctets(a: Address)
    requires a == Address([169, 254, 15, 0])
    ensures RangeOf(a).Name() == "linkLocal"
  {
    assert Classify(a) == LinkLocal;
    RangeOfClassify(a);
  }

  lemma ParsesLinkLocalAddress()
    ensures Parse("169.254.15.0") == Some(Address([169, 254, 15, 0]))
  {
    OneDigitNumerals();
    TwoDigitNumerals();
    ThreeDigitNumerals();
    Dotted("169.254.15.0", Address([169, 254, 15, 0]), "169", "254", "15", "0");
  }

  lemma RangeLinkLocal()
    ensures Parse("169.254.15.0").Some? && RangeOf(Parse("169.254.15.0").value).Name() == "linkLocal"
  {
    ParsesLinkLocalAddress();
    RangeLinkLocalOctets(Parse("169.254.15.0").value);
  }

  lemma RangeLoopbackOctets(a: Address)
    requires a == Address([127, 1, 1, 1])
    ensures RangeOf(a).Name() == "loopback"
  {
    assert Classify(a) == Loopback;
    RangeOfClassify(a);
  }

  lemma ParsesLoopbackAddress()
    ensures Parse("127.1.1.1") == Some(Address([127, 1, 1, 1]))
  {
    OneDigitNumerals();
    ThreeDigitNumerals();
    Dotted("127.1.1.1", Address([127, 1, 1, 1]), "127", "1", "1", "1");
  }

  lemma RangeLoopback()
    ensures Parse("127.1.1.1").Some? && RangeOf(Parse("127.1.1.1").value).Name() == "loopback"
  {
    ParsesLoopbackAddress();
    RangeLoopbackOctets(Parse("127.1.1.1").value);
  }

  lemma RangeBroadcastOctets(a: Address)
    requires a == Address([255, 255, 255, 255])
    ensures RangeOf(a).Name() == "broadcast"
  {
    assert Classify(a) == Broadcast;
    RangeOfClassify(a);
  }

  lemma ParsesBroadcastAddress()
    ensures Parse("255.255.255.255") == Some(Address([255, 255, 255, 255]))
  {
    ThreeDigitNumerals();
    Dotted("255.255.255.255", Address([255, 255, 255, 255]), "255", "255", "255", "255");
  }

  lemma RangeBroadcast()
    ensures Parse("255.255.255.255").Some? && RangeOf(Parse("255.255.255.255").value).Name() == "broadcast"
  {
    ParsesBroadcastAddress();
    RangeBroadcastOctets(Parse("255.255.255.255").value);
  }

  lemma RangeReservedOctets(a: Address)
    requires a == Address([240, 1, 2, 3])
    ensures RangeOf(a).Name() == "reserved"
  {
    assert Classify(a) == Reserved;
    RangeOfClassify(a);
  }

  lemma ParsesReservedAddress()
    ensures Parse("240.1.2.3") == Some(Address([240, 1, 2, 3]))
  {
    OneDigitNumerals();
    ThreeDigitNumerals();
    Dotted("240.1.2.3", Address([240, 1, 2, 3]), "240", "1", "2", "3");
  }

  lemma RangeReserved()
    ensures Parse("240.1.2.3").Some? && RangeOf(Parse("240.1.2.3").value).Name() == "reserved"
  {
    ParsesReservedAddress();
    RangeReservedOctets(Parse("240.1.2.3").value);
  }

  lemma RangeUnicastOctets(a: Address)
    requires a == Address([8, 8, 8, 8])
    ensures RangeOf(a).Name() == "unicast"
  {
    assert Classify(a) == Unicast;
    RangeOfClassify(a);
  }

  lemma ParsesUnicastAddress()
    ensures Parse("8.8.8.8") == Some(Address([8, 8, 8, 8]))
  {
    OneDigitNumerals();
    Dotted("8.8.8.8", Address([8, 8, 8, 8]), "8", "8", "8", "8");
  }

  lemma RangeUnicast()
    ensures Parse("8.8.8.8").Some? && RangeOf(Parse("8.8.8.8").value).Name() == "unicast"
  {
    ParsesUnicastAddress();
    RangeUnicastOctets(Parse("8.8.8.8").value);
  }

  lemma FourPartDecimal()
    ensures IsValidFourPartDecimal("192.168.1.1")
  {
    Rendering();
    ToStringRoundTrip(Address([192, 168, 1, 1]));
  }

  lemma HexIsNotFourPartDecimal()
    ensures !IsValidFourPartDecimal("0xc0.168.1.1")
  {
    SplitJoin(["0xc0", "168", "1", "1"], '.');
    HexGroupText();
    assert !IsDecDigit("0xc0"[1]);
  }
}
