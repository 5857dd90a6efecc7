/** IPv4 addresses (Press\Utils\IPAddr\IPv4): a value of four octets, its
    dotted-decimal text, the lenient inet_aton-style reading of text (one to
    four groups in decimal, octal or hexadecimal, the last group standing for
    all the octets that remain), CIDR matching and the special-range table. */
module IPv4 {

  import opened Wrappers
  import opened Arith
  import opened Text
  import Prefix

  /** An IPv4 address: its octets, most significant first. */
  datatype Address = Address(octets: seq<int>)

  predicate IsOctet(x: int) {
    0 <= x <= 255
  }

  /** Four octets, each in [0, 255] (written out octet by octet). */
  predicate ValidOctets(s: seq<int>) {
    |s| == 4 && IsOctet(s[0]) && IsOctet(s[1]) && IsOctet(s[2]) && IsOctet(s[3])
  }

  /** Every address the library hands out has four octets in [0, 255]. */
  predicate Valid(a: Address) {
    ValidOctets(a.octets)
  }

  /** The octet-by-octet check is the bound on every octet. */
  lemma ValidOctetsEach(s: seq<int>)
    ensures ValidOctets(s) <==> |s| == 4 && forall i :: 0 <= i < |s| ==> 0 <= s[i] <= 255
  {
    if ValidOctets(s) {
      forall i | 0 <= i < |s|
        ensures 0 <= s[i] <= 255
      {
        if i == 0 {} else if i == 1 {} else if i == 2 {} else {}
      }
    }
  }

  /** new IPv4(octets): refuses anything but four octets in [0, 255]. */
  function FromOctets(s: seq<int>): (r: Option<Address>)
    ensures r.Some? <==> |s| == 4 && forall i :: 0 <= i < |s| ==> 0 <= s[i] <= 255
    ensures r.Some? ==> Valid(r.value) && r.value.octets == s
  {
    ValidOctetsEach(s);
    if ValidOctets(s) then Some(Address(s)) else None
  }

  /** The address as one unsigned 32-bit number. */
  function ToUint32(a: Address): (r: nat)
    requires Valid(a)
    ensures r < Pow2(32)
  {
    Pow2Values();
    ValidOctetsEach(a.octets);
    Prefix.ValueBound(a.octets, 8);
    Prefix.Value(a.octets, 8)
  }

  // ---------------------------------------------------------------- rendering

  function Decimals(os: seq<nat>): (r: seq<string>)
    ensures |r| == |os|
    ensures forall i :: 0 <= i < |os| ==> r[i] == ToDigits(os[i], 10)
  {
    if os == [] then [] else [ToDigits(os[0], 10)] + Decimals(os[1..])
  }

  /** toString(): the four octets in decimal, joined by dots. */
  function ToString(a: Address): (r: string)
    requires Valid(a)
    ensures Split(r, '.') == Decimals(a.octets)
  {
    var ds := Decimals(a.octets);
    assert forall i, j :: 0 <= i < |ds| && 0 <= j < |ds[i]| ==> IsHexDigit(ds[i][j]);
    SplitJoin(ds, '.');
    Join(ds, '.')
  }

  // ------------------------------------------------------------------ parsing

  /** The three notations a group may be written in. */
  datatype Notation = Decimal | Octal | Hexadecimal

  /** The numeral of n in a notation, as the parser reads it back. */
  function Numeral(n: nat, notation: Notation): string
  {
    match notation
    case Decimal => ToDigits(n, 10)
    case Octal => "0" + ToDigits(n, 8)
    case Hexadecimal => "0x" + ToDigits(n, 16)
  }

  /** The value of one group: "0x" or "0X" then hexadecimal digits; a leading
      "0" then octal digits; otherwise decimal digits. Anything else is not a
      numeral. */
  function GroupValue(g: string): (r: Option<nat>)
    ensures r.Some? ==> |g| >= 1 && IsDecDigit(g[0])
  {
    if |g| >= 2 && g[0] == '0' && (g[1] == 'x' || g[1] == 'X') then
      if |g| > 2 && AllDigits(g[2..], 16) then Some(DigitsValue(g[2..], 16)) else None
    else if |g| >= 2 && g[0] == '0' then
      if AllDigits(g[1..], 8) then Some(DigitsValue(g[1..], 8)) else None
    else if |g| >= 1 && AllDigits(g, 10) then Some(DigitsValue(g, 10))
    else None
  }

  /** The values of all groups, or None as soon as one is not a numeral. */
  function GroupValues(gs: seq<string>): (r: Option<seq<nat>>)
    ensures r.Some? <==> forall i :: 0 <= i < |gs| ==> GroupValue(gs[i]).Some?
    ensures r.Some? ==> |r.value| == |gs|
    ensures r.Some? ==> forall i :: 0 <= i < |gs| ==> GroupValue(gs[i]) == Some(r.value[i])
  {
    if gs == [] then Some([])
    else
      match (GroupValue(gs[0]), GroupValues(gs[1..]))
      case (Some(v), Some(vs)) =>
        assert forall i :: 1 <= i < |gs| ==> gs[i] == gs[1..][i - 1];
        Some([v] + vs)
      case _ =>
        assert forall i :: 1 <= i < |gs| ==> gs[i] == gs[1..][i - 1];
        None
  }

  /** The k bytes of x, most significant first. */
  function BigEndian(x: nat, k: nat): (r: seq<nat>)
    requires x < Pow2(8 * k)
    ensures |r| == k && Prefix.PartsFit(r, 8) && Prefix.Value(r, 8) == x
  {
    if k == 0 then []
    else
      Pow2Values();
      Pow2Add(8 * (k - 1), 8);
      DivBound(x, Pow2(8 * (k - 1)), 256);
      var r := BigEndian(x / 256, k - 1) + [x % 256];
      assert r[..|r| - 1] == BigEndian(x / 256, k - 1);
      r
  }

  /** The collapsing rule: each of the first n - 1 group values is one octet
      (not yet bounded), and the last stands for the 5 - n octets that remain,
      big-endian. With fewer than four groups the last must fit in those
      8 * (5 - n) bits; with four it is one more unbounded octet. */
  function Collapse(vals: seq<nat>): (r: Option<seq<nat>>)
    requires 1 <= |vals| <= 4
    ensures r.Some? <==> |vals| == 4 || vals[|vals| - 1] < Pow2(8 * (5 - |vals|))
    ensures |vals| == 4 ==> r == Some(vals)
    ensures r.Some? ==> |r.value| == 4 && r.value[..|vals| - 1] == vals[..|vals| - 1]
    ensures r.Some? && |vals| < 4 ==> Prefix.PartsFit(r.value[|vals| - 1..], 8)
    ensures r.Some? && |vals| < 4 ==> Prefix.Value(r.value[|vals| - 1..], 8) == vals[|vals| - 1]
  {
    var k, last := 5 - |vals|, vals[|vals| - 1];
    if |vals| == 4 then Some(vals)
    else if last < Pow2(8 * k) then
      var r := vals[..|vals| - 1] + BigEndian(last, k);
      assert r[|vals| - 1..] == BigEndian(last, k);
      Some(r)
    else None
  }

  /** The lenient reading: one to four dot-separated numerals, collapsed to
      four octet values that are not yet bounded by 255. */
  function Parser(text: string): (r: Option<seq<nat>>)
    ensures r.Some? ==> |r.value| == 4
    ensures r.Some? ==> 1 <= |Split(text, '.')| <= 4 && GroupValues(Split(text, '.')).Some?
  {
    var gs := Split(text, '.');
    if 1 <= |gs| <= 4 then
      match GroupValues(gs)
      case None => None
      case Some(vals) => Collapse(vals)
    else None
  }

  /** isIPv4(text): the text has the shape of an IPv4 address, octets unchecked. */
  predicate IsIPv4(text: string): (r: bool)
    ensures |Split(text, '.')| == 4 && GroupValues(Split(text, '.')).Some? ==> r
  {
    Parser(text).Some?
  }

  /** parse(text): the lenient reading, then the constructor's check. */
  function Parse(text: string): (r: Option<Address>)
    ensures r.Some? <==> IsIPv4(text) && ValidOctets(Parser(text).value)
    ensures r.Some? ==> Valid(r.value) && r.value.octets == Parser(text).value
  {
    match Parser(text)
    case None => None
    case Some(os) => FromOctets(os)
  }

  /** isValid(text): the text parses to an address. */
  predicate IsValid(text: string): (r: bool)
    ensures r ==> IsIPv4(text)
    ensures r ==> var gs := Split(text, '.');
      forall i :: 0 <= i < |gs| - 1 ==> GroupValue(gs[i]).Some? && GroupValue(gs[i]).value <= 255
  {
    if Parse(text).Some? then
      var gs := Split(text, '.');
      var vals := GroupValues(gs).value;
      var os := Parser(text).value;
      ValidOctetsEach(os);
      assert forall i :: 0 <= i < |gs| - 1 ==> vals[i] == vals[..|gs| - 1][i] == os[i];
      true
    else false
  }

  /** A decimal numeral without leading zeros. */
  predicate IsCanonicalDecimal(g: string) {
    |g| >= 1 && AllDigits(g, 10) && (g[0] == '0' ==> |g| == 1)
  }

  /** isValidFourPartDecimal(text): a valid address written as four plain
      decimal numerals. */
  predicate IsValidFourPartDecimal(text: string): (r: bool)
    ensures r ==> IsValid(text) && var gs := Split(text, '.');
      && |gs| == 4
      && forall i :: 0 <= i < 4 ==>
           AllDigits(gs[i], 10) && Parse(text).value.octets[i] == DigitsValue(gs[i], 10)
  {
    var gs := Split(text, '.');
    if IsValid(text) && |gs| == 4 && forall i :: 0 <= i < 4 ==> IsCanonicalDecimal(gs[i]) then
      assert forall i :: 0 <= i < 4 ==> GroupValue(gs[i]) == Some(DigitsValue(gs[i], 10));
      true
    else false
  }

  // -------------------------------------------------------------- CIDR match

  /** match(other, n): the two addresses agree on their top n bits. */
  function Match(a: Address, b: Address, n: int): (r: bool)
    requires Valid(a) && Valid(b)
    ensures n <= 0 ==> r
    ensures n >= 32 ==> (r <==> a == b)
  {
    if n >= 32 then Prefix.MatchPartsFull(a.octets, b.octets, 8, n); Prefix.MatchParts(a.octets, b.octets, 8, n)
    else Prefix.MatchParts(a.octets, b.octets, 8, n)
  }

  /** parseCIDR(text): the address before the last "/" and the decimal prefix
      length after it, which must not exceed 32. */
  function ParseCidr(text: string): (r: Option<(Address, nat)>)
    ensures r.Some? ==> Valid(r.value.0) && r.value.1 <= 32
    ensures '/' !in text ==> r.None?
  {
    if '/' !in text then None
    else
      var i := LastIndexOf(text, '/');
      var len := text[i + 1..];
      if |len| >= 1 && AllDigits(len, 10) && DigitsValue(len, 10) <= 32 then
        match Parse(text[..i])
        case None => None
        case Some(a) => Some((a, DigitsValue(len, 10)))
      else None
  }

  /** match([address, length]): the one-argument form taking parseCIDR's pair. */
  function MatchCidr(a: Address, cidr: (Address, nat)): (r: bool)
    requires Valid(a) && Valid(cidr.0)
    ensures cidr.1 == 0 ==> r
    ensures cidr.1 == 32 ==> (r <==> a == cidr.0)
  {
    Match(a, cidr.0, cidr.1)
  }

  // ----------------------------------------------------------- special ranges

  datatype Range =
    | Unspecified | Broadcast | Multicast | LinkLocal | Loopback
    | CarrierGradeNat | Private | Reserved | Unicast
  {
    /** The label range() returns. */
    function Name(): string {
      match this
      case Unspecified => "unspecified"
      case Broadcast => "broadcast"
      case Multicast => "multicast"
      case LinkLocal => "linkLocal"
      case Loopback => "loopback"
      case CarrierGradeNat => "carrierGradeNat"
      case Private => "private"
      case Reserved => "reserved"
      case Unicast => "unicast"
    }
  }

  datatype Block = Block(range: Range, base: Address, length: nat)

  /** The special-purpose blocks in the order range() tries them: RFC 1122
      "this network", the RFC 1918 private blocks, RFC 6598 shared address
      space, loopback, link-local, multicast, limited broadcast and the
      reserved class E block (which contains the broadcast address, so the
      broadcast block must come first). */
  const SpecialRanges: seq<Block> := [
    Block(Unspecified, Address([0, 0, 0, 0]), 8),
    Block(Private, Address([10, 0, 0, 0]), 8),
    Block(Private, Address([172, 16, 0, 0]), 12),
    Block(Private, Address([192, 168, 0, 0]), 16),
    Block(CarrierGradeNat, Address([100, 64, 0, 0]), 10),
    Block(Loopback, Address([127, 0, 0, 0]), 8),
    Block(LinkLocal, Address([169, 254, 0, 0]), 16),
    Block(Multicast, Address([224, 0, 0, 0]), 4),
    Block(Broadcast, Address([255, 255, 255, 255]), 32),
    Block(Reserved, Address([240, 0, 0, 0]), 4)
  ]

  predicate BlocksValid(table: seq<Block>) {
    forall i :: 0 <= i < |table| ==> Valid(table[i].base) && table[i].range != Unicast
  }

  /** The block at index i is the first of the table that a falls in. */
  predicate FirstMatchAt(a: Address, table: seq<Block>, i: nat)
    requires Valid(a) && BlocksValid(table)
  {
    && i < |table|
    && Match(a, table[i].base, table[i].length)
    && forall j :: 0 <= j < i ==> !Match(a, table[j].base, table[j].length)
  }

  /** The label of the first block a falls in, unicast when there is none. */
  function FirstMatch(a: Address, table: seq<Block>): (r: Range)
    requires Valid(a) && BlocksValid(table)
    ensures r == Unicast <==> forall i :: 0 <= i < |table| ==> !Match(a, table[i].base, table[i].length)
  {
    if table == [] then Unicast
    else if Match(a, table[0].base, table[0].length) then table[0].range
    else FirstMatch(a, table[1..])
  }

  /** range(): the special range the address belongs to. */
  function RangeOf(a: Address): (r: Range)
    requires Valid(a)
    ensures r == Unicast <==>
      forall i :: 0 <= i < |SpecialRanges| ==> !Match(a, SpecialRanges[i].base, SpecialRanges[i].length)
  {
    FirstMatch(a, SpecialRanges)
  }
}
