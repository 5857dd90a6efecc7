# php-ipaddr in Dafny

A pure model of the IP-address value library `Press\Utils\IPAddr` (classes
`IPv4` and `IPv6`), with proofs of what it promises. Its behaviour is pinned
down by the library's test suite, `test/IpAddrTest.php`. Every assertion of
that suite is restated as a lemma. Each of those lemmas is derived by
evaluation or from general properties of the model, not from a table of answers.

The model covers:

- **IPv4 addresses** (`ipv4.dfy`).
  - An address is four octets in [0, 255].
  - `new IPv4(octets)` refuses anything else.
  - `toString()` writes dotted decimal.
  - The text reading follows the legacy `inet_aton` notation:
    - one to four dot-separated groups;
    - each group is decimal, octal (a leading `0`) or hexadecimal (`0x`/`0X`);
    - the last group stands for all the octets that remain, big-endian.
  - `isIPv4` accepts that shape. With four groups no value is bounded; with fewer, the last must fit in the octets it stands for.
  - `isValid`/`parse` also require every octet to be at most 255.
  - `isValidFourPartDecimal` requires four plain decimals without leading zeros.
  - `match(other, n)` compares the top `n` bits (CIDR, RFC 4632).
  - `parseCIDR` splits `address/length` at the last `/` and requires a decimal length of at most 32.
  - `range()` searches a first-match table of special-purpose blocks; an address in no block is `unicast`.
- **IPv6 addresses** (`ipv6.dfy`).
  - An address is eight 16-bit groups.
  - `new IPv6(parts)` takes eight groups, or sixteen bytes folded pairwise big-endian.
  - `toNormalizedString()` writes all eight groups in lower-case hexadecimal.
  - `toString()` replaces the longest run of two or more zero groups with `::`. Of equally long runs it takes the first, as section 4.2 of RFC 5952 prescribes.
  - `isIPv6` is the lenient reading of the text form of section 2.2 of RFC 4291:
    - hexadecimal fields of either case;
    - at most one `::`, standing for the zero groups that the explicit groups leave to eight (possibly none);
    - an optional dotted IPv4 tail, as in the IPv4-mapped form of section 2.5.5.2 of RFC 4291.
  - `isValid`/`parse` also require exactly eight groups, each at most 0xffff and each written with one to four hexadecimal digits.
  - `match(other, n)` compares the top `n` of the 128 bits.
- **`kind()`** (`ipaddr.dfy`) names the family of an address.
- **Shared layers.**
  - `text.dfy`: digits, numerals, `Split`/`Join`.
  - `prefix.dfy`: prefix matching on groups of w bits, proved equal to comparing bit strings and to integer division.
  - `arith.dfy`: powers of two, division.
  - `wrappers.dfy`: `Option`.

A call that throws (`TypeError` in the tests) is a function that returns `None`.

## Model

| member | source | states |
|---|---|---|
| IPv4.FromOctets | test/IpAddrTest.php:12-33 | the constructor succeeds exactly for four values in [0, 255]; the address then holds those octets |
| IPv4.ToUint32 | test/IpAddrTest.php:72-74 | the 32-bit number of an address is below 2^32; `Uint32Octets`, `Uint32Injective` and `Uint32RoundTrip` characterise it |
| IPv4Examples.Constructor | test/IpAddrTest.php:12-51 | `[192,168,1,2]` is accepted; `[300,1,2,3]` and `[8,8,8]` are refused; `octets[0]` of `[42,0,0,0]` is 42 |
| IPv4.Decimals | test/IpAddrTest.php:35-39 | one decimal numeral per octet, each the shortest numeral of that octet |
| IPv4.ToString | test/IpAddrTest.php:35-39 | the dot-separated fields of `toString()` are the decimal numerals of the octets; `ToStringRoundTrip` and `NoSlashInToString` characterise it |
| IPv4Examples.Rendering | test/IpAddrTest.php:35-39 | `toString()` of `[192,168,1,1]` is `"192.168.1.1"` |
| IPAddr.Kind | test/IpAddrTest.php:41-45 | `"ipv4"` exactly for IPv4 values and `"ipv6"` exactly for IPv6 values |
| IPAddr.KindOfIPv4 | test/IpAddrTest.php:41-45 | `kind()` of `[1,2,3,4]` is `"ipv4"` |
| IPAddr.KindOfIPv6 | test/IpAddrTest.php:204-208 | `kind()` of the test IPv6 address is `"ipv6"` |
| IPv4.GroupValues | test/IpAddrTest.php:53-75 | the values of all groups exist exactly when each group is a numeral, one value per group |
| IPv4.GroupValue | test/IpAddrTest.php:53-75 | a group with a value is non-empty and starts with a decimal digit; `GroupValueNumeral` and `GroupValueRejects` characterise it |
| IPv4.Collapse | test/IpAddrTest.php:53-75 | four group values are kept as they are, unbounded; with fewer, the last value gives the remaining octets big-endian, exactly when it fits their bits, and the earlier values are kept |
| IPv4.Parser | test/IpAddrTest.php:53-58 | a successful lenient reading always gives four values, and the text then has one to four dot-separated groups, each a numeral |
| IPv4.Parse | test/IpAddrTest.php:60-83 | parse succeeds exactly when the lenient reading succeeds and every value is an octet; the address holds those values |
| IPv4.IsIPv4 | test/IpAddrTest.php:53-58 | four dot-separated numerals are an IPv4 shape whatever their values; `FourGroupsLenient`, `SingleGroup` and `FormatStrictness` characterise it |
| IPv4.IsValid | test/IpAddrTest.php:60-65 | a valid text is an IPv4 shape, and every group before the last is a numeral of at most 255; `FourGroupsLenient` and `FormatStrictness` characterise it |
| IPv4.IsValidFourPartDecimal | test/IpAddrTest.php:158-162 | a four-part decimal is valid, has four groups, each decimal digits only, and each octet is its group's decimal value; `FourPartDecimalIsToString` and `CanonicalDecimals` characterise it |
| IPv4.Match | test/IpAddrTest.php:85-98 | a prefix of 0 or less always matches; a prefix of 32 or more matches exactly the same address; `MatchValue`, `MatchBits` and `MatchShorter` characterise it |
| IPv4.MatchCidr | test/IpAddrTest.php:100-113 | a pair with length 0 always matches; length 32 matches exactly its own address; `CidrMatching` states the ten test answers |
| IPv4.RangeOf | test/IpAddrTest.php:132-156 | range() is unicast exactly when the address lies in no block of the table; `FirstMatchSpec` and `RangeOfClassify` characterise it |
| IPv4.FirstMatch | test/IpAddrTest.php:132-156 | the first-match search gives unicast exactly when no block of the table holds the address |
| IPv4.ParseCidr | test/IpAddrTest.php:100-130 | a result is a valid address with a length of at most 32; a text without `/` has no result |
| IPv4Properties.GroupValueNumeral | test/IpAddrTest.php:67-75 | the decimal, octal and hexadecimal numerals of n each read back as n |
| IPv4Properties.GroupValueRejects | test/IpAddrTest.php:53-58 | a group with a character that is neither a hex digit nor `x` is no numeral |
| IPv4Properties.FourGroupsLenient | test/IpAddrTest.php:53-64 | a text of four dotted groups is an IPv4 shape exactly when every group is a numeral, whatever its value, and is then valid exactly when every value is an octet |
| IPv4Properties.Uint32Octets | test/IpAddrTest.php:67-75 | the 32-bit number is `o0·2^24 + o1·2^16 + o2·2^8 + o3` |
| IPv4Properties.ToStringRoundTrip | test/IpAddrTest.php:35-39 | `parse(toString(a)) == a`, and `toString(a)` is a four-part decimal |
| IPv4Properties.FourPartDecimalIsToString | test/IpAddrTest.php:158-162 | every four-part decimal text is exactly `toString()` of the address it parses to |
| IPv4Properties.CanonicalDecimals | test/IpAddrTest.php:158-162 | canonical decimals are read as values whose decimals are those texts again |
| IPv4Properties.FormatStrictness | test/IpAddrTest.php:53-65 | four-part decimal implies valid, and valid implies `isIPv4` |
| IPv4Properties.ParseToStringParse | test/IpAddrTest.php:67-75 | parsing the rendering of a parsed address gives the same address |
| IPv4Properties.SingleGroup | test/IpAddrTest.php:72-74 | a one-group text is IPv4 exactly when its value is below 2^32, and is then the address with that 32-bit number |
| IPv4Properties.Uint32Injective | test/IpAddrTest.php:72-74 | two addresses with the same 32-bit number are equal |
| IPv4Properties.Uint32RoundTrip | test/IpAddrTest.php:72-74 | the 32-bit number of any address, in any of the three notations, parses back to that address |
| IPv4Properties.MatchValue | test/IpAddrTest.php:85-98 | `match(b, n)` holds exactly when the 32-bit numbers agree after dropping the low 32-n bits |
| IPv4Properties.MatchBits | test/IpAddrTest.php:85-98 | `match(b, n)` holds exactly when the first n of the 32 bits agree |
| IPv4Properties.MatchShorter | test/IpAddrTest.php:93-95 | a match on n bits implies a match on every shorter prefix |
| IPv4Properties.NoSlashInToString | test/IpAddrTest.php:100-113 | the rendering of an address holds no `/` |
| IPv4Properties.ParseCidrSplit | test/IpAddrTest.php:115-130 | `addr/len` parses exactly when len is a non-empty decimal of at most 32 and addr is valid; the result is their pair |
| IPv4Properties.ParseCidrRoundTrip | test/IpAddrTest.php:100-113 | `parseCIDR(toString(a) + "/" + n)` gives back `(a, n)` for every n ≤ 32 |
| IPv4Properties.FirstMatchSpec | test/IpAddrTest.php:132-156 | range() gives unicast exactly when no block holds the address, and otherwise the label of the first block that does |
| IPv4Properties.RangeOfClassify | test/IpAddrTest.php:132-156 | range() equals the octet-level classification: 0/8, 10/8, 172.16/12, 192.168/16, 100.64/10, 127/8, 169.254/16, 224/4, 255.255.255.255 checked before 240/4, otherwise unicast |
| IPv4Examples.Groups | test/IpAddrTest.php:53-75 | numerals joined by dots are read as their values, collapsed |
| IPv4Examples.ReadsOctalAndHex | test/IpAddrTest.php:55 | `192.168.007.0xa` reads as `[192,168,7,10]` |
| IPv4Examples.AcceptsOctalAndHex | test/IpAddrTest.php:55-62 | `192.168.007.0xa` is IPv4 and valid |
| IPv4Examples.ReadsOversizedGroup | test/IpAddrTest.php:56 | `1024.0.0.1` reads as `[1024,0,0,1]` |
| IPv4Examples.OversizedGroupIsNotValid | test/IpAddrTest.php:56-63 | `1024.0.0.1` is IPv4 but not valid |
| IPv4Examples.RejectsWord | test/IpAddrTest.php:57 | `8.0xa.wtf.6` has no lenient reading |
| IPv4Examples.WordIsNotIPv4 | test/IpAddrTest.php:57-64 | `8.0xa.wtf.6` is neither IPv4 nor valid |
| IPv4Examples.ParsesDottedDecimal | test/IpAddrTest.php:69 | `192.168.1.1` parses to `[192,168,1,1]` |
| IPv4Examples.ParsesHexGroup | test/IpAddrTest.php:70 | `0xc0.168.1.1` parses to `[192,168,1,1]` |
| IPv4Examples.ParsesOctalGroup | test/IpAddrTest.php:71 | `192.0250.1.1` parses to `[192,168,1,1]` |
| IPv4Examples.ParsesSingleHex | test/IpAddrTest.php:72 | `0xc0a80101` parses to `[192,168,1,1]` |
| IPv4Examples.ParsesSingleOctal | test/IpAddrTest.php:73 | `030052000401` parses to `[192,168,1,1]` |
| IPv4Examples.ParsesSingleDecimal | test/IpAddrTest.php:74 | `3232235777` parses to `[192,168,1,1]` |
| IPv4Examples.BarfsOnWords | test/IpAddrTest.php:77-83 | `10.0.0.wtf` does not parse |
| IPv4Examples.Matching | test/IpAddrTest.php:85-98 | the ten `match` answers for `10.5.0.1`, each against what `parse` reads from the test's text |
| IPv4Examples.CidrAll | test/IpAddrTest.php:103 | `0.0.0.0/0` parses to `(0.0.0.0, 0)` |
| IPv4Examples.CidrEleven | test/IpAddrTest.php:104 | `11.0.0.0/8` parses to `(11.0.0.0, 8)` |
| IPv4Examples.CidrEight | test/IpAddrTest.php:105 | `10.0.0.0/8` parses to `(10.0.0.0, 8)` |
| IPv4Examples.CidrEightHostOne | test/IpAddrTest.php:106 | `10.0.0.1/8` parses to `(10.0.0.1, 8)` |
| IPv4Examples.CidrEightHostTen | test/IpAddrTest.php:107 | `10.0.0.10/8` parses to `(10.0.0.10, 8)` |
| IPv4Examples.CidrSixteen | test/IpAddrTest.php:108 | `10.5.5.0/16` parses to `(10.5.5.0, 16)` |
| IPv4Examples.CidrSixteenOther | test/IpAddrTest.php:109 | `10.4.5.0/16` parses to `(10.4.5.0, 16)` |
| IPv4Examples.CidrFifteen | test/IpAddrTest.php:110 | `10.4.5.0/15` parses to `(10.4.5.0, 15)` |
| IPv4Examples.CidrFullOther | test/IpAddrTest.php:111 | `10.5.0.2/32` parses to `(10.5.0.2, 32)` |
| IPv4Examples.CidrFull | test/IpAddrTest.php:112 | `10.5.0.1/32` parses to `(10.5.0.1, 32)` |
| IPv4Examples.CidrMatching | test/IpAddrTest.php:100-113 | all ten texts have a parseCIDR reading, and the one-argument match of `10.5.0.1` on each gives the test's answer |
| IPv4Examples.CidrNoSlash | test/IpAddrTest.php:118 | `10.5.0.1` is no CIDR text |
| IPv4Examples.CidrNegative | test/IpAddrTest.php:119 | `0.0.0.0/-1` is refused |
| IPv4Examples.CidrTooLong | test/IpAddrTest.php:120 | `0.0.0.0/33` is refused |
| IPv4Examples.RangeZero | test/IpAddrTest.php:135 | `parse` reads `0.0.0.0` as an address whose `range()` is `unspecified` |
| IPv4Examples.RangeZeroNetwork | test/IpAddrTest.php:136 | `parse` reads `0.1.0.0` as an address whose `range()` is `unspecified` |
| IPv4Examples.RangeTen | test/IpAddrTest.php:137 | `parse` reads `10.1.0.1` as an address whose `range()` is `private` |
| IPv4Examples.RangeSharedLow | test/IpAddrTest.php:138 | `parse` reads `100.64.0.0` as an address whose `range()` is `carrierGradeNat` |
| IPv4Examples.RangeSharedHigh | test/IpAddrTest.php:139 | `parse` reads `100.127.255.255` as an address whose `range()` is `carrierGradeNat` |
| IPv4Examples.RangeOneNineTwo | test/IpAddrTest.php:140 | `parse` reads `192.168.2.1` as an address whose `range()` is `private` |
| IPv4Examples.RangeMulticast | test/IpAddrTest.php:141 | `parse` reads `224.100.0.1` as an address whose `range()` is `multicast` |
| IPv4Examples.RangeLinkLocal | test/IpAddrTest.php:142 | `parse` reads `169.254.15.0` as an address whose `range()` is `linkLocal` |
| IPv4Examples.RangeLoopback | test/IpAddrTest.php:143 | `parse` reads `127.1.1.1` as an address whose `range()` is `loopback` |
| IPv4Examples.RangeBroadcast | test/IpAddrTest.php:144 | `parse` reads `255.255.255.255` as an address whose `range()` is `broadcast` |
| IPv4Examples.RangeReserved | test/IpAddrTest.php:145 | `parse` reads `240.1.2.3` as an address whose `range()` is `reserved` |
| IPv4Examples.RangeUnicast | test/IpAddrTest.php:146 | `parse` reads `8.8.8.8` as an address whose `range()` is `unicast` |
| IPv4Examples.FourPartDecimal | test/IpAddrTest.php:160 | `192.168.1.1` is a four-part decimal |
| IPv4Examples.HexIsNotFourPartDecimal | test/IpAddrTest.php:161 | `0xc0.168.1.1` is not |
| IPv6.FoldBytes | test/IpAddrTest.php:170-174 | each group is the big-endian pair of bytes at its position |
| IPv6.FromParts | test/IpAddrTest.php:164-193 | the constructor succeeds exactly for eight values in [0, 0xffff] or sixteen in [0, 0xff]; the groups are those values or the folded bytes |
| IPv6.HexGroups | test/IpAddrTest.php:195-198 | one lower-case hexadecimal numeral per group, each the shortest numeral of its group |
| IPv6.ToNormalizedString | test/IpAddrTest.php:195-198 | the colon-separated fields of the normalized text are the groups' hexadecimal numerals, and it holds no `::`; `NormalizedRoundTrip` characterises it |
| IPv6.ZeroRunAt | test/IpAddrTest.php:199-201 | the run from i ends at the end of the address or at a non-zero group; `ZeroRunSpec` states that it holds only zero groups |
| IPv6.ZeroRunSpec | test/IpAddrTest.php:199-201 | every group of the counted run is zero |
| IPv6.LongestZeroRun | test/IpAddrTest.php:199-201 | the chosen run starts at or after i and is the whole run of zeros at its start; `LongestZeroRunFrom`, `LongestZeroRunSpec` and `SingleZeroRun` characterise it |
| IPv6.LongestZeroRunFrom | test/IpAddrTest.php:199-201 | the chosen run is no shorter than any run from i on, and every run before it is strictly shorter |
| IPv6.ToString | test/IpAddrTest.php:199-201 | `toString()` equals `toNormalizedString()` exactly when no two adjacent groups are both zero; `ToStringNormalized`, `ToStringCompressed` and `ToStringRoundTrip` characterise it |
| IPv6.AdjacentZeros | test/IpAddrTest.php:199-201 | two adjacent zero groups exist exactly when the longest zero run has two or more groups |
| IPv6.FindDoubleColon | test/IpAddrTest.php:245 | a position found holds `::`; `FindDoubleColonSpec` characterises it |
| IPv6.IPv4Tail | test/IpAddrTest.php:221-223 | a tail is accepted exactly when it has four dotted groups and parses as an IPv4 address, and is then that address's two groups; `IPv4TailOfText` characterises it |
| IPv6.Expand | test/IpAddrTest.php:216-250 | a text with `::` that expands at all expands to exactly eight groups; `ExpandAround`, `ExpandCompressed`, `ExpandFull` and `ExpandRejectsRest` characterise it |
| IPv6.IsIPv6 | test/IpAddrTest.php:216-234 | an IPv6 shape holds a colon; `ExpandAround` and `ExpandRejectsRest` characterise it |
| IPv6.IsValid | test/IpAddrTest.php:236-258 | a valid text is an IPv6 shape whose hexadecimal fields have at most four digits; `IPv6.Parse`'s contract characterises it |
| IPv6.IsValidInput | test/IpAddrTest.php:248-257 | a valid input is present and an IPv6 shape; `RejectsAbsent` states the test's `null` case |
| IPv6.Match | test/IpAddrTest.php:287-297 | a prefix of 0 or less always matches; a prefix of 128 or more matches exactly the same address; `MatchValue`, `MatchBits` and `MatchShorter` characterise it |
| IPv6.Parse | test/IpAddrTest.php:236-285 | parse succeeds exactly when the lenient reading gives eight groups of at most 0xffff and every hexadecimal field has at most four digits, and returns those groups |
| IPv6Properties.FoldValue | test/IpAddrTest.php:170-174 | folding keeps the big-endian number the bytes denote |
| IPv6Properties.FromBytes | test/IpAddrTest.php:170-174 | sixteen bytes give the address with the same 128-bit number, the one its own groups build again |
| IPv6Properties.SectionOfFields | test/IpAddrTest.php:260-277 | numerals joined by colons read back as their values and hold no `::` |
| IPv6Properties.FindDoubleColonSpec | test/IpAddrTest.php:245 | the search for `::` finds the first one, and finds none only when there is none |
| IPv6Properties.ExpandAround | test/IpAddrTest.php:260-277 | a text is expanded around its first `::`, the groups missing to eight (possibly none) filled with zeros |
| IPv6Properties.ExpandRejectsRest | test/IpAddrTest.php:216-250 | a rest after the first `::` that is not a section makes the text no IPv6 text |
| IPv6Properties.ExpandCompressed | test/IpAddrTest.php:260-277 | numerals around one `::` expand to their values with zeros in between, when at most eight are given |
| IPv6Properties.ExpandFull | test/IpAddrTest.php:263 | two or more numerals without `::` expand to their values |
| IPv6Properties.TwoDoubleColons | test/IpAddrTest.php:245 | a text with two `::` is refused, whatever surrounds them |
| IPv6Properties.IPv4TailOfText | test/IpAddrTest.php:221 | the text of any IPv4 address is read back as the two groups its octets make |
| IPv6Properties.SectionWithIPv4Tail | test/IpAddrTest.php:221 | a dotted IPv4 last field supplies the last two groups |
| IPv6Properties.SectionRejectsTail | test/IpAddrTest.php:222 | a dotted last field that is no IPv4 address makes the section no section |
| IPv6Properties.ParseMapped | test/IpAddrTest.php:221 | `::ffff:` followed by any IPv4 text parses to `[0,0,0,0,0,0xffff,hi,lo]` from that address's octets |
| IPv6Properties.NormalizedRoundTrip | test/IpAddrTest.php:195-198 | `parse(toNormalizedString(a)) == a` |
| IPv6Properties.LongestZeroRunSpec | test/IpAddrTest.php:199-201 | the chosen run is a longest one and the first of the longest ones, and no other run has both properties |
| IPv6Properties.SingleZeroRun | test/IpAddrTest.php:199-201 | where the zero groups are exactly one run, that run is the one toString() compresses |
| IPv6Properties.ToStringNormalized | test/IpAddrTest.php:199-201 | without a run of two or more zero groups `toString()` is the normalized text |
| IPv6Properties.ToStringCompressed | test/IpAddrTest.php:199-201 | otherwise it is the groups before the chosen run, `::`, and the groups after it |
| IPv6Properties.ToStringRoundTrip | test/IpAddrTest.php:199-201 | `parse(toString(a)) == a` |
| IPv6Properties.MatchValue | test/IpAddrTest.php:287-297 | `match(b, n)` holds exactly when the 128-bit numbers agree after dropping the low 128-n bits |
| IPv6Properties.MatchBits | test/IpAddrTest.php:287-297 | `match(b, n)` holds exactly when the first n of the 128 bits agree |
| IPv6Properties.MatchShorter | test/IpAddrTest.php:290-295 | a match on n bits implies a match on every shorter prefix |
| IPv6Examples.ConstructFromGroups | test/IpAddrTest.php:164-168 | eight groups in range are accepted |
| IPv6Examples.ConstructFromBytes | test/IpAddrTest.php:170-174 | the sixteen test bytes give the same address as the eight test groups |
| IPv6Examples.RefusesWideGroup | test/IpAddrTest.php:179 | a group of 0xfffff is refused |
| IPv6Examples.RefusesSevenGroups | test/IpAddrTest.php:180 | seven values are refused |
| IPv6Examples.RefusesWideByte | test/IpAddrTest.php:181 | sixteen values with 0xffff among them are refused |
| IPv6Examples.PartAccess | test/IpAddrTest.php:210-214 | `parts[5]` reads back 42 |
| IPv6Examples.RendersNormalized | test/IpAddrTest.php:198 | the normalized text is `2001:db8:f53a:0:0:0:0:1` |
| IPv6Examples.RendersCompressed | test/IpAddrTest.php:199 | `toString()` is `2001:db8:f53a::1` |
| IPv6Examples.RendersLeadingRun | test/IpAddrTest.php:200 | `toString()` of `[0,0,0,0,0,0,0,1]` is `::1` |
| IPv6Examples.RendersTrailingRun | test/IpAddrTest.php:201 | `toString()` of `[0x2001,0xdb8,0,0,0,0,0,0]` is `2001:db8::` |
| IPv6Examples.ParsesUpperCase | test/IpAddrTest.php:219-239 | `2001:db8:F53A::1` is IPv6, valid, and parses to the test groups |
| IPv6Examples.WideGroupIsNotValid | test/IpAddrTest.php:220-240 | `200001::1` is IPv6 but not valid |
| IPv6Examples.FiveDigitFieldIsNotValid | test/IpAddrTest.php:236-250 | `::00001` expands to `[0,0,0,0,0,0,0,1]` and is IPv6, but is not valid, because its field has five digits |
| IPv6Examples.ParsesMapped | test/IpAddrTest.php:221-241 | `::ffff:192.168.1.1` is IPv6, valid, and is `[0,0,0,0,0,0xffff,0xc0a8,0x101]` |
| IPv6Examples.RejectsWideOctet | test/IpAddrTest.php:222-242 | `::ffff:300.168.1.1` is neither IPv6 nor valid |
| IPv6Examples.RejectsInnerDotted | test/IpAddrTest.php:223-243 | `::ffff:300.168.1.1:0` is neither IPv6 nor valid |
| IPv6Examples.RejectsWideLastOctet | test/IpAddrTest.php:244 | `::ffff:222.1.41.9000` is not valid |
| IPv6Examples.RejectsSecondDoubleColon | test/IpAddrTest.php:245 | `2001:db8::F53A::1` is not valid |
| IPv6Examples.RejectsWord | test/IpAddrTest.php:224-246 | `fe80::wtf` is neither IPv6 nor valid |
| IPv6Examples.RejectsTrailingColon | test/IpAddrTest.php:247 | `2002::2:` is not valid |
| IPv6Examples.RejectsAbsent | test/IpAddrTest.php:248 | an absent (null) text is not valid |
| IPv6Examples.ParsesFull | test/IpAddrTest.php:263 | `2001:db8:F53A:0:0:0:0:1` parses to the test groups |
| IPv6Examples.ParsesLinkLocal | test/IpAddrTest.php:264 | `fe80::10` parses to `[0xfe80,0,0,0,0,0,0,0x10]` |
| IPv6Examples.ParsesTrailing | test/IpAddrTest.php:265 | `2001:db8:F53A::` parses to `[0x2001,0xdb8,0xf53a,0,0,0,0,0]` |
| IPv6Examples.ParsesLoopback | test/IpAddrTest.php:266 | `::1` parses to `[0,0,0,0,0,0,0,1]` |
| IPv6Examples.ParsesUnspecified | test/IpAddrTest.php:267 | `::` parses to eight zeros |
| IPv6Examples.BarfsAtSecondDoubleColon | test/IpAddrTest.php:279-285 | `fe80::0::1` does not parse |
| IPv6Examples.MatchesUnspecified | test/IpAddrTest.php:290 | `2001:db8:f53a::1` matches `::` at /0 |
| IPv6Examples.MatchesSameSlash64 | test/IpAddrTest.php:291 | it matches `2001:db8:f53a::1:1` at /64 |
| IPv6Examples.MatchesOtherSlash48 | test/IpAddrTest.php:292 | it does not match `2001:db8:f53b::1:1` at /48 |
| IPv6Examples.MatchesSameSlash44 | test/IpAddrTest.php:293 | it matches `2001:db8:f531::1:1` at /44 |
| IPv6Examples.MatchesSameSlash40 | test/IpAddrTest.php:294 | it matches `2001:db8:f500::1` at /40 |
| IPv6Examples.MatchesOtherSlash40 | test/IpAddrTest.php:295 | it does not match `2001:db9:f500::1` at /40 |
| IPv6Examples.MatchesItself | test/IpAddrTest.php:296 | it matches itself at /128 |
| Text.ToDigits | test/IpAddrTest.php:35-39 | the numeral is non-empty, made of digits of the base, worth n, without a leading zero, and lower case |
| Text.ToDigitsOfValue | test/IpAddrTest.php:158-162 | a lower-case numeral without leading zeros is the one ToDigits writes for its value |
| Text.Split | test/IpAddrTest.php:53-75 | the fields hold no separator and join back to the text |
| Text.SplitJoin | test/IpAddrTest.php:53-75 | splitting undoes joining separator-free fields |
| Text.LastIndexOf | test/IpAddrTest.php:100-130 | the position holds the character and none follows it |
| Prefix.MatchPartsBits | test/IpAddrTest.php:85-98 | group-wise prefix matching equals comparing the first n bits of the concatenated groups |
| Prefix.MatchPartsValue | test/IpAddrTest.php:287-297 | group-wise prefix matching equals comparing the big-endian numbers divided by 2^(width-n) |

## Left out

- The implementation classes are not part of this model. Its behaviour is fixed by the test suite. Where the suite is silent, the model takes the library's documented design (the library is a port of the JavaScript library ipaddr.js) for:
  - the IPv4 group notations;
  - the collapsing of fewer than four groups;
  - the first-match range table;
  - the lenient/strict split between `isIPv6` and `isValid`.
  The model is not compared with ipaddr.js text by text. The lines below name the places where the two are known to differ.
- PHP's exceptions (`TypeError`) become `None`. PHP's dynamic typing is left out, except for the `null` argument of `isValid`, which is modelled by `IPv6.IsValidInput` on an `Option<string>`.
- `kind()` is a constant per family; no further lemmas about it.
- The range table keeps the blocks that the labels in the test suite imply, plus 172.16.0.0/12. That block completes the RFC 1918 private ranges the `private` label stands for. The rest of the IANA registry and all IPv6 ranges are left out.
- IPv6 `parseCIDR`, zone indices (`%eth0`), and conversions between families other than the `::ffff:` tail are left out; the tests do not exercise them.
- IPv6.Expand: without `::`, two or more fields are required; a single field is never IPv6. The count of eight is checked only by `isValid`/`parse`, so `isIPv6` stays lenient as the test at line 220 requires. The lenient reading sets no upper bound on the fields of a text without `::` (nine fields are an IPv6 shape), where ipaddr.js refuses a text with more than eight colons; the test suite has no such text, and the implementation is not part of this model. Every field around `::` must be a non-empty numeral, so a single colon at either end of the text makes it no IPv6 shape: `2002::2:` is refused by `isIPv6` as well as by `isValid`. ipaddr.js splices the zero groups in as text and can absorb such a colon, so its `isIPv6` may accept `2002::2:`; the model does not replicate that textual splice. The test suite fixes only that `isValid` refuses it (line 247).
- IPv4.ParseCidr: the length is any non-empty run of decimal digits worth at most 32, so leading zeros are accepted (`0.0.0.0/032` reads as length 32). The test suite fixes only that `-1` and `33` are refused; a limit on the number of digits, if the implementation has one, is not modelled.
- IPv6.IPv4Tail: an embedded IPv4 tail must be exactly four dotted groups. Each group is read in any IPv4 notation, and the octets must be at most 255.
- IPv6.FromParts: the sixteen-byte form checks each byte against 0xff before folding.
- Integers are unbounded: the model needs no machine arithmetic because every value is bounded by its validity predicate.
