/** Random private-use IPv6 prefixes of the form `fdXX:g:g:g:/64` (the
    unique-local `fd00::/8` space of RFC 4193, section 3.1, of which only the
    `fd` marker is enforced): the hex group generator, the two address
    builders and the validator of src/main.rs. The random draws are supplied
    by the caller. */
module PrivateIpv6 {
  import opened Strings
  import opened Hex

  /** Rust's `u8` and `u16`. */
  type U8 = x: nat | x < 0x100
  type U16 = x: nat | x < 0x1_0000

  /** The first two characters of every address. */
  const Marker: string := "fd"
  /** The prefix-length suffix of every address. */
  const Suffix: string := ":/64"
  const MaxByte: U16 := 255
  const MaxGroup: U16 := 65535

  // ---------------------------------------------------------------------
  // The address grammar

  predicate IsHexGroup(g: string)
  {
    |g| > 0 && AllHexDigits(g)
  }

  /** Four non-empty groups of ASCII hex digits, the first starting with `fd`. */
  predicate WellFormedGroups(groups: seq<string>)
  {
    |groups| == 4 && StartsWith(groups[0], Marker) &&
    forall k :: 0 <= k < |groups| ==> IsHexGroup(groups[k])
  }

  /** `format!("{}:/64", groups.join(":"))`. */
  function AddressText(groups: seq<string>): (s: string)
    ensures EndsWith(s, Suffix)
    ensures s[..|s| - |Suffix|] == Join(groups, ':')
  {
    Join(groups, ':') + Suffix
  }

  /** The strings the address grammar produces. */
  ghost predicate IsAddress(s: string)
  {
    exists groups :: WellFormedGroups(groups) && AddressText(groups) == s
  }

  /** Character-level description of the accepted strings: the string ends
      with `:/64`, and what precedes the suffix holds exactly three colons,
      starts with `fd`, does not end with a colon, never holds two colons in
      a row, and is otherwise made of ASCII hex digits. */
  predicate ValidAddress(s: string)
  {
    EndsWith(s, Suffix) && ValidBody(s[..|s| - |Suffix|])
  }

  predicate ValidBody(body: string)
  {
    Count(body, ':') == 3 &&
    StartsWith(body, Marker) &&
    SeparatorsWellPlaced(body, ':') &&
    OthersSatisfy(body, ':', IsAsciiHexDigit)
  }

  // ---------------------------------------------------------------------
  // generate_hex

  /** `generate_hex(max)`, with the value `rand` would draw from `0..=max`
      passed in as `draw`. */
  function GenerateHex(max: U16, draw: U16): (s: string)
    requires draw <= max
    ensures |s| > 0 && IsLowerHex(s)
    ensures ParseHex(s).Some? && ParseHex(s).value == draw && ParseHex(s).value <= max
    ensures max == 0 ==> s == "0"
  {
    ToHexRoundTrip(draw);
    ToHexNoLeadingZero(draw);
    ToHex(draw)
  }

  // ---------------------------------------------------------------------
  // Builders

  /** The groups `generate_private_ipv6_with_values` pushes: `fd` and the
      byte as exactly two digits, then the three values in compact hex. */
  function WithValuesGroups(firstByte: U8, group2: U16, group3: U16, group4: U16): seq<string>
  {
    [Marker + PadHex(firstByte, 2), ToHex(group2), ToHex(group3), ToHex(group4)]
  }

  /** The groups `generate_private_ipv6` pushes for the given draws: `fd` and
      the byte in compact hex (one digit below 16), then the three draws. */
  function RandomGroups(byteDraw: U8, draw2: U16, draw3: U16, draw4: U16): seq<string>
  {
    [Marker + ToHex(byteDraw), ToHex(draw2), ToHex(draw3), ToHex(draw4)]
  }

  /** `generate_private_ipv6_with_values`. */
  method GeneratePrivateIpv6WithValues(firstByte: U8, group2: U16, group3: U16, group4: U16)
    returns (addr: string)
    ensures addr == AddressText(WithValuesGroups(firstByte, group2, group3, group4))
  {
    var hexFirstByte := Marker;
    var hexByte := PadHex(firstByte, 2);
    var hexTwoByteStr := hexFirstByte + hexByte;

    var addrAllGroups: seq<string> := [];
    addrAllGroups := addrAllGroups + [hexTwoByteStr];
    addrAllGroups := addrAllGroups + [ToHex(group2)];
    addrAllGroups := addrAllGroups + [ToHex(group3)];
    addrAllGroups := addrAllGroups + [ToHex(group4)];

    assert addrAllGroups == WithValuesGroups(firstByte, group2, group3, group4);
    addr := AddressText(addrAllGroups);
  }

  /** `generate_private_ipv6`, with the four draws passed in: `byteDraw` for
      `generate_hex(255)` and `draw2`, `draw3`, `draw4` for the three calls
      of `generate_hex(65535)` in the loop, in that order. Every group is
      compact hex, so the last three have 1 to 4 digits and the first group
      has 3 or 4 characters. */
  method GeneratePrivateIpv6(byteDraw: U8, draw2: U16, draw3: U16, draw4: U16)
    returns (addr: string)
    ensures addr == AddressText(RandomGroups(byteDraw, draw2, draw3, draw4))
  {
    var maxHexValueAsInt: U16 := MaxGroup;
    var hexFirstByte := Marker;
    var hexByte := GenerateHex(MaxByte, byteDraw);
    var hexTwoByteStr := hexFirstByte + hexByte;

    var addrAllGroups: seq<string> := [];
    addrAllGroups := addrAllGroups + [hexTwoByteStr];

    var draws := [draw2, draw3, draw4];
    for i := 0 to 3
      invariant |addrAllGroups| == i + 1 && addrAllGroups[0] == hexTwoByteStr
      invariant forall k :: 1 <= k <= i ==> addrAllGroups[k] == ToHex(draws[k - 1])
    {
      addrAllGroups := addrAllGroups + [GenerateHex(maxHexValueAsInt, draws[i])];
    }

    assert addrAllGroups[1] == ToHex(draw2) && addrAllGroups[2] == ToHex(draw3);
    assert addrAllGroups[3] == ToHex(draw4);
    assert addrAllGroups == RandomGroups(byteDraw, draw2, draw3, draw4);
    addr := AddressText(addrAllGroups);
  }

  /** The random builder with the byte rendered as two digits, as
      `generate_private_ipv6_with_values` renders it: for the same values it
      builds the same address. */
  method GeneratePrivateIpv6Padded(byteDraw: U8, draw2: U16, draw3: U16, draw4: U16)
    returns (addr: string)
    ensures addr == AddressText(WithValuesGroups(byteDraw, draw2, draw3, draw4))
  {
    var maxHexValueAsInt: U16 := MaxGroup;
    var hexFirstByte := Marker;
    var hexByte := PadHex(byteDraw, 2);
    var hexTwoByteStr := hexFirstByte + hexByte;

    var addrAllGroups: seq<string> := [];
    addrAllGroups := addrAllGroups + [hexTwoByteStr];

    var draws := [draw2, draw3, draw4];
    for i := 0 to 3
      invariant |addrAllGroups| == i + 1 && addrAllGroups[0] == hexTwoByteStr
      invariant forall k :: 1 <= k <= i ==> addrAllGroups[k] == ToHex(draws[k - 1])
    {
      addrAllGroups := addrAllGroups + [GenerateHex(maxHexValueAsInt, draws[i])];
    }

    assert addrAllGroups[1] == ToHex(draw2) && addrAllGroups[2] == ToHex(draw3);
    assert addrAllGroups[3] == ToHex(draw4);
    assert addrAllGroups == WithValuesGroups(byteDraw, draw2, draw3, draw4);
    addr := AddressText(addrAllGroups);
  }

  // ---------------------------------------------------------------------
  // is_valid_private_ipv6

  /** `is_valid_private_ipv6`: the checks in the source's order, each
      returning false at the first failure. It accepts exactly the strings
      of the address grammar, described also character by character. */
  method IsValidPrivateIpv6(ipv6Str: string) returns (valid: bool)
    ensures valid == ValidAddress(ipv6Str)
  {
    if !EndsWith(ipv6Str, Suffix) {
      ValidatorSpec(ipv6Str);
      return false;
    }

    var addressPart := ipv6Str[..|ipv6Str| - 4];
    var groups := Split(addressPart, ':');

    if |groups| != 4 {
      ValidatorSpec(ipv6Str);
      return false;
    }

    if !StartsWith(groups[0], Marker) {
      ValidatorSpec(ipv6Str);
      return false;
    }

    for i := 0 to |groups|
      invariant forall k :: 0 <= k < i ==> IsHexGroup(groups[k])
    {
      var group := groups[i];
      if |group| == 0 {
        ValidatorSpec(ipv6Str);
        return false;
      }
      for j := 0 to |group|
        invariant forall m :: 0 <= m < j ==> IsAsciiHexDigit(group[m])
      {
        if !IsAsciiHexDigit(group[j]) {
          ValidatorSpec(ipv6Str);
          return false;
        }
      }
    }

    ValidatorSpec(ipv6Str);
    return true;
  }

  // ---------------------------------------------------------------------
  // The validator's lemmas

  /** Groups made of hex digits hold no separator. */
  lemma HexGroupsHaveNoColon(groups: seq<string>)
    requires forall k :: 0 <= k < |groups| ==> AllHexDigits(groups[k])
    ensures forall k :: 0 <= k < |groups| ==> ':' !in groups[k]
  {
  }

  /** A group check per piece is an emptiness check and a digit check. */
  lemma HexGroupsIff(pieces: seq<string>)
    ensures (forall k :: 0 <= k < |pieces| ==> IsHexGroup(pieces[k]))
      <==> NoEmptyPiece(pieces) && PiecesSatisfy(pieces, IsAsciiHexDigit)
  {
  }

  /** The validator's checks on the part before the suffix, as the source
      makes them on the pieces of the split, agree with the character-level
      description. */
  lemma SplitChecks(body: string)
    ensures ValidBody(body) <==> WellFormedGroups(Split(body, ':'))
  {
    var pieces := Split(body, ':');
    assert Count(body, ':') == 3 <==> |pieces| == 4 by {
      SplitCount(body, ':');
    }
    assert StartsWith(pieces[0], Marker) <==> StartsWith(body, Marker) by {
      SplitHead(body, ':');
      if StartsWith(body, Marker) {
        assert body[0] != ':' && body[1] != ':';
      }
    }
    assert (forall k :: 0 <= k < |pieces| ==> IsHexGroup(pieces[k]))
      <==> SeparatorsWellPlaced(body, ':') && OthersSatisfy(body, ':', IsAsciiHexDigit) by {
      NonEmptyPieces(body, ':');
      PieceChars(body, ':', IsAsciiHexDigit);
      HexGroupsIff(pieces);
    }
  }

  /** The validator's checks, in terms of the pieces of the split. */
  lemma ValidatorSpec(s: string)
    ensures ValidAddress(s) <==>
      EndsWith(s, Suffix) && WellFormedGroups(Split(s[..|s| - |Suffix|], ':'))
  {
    if EndsWith(s, Suffix) {
      SplitChecks(s[..|s| - |Suffix|]);
    }
  }

  /** Joined groups that hold no colon, with the suffix appended, are
      accepted exactly when they are four well-formed groups: so a wrong
      group count, a first group not starting with `fd`, an empty group and
      a non-hex character are each rejected. */
  lemma JoinedGroupsValid(groups: seq<string>)
    requires |groups| >= 1
    requires forall k :: 0 <= k < |groups| ==> ':' !in groups[k]
    ensures ValidAddress(AddressText(groups)) <==> WellFormedGroups(groups)
  {
    var s := AddressText(groups);
    SplitJoin(groups, ':');
    SplitChecks(s[..|s| - |Suffix|]);
  }

  /** An accepted string is its own pieces, joined and given the suffix. */
  lemma ValidIsAddress(s: string)
    requires ValidAddress(s)
    ensures var groups := Split(s[..|s| - |Suffix|], ':');
      WellFormedGroups(groups) && AddressText(groups) == s
  {
    var body := s[..|s| - |Suffix|];
    var groups := Split(body, ':');
    assert WellFormedGroups(groups) by {
      SplitChecks(body);
    }
    assert Join(groups, ':') == body by {
      JoinSplit(body, ':');
    }
    assert s == body + s[|s| - |Suffix|..];
  }

  /** The address grammar and the character-level description agree. */
  lemma GrammarIff(s: string)
    ensures IsAddress(s) <==> ValidAddress(s)
  {
    if ValidAddress(s) {
      ValidIsAddress(s);
    }
    if IsAddress(s) {
      var groups :| WellFormedGroups(groups) && AddressText(groups) == s;
      HexGroupsHaveNoColon(groups);
      JoinedGroupsValid(groups);
    }
  }

  // ---------------------------------------------------------------------
  // The builders' lemmas

  lemma JoinFour(a: string, b: string, c: string, d: string)
    ensures Join([a, b, c, d], ':') == a + ":" + b + ":" + c + ":" + d
  {
    assert Join([d], ':') == d;
    assert [c, d][1..] == [d];
    assert Join([c, d], ':') == c + ":" + d;
    assert [b, c, d][1..] == [c, d];
    assert Join([b, c, d], ':') == b + ":" + c + ":" + d;
    assert [a, b, c, d][1..] == [b, c, d];
  }

  /** A join starts with its first piece. */
  lemma JoinStartsWith(pieces: seq<string>, c: char)
    requires |pieces| >= 1
    ensures StartsWith(Join(pieces, c), pieces[0])
  {
  }

  lemma StartsWithChain(s: string, t: string, prefix: string)
    requires StartsWith(s, t) && StartsWith(t, prefix)
    ensures StartsWith(s, prefix)
  {
    assert s[..|prefix|] == s[..|t|][..|prefix|];
  }

  /** An address starts with its first group. */
  lemma AddressStartsWithFirstGroup(groups: seq<string>)
    requires |groups| >= 1
    ensures StartsWith(AddressText(groups), groups[0])
  {
    var j := Join(groups, ':');
    JoinStartsWith(groups, ':');
    assert (j + Suffix)[..|groups[0]|] == j[..|groups[0]|];
  }

  /** `fd` followed by hex digits is a first group the grammar allows. */
  lemma MarkedGroup(h: string)
    requires |h| > 0 && IsLowerHex(h)
    ensures IsHexGroup(Marker + h) && StartsWith(Marker + h, Marker)
    ensures (Marker + h)[|Marker|..] == h
  {
    var g := Marker + h;
    forall i | 0 <= i < |g| ensures IsAsciiHexDigit(g[i]) {
      if i >= 2 { assert g[i] == h[i - 2]; }
    }
  }

  /** The three compact groups both builders push. */
  lemma CompactGroups(g2: U16, g3: U16, g4: U16)
    ensures IsHexGroup(ToHex(g2)) && IsHexGroup(ToHex(g3)) && IsHexGroup(ToHex(g4))
    ensures ParseHex(ToHex(g2)) == Some(g2 as nat)
    ensures ParseHex(ToHex(g3)) == Some(g3 as nat)
    ensures ParseHex(ToHex(g4)) == Some(g4 as nat)
  {
    LowerIsHex(ToHex(g2));
    LowerIsHex(ToHex(g3));
    LowerIsHex(ToHex(g4));
    ToHexRoundTrip(g2);
    ToHexRoundTrip(g3);
    ToHexRoundTrip(g4);
  }

  /** What a builder's output is made of, whatever its four groups: it
      passes the validator, starts with `fd`, ends with `:/64`, and removing
      the suffix and splitting on `:` gives the groups back. */
  lemma BuiltAddress(groups: seq<string>)
    requires WellFormedGroups(groups)
    ensures var s := AddressText(groups);
      ValidAddress(s) && StartsWith(s, Marker) && EndsWith(s, Suffix) &&
      Split(s[..|s| - |Suffix|], ':') == groups
  {
    HexGroupsHaveNoColon(groups);
    JoinedGroupsValid(groups);
    SplitJoin(groups, ':');
    AddressStartsWithFirstGroup(groups);
    StartsWithChain(AddressText(groups), groups[0], Marker);
  }

  /** The deterministic first group is `fd` and exactly two lowercase digits
      that parse back to the byte. */
  lemma PaddedFirstGroup(b: U8)
    ensures |PadHex(b, 2)| == 2 && |Marker + PadHex(b, 2)| == 4
    ensures IsHexGroup(Marker + PadHex(b, 2)) && StartsWith(Marker + PadHex(b, 2), Marker)
    ensures (Marker + PadHex(b, 2))[2..] == PadHex(b, 2)
    ensures ParseHex(PadHex(b, 2)) == Some(b as nat)
  {
    assert Pow16(2) == 256;
    PadHexRoundTrip(b, 2);
    MarkedGroup(PadHex(b, 2));
  }

  /** The deterministic builder's output, written out. */
  lemma WithValuesText(b: U8, g2: U16, g3: U16, g4: U16)
    ensures AddressText(WithValuesGroups(b, g2, g3, g4))
         == Marker + PadHex(b, 2) + ":" + ToHex(g2) + ":" + ToHex(g3) + ":" + ToHex(g4) + Suffix
  {
    JoinFour(Marker + PadHex(b, 2), ToHex(g2), ToHex(g3), ToHex(g4));
  }

  /** The deterministic builder's output is valid, and taking it apart gives
      back `fd`, the byte as two digits and the three values. */
  lemma WithValuesRoundTrip(b: U8, g2: U16, g3: U16, g4: U16)
    ensures var s := AddressText(WithValuesGroups(b, g2, g3, g4));
      ValidAddress(s) && StartsWith(s, Marker) && EndsWith(s, Suffix)
    ensures var s := AddressText(WithValuesGroups(b, g2, g3, g4));
      var parts := Split(s[..|s| - |Suffix|], ':');
      |parts| == 4 && parts[0] == Marker + PadHex(b, 2) && |parts[0]| == 4 &&
      ParseHex(parts[0][2..]) == Some(b as nat) &&
      ParseHex(parts[1]) == Some(g2 as nat) &&
      ParseHex(parts[2]) == Some(g3 as nat) &&
      ParseHex(parts[3]) == Some(g4 as nat)
  {
    PaddedFirstGroup(b);
    CompactGroups(g2, g3, g4);
    BuiltAddress(WithValuesGroups(b, g2, g3, g4));
  }

  /** The random builder's output is valid for any draws, and taking it
      apart gives back `fd`, the byte in compact hex and the three draws. */
  lemma RandomRoundTrip(b: U8, d2: U16, d3: U16, d4: U16)
    ensures var s := AddressText(RandomGroups(b, d2, d3, d4));
      ValidAddress(s) && StartsWith(s, Marker) && EndsWith(s, Suffix)
    ensures var s := AddressText(RandomGroups(b, d2, d3, d4));
      var parts := Split(s[..|s| - |Suffix|], ':');
      |parts| == 4 && parts[0] == Marker + ToHex(b) &&
      ParseHex(parts[0][2..]) == Some(b as nat) &&
      ParseHex(parts[1]) == Some(d2 as nat) &&
      ParseHex(parts[2]) == Some(d3 as nat) &&
      ParseHex(parts[3]) == Some(d4 as nat)
  {
    MarkedGroup(ToHex(b));
    ToHexRoundTrip(b);
    CompactGroups(d2, d3, d4);
    BuiltAddress(RandomGroups(b, d2, d3, d4));
  }

  /** As written, the random builder's first group is `fd` and the compact
      byte: three characters below 16, and the deterministic builder's four
      characters from 16 on. */
  lemma RandomFirstGroupWidth(b: U8, d2: U16, d3: U16, d4: U16)
    ensures |RandomGroups(b, d2, d3, d4)[0]| == if b < 16 then 3 else 4
    ensures b >= 16 <==> RandomGroups(b, d2, d3, d4) == WithValuesGroups(b, d2, d3, d4)
  {
    ToHexLength(b, 1);
    ToHexLength(b, 2);
    assert Pow16(1) == 16 && Pow16(2) == 256;
    PaddedFirstGroup(b);
    if b >= 16 {
      assert PadHex(b, 2) == ToHex(b);
    } else {
      assert |RandomGroups(b, d2, d3, d4)[0]| != |WithValuesGroups(b, d2, d3, d4)[0]|;
    }
  }

  /** The compact renderings the examples below use. */
  lemma HexLiterals()
    ensures ToHex(0) == "0" && ToHex(1) == "1" && ToHex(10) == "a"
    ensures ToHex(255) == "ff" && ToHex(65535) == "ffff"
    ensures ToHex(256) == "100" && ToHex(4096) == "1000"
    ensures PadHex(0, 2) == "00" && PadHex(255, 2) == "ff" && PadHex(10, 2) == "0a"
  {
    assert ToHex(15) == "f" && ToHex(16) == "10" && ToHex(4095) == "fff";
  }

  /** An address from four groups, written out. */
  lemma FourGroupText(a: string, b: string, c: string, d: string)
    ensures AddressText([a, b, c, d]) == a + ":" + b + ":" + c + ":" + d + Suffix
  {
    JoinFour(a, b, c, d);
  }

  /** The groups the builders push for the examples below. */
  lemma ExampleGroups()
    ensures WithValuesGroups(0, 0, 0, 0) == ["fd00", "0", "0", "0"]
    ensures WithValuesGroups(255, 65535, 65535, 65535) == ["fdff", "ffff", "ffff", "ffff"]
    ensures WithValuesGroups(10, 256, 4096, 1) == ["fd0a", "100", "1000", "1"]
    ensures WithValuesGroups(10, 0, 0, 0) == ["fd0a", "0", "0", "0"]
    ensures RandomGroups(10, 0, 0, 0) == ["fda", "0", "0", "0"]
  {
    HexLiterals();
    assert Marker + PadHex(0, 2) == "fd00";
    assert Marker + PadHex(255, 2) == "fdff";
    assert Marker + PadHex(10, 2) == "fd0a";
    assert Marker + ToHex(10) == "fda";
  }

  /** The addresses those groups make, one query each. */
  lemma TextFd00()
    ensures AddressText(["fd00", "0", "0", "0"]) == "fd00:0:0:0:/64"
  {
    FourGroupText("fd00", "0", "0", "0");
  }

  lemma TextFdff()
    ensures AddressText(["fdff", "ffff", "ffff", "ffff"]) == "fdff:ffff:ffff:ffff:/64"
  {
    FourGroupText("fdff", "ffff", "ffff", "ffff");
  }

  lemma TextFd0aMixed()
    ensures AddressText(["fd0a", "100", "1000", "1"]) == "fd0a:100:1000:1:/64"
  {
    FourGroupText("fd0a", "100", "1000", "1");
  }

  lemma TextFd0a()
    ensures AddressText(["fd0a", "0", "0", "0"]) == "fd0a:0:0:0:/64"
  {
    FourGroupText("fd0a", "0", "0", "0");
  }

  lemma TextFda()
    ensures AddressText(["fda", "0", "0", "0"]) == "fda:0:0:0:/64"
  {
    FourGroupText("fda", "0", "0", "0");
  }

  /** `generate_private_ipv6_with_values(0, 0, 0, 0)`. */
  lemma WithValuesMinimum()
    ensures AddressText(WithValuesGroups(0, 0, 0, 0)) == "fd00:0:0:0:/64"
  {
    ExampleGroups();
    TextFd00();
  }

  /** `generate_private_ipv6_with_values(255, 65535, 65535, 65535)`. */
  lemma WithValuesMaximum()
    ensures AddressText(WithValuesGroups(255, 65535, 65535, 65535)) == "fdff:ffff:ffff:ffff:/64"
  {
    ExampleGroups();
    TextFdff();
  }

  /** `generate_private_ipv6_with_values(10, 256, 4096, 1)`. */
  lemma WithValuesMixed()
    ensures AddressText(WithValuesGroups(10, 256, 4096, 1)) == "fd0a:100:1000:1:/64"
  {
    ExampleGroups();
    TextFd0aMixed();
  }

  /** The random builder as written, on a byte below 16: its first group
      has three characters, where the deterministic builder writes four. */
  lemma UnpaddedByteExample()
    ensures AddressText(RandomGroups(10, 0, 0, 0)) == "fda:0:0:0:/64"
    ensures AddressText(WithValuesGroups(10, 0, 0, 0)) == "fd0a:0:0:0:/64"
  {
    ExampleGroups();
    TextFda();
    TextFd0a();
  }

  // ---------------------------------------------------------------------
  // The validator on the source's test inputs

  /** Four well-formed groups, joined and given the suffix, are accepted. */
  lemma AcceptsFour(a: string, b: string, c: string, d: string)
    requires WellFormedGroups([a, b, c, d])
    ensures ValidAddress(a + ":" + b + ":" + c + ":" + d + Suffix)
  {
    FourGroupText(a, b, c, d);
    BuiltAddress([a, b, c, d]);
  }

  /** Four colon-free groups that are not well formed (a first group not
      starting with `fd`, an empty group, a non-hex character) are rejected. */
  lemma RejectsFour(a: string, b: string, c: string, d: string)
    requires ':' !in a && ':' !in b && ':' !in c && ':' !in d
    requires !WellFormedGroups([a, b, c, d])
    ensures !ValidAddress(a + ":" + b + ":" + c + ":" + d + Suffix)
  {
    FourGroupText(a, b, c, d);
    JoinedGroupsValid([a, b, c, d]);
  }

  /** Three colon-free groups are one too few. */
  lemma RejectsThree(a: string, b: string, c: string)
    requires ':' !in a && ':' !in b && ':' !in c
    ensures !ValidAddress(a + ":" + b + ":" + c + Suffix)
  {
    assert Join([c], ':') == c;
    assert [b, c][1..] == [c];
    assert Join([b, c], ':') == b + ":" + c;
    assert [a, b, c][1..] == [b, c];
    assert Join([a, b, c], ':') == a + ":" + b + ":" + c;
    JoinedGroupsValid([a, b, c]);
  }

  /** Five colon-free groups are one too many. */
  lemma RejectsFive(a: string, b: string, c: string, d: string, e: string)
    requires ':' !in a && ':' !in b && ':' !in c && ':' !in d && ':' !in e
    ensures !ValidAddress(a + ":" + b + ":" + c + ":" + d + ":" + e + Suffix)
  {
    JoinFour(b, c, d, e);
    assert [a, b, c, d, e][1..] == [b, c, d, e];
    assert Join([a, b, c, d, e], ':') == a + ":" + b + ":" + c + ":" + d + ":" + e;
    JoinedGroupsValid([a, b, c, d, e]);
  }

  /** The addresses the source's unit test accepts. */
  lemma ValidatorAcceptsExamples()
    ensures ValidAddress("fd01" + ":" + "2345" + ":" + "6789" + ":" + "abcd" + Suffix)
    ensures ValidAddress("fdff" + ":" + "1" + ":" + "2" + ":" + "3" + Suffix)
  {
    AcceptsFour("fd01", "2345", "6789", "abcd");
    AcceptsFour("fdff", "1", "2", "3");
  }

  /** The all-zero and all-`f` addresses of the same test. */
  lemma ValidatorAcceptsExtremes()
    ensures ValidAddress("fdaa" + ":" + "0" + ":" + "0" + ":" + "0" + Suffix)
    ensures ValidAddress("fdff" + ":" + "ffff" + ":" + "ffff" + ":" + "ffff" + Suffix)
  {
    AcceptsFour("fdaa", "0", "0", "0");
    AcceptsFour("fdff", "ffff", "ffff", "ffff");
  }

  /** The strings the source's unit test rejects for their first group:
      one starting `fc` and one starting `gd`. */
  lemma ValidatorRejectsPrefixExamples()
    ensures !ValidAddress("fc01" + ":" + "2345" + ":" + "6789" + ":" + "abcd" + Suffix)
    ensures !ValidAddress("gd01" + ":" + "2345" + ":" + "6789" + ":" + "abcd" + Suffix)
  {
    assert "fc01"[1] == 'c';
    RejectsFour("fc01", "2345", "6789", "abcd");
    assert "gd01"[0] == 'g';
    RejectsFour("gd01", "2345", "6789", "abcd");
  }

  /** The strings the source's unit test rejects for a bad group: a
      non-hex group and an empty group. */
  lemma ValidatorRejectsGroupExamples()
    ensures !ValidAddress("fd01" + ":" + "2345" + ":" + "6789" + ":" + "xyz" + Suffix)
    ensures !ValidAddress("fd01" + ":" + "" + ":" + "6789" + ":" + "abcd" + Suffix)
  {
    assert !IsAsciiHexDigit("xyz"[0]) && !IsHexGroup("xyz");
    assert ["fd01", "2345", "6789", "xyz"][3] == "xyz";
    RejectsFour("fd01", "2345", "6789", "xyz");
    assert ["fd01", "", "6789", "abcd"][1] == "";
    RejectsFour("fd01", "", "6789", "abcd");
  }

  /** The strings the source's unit test rejects for their group count. */
  lemma ValidatorRejectsCountExamples()
    ensures !ValidAddress("fd01" + ":" + "2345" + ":" + "6789" + Suffix)
    ensures !ValidAddress("fd01" + ":" + "2345" + ":" + "6789" + ":" + "abcd" + ":" + "ef01" + Suffix)
  {
    RejectsThree("fd01", "2345", "6789");
    RejectsFive("fd01", "2345", "6789", "abcd", "ef01");
  }

  /** The strings the source's unit test rejects for their suffix: `/48`,
      none, the empty string and text after `/64`. */
  lemma ValidatorRejectsSuffixExamples()
    ensures !ValidAddress("fd01:2345:6789:abcd:/48")
    ensures !ValidAddress("fd01:2345:6789:abcd")
    ensures !ValidAddress("")
    ensures !ValidAddress("fd01:2345:6789:abcd:/64extra")
  {
  }

  /** The malformed variant the source's property test builds from the
      deterministic builder's groups with `fc` in place of `fd`: rejected. */
  lemma ValidatorRejectsMalformedPrefix(b: U8, g2: U16, g3: U16, g4: U16)
    ensures !ValidAddress(AddressText(["fc" + PadHex(b, 2)] + WithValuesGroups(b, g2, g3, g4)[1..]))
  {
    var groups := WithValuesGroups(b, g2, g3, g4);
    var wrong := "fc" + PadHex(b, 2);
    assert wrong[..2] == "fc";
    CompactGroups(g2, g3, g4);
    LowerIsHex(PadHex(b, 2));
    HexGroupsHaveNoColon([PadHex(b, 2)] + groups[1..]);
    assert ':' !in wrong by {
      assert wrong == "fc" + PadHex(b, 2);
    }
    JoinedGroupsValid([wrong] + groups[1..]);
  }

  /** The variants of the same test with one group fewer and one group
      more: rejected. */
  lemma ValidatorRejectsMalformedCount(b: U8, g2: U16, g3: U16, g4: U16)
    ensures var groups := WithValuesGroups(b, g2, g3, g4);
      !ValidAddress(AddressText(groups[..3])) && !ValidAddress(AddressText(groups + ["1"]))
  {
    var groups := WithValuesGroups(b, g2, g3, g4);
    PaddedFirstGroup(b);
    CompactGroups(g2, g3, g4);
    HexGroupsHaveNoColon(groups + ["1"]);
    JoinedGroupsValid(groups[..3]);
    JoinedGroupsValid(groups + ["1"]);
  }

  /** The variants of the same test with a wrong suffix: `:/48` instead of
      `:/64`, or no suffix at all. */
  lemma ValidatorRejectsMalformedSuffix(b: U8, g2: U16, g3: U16, g4: U16)
    ensures !ValidAddress(Join(WithValuesGroups(b, g2, g3, g4), ':') + ":/48")
    ensures !ValidAddress(Join(WithValuesGroups(b, g2, g3, g4), ':'))
  {
    var groups := WithValuesGroups(b, g2, g3, g4);
    var body := Join(groups, ':');
    assert (body + ":/48")[|body| + 3] == '8';
    PaddedFirstGroup(b);
    CompactGroups(g2, g3, g4);
    HexGroupsHaveNoColon(groups);
    JoinExcludes(groups, ':', '/');
    assert !EndsWith(body, Suffix) by {
      if |Suffix| <= |body| {
        assert body[|body| - |Suffix|..][1] == body[|body| - 3];
      }
    }
  }
}
