# Private IPv6 prefix generator and validator

A Dafny model of `src/main.rs` of `rust_private_ipv6_2`. The program builds
and checks strings of the form `fdXX:g:g:g:/64`: a private-use IPv6 prefix in
the unique-local `fd00::/8` space of RFC 4193, section 3.1. Only the `fd`
marker is enforced.

The model has three modules.

- `Strings` models the Rust string operations the program uses: `starts_with`,
  `ends_with`, `split(':')` and `join(":")`. It keeps Rust's split behaviour:
  `n` separators give `n + 1` pieces, and empty pieces are kept. Its lemmas
  cover split/join round trips, the piece count, and which character-level
  conditions give pieces that are all non-empty or all made of allowed
  characters.
- `Hex` models rendering and parsing:
  - `ToHex` is the compact `{:x}` rendering.
  - `PadHex` is the zero-padded `{:0Nx}` rendering.
  - `IsAsciiHexDigit` is the `is_ascii_hexdigit` class, which also accepts
    `A-F`.
  - `ParseHex` is a base-16 parse in the manner of `from_str_radix(_, 16)`.

  Its lemmas cover round trips, leading zeros, lengths and the canonical form.
- `PrivateIpv6` models the program itself:
  - `GenerateHex` is given the random draw as a parameter.
  - The two address builders are methods that push groups onto a vector and
    join it, as the source does. The random builder has the source's
    three-round loop.
  - The validator `IsValidPrivateIpv6` is a method with the source's early
    returns and nested loops.

  The validator is proved equal to a character-level predicate,
  `ValidAddress`. The lemma `GrammarIff` proves that predicate equal to the
  address grammar `IsAddress`: four non-empty hex groups, the first starting
  with `fd`, joined by `:` and followed by `:/64`.

  Further lemmas cover the builders:
  - every output of both builders is accepted, starts with `fd` and ends
    with `:/64`;
  - taking an output apart gives back the values that built it.

  The remaining lemmas restate the unit tests and property tests as
  all-inputs lemmas or as the concrete cases the tests check.

Capabilities the model replaces or leaves out:
- Randomness: every `rand::rng().random_range(0..=max)` becomes a value the
  caller supplies, with the precondition `draw <= max`.
- The program's I/O (`main`, `println!`) is not modelled.
- Rust's `u8` and `u16` are subset types of `nat`.

The program disagrees with itself in two places, and the model follows the
code each time:
- The random builder's first group. The comment at src/main.rs:29-30 calls
  it `fd` followed by "a random byte". The deterministic builder at
  src/main.rs:13 and the property test at src/main.rs:248-249 render that
  byte as two digits with `{:02x}`. The random builder at src/main.rs:36-37
  uses the compact `generate_hex(255)` instead, so a byte below 16 gives a
  three-character group. See "## Findings".
- The other three groups. The comment at src/main.rs:32-33 describes them
  as blocks of 4 hex digits each. The code at src/main.rs:43 renders them
  with the compact `{:x}`, and the tests at src/main.rs:171 and
  src/main.rs:181 expect groups such as `0` and `100`. These groups have 1
  to 4 digits.

## Model

| member | source | states |
|---|---|---|
| Hex.ToHex | src/main.rs:6 | `format!("{:x}", n)` is non-empty and made only of lowercase hex digits |
| Hex.ToHexRoundTrip | src/main.rs:214-226 | the compact rendering of any value parses back to exactly that value |
| Hex.ToHexNoLeadingZero | src/main.rs:112-113 | the compact rendering starts with `0` only for the value 0, and 0 renders as exactly `"0"` |
| Hex.ToHexLength | src/main.rs:6 | the compact rendering has at most `k` digits exactly when the value is below `16^k`: it is the shortest rendering |
| Hex.ToHexCanonical | src/main.rs:6 | any lowercase digit string without a leading zero (or `"0"` itself) is the compact rendering of its own value |
| Hex.ValueBound | src/main.rs:103-118 | a parsed digit string of length `k` has a value below `16^k` |
| Hex.ValueLeadingZeros | src/main.rs:248-249 | leading zeros leave the parsed value unchanged |
| Hex.PadHex | src/main.rs:13 | `format!("{:02x}", b)` and its kin are non-empty, at least the width long, and lowercase hex |
| Hex.PadHexRoundTrip | src/main.rs:13 | the padded rendering parses back to the value, and is exactly `width` long when the value fits in `width` digits |
| Strings.Split | src/main.rs:61 | `split(':')` gives at least one piece, and no piece holds the separator |
| Strings.SplitCount | src/main.rs:61-64 | `n` separators give exactly `n + 1` pieces, so 4 groups means exactly 3 colons |
| Strings.SplitJoin | src/main.rs:22 | splitting a join of colon-free pieces on `:` gives the pieces back |
| Strings.JoinSplit | src/main.rs:61 | joining the pieces of a split on the same separator gives the original string |
| Strings.SplitCons | src/main.rs:61 | splitting `p + ":" + rest` with `p` colon-free gives `p`, then the pieces of `rest` |
| Strings.NonEmptyPieces | src/main.rs:74-77 | no piece is empty exactly when the string is non-empty, neither starts nor ends with the separator, and never holds two separators in a row |
| Strings.PieceChars | src/main.rs:79-83 | every character of every piece satisfies a test exactly when every non-separator character of the string does |
| Strings.JoinExcludes | src/main.rs:22 | a character that is neither the separator nor in any piece does not occur in the join |
| PrivateIpv6.GenerateHex | src/main.rs:4-7 | for a draw in `0..=max`, the output is lowercase hex that parses back to the draw, hence to a value `<= max`; `max == 0` gives exactly `"0"` |
| PrivateIpv6.AddressText | src/main.rs:22 | `format!("{}:/64", groups.join(":"))` ends with `:/64`, and what precedes the suffix is the join |
| PrivateIpv6.GeneratePrivateIpv6WithValues | src/main.rs:11-23 | the deterministic builder returns the address of the groups `"fd" + pad2(b)`, `hex(g2)`, `hex(g3)`, `hex(g4)` |
| PrivateIpv6.GeneratePrivateIpv6 | src/main.rs:26-48 | the random builder, with its four draws supplied, returns the address of `"fd" + hex(b)` and the three drawn groups, in draw order |
| PrivateIpv6.GeneratePrivateIpv6Padded | src/main.rs:36-37 | the random builder with the byte zero-padded returns the same address as the deterministic builder on the same values |
| PrivateIpv6.IsValidPrivateIpv6 | src/main.rs:51-87 | the validator returns true exactly when the string satisfies the character-level description `ValidAddress` |
| PrivateIpv6.SplitChecks | src/main.rs:58-84 | after the suffix, the checks on the split pieces (4 pieces, `fd` first, non-empty, hex digits) hold exactly when the text has 3 colons, starts with `fd`, has its colons well placed and is otherwise hex digits |
| PrivateIpv6.ValidatorSpec | src/main.rs:51-87 | `ValidAddress` holds exactly when the string ends with `:/64` and the split of the rest is four well-formed groups |
| PrivateIpv6.JoinedGroupsValid | src/main.rs:51-87 | colon-free groups, joined and suffixed, are accepted exactly when they are four non-empty hex groups with the first starting `fd` |
| PrivateIpv6.ValidIsAddress | src/main.rs:51-87 | every accepted string is the address of its own split pieces, and those pieces are well formed |
| PrivateIpv6.GrammarIff | src/main.rs:51-87 | the validator's predicate and the address grammar accept the same strings, in both directions |
| PrivateIpv6.BuiltAddress | src/main.rs:122-136 | the address of any four well-formed groups is accepted, starts with `fd`, ends with `:/64` and splits back into those groups |
| PrivateIpv6.PaddedFirstGroup | src/main.rs:248-249 | `pad2(b)` is exactly two digits and parses back to `b`; `"fd" + pad2(b)` is a four-character hex group starting with `fd` |
| PrivateIpv6.WithValuesText | src/main.rs:11-23 | the deterministic builder's output is `"fd" + pad2(b) + ":" + hex(g2) + ":" + hex(g3) + ":" + hex(g4) + ":/64"` |
| PrivateIpv6.WithValuesRoundTrip | src/main.rs:237-258 | for all values, the deterministic output is accepted, starts with `fd`, ends with `:/64`, and splits into 4 pieces: `"fd" + pad2(b)` (4 characters, whose digits parse to `b`) and three pieces parsing to `g2`, `g3`, `g4` |
| PrivateIpv6.RandomRoundTrip | src/main.rs:122-136 | for all draws, including bytes below 16, the random output is accepted, starts with `fd`, ends with `:/64`, and splits into 4 pieces that parse back to the draws |
| PrivateIpv6.RandomFirstGroupWidth | src/main.rs:36-37 | as written, the random first group has 3 characters when the byte is below 16 and 4 otherwise, and agrees with the deterministic builder exactly when the byte is at least 16 |
| PrivateIpv6.WithValuesMinimum | src/main.rs:170-172 | `(0, 0, 0, 0)` builds `fd00:0:0:0:/64` |
| PrivateIpv6.WithValuesMaximum | src/main.rs:175-177 | `(255, 65535, 65535, 65535)` builds `fdff:ffff:ffff:ffff:/64` |
| PrivateIpv6.WithValuesMixed | src/main.rs:180-182 | `(10, 256, 4096, 1)` builds `fd0a:100:1000:1:/64` |
| PrivateIpv6.UnpaddedByteExample | src/main.rs:36-37 | with the draws `(10, 0, 0, 0)` the random builder as written gives `fda:0:0:0:/64`, while the deterministic builder gives `fd0a:0:0:0:/64` |
| PrivateIpv6.AcceptsFour | src/main.rs:64-86 | four well-formed groups joined by `:` and followed by `:/64` are accepted |
| PrivateIpv6.RejectsFour | src/main.rs:68-84 | four colon-free groups that are not well formed (no `fd` at the start, an empty group, a non-hex character) are rejected |
| PrivateIpv6.RejectsThree | src/main.rs:63-66 | three colon-free groups with the suffix are rejected |
| PrivateIpv6.RejectsFive | src/main.rs:63-66 | five colon-free groups with the suffix are rejected |
| PrivateIpv6.ValidatorAcceptsExamples | src/main.rs:149-150 | `fd01:2345:6789:abcd:/64` and `fdff:1:2:3:/64` are accepted |
| PrivateIpv6.ValidatorAcceptsExtremes | src/main.rs:151-152 | `fdaa:0:0:0:/64` and `fdff:ffff:ffff:ffff:/64` are accepted |
| PrivateIpv6.ValidatorRejectsPrefixExamples | src/main.rs:155-161 | `fc01:2345:6789:abcd:/64` and `gd01:2345:6789:abcd:/64` are rejected |
| PrivateIpv6.ValidatorRejectsGroupExamples | src/main.rs:160-163 | `fd01:2345:6789:xyz:/64` and `fd01::6789:abcd:/64` are rejected |
| PrivateIpv6.ValidatorRejectsCountExamples | src/main.rs:157-158 | `fd01:2345:6789:/64` and `fd01:2345:6789:abcd:ef01:/64` are rejected |
| PrivateIpv6.ValidatorRejectsSuffixExamples | src/main.rs:156-164 | `…:/48`, a string with no suffix, the empty string and `…:/64extra` are rejected |
| PrivateIpv6.ValidatorRejectsMalformedPrefix | src/main.rs:273-275 | for all values, the deterministic address with `fc` in place of `fd` is rejected |
| PrivateIpv6.ValidatorRejectsMalformedCount | src/main.rs:281-287 | for all values, the deterministic address with its last group dropped, or with a group `1` added, is rejected |
| PrivateIpv6.ValidatorRejectsMalformedSuffix | src/main.rs:277-291 | for all values, the deterministic groups joined with `:/48` appended, or with no suffix at all, are rejected |

## Left out

- The random source: `random_range` at src/main.rs:5 is a foreign, effectful call. The draw is a parameter with the source's range as a precondition. Uniformity is not modelled.
- The distinctness check at src/main.rs:143 is statistical and is not modelled.
- `main` and `println!` at src/main.rs:89-92 are I/O and are not modelled.
- The test and property-test harness at src/main.rs:94-294 is not modelled as code. Its assertions appear as the lemmas above, and its random inputs as universally quantified parameters.
- Rust's `format!` machinery is not modelled in general. Only the `{:x}` and `{:02x}` renderings of non-negative integers are defined, as `ToHex` and `PadHex`.
- Byte-level string slicing at src/main.rs:58 is not modelled. Strings are sequences of characters, and the validator removes the suffix only after `ends_with(":/64")` holds, so the slice never splits a character.
- `ParseHex` stands in for `from_str_radix(_, 16)` in the tests only. It returns an unbounded natural, so `u16`/`u32` overflow is not modelled. Rust's acceptance of a leading `+` sign is not modelled either.
- Hex.ParseHex: no contract of its own; its properties are stated by `ToHexRoundTrip`, `PadHexRoundTrip` and `ValueBound`.

## Findings

| source | as written | input that shows it | evidently intended | confidence | as-written member | corrected member |
|---|---|---|---|---|---|---|
| src/main.rs:36-37 | the first group is `"fd"` followed by the compact `generate_hex(255)`, so a byte below 16 gives a 3-character group | byte draw 10 with the other draws 0 gives `fda:0:0:0:/64`; the group `fda` reads as 0x0fda, outside `fd00::/8` | the byte zero-padded to two digits as at src/main.rs:13, giving `fd0a:0:0:0:/64` | high (not executed) | PrivateIpv6.GeneratePrivateIpv6 (shown by PrivateIpv6.UnpaddedByteExample and PrivateIpv6.RandomFirstGroupWidth) | PrivateIpv6.GeneratePrivateIpv6Padded (its output is the deterministic builder's, whose four-character `fd` group PrivateIpv6.WithValuesRoundTrip proves) |
