# A verified model of the `uri` header-only URI parser

The library parses a URI text into views of its components without
copying: scheme, user, host, port, path (with its segments), query line
(with its key/value pairs) and fragment. It also offers an RFC 3986
compliance check over the views it found. This project models its three
headers in Dafny:

- `character_checks.dfy` (module `CharacterChecks`) models the character
  classes of `character_checks.h`: alpha, digit, hex digit, unreserved and
  sub-delimiter.
- `elements_checks.dfy` (module `ElementsChecks`) models the element
  validators of `elements_checks.h`: decimal octet, IPv4, IPv6, IP literal
  and registered name. Each is a specification predicate. Each loop of the
  source is a method proved equal to its predicate. The percent-triplet
  scan is shared by the registered name and the user, path-segment, query
  and fragment checks.
- `string_views.dfy` (module `StringViews`) models `std::string_view` as an
  `(offset, length)` pair into the owned text. It also holds `find`,
  `find_first_of`, `find_last_of` and `std::search` as functions, with
  `npos` represented by the length of the text, and the `Split`/`Join`
  pair used to state the IPv4 and query rules.
- `uri_spec.dfy` (module `UriSpec`) is the specification of `parse`.
  - Each `tryParse*` member and each case of the step loop is a function on
    a machine: the components found so far and the view still to parse.
  - `Run` is the loop itself.
  - `Decompose(text)` is the whole parse from a freshly constructed object.
- `uri_query.dfy` (module `UriQuery`) restates the pair loop of
  `tryParseQuery` on plain strings: the `'&'`-pieces of the query line,
  with the key and the value of each piece.
- `uri_properties.dfy` (module `UriProperties`) proves what a parse
  computes. It covers the consistency of the result, the scheme rule, the
  authority rule and its split, the path segments, the query pairs, the
  fragment, `isAbsolutePath`, and the inputs on which each of the two
  errors is reported.
- `uri_compliance.dfy` (module `UriCompliance`) models the `is*Compliant`
  helpers and the conjunction that `isCompliant` takes.
- `uri.dfy` (module `UriEngine`) models class `URI` as a Dafny class with
  the members of the source as fields.
  - `Parse` runs the step loop.
  - Each `tryParse*` method and each loop case is proved to compute its
    function of `UriSpec`. So after a parse, the object holds exactly
    `Decompose(source)`.
  - The accessors, `has*`, `isCompliant` and `clear` act on those fields.

The two `std::runtime_error` throws of the source are the error outcomes
`MalformedAuthority` and `MalformedQueryPair` of a `Result`. `Parse`
returns that result, and the constructor `Parsed` keeps it in the field
`outcome`. Characters are Dafny `char`s and texts are `seq<char>`.

The code is followed where it departs from RFC 3986:

- The scheme is found only through `"://"` (`include/uri/URI.h:298-317`).
  So `"mailto:bob@example.com"` has no scheme. Its whole text is read as an
  authority, which makes the user `"mailto:bob"` and the host
  `"example.com"` (`AuthorityOnly`, `AuthorityComponents`). Section 3.1 of
  RFC 3986 reads it as scheme `"mailto"` with path `"bob@example.com"`.
- With a host, the `'/'` that ends the authority is dropped before the path
  is cut (`include/uri/URI.h:458-461`).
  - In `"https://user@host.example:8080/a/b?x=1&y=2#frag"` the path is
    `"a/b"` with segments `["a/", "b"]`.
  - `isAbsolutePath` is then false.
  - Section 3.3 of RFC 3986 gives the path `"/a/b"`, which begins with
    `'/'`.
- `is_IPv4` stops at the fourth `'.'` and never looks further
  (`include/uri/elements_checks.h:55-74`). So `"1.2.3.4.5"` is accepted.
  The `IPv4address` rule of section 3.2.2 of RFC 3986 has exactly four
  octets and rejects it.
- The components do not always rebuild the text, as the recomposition of
  section 5.3 of RFC 3986 would.
  - A fragment reached without a query loses the character after the
    `'#'` (`include/uri/URI.h:694-698`, `:531`).
  - The `'/'` dropped after a host belongs to no component: `"http://h/a"`
    gives host `"h"` and path `"a"`.
- A few names do not compile as written. They are read as the evident
  intent:
  - `entity` at `include/uri/elements_checks.h:73` is read as `element`.
  - `checks::entities` at `include/uri/URI.h:419` is read as
    `checks::elements`.
  - `utils::URI` in the `case` labels of `parse` is read as `uri::URI`.
- `tryParsePath` calls `uri.front()` on a view that may be empty
  (`include/uri/URI.h:473`, as in `"http://host/"`). The model sets
  `isAbsolutePath` only when that view is non-empty and opens with `'/'`.

## Model

| member | source | states |
|---|---|---|
| CharacterChecks.IsAlpha | include/uri/character_checks.h:13-16 | the letters `A`-`Z` and `a`-`z` |
| CharacterChecks.IsDigit | include/uri/character_checks.h:23-26 | the digits `'0'`..`'9'` (`DigitIsTheTenDigits`) |
| CharacterChecks.IsHexDigit | include/uri/character_checks.h:33-36 | the digits and `A`-`F`, `a`-`f` (`HexDigitIsDigitOrHexLetter`) |
| CharacterChecks.IsUnreserved | include/uri/character_checks.h:43-49 | letters, digits and `- . _ ~` |
| CharacterChecks.IsSubDelimiter | include/uri/character_checks.h:56-61 | the eleven characters `! $ & ' ( ) * + , ; =` |
| CharacterChecks.DigitValue | include/uri/elements_checks.h:24 | `c - '0'` for a digit is in 0..9, and it is 0 exactly for `'0'` |
| CharacterChecks.DigitIsTheTenDigits | include/uri/character_checks.h:23-26 | `is_digit` holds exactly for the ten characters `'0'`..`'9'` |
| CharacterChecks.HexDigitIsDigitOrHexLetter | include/uri/character_checks.h:33-36 | `is_hex_digit` holds exactly for digits and `A`-`F`, `a`-`f`, so every digit is a hex digit |
| CharacterChecks.UnreservedIsAlnumOrMark | include/uri/character_checks.h:43-49 | `is_unreserved` holds exactly for letters, digits and `- . _ ~` |
| CharacterChecks.SubDelimiterIsTheEleven | include/uri/character_checks.h:56-61 | `is_subdelimiter` holds exactly for the eleven characters `! $ & ' ( ) * + , ; =` |
| CharacterChecks.UnreservedAndSubDelimiterDisjoint | include/uri/character_checks.h:43-61 | no character is both unreserved and a sub-delimiter |
| CharacterChecks.GenDelimitersAndPercentInNeitherClass | include/uri/character_checks.h:43-61 | `%` and the gen-delims `: / ? # [ ] @` are in neither class |
| ElementsChecks.IsDecimalOctet | include/uri/elements_checks.h:11-47 | the switch on the length as written: one digit other than `'0'`, two digits not opening with `'0'`, or three digits from 100 to 255 (`DecimalOctetCharacterization`) |
| ElementsChecks.IsIPv4 | include/uri/elements_checks.h:49-79 | at least four `'.'`-pieces, the first four decimal octets; what follows a fourth dot is not read (`ScanIPv4`) |
| ElementsChecks.IsIPv6 | include/uri/elements_checks.h:81-106 | the flags of the loop: only hex digits, `':'` and `'.'`; every `'.'` after some `':'`, and no `':'` after a `'.'`; the empty text qualifies (`ScanIPv6`) |
| ElementsChecks.IsIPLiteral | include/uri/elements_checks.h:108-122 | opened by `'['` and closed by `']'`, with a non-empty inside that is IPv6 (`IPLiteralShape`) |
| ElementsChecks.PctEncodedOver | include/uri/elements_checks.h:131-148 | the percent-triplet scan: each character admitted, or a `'%'` followed by two hex digits (`PctEncodedIffTokens`) |
| ElementsChecks.IsRegularName | include/uri/elements_checks.h:124-151 | the empty text, or one the percent-triplet scan accepts over unreserved and sub-delimiters (`ScanRegularName`) |
| ElementsChecks.DecimalValueOfTwo | include/uri/elements_checks.h:28-34 | the decimal value of two digits is the tens digit times 10 plus the units digit |
| ElementsChecks.DecimalValueOfThree | include/uri/elements_checks.h:36-43 | the decimal value of three digits is the positional sum of its digits |
| ElementsChecks.DecimalOctetCharacterization | include/uri/elements_checks.h:11-47 | `is_decimal_octet` holds iff the text has 1 to 3 digits, no leading `'0'`, and a value in 1..255 |
| ElementsChecks.DecimalOctetIsDigits | include/uri/elements_checks.h:15-46 | a decimal octet has 1 to 3 characters, all digits; the empty text and texts over 3 characters are rejected |
| ElementsChecks.DecimalOctetExamples | include/uri/elements_checks.h:11-47 | `""`, `"0"`, `"01"`, `"256"`, `"1234"` and `"a"` are rejected; `"9"`, `"10"`, `"99"`, `"100"` and `"255"` are accepted |
| ElementsChecks.ScanIPv4 | include/uri/elements_checks.h:49-79 | the loop of `is_IPv4` returns exactly the specification `IsIPv4`: the pieces cut at the first four dots are all decimal octets, and no character before the fourth dot is foreign |
| ElementsChecks.CutOctets | include/uri/elements_checks.h:51-74 | the octet array holds exactly the first four `'.'`-pieces when the cut reaches four; it reaches four iff the text has at least four pieces; a failed cut means the text is no IPv4 address |
| ElementsChecks.ScanDotStep | include/uri/elements_checks.h:57-61 | a `'.'` closes the current piece and opens an empty one, in agreement with `Split` of the text read so far |
| ElementsChecks.ScanOtherStep | include/uri/elements_checks.h:64-68 | any other character extends the current piece, in agreement with `Split` of the text read so far |
| ElementsChecks.ScanStoppedAtFourthDot | include/uri/elements_checks.h:55-59 | when the loop stops at the fourth dot, the four pieces it cut are the first four pieces of the whole text |
| ElementsChecks.IPv4RejectsPiece | include/uri/elements_checks.h:64-67 | a non-digit inside one of the first four pieces makes the text no IPv4 address |
| ElementsChecks.IPv4RejectsForeignCharacter | include/uri/elements_checks.h:64-67 | a character other than a digit or `'.'` before the fourth dot rejects the text |
| ElementsChecks.IPv4NeedsFourPieces | include/uri/elements_checks.h:71-76 | fewer than four `'.'`-pieces reject the text |
| ElementsChecks.IPv4IgnoresTextAfterFourthDot | include/uri/elements_checks.h:55-59 | any text after a fourth dot leaves the verdict unchanged |
| ElementsChecks.IPv4AcceptsDottedQuad | include/uri/elements_checks.h:49-79 | `"192.168.1.1"` is accepted |
| ElementsChecks.IPv4AcceptsFivePieces | include/uri/elements_checks.h:55-74 | `"1.2.3.4.5"` is accepted |
| ElementsChecks.IPv4RejectsThreePieces | include/uri/elements_checks.h:71-76 | `"1.2.3"` and `""` are rejected |
| ElementsChecks.IPv4RejectsEmptyFourthPiece | include/uri/elements_checks.h:71-78 | `"1.2.3."` is rejected |
| ElementsChecks.IPv4RejectsLargeOctet | include/uri/elements_checks.h:76-78 | `"999.1.1.1"` is rejected |
| ElementsChecks.IPv4RejectsZeroes | include/uri/elements_checks.h:20-26 | `"0.0.0.0"` is rejected, since `"0"` is not a decimal octet as written |
| ElementsChecks.ScanIPv6 | include/uri/elements_checks.h:81-106 | the flag loop of `is_IPv6` returns exactly `IsIPv6`: every character is a hex digit, `':'` or `'.'`, every `'.'` follows some `':'`, and no `':'` follows a `'.'`; the empty text is accepted |
| ElementsChecks.IPLiteralShape | include/uri/elements_checks.h:108-122 | `is_IPLiteral` holds iff the text has at least 3 characters, opens with `'['`, closes with `']'`, and its interior passes `is_IPv6` |
| ElementsChecks.ScanIPLiteral | include/uri/elements_checks.h:108-122 | the method returns exactly `IsIPLiteral` |
| ElementsChecks.IPLiteralExamples | include/uri/elements_checks.h:108-122 | `"[::1]"` is accepted; `"[]"`, `"[1.2.3.4]"` and `"::1"` are rejected |
| ElementsChecks.ScanPctEncoded | include/uri/elements_checks.h:131-148 | the skip-by-2 index loop returns exactly the recursive `PctEncodedOver`, with the triplet guard corrected to `i + 2 < size` |
| ElementsChecks.PctTokens | include/uri/elements_checks.h:131-148 | an accepted text splits into tokens that concatenate back to it, each a single admitted character or a `%`+hex+hex triplet |
| ElementsChecks.TokensArePctEncoded | include/uri/elements_checks.h:131-148 | any concatenation of such tokens is accepted |
| ElementsChecks.PctEncodedIffTokens | include/uri/elements_checks.h:131-148 | a text is accepted iff it is the concatenation of such tokens |
| ElementsChecks.ScanRegularName | include/uri/elements_checks.h:124-151 | `is_regular_name` returns exactly `IsRegularName`: the empty text, or a token text over unreserved characters and sub-delimiters |
| ElementsChecks.AdmittedTextIsPctEncoded | include/uri/elements_checks.h:133-136 | a text made only of admitted characters is accepted |
| ElementsChecks.PctEncodedCharacters | include/uri/elements_checks.h:131-148 | every character of an accepted text is admitted, a `'%'` or a hex digit |
| ElementsChecks.RejectsForeignCharacter | include/uri/elements_checks.h:147 | one character that is not admitted, not `'%'` and not a hex digit rejects the text |
| ElementsChecks.RegularNameAcceptsExamples | include/uri/elements_checks.h:124-151 | `""` and `"example.com"` are registered names |
| ElementsChecks.RegularNameRejectsSpace | include/uri/elements_checks.h:147 | `"exa mple.com"` is rejected |
| ElementsChecks.RegularNameRejectsShortTriplet | include/uri/elements_checks.h:139-141 | `"a%2"` and `"%"` are rejected under the corrected guard |
| ElementsChecks.PctGuardAsWrittenFromTwo | include/uri/elements_checks.h:139 | for sizes from 2 up, the unsigned guard `i < size - 2` means `i + 2 < size` |
| ElementsChecks.PctGuardAsWrittenOverreaches | include/uri/elements_checks.h:139 | for size 1 the unsigned guard as written admits index 0 although no triplet fits |
| StringViews.View.RemovePrefix | include/uri/URI.h:402 | `remove_prefix(k)` keeps the end of the view and shortens it by k |
| StringViews.View.Prefix | include/uri/URI.h:399 | `substr(0, k)` keeps the start of the view and has length k |
| StringViews.TextCut | include/uri/URI.h:399-402 | the text of a view is the text of its prefix followed by the text of the rest |
| StringViews.Find | include/uri/URI.h:579 | `find` returns the first position of the character, or the length (`npos`) when it is absent |
| StringViews.FindFrom | include/uri/URI.h:659 | `find(c, from)` returns the first position at or after `from`, or the length |
| StringViews.FindFirstOf | include/uri/URI.h:436 | `find_first_of` returns the first position of any of the characters, or the length |
| StringViews.FindLast | include/uri/URI.h:396 | `find_last_of` returns the last position of the character, or the length when it is absent |
| StringViews.Search | include/uri/URI.h:304-305 | `std::search` returns the first position where the pattern occurs, or the length |
| UriSpec.SchemeStep | include/uri/URI.h:298-317 | the Scheme step writes only the scheme and leaves the view's end in place |
| UriSpec.UserStep | include/uri/URI.h:339-359 | the user step writes only the user |
| UriSpec.HostStep | include/uri/URI.h:392-411 | the host step writes only host and port, and consumes the whole view |
| UriSpec.AuthorityLength | include/uri/URI.h:432-440 | the authority's length is at most the view's and ends at the first `/`, `#` or `?`, or at the end (`AuthorityExtent`) |
| UriSpec.AuthorityStep | include/uri/URI.h:430-454 | the authority step writes only user, host and port, and consumes exactly the authority |
| UriSpec.Segments | include/uri/URI.h:478-493 | the segments of a view lie in the text, and there is none exactly when the view is empty |
| UriSpec.SegmentsStep | include/uri/URI.h:482-492 | one turn of the segment loop: a segment up to and including the next `'/'`, or the rest of the view |
| UriSpec.OpensWithSlash | include/uri/URI.h:473-476 | the view is non-empty and its first character is `/`; the path flag is set exactly then (`PathStepAbsolute`, `DecomposeAbsolutePath`) |
| UriSpec.PathStep | include/uri/URI.h:456-498 | the path step writes only path, segments and `isAbsolutePath`; it consumes at least one character when there is a host or the view opens with `'/'` |
| UriSpec.Emplace | include/uri/URI.h:598-599 | `std::map::emplace`: a key already present keeps its value (`EmplaceKeepsExisting`) |
| UriSpec.PiecePair | include/uri/URI.h:589-620 | one piece of the line: the error when it has no `'='`, otherwise its key and value emplaced (`PiecePairMeaning`) |
| UriSpec.QueryPairs | include/uri/URI.h:587-622 | the pair loop over the `'&'`-pieces, stopping at the first error (`QueryPairsMeaning`, `QueryLineFails`) |
| UriSpec.EmplaceKeepsExisting | include/uri/URI.h:598-599 | `std::map::emplace` keeps the value of a key already present, and otherwise adds the pair |
| UriSpec.QueryStep | include/uri/URI.h:575-627 | the query step writes only the query line and the pairs |
| UriSpec.FragmentStep | include/uri/URI.h:528-540 | the fragment step writes only the fragment and consumes the whole view |
| UriSpec.GoesToAuthority | include/uri/URI.h:654-677 | the condition of the CheckAuthority case as written (`CheckAuthorityRule`) |
| UriSpec.HasAuthorityMarker | include/uri/URI.h:655-658 | the rest is longer than two characters and opens with `//`; with it the CheckAuthority case always goes to Authority (`CheckAuthorityRule`) |
| UriSpec.SkipAuthorityMarker | include/uri/URI.h:668-671 | the components are unchanged and the rest ends where it ended; with the marker the old rest is `//` followed by the new one, without it nothing changes |
| UriSpec.Decompose | include/uri/URI.h:635-719 | `parse` from a freshly constructed object; on success its components lie in the text (`DecomposeConsistent`, `DecomposeErrors`) |
| UriSpec.Run | include/uri/URI.h:645-716 | the step loop terminates, and its components lie in the text |
| UriQuery.Texts | include/uri/URI.h:179-191 | the copy that `queries()` returns has the same keys as the member map |
| UriQuery.QueryPiecesShape | include/uri/URI.h:587-622 | the `'&'`-pieces hold no `'&'`; there is none exactly for an empty line; joined with `'&'` they give the line back, possibly without one trailing `'&'` |
| UriQuery.QueryPiecesCons | include/uri/URI.h:589-604 | a piece closed by `'&'` is the first piece, and the pieces of the rest follow |
| UriQuery.QueryPiecesSingle | include/uri/URI.h:606-621 | a non-empty line without `'&'` is a single piece |
| UriQuery.PiecePairMeaning | include/uri/URI.h:592-599 | one piece fails exactly when it has no `'='`; otherwise its key (before the first `'='`) and its value (after it) are emplaced |
| UriQuery.PieceTexts | include/uri/URI.h:598-599 | the views cut out of a piece designate its key and its value |
| UriQuery.QueryPairsMeaning | include/uri/URI.h:587-623 | on every query line, the pair loop over views succeeds iff the reference `PairsOf` over the string pieces does, with the same pairs |
| UriQuery.PairsOfFails | include/uri/URI.h:592-595 | the pairs fail exactly when some piece has no `'='`, as in `"k1=v1&k2"` or `"a=1&&b=2"` |
| UriQuery.QueryPairsError | include/uri/URI.h:587-622 | the only error the pair loop reports is `MalformedQueryPair` |
| UriQuery.QueryLineFails | include/uri/URI.h:587-622 | the pair loop throws on a line iff some `'&'`-piece has no `'='`, and then with `MalformedQueryPair` |
| UriQuery.PairsOfFirstWins | include/uri/URI.h:598-599 | the starting pairs are kept; every piece's key is present, with that piece's value when no starting pair and no earlier piece has the key; no other key appears |
| UriQuery.QueriesMeaning | include/uri/URI.h:575-627 | after a parse, the pairs held are those of the `'&'`-pieces of the query line |
| UriProperties.PathStepShape | include/uri/URI.h:456-498 | the path starts one past the view with a host; it ends where the rest begins and holds no `'?'` or `'#'`; the rest opens with `'?'` or `'#'` |
| UriProperties.SettledAfterPath | include/uri/URI.h:701-704 | after the path step the components are consistent, and the loop cannot enter Path again |
| UriProperties.SettledAfterQuery | include/uri/URI.h:706-709 | after the query step the components are consistent |
| UriProperties.RunConsistent | include/uri/URI.h:645-716 | from a settled machine, a complete run leaves consistent segments, pairs and views |
| UriProperties.DecomposeConsistent | include/uri/URI.h:635-719 | a successful parse leaves segments equal to those of the path and pairs equal to those of the query line |
| UriProperties.SegmentsJoin | include/uri/URI.h:478-493 | the segments concatenate to exactly the path |
| UriProperties.SegmentsJoinStep | include/uri/URI.h:482-487 | the concatenation is kept by one turn of the segment loop |
| UriProperties.SegmentsShape | include/uri/URI.h:478-493 | every segment is non-empty and has a `'/'` only as its last character; every non-final segment ends in `'/'` |
| UriProperties.SegmentsPrefixText | include/uri/URI.h:138-153 | the first j segments concatenate to the path's prefix of their total length |
| UriProperties.PathStepAbsolute | include/uri/URI.h:473-476 | the path step sets `isAbsolutePath` exactly when the path it cuts opens with `'/'` |
| UriProperties.RunAbsolute | include/uri/URI.h:645-716 | a complete run keeps `isAbsolutePath` in agreement with the path |
| UriProperties.DecomposeAbsolutePath | include/uri/URI.h:238-241 | after a parse, `isAbsolutePath()` is true iff the path is non-empty and opens with `'/'` |
| UriProperties.RunKeepsScheme | include/uri/URI.h:645-716 | no step after Scheme changes the scheme |
| UriProperties.RunKeepsAuthority | include/uri/URI.h:684-714 | no step from CheckSeparator on changes user, host or port |
| UriProperties.DecomposeScheme | include/uri/URI.h:298-317 | the scheme is the text before the first `"://"` of the source, and absent without one |
| UriProperties.CheckAuthorityRule | include/uri/URI.h:654-677 | the loop goes to Authority iff the view opens with `"//"` and is longer than that, or does not open with `'/'` |
| UriProperties.AuthorityExtent | include/uri/URI.h:430-454 | the authority runs to the first `'/'`, `'?'` or `'#'`; the step fails iff the authority opens with `'@'` |
| UriProperties.UserParts | include/uri/URI.h:339-359 | the user, `'@'` and the rest give back the view; the user has no `'@'`; without an `'@'` the user is kept |
| UriProperties.HostParts | include/uri/URI.h:392-411 | host, the last `':'` and a port without `':'` give back the view; without `':'` it is all host and the port is kept |
| UriProperties.AuthorityComponents | include/uri/URI.h:430-454 | the split of `user@host:port`, with each part reassembling the authority; host and port stay empty when nothing follows `'@'` |
| UriProperties.AuthorityOnly | include/uri/URI.h:654-683 | a text without `'/'`, `'?'` and `'#'` has no scheme, and its parse is exactly the authority step on the whole text (the mailto case) |
| UriProperties.AuthorityFirst | include/uri/URI.h:649-680 | a non-empty text without `"://"` that does not open with `'/'` goes straight from Scheme to Authority |
| UriProperties.NoSlashAuthorityFirst | include/uri/URI.h:649-680 | so does every non-empty text without `'/'` |
| UriProperties.AtOpensAuthority | include/uri/URI.h:430-454 | an authority that opens with `'@'` ends the loop with `MalformedAuthority` |
| UriProperties.AtFirstFails | include/uri/URI.h:339-359 | a text without `"://"` that opens with `'@'` is refused with `MalformedAuthority` |
| UriProperties.AtHostRefused | include/uri/URI.h:346-350 | `"@host.com/path"` is refused with `MalformedAuthority` |
| UriProperties.FragmentViaSeparator | include/uri/URI.h:694-698 | reached through CheckSeparator, the fragment is the view minus its first two characters |
| UriProperties.QueryStepFails | include/uri/URI.h:575-627 | the Query step (and the loop with it) fails iff a `'&'`-piece of the text before the first `'#'` has no `'='`, and then with `MalformedQueryPair` |
| UriProperties.QueryPairRefused | include/uri/URI.h:611-615 | `"http://host?k1=v1&k2"` is refused with `MalformedQueryPair`, since the piece `"k2"` has no `'='` |
| UriProperties.RunErrors | include/uri/URI.h:645-716 | the loop fails with `MalformedAuthority` only if an `'@'` is left to parse, and with `MalformedQueryPair` only in the Query step or if a `'?'` is left |
| UriProperties.DecomposeErrors | include/uri/URI.h:635-719 | a text without `'@'` never fails with `MalformedAuthority`, one without `'?'` never with `MalformedQueryPair`, and one with neither always parses |
| UriProperties.FragmentAfterQuery | include/uri/URI.h:706-713 | after a query, the view left opens with `'#'` and the fragment is all that follows it |
| UriCompliance.IsSchemeCharacter | include/uri/URI.h:290-296 | letters, digits, `+`, `-` and `.`; none of `:/?#[]@%` is one (`CompliantSchemeHasNoDelimiter`) |
| UriCompliance.IsSchemeCompliant | include/uri/URI.h:319-337 | non-empty, a letter first, then letters, digits, `+`, `-` and `.` (`CompliantSchemeHasNoDelimiter`) |
| UriCompliance.IsUserCompliant | include/uri/URI.h:361-390 | empty, or percent-encoded text over unreserved, sub-delimiters and `':'` (`CheckUser`) |
| UriCompliance.IsHostCompliant | include/uri/URI.h:413-421 | an IP literal when a `'['` occurs, otherwise IPv4 or a registered name (`CheckHost`) |
| UriCompliance.IsPortCompliant | include/uri/URI.h:423-428 | every character is a digit, so the empty port is compliant |
| UriCompliance.IsPathSegmentCompliant | include/uri/URI.h:500-526 | percent-encoded text over unreserved, sub-delimiters and `: @ /` (`CheckPathSegment`) |
| UriCompliance.IsFragmentCompliant | include/uri/URI.h:542-573 | empty, or percent-encoded text over unreserved, sub-delimiters and `: @ / ?` (`CheckFragment`) |
| UriCompliance.IsQueryCompliant | include/uri/URI.h:629-633 | the fragment rule, applied to the query line |
| UriCompliance.Compliant | include/uri/URI.h:228-236 | the conjunction of `isCompliant`: scheme, user, a non-empty compliant host, port, every segment, query line and fragment (`IsCompliant`) |
| UriCompliance.CompliantSchemeHasNoDelimiter | include/uri/URI.h:319-337 | a compliant scheme holds none of `: / ? # [ ] @ %` |
| UriCompliance.SchemeExamples | include/uri/URI.h:319-337 | `"https"`, `"svn+ssh"` and `"a1.b-c"` are compliant; `""`, `"1http"` and `"ht tp"` are not |
| UriCompliance.CheckUser | include/uri/URI.h:361-390 | the user loop returns exactly `IsUserCompliant`: empty, or a token text over unreserved, sub-delimiters and `':'` |
| UriCompliance.CompliantUserHasNoAt | include/uri/URI.h:361-390 | a compliant user has no `'@'` |
| UriCompliance.CheckHost | include/uri/URI.h:413-421 | returns exactly `IsHostCompliant`: an IP literal when a `'['` occurs, otherwise IPv4 or a registered name |
| UriCompliance.HostAcceptsRegisteredName | include/uri/URI.h:413-421 | `"example.com"` is a compliant host |
| UriCompliance.HostAcceptsIPv4 | include/uri/URI.h:413-421 | `"192.168.1.1"` is a compliant host |
| UriCompliance.HostAcceptsIPLiteral | include/uri/URI.h:413-418 | `"[::1]"` is a compliant host |
| UriCompliance.HostRejectsBracketedIPv4 | include/uri/URI.h:415-418 | `"[1.2.3.4]"` is rejected, since a bracket requires an IP literal |
| UriCompliance.HostRejectsSpace | include/uri/URI.h:419-420 | `"exa mple.com"` is neither IPv4 nor a registered name |
| UriCompliance.CheckPathSegment | include/uri/URI.h:500-526 | the segment loop returns exactly `IsPathSegmentCompliant`, over unreserved, sub-delimiters, `: @ /` and triplets |
| UriCompliance.CheckFragment | include/uri/URI.h:542-573 | the fragment loop returns exactly `IsFragmentCompliant`, which `isQueryCompliant` reuses |
| UriCompliance.CompliantTextsExcludeDelimiters | include/uri/URI.h:500-573 | compliant fragments and query lines hold no `# [ ]`; compliant segments also hold no `'?'` |
| UriEngine.Uri.constructor | include/uri/URI.h:41 | `URI()` owns an empty text, every view is empty, and the outcome is that of the empty text |
| UriEngine.Uri.Parsed | include/uri/URI.h:42-49 | `URI(uri)` owns the text; `outcome` is the error the source throws when `Decompose(uri)` fails, and otherwise `Ok`, with the object holding `Decompose(uri)` |
| UriEngine.Uri.TryParseScheme | include/uri/URI.h:298-317 | computes `SchemeStep` on the object |
| UriEngine.Uri.TryParseUser | include/uri/URI.h:339-359 | computes `UserStep`, with the throw as `MalformedAuthority` |
| UriEngine.Uri.TryParseHost | include/uri/URI.h:392-411 | computes `HostStep` |
| UriEngine.Uri.TryParseAuthority | include/uri/URI.h:430-454 | computes `AuthorityStep` |
| UriEngine.Uri.TryParsePath | include/uri/URI.h:456-498 | computes `PathStep` |
| UriEngine.Uri.AppendSegments | include/uri/URI.h:478-493 | appends exactly `Segments` of the path to the segment vector |
| UriEngine.Uri.TryParseQuery | include/uri/URI.h:575-627 | computes `QueryStep`, with the throws as `MalformedQueryPair` |
| UriEngine.Uri.EmplacePairs | include/uri/URI.h:587-623 | the pair loop leaves exactly `QueryPairs` of the line, or the error |
| UriEngine.Uri.EmplacePiece | include/uri/URI.h:589-620 | one piece: emplaced as `PiecePair` says, or false where the source throws |
| UriEngine.Uri.TryParseFragment | include/uri/URI.h:528-540 | computes `FragmentStep` |
| UriEngine.Uri.SchemeCase | include/uri/URI.h:649-653 | one turn of the loop in state Scheme keeps the loop's outcome and consumes or moves on |
| UriEngine.Uri.CheckAuthorityCase | include/uri/URI.h:654-678 | the turn in state CheckAuthority |
| UriEngine.Uri.AuthorityCase | include/uri/URI.h:679-683 | the turn in state Authority, or the error that ends the loop |
| UriEngine.Uri.CheckSeparatorCase | include/uri/URI.h:684-700 | the turn in state CheckSeparator |
| UriEngine.Uri.PathCase | include/uri/URI.h:701-705 | the turn in state Path |
| UriEngine.Uri.QueryCase | include/uri/URI.h:706-710 | the turn in state Query, or the error that ends the loop |
| UriEngine.Uri.FragmentCase | include/uri/URI.h:711-714 | the turn in state Fragment |
| UriEngine.Uri.Parse | include/uri/URI.h:635-719 | `EmptyURI` with every view empty for an empty text; otherwise the object ends holding `Decompose(source)` with `NoError`, or the error; `isAbsolutePath` agrees with the path |
| UriEngine.Uri.SchemeText | include/uri/URI.h:57-67 | none exactly when the scheme view is empty, otherwise its text |
| UriEngine.Uri.UserText | include/uri/URI.h:69-79 | none exactly when the user view is empty, otherwise its text |
| UriEngine.Uri.HostText | include/uri/URI.h:81-91 | none exactly when the host view is empty, otherwise its text |
| UriEngine.Uri.PortText | include/uri/URI.h:107-110 | the port view's text |
| UriEngine.Uri.PortNumber | include/uri/URI.h:96-106 | 0 for an empty port; for an all-digit port its decimal value |
| UriEngine.Uri.PathText | include/uri/URI.h:113-123 | none exactly when the path view is empty, otherwise its text |
| UriEngine.Uri.Clamp | include/uri/URI.h:129 | `min(i, n - 1)` is a valid segment index, i itself or the last one |
| UriEngine.Uri.PathSegment | include/uri/URI.h:125-136 | none without a path; otherwise segment `min(i, n - 1)`, non-empty and with a `'/'` only at its end |
| UriEngine.Uri.PathUntil | include/uri/URI.h:138-153 | none without a path; otherwise the concatenation of the first `min(i, n - 1) + 1` segments, a prefix of the path |
| UriEngine.Uri.PathSize | include/uri/URI.h:155-165 | none without a path; otherwise the positive number of segments, whose lengths add up to the path's |
| UriEngine.Uri.QueryLineText | include/uri/URI.h:167-177 | none exactly when the query line is empty, otherwise its text |
| UriEngine.Uri.Queries | include/uri/URI.h:179-191 | none exactly when no pair is held; otherwise the pairs of the `'&'`-pieces of the query line |
| UriEngine.Uri.FragmentText | include/uri/URI.h:193-203 | none exactly when the fragment view is empty, otherwise its text |
| UriEngine.Uri.HasAuthority | include/uri/URI.h:205-208 | true iff `host()` has a value |
| UriEngine.Uri.HasQueries | include/uri/URI.h:210-213 | true iff `queries()` has a value |
| UriEngine.Uri.HasPath | include/uri/URI.h:215-218 | true iff `path()` has a value |
| UriEngine.Uri.HasFragment | include/uri/URI.h:220-223 | true iff `fragment()` has a value |
| UriEngine.Uri.IsCompliant | include/uri/URI.h:228-236 | true iff every check holds: scheme, user, a present and compliant host, port, every segment, query line and fragment |
| UriEngine.Uri.CheckSegments | include/uri/URI.h:232-234 | the `all_of` over the segments returns exactly that every segment is compliant |
| UriEngine.Uri.Clear | include/uri/URI.h:263-277 | every view and the text are emptied, and segments and pairs are dropped; `isAbsolutePath` and `outcome` keep their values |

## Left out

- `setScheme` (`include/uri/URI.h:243-256`) is not modelled. It passes a character as a position to `replace`, and it appends an empty substring. It then rebinds the scheme view over a buffer that may have moved, so what the views denote afterwards depends on whether the string was reallocated, which a model on values cannot say.
- UriEngine.Uri.PortNumber: a port that is not all digits gives none. The source's `atoi` instead returns the value of the longest digit prefix, skips leading whitespace, accepts a sign, and has undefined behaviour when the value overflows `int`; none of this is modelled.
- `operator std::string` and `string()` (`include/uri/URI.h:52-55`, `:258-261`) are not modelled. They return a copy of the owned text, which is the field `source`.
- `isAbsolutePath()` (`include/uri/URI.h:238-241`) returns the field `isAbsolutePath`. What that field holds after a parse is stated by `DecomposeAbsolutePath` and by `Parse`.
- The copy loop of `queries()` (`include/uri/URI.h:184-188`) is modelled as the map `Texts`. It copies every pair unchanged, and `std::map` order is not modelled.
- The move constructor (`include/uri/URI.h:46-49`) is not modelled separately. It behaves as `Parsed`, because moving and copying the text cannot be told apart on values.
- Pointer identity and the lifetime of `std::string_view` are not modelled. Views are offsets into the owned text, so a view cannot outlive its text.
- The exception machinery is not modelled. Each `runtime_error` throw is an `Err` result: `Parse` returns it, and `Parsed` keeps it in `outcome`.
- UriEngine.Uri.Parsed: where the source's constructor throws and no object exists, the model keeps the object, with the error in `outcome`. Its views are then stated only to lie in the text.
- `Parse` requires a freshly constructed object. That is the only state in which the source calls it, from its constructors.
- Percent-decoding, normalisation, reference resolution and Unicode are not modelled. The library does none of them.
- The full examples `"mailto:bob@example.com"` and `"https://user@host.example:8080/a/b?x=1&y=2#frag"` are not proved as single literals. They are covered by the general lemmas `AuthorityOnly`, `AuthorityComponents`, `DecomposeScheme`, `PathStepShape`, `SegmentsShape` and `QueryPairsMeaning`. The two error cases `"@host.com/path"` and `"http://host?k1=v1&k2"` are proved as literals (`AtHostRefused`, `QueryPairRefused`).

## Findings

| source | as written | input that shows it | evidently intended | confidence | as-written member | corrected member |
|---|---|---|---|---|---|---|
| include/uri/elements_checks.h:139 (also include/uri/URI.h:378, :514, :561) | the triplet guard `i < size - 2` is computed on an unsigned size, so for size 1 it wraps around and admits `i = 0` | `"%"`: the guard lets index 0 through and `element[1]`, `element[2]` are read past the view | the guard means `i + 2 < size`: a triplet must fit in the text | not executed | ElementsChecks.PctGuardAsWrittenOverreaches | ElementsChecks.ScanPctEncoded |
