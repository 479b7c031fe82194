/** Validators for whole elements of a URI: decimal octets, IPv4 and IPv6
    addresses, IP literals and registered names (RFC 3986 section 3.2.2),
    and the percent-encoded character rule (section 2.1) they share with the
    userinfo, path, query and fragment checks. */
module ElementsChecks {
  import opened CharacterChecks
  import opened StringViews

  // ---------------------------------------------------------------------
  // Decimal octets

  predicate AllDigits(s: string) {
    forall k | 0 <= k < |s| :: IsDigit(s[k])
  }

  /** The number a string of digits denotes. */
  function DecimalValue(s: string): (v: nat)
    requires AllDigits(s)
  {
    if |s| == 0 then 0 else DecimalValue(s[..|s| - 1]) * 10 + DigitValue(s[|s| - 1])
  }

  /** is_decimal_octet: a switch on the length; the value stays 0 when a
      character is not a digit, so the range test then fails. */
  function IsDecimalOctet(s: string): bool {
    if |s| == 1 then
      var value := if IsDigit(s[0]) then DigitValue(s[0]) else 0;
      value > 0
    else if |s| == 2 then
      var value := if IsDigit(s[0]) && IsDigit(s[1])
        then DigitValue(s[0]) * 10 + DigitValue(s[1]) else 0;
      10 <= value < 100
    else if |s| == 3 then
      var value := if IsDigit(s[0]) && IsDigit(s[1]) && IsDigit(s[2])
        then DigitValue(s[0]) * 100 + DigitValue(s[1]) * 10 + DigitValue(s[2]) else 0;
      100 <= value < 256
    else
      false
  }

  lemma DecimalValueOfThree(s: string)
    requires |s| == 3 && AllDigits(s)
    ensures DecimalValue(s) == DigitValue(s[0]) * 100 + DigitValue(s[1]) * 10 + DigitValue(s[2])
  {
    var p := s[..2];
    assert p[..1] == s[..1] && p[1] == s[1] && s[..1][0] == s[0];
    DecimalValueOfTwo(p);
  }

  lemma DecimalValueOfTwo(s: string)
    requires |s| == 2 && AllDigits(s)
    ensures DecimalValue(s) == DigitValue(s[0]) * 10 + DigitValue(s[1])
  {
    var p := s[..1];
    assert p[..0] == [] && p[0] == s[0];
    assert DecimalValue(p) == DigitValue(s[0]);
  }

  /** A decimal octet is one to three digits without a leading zero whose
      value is at most 255; in particular "0" is not one. */
  lemma DecimalOctetCharacterization(s: string)
    ensures IsDecimalOctet(s) <==>
      1 <= |s| <= 3 && AllDigits(s) && s[0] != '0' && DecimalValue(s) <= 255
  {
    if |s| == 1 && AllDigits(s) {
      assert s[..0] == [];
    } else if |s| == 2 && AllDigits(s) {
      DecimalValueOfTwo(s);
    } else if |s| == 3 && AllDigits(s) {
      DecimalValueOfThree(s);
    }
  }

  /** A decimal octet consists of digits only. */
  lemma DecimalOctetIsDigits(s: string)
    requires IsDecimalOctet(s)
    ensures 1 <= |s| <= 3 && AllDigits(s)
  {
    DecimalOctetCharacterization(s);
  }

  lemma DecimalOctetExamples()
    ensures !IsDecimalOctet("") && !IsDecimalOctet("0") && !IsDecimalOctet("01")
    ensures !IsDecimalOctet("256") && !IsDecimalOctet("1234") && !IsDecimalOctet("a")
    ensures IsDecimalOctet("9") && IsDecimalOctet("10") && IsDecimalOctet("99")
    ensures IsDecimalOctet("100") && IsDecimalOctet("255")
  {
  }

  // ---------------------------------------------------------------------
  // IPv4 addresses

  /** is_IPv4, stated on the pieces between dots: there are at least four,
      and the first four are decimal octets. Text after a fourth dot is never
      examined. */
  predicate IsIPv4(s: string) {
    var pieces := Split(s, '.');
    |pieces| >= 4 &&
    IsDecimalOctet(pieces[0]) && IsDecimalOctet(pieces[1]) &&
    IsDecimalOctet(pieces[2]) && IsDecimalOctet(pieces[3])
  }

  /** The scan of is_IPv4: it cuts a piece at each dot into a four-element
      buffer, stops after the fourth dot, returns false at the first character
      that is neither a digit nor a dot, and captures the last piece when it
      reaches the end of the text. */
  method ScanIPv4(s: string) returns (r: bool)
    ensures r == IsIPv4(s)
  {
    var octet := new string[4];
    var cut, idx := CutOctets(s, octet);
    if !cut {
      return false;
    }
    r := idx == 4 && forall k | 0 <= k < 4 :: IsDecimalOctet(octet[k]);
  }

  /** The loop of is_IPv4 and the capture of the final piece: false where
      the source returns false from inside the loop; otherwise idx pieces
      are in the buffer, four exactly when the text has at least four. */
  method CutOctets(s: string, octet: array<string>) returns (cut: bool, idx: nat)
    requires octet.Length == 4
    modifies octet
    ensures !cut ==> !IsIPv4(s)
    ensures cut ==> idx <= 4 && (idx == 4 <==> |Split(s, '.')| >= 4)
    ensures cut && idx == 4 ==> octet[..] == Split(s, '.')[..4]
  {
    idx := 0;
    var last := 0;
    var i := 0;
    while i < |s| && idx < 4
      invariant 0 <= last <= i <= |s| && 0 <= idx <= 4
      invariant octet[..idx] + [s[last..i]] == Split(s[..i], '.')
      invariant idx == 4 ==> last == i
      decreases |s| - i
    {
      ghost var done, piece := octet[..idx], s[last..i];
      if s[i] == '.' {
        ScanDotStep(s, i, last, done);
        octet[idx] := s[last..i];
        assert octet[..idx + 1] == done + [piece];
        idx := idx + 1;
        last := i + 1;
        i := i + 1;
      } else {
        ScanOtherStep(s, i, last, done);
        if !IsDigit(s[i]) {
          IPv4RejectsPiece(s, i + 1, idx, s[last..i + 1]);
          return false, idx;
        }
        i := i + 1;
      }
    }
    if i == |s| && idx != 4 {
      assert s[..i] == s;
      ghost var done := octet[..idx];
      octet[idx] := s[last..|s|];
      idx := idx + 1;
      assert octet[..idx] == done + [s[last..|s|]];
    } else {
      assert s[last..i] == [];
      ScanStoppedAtFourthDot(s, i, octet[..4]);
    }
    assert idx == 4 ==> octet[..] == octet[..4];
    return true, idx;
  }

  /** A dot closes the piece being cut and opens an empty one. */
  lemma ScanDotStep(s: string, i: nat, last: nat, done: seq<string>)
    requires last <= i < |s| && s[i] == '.'
    requires done + [s[last..i]] == Split(s[..i], '.')
    ensures (done + [s[last..i]]) + [s[i + 1..i + 1]] == Split(s[..i + 1], '.')
  {
    SplitSnocSeparator(s[..i], '.');
    assert s[..i + 1] == s[..i] + ['.'];
    assert s[i + 1..i + 1] == "";
  }

  /** Any other character extends the piece being cut. */
  lemma ScanOtherStep(s: string, i: nat, last: nat, done: seq<string>)
    requires last <= i < |s| && s[i] != '.'
    requires done + [s[last..i]] == Split(s[..i], '.')
    ensures done + [s[last..i + 1]] == Split(s[..i + 1], '.')
  {
    SplitSnocOther(s[..i], s[i], '.');
    assert s[..i + 1] == s[..i] + [s[i]];
    assert s[last..i + 1] == s[last..i] + [s[i]];
    var A := done + [s[last..i]];
    assert A[..|A| - 1] == done;
  }

  /** When the scan stops after a fourth dot, the four pieces it cut are the
      first four pieces of the whole text. */
  lemma ScanStoppedAtFourthDot(s: string, i: nat, pieces: seq<string>)
    requires i <= |s| && |pieces| == 4
    requires pieces + [[]] == Split(s[..i], '.')
    ensures |Split(s, '.')| >= 4 && pieces == Split(s, '.')[..4]
  {
    SplitPrefixStable(s[..i], s[i..], '.');
    assert s[..i] + s[i..] == s;
  }

  /** If the piece being cut when the scan stands at position i cannot begin a
      decimal octet, the whole text is not an IPv4 address. */
  lemma IPv4RejectsPiece(s: string, i: nat, idx: nat, piece: string)
    requires i <= |s| && idx < 4
    requires |Split(s[..i], '.')| == idx + 1 && Split(s[..i], '.')[idx] == piece
    requires |piece| > 0 && !IsDigit(piece[|piece| - 1])
    ensures !IsIPv4(s)
  {
    SplitPrefixStable(s[..i], s[i..], '.');
    assert s[..i] + s[i..] == s;
    var full := Split(s, '.')[idx];
    assert full[..|piece|] == piece;
    assert full[|piece| - 1] == piece[|piece| - 1];
    if IsDecimalOctet(full) {
      DecimalOctetIsDigits(full);
    }
  }

  /** A character other than a digit or '.' before the fourth dot rejects. */
  lemma IPv4RejectsForeignCharacter(s: string, i: nat)
    requires i < |s| && s[i] != '.' && !IsDigit(s[i])
    requires |Split(s[..i], '.')| <= 4
    ensures !IsIPv4(s)
  {
    var A := Split(s[..i], '.');
    SplitSnocOther(s[..i], s[i], '.');
    assert s[..i + 1] == s[..i] + [s[i]];
    var B := Split(s[..i + 1], '.');
    IPv4RejectsPiece(s, i + 1, |A| - 1, B[|A| - 1]);
  }

  /** Fewer than three dots means fewer than four pieces, which rejects. */
  lemma IPv4NeedsFourPieces(s: string)
    requires |Split(s, '.')| < 4
    ensures !IsIPv4(s)
  {
  }

  /** Whatever follows a fourth dot does not matter. */
  lemma {:induction false} IPv4IgnoresTextAfterFourthDot(a: string, b: string)
    requires |Split(a, '.')| == 4
    ensures IsIPv4(a + ['.'] + b) == IsIPv4(a)
  {
    SplitSnocSeparator(a, '.');
    SplitPrefixStable(a + ['.'], b, '.');
  }

  lemma IPv4AcceptsDottedQuad()
    ensures IsIPv4("192.168.1.1")
  {
    assert Join(["192", "168", "1", "1"], '.') == "192.168.1.1";
    SplitJoin(["192", "168", "1", "1"], '.');
  }

  lemma IPv4AcceptsFivePieces()
    ensures IsIPv4("1.2.3.4.5")
  {
    assert Join(["1", "2", "3", "4", "5"], '.') == "1.2.3.4.5";
    SplitJoin(["1", "2", "3", "4", "5"], '.');
  }

  lemma IPv4RejectsThreePieces()
    ensures !IsIPv4("1.2.3") && !IsIPv4("")
  {
    assert Join(["1", "2", "3"], '.') == "1.2.3";
    SplitJoin(["1", "2", "3"], '.');
  }

  lemma IPv4RejectsEmptyFourthPiece()
    ensures !IsIPv4("1.2.3.")
  {
    assert Join(["1", "2", "3", ""], '.') == "1.2.3.";
    SplitJoin(["1", "2", "3", ""], '.');
  }

  lemma IPv4RejectsLargeOctet()
    ensures !IsIPv4("999.1.1.1")
  {
    assert Join(["999", "1", "1", "1"], '.') == "999.1.1.1";
    SplitJoin(["999", "1", "1", "1"], '.');
  }

  /** As written, a single "0" is not a decimal octet, so the all-zero
      address is rejected. */
  lemma IPv4RejectsZeroes()
    ensures !IsIPv4("0.0.0.0")
  {
    assert Join(["0", "0", "0", "0"], '.') == "0.0.0.0";
    SplitJoin(["0", "0", "0", "0"], '.');
  }

  // ---------------------------------------------------------------------
  // IPv6 addresses (a permissive character scan)

  /** Only hexadecimal digits, ':' and '.'; every '.' comes after some ':',
      and no ':' comes after a '.'. The empty text qualifies. */
  predicate IsIPv6(s: string) {
    (forall i | 0 <= i < |s| :: IsHexDigit(s[i]) || s[i] == ':' || s[i] == '.') &&
    (forall i | 0 <= i < |s| && s[i] == '.' :: ':' in s[..i]) &&
    (forall i, j | 0 <= i < j < |s| && s[i] == '.' :: s[j] != ':')
  }

  /** The scan of is_IPv6 with its two flags: a colon has been seen, and an
      embedded IPv4 tail has started. */
  method ScanIPv6(s: string) returns (r: bool)
    ensures r == IsIPv6(s)
  {
    var colonPresence, reconIPv4 := false, false;
    for i := 0 to |s|
      invariant colonPresence == (':' in s[..i])
      invariant reconIPv4 == ('.' in s[..i])
      invariant IsIPv6(s[..i])
    {
      var c := s[i];
      assert s[..i + 1] == s[..i] + [c];
      if IsHexDigit(c) {
        continue;
      }
      if c == ':' && !reconIPv4 {
        colonPresence := true;
        continue;
      }
      if c == '.' && colonPresence {
        reconIPv4 := true;
        continue;
      }
      if c == ':' {
        var j :| 0 <= j < i && s[j] == '.';
        assert s[j] == '.' && s[i] == ':';
      } else if c == '.' {
        assert s[..i] == s[..i];
      }
      return false;
    }
    assert s[..|s|] == s;
    return true;
  }

  // ---------------------------------------------------------------------
  // IP literals

  /** is_IPLiteral: non-empty, opened by '[' and closed by ']', with a
      non-empty interior that passes the IPv6 scan. */
  predicate IsIPLiteral(s: string) {
    |s| > 0 && s[0] == '[' && s[|s| - 1] == ']' &&
    var address := s[1..|s| - 1];
    |address| > 0 && IsIPv6(address)
  }

  lemma IPLiteralShape(s: string)
    ensures IsIPLiteral(s) <==>
      |s| >= 3 && s[0] == '[' && s[|s| - 1] == ']' && IsIPv6(s[1..|s| - 1])
  {
  }

  method ScanIPLiteral(s: string) returns (r: bool)
    ensures r == IsIPLiteral(s)
  {
    r := |s| > 0;
    if r {
      r := s[0] == '[' && s[|s| - 1] == ']';
      if r {
        var address := s[1..|s| - 1];
        if |address| > 0 {
          r := ScanIPv6(address);
        } else {
          r := false;
        }
      }
    }
  }

  lemma IPLiteralExamples()
    ensures IsIPLiteral("[::1]")
    ensures !IsIPLiteral("[]") && !IsIPLiteral("[1.2.3.4]") && !IsIPLiteral("::1")
  {
    assert "[1.2.3.4]"[1..8] == "1.2.3.4";
    assert "1.2.3.4"[..1] == "1";
    assert "[::1]"[1..4] == "::1";
  }

  // ---------------------------------------------------------------------
  // Percent-encoded text and registered names

  /** A character a rule admits as itself: unreserved, a sub-delimiter, or one
      of the rule's extra characters. */
  predicate Admits(extra: set<char>, c: char) {
    IsUnreserved(c) || IsSubDelimiter(c) || c in extra
  }

  /** The shared rule: the text is a run of admitted characters and
      '%'-hex-hex triplets, read from the left. */
  predicate PctEncodedOver(s: string, extra: set<char>)
    decreases |s|
  {
    if |s| == 0 then true
    else if Admits(extra, s[0]) then PctEncodedOver(s[1..], extra)
    else (s[0] == '%' && 3 <= |s| && IsHexDigit(s[1]) && IsHexDigit(s[2]) &&
          PctEncodedOver(s[3..], extra))
  }

  /** The index loop shared by is_regular_name and the userinfo, path-segment,
      query and fragment checks; a triplet advances it by three. The guard
      i < size - 2 of the source is written i + 2 < |s|, as it is meant to
      read for texts shorter than two characters. */
  method ScanPctEncoded(s: string, extra: set<char>) returns (r: bool)
    ensures r == PctEncodedOver(s, extra)
  {
    var i := 0;
    while i < |s|
      invariant 0 <= i <= |s|
      invariant PctEncodedOver(s[i..], extra) == PctEncodedOver(s, extra)
    {
      assert s[i..][1..] == s[i + 1..];
      if Admits(extra, s[i]) {
        i := i + 1;
        continue;
      }
      if s[i] == '%' && i + 2 < |s| && IsHexDigit(s[i + 1]) && IsHexDigit(s[i + 2]) {
        assert s[i..][3..] == s[i + 3..];
        i := i + 3;
        continue;
      }
      return false;
    }
    return true;
  }

  /** One token of percent-encoded text. */
  predicate IsPctToken(extra: set<char>, t: string) {
    (|t| == 1 && Admits(extra, t[0])) ||
    (|t| == 3 && t[0] == '%' && IsHexDigit(t[1]) && IsHexDigit(t[2]))
  }

  function Concat(ts: seq<string>): string {
    if |ts| == 0 then "" else ts[0] + Concat(ts[1..])
  }

  /** The tokens of a text the rule accepts; they concatenate to the text. */
  function PctTokens(s: string, extra: set<char>): (ts: seq<string>)
    requires PctEncodedOver(s, extra)
    ensures Concat(ts) == s
    ensures forall k | 0 <= k < |ts| :: IsPctToken(extra, ts[k])
    decreases |s|
  {
    if |s| == 0 then []
    else if Admits(extra, s[0]) then
      var rest := PctTokens(s[1..], extra);
      assert s == [s[0]] + s[1..];
      [[s[0]]] + rest
    else
      var rest := PctTokens(s[3..], extra);
      assert s == s[..3] + s[3..];
      [s[..3]] + rest
  }

  /** Any text made of tokens is accepted. */
  lemma {:induction false} TokensArePctEncoded(ts: seq<string>, extra: set<char>)
    requires forall k | 0 <= k < |ts| :: IsPctToken(extra, ts[k])
    ensures PctEncodedOver(Concat(ts), extra)
  {
    if |ts| > 0 {
      TokensArePctEncoded(ts[1..], extra);
      var s, rest := Concat(ts), Concat(ts[1..]);
      var t := ts[0];
      assert s == t + rest;
      if |t| == 1 {
        assert s[1..] == rest;
      } else if Admits(extra, '%') {
        // '%' itself is admitted here, and hexadecimal digits are unreserved
        assert IsUnreserved(t[1]) && IsUnreserved(t[2]);
        assert s[1..][1..][1..] == rest;
        assert s[1..][0] == t[1] && s[1..][1..][0] == t[2];
      } else {
        assert s[3..] == rest;
      }
    }
  }

  /** The rule accepts exactly the texts that split into admitted characters
      and '%'-hex-hex triplets. */
  lemma PctEncodedIffTokens(s: string, extra: set<char>)
    ensures PctEncodedOver(s, extra) <==>
      exists ts: seq<string> :: Concat(ts) == s && forall k | 0 <= k < |ts| :: IsPctToken(extra, ts[k])
  {
    if PctEncodedOver(s, extra) {
      var ts := PctTokens(s, extra);
      assert Concat(ts) == s;
    }
    forall ts: seq<string> | Concat(ts) == s && forall k | 0 <= k < |ts| :: IsPctToken(extra, ts[k])
      ensures PctEncodedOver(s, extra)
    {
      TokensArePctEncoded(ts, extra);
    }
  }

  /** is_regular_name: the empty text, or percent-encoded text over unreserved
      characters and sub-delimiters only. */
  predicate IsRegularName(s: string) {
    |s| == 0 || PctEncodedOver(s, {})
  }

  method ScanRegularName(s: string) returns (r: bool)
    ensures r == IsRegularName(s)
  {
    if |s| == 0 {
      return true;
    }
    r := ScanPctEncoded(s, {});
  }

  /** A text of admitted characters only is accepted. */
  lemma {:induction false} AdmittedTextIsPctEncoded(s: string, extra: set<char>)
    requires forall k | 0 <= k < |s| :: Admits(extra, s[k])
    ensures PctEncodedOver(s, extra)
  {
    if |s| > 0 {
      AdmittedTextIsPctEncoded(s[1..], extra);
    }
  }

  /** Every character of an accepted text is admitted, '%' or a hexadecimal
      digit of a triplet. */
  lemma {:induction false} PctEncodedCharacters(s: string, extra: set<char>)
    requires PctEncodedOver(s, extra)
    ensures forall k | 0 <= k < |s| :: Admits(extra, s[k]) || s[k] == '%' || IsHexDigit(s[k])
  {
    if |s| > 0 {
      if Admits(extra, s[0]) {
        PctEncodedCharacters(s[1..], extra);
        assert forall k | 1 <= k < |s| :: s[k] == s[1..][k - 1];
      } else {
        PctEncodedCharacters(s[3..], extra);
        assert forall k | 3 <= k < |s| :: s[k] == s[3..][k - 3];
      }
    }
  }

  lemma RegularNameAcceptsExamples()
    ensures IsRegularName("") && IsRegularName("example.com")
  {
    var s := "example.com";
    forall k | 0 <= k < |s| ensures Admits({}, s[k]) {
      assert IsAlpha(s[k]) || s[k] == '.';
    }
    AdmittedTextIsPctEncoded(s, {});
  }

  /** A character that is neither admitted, '%' nor a hexadecimal digit
      anywhere in the text rejects it. */
  lemma RejectsForeignCharacter(s: string, extra: set<char>, k: nat)
    requires k < |s| && !Admits(extra, s[k]) && s[k] != '%' && !IsHexDigit(s[k])
    ensures !PctEncodedOver(s, extra)
  {
    if PctEncodedOver(s, extra) {
      PctEncodedCharacters(s, extra);
    }
  }

  lemma RegularNameRejectsSpace()
    ensures !IsRegularName("exa mple.com")
  {
    RejectsForeignCharacter("exa mple.com", {}, 3);
  }

  lemma RegularNameRejectsShortTriplet()
    ensures !IsRegularName("a%2") && !IsRegularName("%")
  {
    assert "a%2"[1..] == "%2";
  }

  // ---------------------------------------------------------------------
  // The percent guard as written

  /** Sizes are std::size_t, 64 bits wide. */
  const SizeModulus: nat := 0x1_0000_0000_0000_0000

  /** The guard i < size - 2 of the triplet test as written, with the
      unsigned subtraction wrapping around below two. */
  predicate PctGuardAsWritten(i: nat, size: nat) {
    i < (size - 2) % SizeModulus
  }

  /** From two characters on, the guard reads as i + 2 < size. */
  lemma PctGuardAsWrittenFromTwo(i: nat, size: nat)
    requires 2 <= size < SizeModulus
    ensures PctGuardAsWritten(i, size) <==> i + 2 < size
  {
  }

  /** On a one-character text "%" the guard as written holds at position 0,
      so the test goes on to read positions 1 and 2, past the end of the
      view; the intended guard i + 2 < size fails there. */
  lemma PctGuardAsWrittenOverreaches()
    ensures PctGuardAsWritten(0, 1) && !(0 + 2 < 1)
  {
    assert (1 - 2) % SizeModulus == SizeModulus - 1;
  }
}
