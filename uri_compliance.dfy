/** The RFC 3986 compliance checks of class URI, one per component, and
    the conjunction isCompliant takes over a parsed URI. */
module UriCompliance {
  import opened CharacterChecks
  import opened ElementsChecks
  import opened StringViews
  import opened UriSpec

  // ---------------------------------------------------------------------
  // Scheme

  /** scheme = ALPHA *( ALPHA / DIGIT / "+" / "-" / "." ) */
  predicate IsSchemeCharacter(c: char) {
    IsAlpha(c) || IsDigit(c) || c in ['+', '-', '.']
  }

  /** isSchemeCompliant: non-empty, a letter first, scheme characters after. */
  predicate IsSchemeCompliant(s: string) {
    |s| > 0 && IsAlpha(s[0]) && forall k | 1 <= k < |s| :: IsSchemeCharacter(s[k])
  }

  /** A compliant scheme holds none of the delimiters that end it or that
      the authority and the path use, so it is read back unchanged. */
  lemma CompliantSchemeHasNoDelimiter(s: string, k: nat)
    requires IsSchemeCompliant(s) && k < |s|
    ensures s[k] !in ":/?#[]@%"
  {
    if k > 0 {
      assert IsSchemeCharacter(s[k]);
    }
  }

  lemma SchemeExamples()
    ensures IsSchemeCompliant("https") && IsSchemeCompliant("svn+ssh") && IsSchemeCompliant("a1.b-c")
    ensures !IsSchemeCompliant("") && !IsSchemeCompliant("1http") && !IsSchemeCompliant("ht tp")
  {
    assert "ht tp"[2] == ' ';
  }

  // ---------------------------------------------------------------------
  // Userinfo

  /** isUserCompliant: empty, or percent-encoded text over unreserved
      characters, sub-delimiters and ':'. */
  predicate IsUserCompliant(s: string) {
    |s| == 0 || PctEncodedOver(s, {':'})
  }

  method CheckUser(s: string) returns (r: bool)
    ensures r == IsUserCompliant(s)
  {
    if |s| == 0 {
      return true;
    }
    r := ScanPctEncoded(s, {':'});
  }

  /** A compliant user holds no '@', so the user separator that ends it is
      the first '@' of the authority. */
  lemma CompliantUserHasNoAt(s: string)
    requires IsUserCompliant(s)
    ensures '@' !in s
  {
    if k :| 0 <= k < |s| && s[k] == '@' {
      GenDelimitersAndPercentInNeitherClass('@');
      RejectsForeignCharacter(s, {':'}, k);
    }
  }

  // ---------------------------------------------------------------------
  // Host and port

  /** isHostCompliant: with a '[' anywhere, an IP literal; otherwise an IPv4
      address or a registered name. */
  predicate IsHostCompliant(s: string) {
    if '[' in s then IsIPLiteral(s) else IsIPv4(s) || IsRegularName(s)
  }

  method CheckHost(s: string) returns (r: bool)
    ensures r == IsHostCompliant(s)
  {
    if FindFirstOf(s, {'['}) < |s| {
      r := ScanIPLiteral(s);
      return;
    }
    r := ScanIPv4(s);
    if !r {
      r := ScanRegularName(s);
    }
  }

  lemma HostAcceptsRegisteredName()
    ensures IsHostCompliant("example.com")
  {
    RegularNameAcceptsExamples();
    assert '[' !in "example.com";
  }

  lemma HostAcceptsIPv4()
    ensures IsHostCompliant("192.168.1.1")
  {
    IPv4AcceptsDottedQuad();
    assert '[' !in "192.168.1.1";
  }

  lemma HostAcceptsIPLiteral()
    ensures IsHostCompliant("[::1]")
  {
    IPLiteralExamples();
    assert "[::1]"[0] == '[';
  }

  /** A bracket makes the host an IP literal or nothing: an IPv4 address in
      brackets is rejected. */
  lemma HostRejectsBracketedIPv4()
    ensures !IsHostCompliant("[1.2.3.4]")
  {
    IPLiteralExamples();
    assert "[1.2.3.4]"[0] == '[';
  }

  lemma HostRejectsSpace()
    ensures !IsHostCompliant("exa mple.com")
  {
    RegularNameRejectsSpace();
    var s := "exa mple.com";
    assert '[' !in s;
    assert Join(["exa mple", "com"], '.') == s;
    SplitJoin(["exa mple", "com"], '.');
  }

  /** isPortCompliant: digits only; the empty port qualifies. */
  predicate IsPortCompliant(s: string) {
    AllDigits(s)
  }

  // ---------------------------------------------------------------------
  // Path segments, query line and fragment

  /** isPathSegmentCompliant: percent-encoded text over unreserved
      characters, sub-delimiters, ':', '@' and the '/' kept with a segment. */
  predicate IsPathSegmentCompliant(s: string) {
    PctEncodedOver(s, {':', '@', '/'})
  }

  method CheckPathSegment(s: string) returns (r: bool)
    ensures r == IsPathSegmentCompliant(s)
  {
    r := ScanPctEncoded(s, {':', '@', '/'});
  }

  /** isFragmentCompliant: empty, or percent-encoded text over unreserved
      characters, sub-delimiters, ':', '@', '/' and '?'. */
  predicate IsFragmentCompliant(s: string) {
    |s| == 0 || PctEncodedOver(s, {':', '@', '/', '?'})
  }

  method CheckFragment(s: string) returns (r: bool)
    ensures r == IsFragmentCompliant(s)
  {
    if |s| == 0 {
      return true;
    }
    r := ScanPctEncoded(s, {':', '@', '/', '?'});
  }

  /** isQueryCompliant applies the fragment rules. */
  predicate IsQueryCompliant(s: string) {
    IsFragmentCompliant(s)
  }

  /** Neither a compliant fragment nor a compliant query line holds a '#',
      '[' or ']'; a compliant path segment in addition holds no '?'. So each
      ends where the parse cut it. */
  lemma CompliantTextsExcludeDelimiters(s: string, k: nat)
    requires k < |s|
    ensures IsFragmentCompliant(s) ==> s[k] != '#' && s[k] != '[' && s[k] != ']'
    ensures IsPathSegmentCompliant(s) ==> s[k] != '#' && s[k] != '?' && s[k] != '[' && s[k] != ']'
  {
    var c := s[k];
    if c == '#' || c == '?' || c == '[' || c == ']' {
      assert c in "%:/?#[]@";
      GenDelimitersAndPercentInNeitherClass(c);
      RejectsForeignCharacter(s, {':', '@', '/'}, k);
      if c != '?' {
        RejectsForeignCharacter(s, {':', '@', '/', '?'}, k);
      }
    }
  }

  // ---------------------------------------------------------------------
  // isCompliant

  /** Every path segment is compliant. */
  predicate SegmentsCompliant(src: string, segments: seq<View>)
    requires AllWithin(|src|, segments)
  {
    forall k | 0 <= k < |segments| :: IsPathSegmentCompliant(Text(src, segments[k]))
  }

  /** isCompliant: every component passes its check, and there is a host. */
  predicate Compliant(src: string, c: Components)
    requires Bounded(src, c) && AllWithin(|src|, c.segments)
  {
    IsSchemeCompliant(Text(src, c.scheme)) &&
    IsUserCompliant(Text(src, c.user)) &&
    (c.host.length > 0 && IsHostCompliant(Text(src, c.host))) &&
    IsPortCompliant(Text(src, c.port)) &&
    SegmentsCompliant(src, c.segments) &&
    IsQueryCompliant(Text(src, c.queryLine)) &&
    IsFragmentCompliant(Text(src, c.fragment))
  }
}
