/** What the parse of class URI computes, stated over Decompose and the
    step functions: the components of a complete parse are consistent, the
    path segments tile the path, the query pairs are those of the '&'
    pieces, and the scheme, authority and fragment are the texts the step
    loop cuts out. */
module UriProperties {
  import opened StringViews
  import opened UriSpec
  import opened UriQuery

  // ---------------------------------------------------------------------
  // The path and the query are each parsed at most once

  predicate NoPathYet(c: Components) {
    c.path == EmptyView && c.segments == []
  }

  predicate NoQueryYet(c: Components) {
    c.queryLine == EmptyView && c.queries == map[]
  }

  /** What holds of the machine when the loop reaches `step`: the components
      are consistent, and the Path and Query steps are reached only while
      nothing has been put in the path, respectively the query. */
  predicate Settled(src: string, m: Machine, step: Step)
    requires WellFormed(src, m)
  {
    Consistent(src, m.c) &&
    match step
    case Scheme => NoPathYet(m.c) && NoQueryYet(m.c)
    case CheckAuthority => NoPathYet(m.c) && NoQueryYet(m.c)
    case Authority => NoPathYet(m.c) && NoQueryYet(m.c)
    case Path => NoPathYet(m.c) && NoQueryYet(m.c)
    case CheckSeparator => NoQueryYet(m.c) && (NoPathYet(m.c) || m.rest.length == 0 || Front(src, m) != '/')
    case Query => NoQueryYet(m.c)
    case Fragment => true
  }

  /** The path step stops at the first '?' or '#': the path holds neither,
      it starts right after the '/' that a host makes it drop, and what is
      left of the view starts where the path ends. */
  lemma PathStepShape(src: string, m: Machine)
    requires WellFormed(src, m) && m.rest.length > 0
    ensures var r := PathStep(src, m);
      r.c.path.offset == m.rest.offset + (if m.c.host.length > 0 then 1 else 0) &&
      r.c.path.End() == r.rest.offset &&
      '?' !in Text(src, r.c.path) && '#' !in Text(src, r.c.path) &&
      (r.rest.length > 0 ==> Front(src, r) == '?' || Front(src, r) == '#')
  {
    var t := if m.c.host.length > 0 then m.rest.RemovePrefix(1) else m.rest;
    var q := FindFirstOf(Text(src, t), {'?', '#'});
    var path := t.Prefix(q);
    var T, P := Text(src, t), Text(src, path);
    TextCut(src, t, q);
    forall j | 0 <= j < q ensures P[j] != '?' && P[j] != '#' {
      assert P[j] == T[j] && T[j] !in {'?', '#'};
    }
    if q < t.length {
      assert src[t.offset + q] == Text(src, t)[q];
    }
  }

  lemma SettledAfterPath(src: string, m: Machine)
    requires WellFormed(src, m) && m.rest.length > 0 && Settled(src, m, Path)
    ensures Settled(src, PathStep(src, m), CheckSeparator)
  {
    PathStepShape(src, m);
    var pm := PathStep(src, m);
    assert pm.c.segments == Segments(src, pm.c.path);
  }

  lemma SettledAfterQuery(src: string, m: Machine)
    requires WellFormed(src, m) && Settled(src, m, Query) && QueryStep(src, m).Ok?
    ensures Settled(src, QueryStep(src, m).value, Fragment)
  {
    var h := Find(Text(src, m.rest), '#');
    QueryPairsMeaning(src, m.rest.Prefix(h), map[]);
  }

  /** From a settled machine, a complete run leaves consistent components. */
  lemma {:induction false} RunConsistent(src: string, m: Machine, step: Step)
    requires WellFormed(src, m) && StepReady(src, m, step) && Settled(src, m, step)
    ensures Run(src, m, step).Ok? ==> Consistent(src, Run(src, m, step).value)
    decreases m.rest.length, Rank(step)
  {
    if m.rest.length == 0 {
      return;
    }
    match step
    case Scheme =>
      RunConsistent(src, SchemeStep(src, m), CheckAuthority);
    case CheckAuthority =>
      if GoesToAuthority(src, m) {
        RunConsistent(src, SkipAuthorityMarker(src, m), Authority);
      } else {
        RunConsistent(src, m, CheckSeparator);
      }
    case Authority =>
      match AuthorityStep(src, m) {
        case Err(_) =>
        case Ok(am) => RunConsistent(src, am, CheckSeparator);
      }
    case CheckSeparator =>
      if Front(src, m) == '/' {
        RunConsistent(src, m, Path);
      } else if Front(src, m) == '?' {
        RunConsistent(src, Drop(m, 1), Query);
      } else {
        RunConsistent(src, Drop(m, 1), Fragment);
      }
    case Path =>
      SettledAfterPath(src, m);
      RunConsistent(src, PathStep(src, m), CheckSeparator);
    case Query =>
      match QueryStep(src, m) {
        case Err(_) =>
        case Ok(qm) =>
          SettledAfterQuery(src, m);
          RunConsistent(src, qm, Fragment);
      }
    case Fragment =>
      RunConsistent(src, FragmentStep(src, m), Fragment);
  }

  /** A complete parse leaves consistent components: what the class
      requires of itself (Valid) holds after a successful parse. */
  lemma DecomposeConsistent(src: string)
    ensures Decompose(src).Ok? ==> Consistent(src, Decompose(src).value)
  {
    var m := Machine(Pristine, View(0, |src|));
    assert Segments(src, EmptyView) == [];
    assert QueryPairs(src, EmptyView, map[]) == Ok(map[]);
    RunConsistent(src, m, Scheme);
  }

  // ---------------------------------------------------------------------
  // The path segments

  /** The only '/' a segment may hold is its last character. */
  predicate SlashOnlyLast(src: string, w: View)
    requires w.Within(|src|)
  {
    forall j | w.offset <= j < w.End() - 1 :: src[j] != '/'
  }

  /** The segment is not empty and ends with '/'. */
  predicate ClosedBySlash(src: string, w: View)
    requires w.Within(|src|)
  {
    w.length > 0 && src[w.End() - 1] == '/'
  }

  /** The texts of the segments concatenate to the path. */
  lemma {:induction false} SegmentsJoin(src: string, v: View)
    requires v.Within(|src|)
    ensures Joined(src, Segments(src, v)) == Text(src, v)
    decreases v.length
  {
    if v.length > 0 {
      var p := Find(Text(src, v), '/');
      if p < v.length {
        SegmentsJoin(src, v.RemovePrefix(p + 1));
      }
      SegmentsJoinStep(src, v);
    }
  }

  /** One segment in front of the segments of the rest. */
  lemma SegmentsJoinStep(src: string, v: View)
    requires v.Within(|src|) && v.length > 0
    requires var p := Find(Text(src, v), '/');
      p < v.length ==> Joined(src, Segments(src, v.RemovePrefix(p + 1))) == Text(src, v.RemovePrefix(p + 1))
    ensures Joined(src, Segments(src, v)) == Text(src, v)
  {
    var p := Find(Text(src, v), '/');
    if p < v.length {
      var first, rest := v.Prefix(p + 1), v.RemovePrefix(p + 1);
      var S := [first] + Segments(src, rest);
      assert Segments(src, v) == S;
      assert S[1..] == Segments(src, rest);
      assert Joined(src, S) == Text(src, first) + Joined(src, Segments(src, rest));
      TextCut(src, v, p + 1);
    } else {
      assert Segments(src, v) == [v];
      assert Joined(src, [v]) == Text(src, v) + Joined(src, []);
    }
  }

  /** No segment is empty, a segment holds no '/' but possibly as its last
      character, and every segment but the last ends with one. */
  predicate WellShaped(src: string, S: seq<View>)
    requires AllWithin(|src|, S)
  {
    (forall k | 0 <= k < |S| :: S[k].length > 0 && SlashOnlyLast(src, S[k])) &&
    (forall k | 0 <= k < |S| - 1 :: ClosedBySlash(src, S[k]))
  }

  lemma {:induction false} SegmentsShape(src: string, v: View)
    requires v.Within(|src|)
    ensures WellShaped(src, Segments(src, v))
    decreases v.length
  {
    if v.length > 0 {
      var t := Text(src, v);
      var p := Find(t, '/');
      forall j | v.offset <= j < v.offset + p ensures src[j] != '/' {
        assert src[j] == t[j - v.offset];
      }
      if p < v.length {
        var first, rest := v.Prefix(p + 1), v.RemovePrefix(p + 1);
        SegmentsShape(src, rest);
        assert src[first.End() - 1] == t[p];
        assert SlashOnlyLast(src, first) && ClosedBySlash(src, first);
        var S' := Segments(src, rest);
        var S := [first] + S';
        assert Segments(src, v) == S;
        forall k | 0 <= k < |S| ensures S[k].length > 0 && SlashOnlyLast(src, S[k]) {
          if k > 0 {
            assert S[k] == S'[k - 1];
          }
        }
        forall k | 0 <= k < |S| - 1 ensures ClosedBySlash(src, S[k]) {
          if k > 0 {
            assert S[k] == S'[k - 1];
          }
        }
      } else {
        assert Segments(src, v) == [v];
        assert SlashOnlyLast(src, v);
      }
    }
  }

  /** The first j segments cover as many characters of the path as they
      hold, and their texts concatenate to that prefix of the path. */
  lemma SegmentsPrefixText(src: string, v: View, j: nat)
    requires v.Within(|src|) && j <= |Segments(src, v)|
    ensures var S := Segments(src, v);
      AllWithin(|src|, S[..j]) &&
      TotalLength(S[..j]) <= v.length &&
      Text(src, v.Prefix(TotalLength(S[..j]))) == Joined(src, S[..j])
  {
    var S := Segments(src, v);
    SegmentsJoin(src, v);
    var A, B := S[..j], S[j..];
    assert S == A + B;
    assert AllWithin(|src|, A) && AllWithin(|src|, B);
    JoinedAppend(src, A, B);
    var L := TotalLength(A);
    assert Text(src, v) == Joined(src, A) + Joined(src, B);
    TextCut(src, v, L);
  }

  // ---------------------------------------------------------------------
  // isAbsolutePath

  /** isAbsolutePath agrees with the path: it is set exactly when the path
      is non-empty and opens with '/'. */
  predicate AbsoluteAgrees(src: string, c: Components)
    requires c.path.Within(|src|)
  {
    c.isAbsolutePath <==> OpensWithSlash(src, c.path)
  }

  /** The path step is entered with no path yet, so the flag it finds is
      false; it sets the flag exactly when the path it cuts opens with '/'. */
  lemma PathStepAbsolute(src: string, m: Machine)
    requires WellFormed(src, m) && m.rest.length > 0 && NoPathYet(m.c) && AbsoluteAgrees(src, m.c)
    ensures AbsoluteAgrees(src, PathStep(src, m).c)
  {
    var t := if m.c.host.length > 0 then m.rest.RemovePrefix(1) else m.rest;
    if t.length > 0 {
      assert Text(src, t)[0] == src[t.offset];
    }
  }

  /** From a settled machine whose flag agrees with its path, a complete run
      leaves a flag that agrees with the path. */
  lemma {:induction false} RunAbsolute(src: string, m: Machine, step: Step)
    requires WellFormed(src, m) && StepReady(src, m, step) && Settled(src, m, step)
    requires AbsoluteAgrees(src, m.c)
    ensures Run(src, m, step).Ok? ==> AbsoluteAgrees(src, Run(src, m, step).value)
    decreases m.rest.length, Rank(step)
  {
    if m.rest.length == 0 {
      return;
    }
    match step
    case Scheme =>
      RunAbsolute(src, SchemeStep(src, m), CheckAuthority);
    case CheckAuthority =>
      if GoesToAuthority(src, m) {
        RunAbsolute(src, SkipAuthorityMarker(src, m), Authority);
      } else {
        RunAbsolute(src, m, CheckSeparator);
      }
    case Authority =>
      if AuthorityStep(src, m).Ok? {
        RunAbsolute(src, AuthorityStep(src, m).value, CheckSeparator);
      }
    case CheckSeparator =>
      if Front(src, m) == '/' {
        RunAbsolute(src, m, Path);
      } else if Front(src, m) == '?' {
        RunAbsolute(src, Drop(m, 1), Query);
      } else {
        RunAbsolute(src, Drop(m, 1), Fragment);
      }
    case Path =>
      SettledAfterPath(src, m);
      PathStepAbsolute(src, m);
      RunAbsolute(src, PathStep(src, m), CheckSeparator);
    case Query =>
      if QueryStep(src, m).Ok? {
        SettledAfterQuery(src, m);
        RunAbsolute(src, QueryStep(src, m).value, Fragment);
      }
    case Fragment =>
      RunAbsolute(src, FragmentStep(src, m), Fragment);
  }

  /** isAbsolutePath() after a parse: true exactly when the path is
      non-empty and opens with '/'. With a host, the '/' that ends the
      authority is not part of the path, so "http://h/a" has the relative
      path "a" and "http://h//a" the absolute path "/a". */
  lemma DecomposeAbsolutePath(src: string)
    ensures Decompose(src).Ok? ==>
      (Decompose(src).value.isAbsolutePath <==> OpensWithSlash(src, Decompose(src).value.path))
  {
    var m := Machine(Pristine, View(0, |src|));
    assert Segments(src, EmptyView) == [];
    assert QueryPairs(src, EmptyView, map[]) == Ok(map[]);
    RunAbsolute(src, m, Scheme);
  }

  // ---------------------------------------------------------------------
  // Scheme

  /** The scheme is written only by the Scheme step: later steps keep it. */
  lemma {:induction false} RunKeepsScheme(src: string, m: Machine, step: Step)
    requires WellFormed(src, m) && StepReady(src, m, step) && step != Scheme
    ensures Run(src, m, step).Ok? ==> Run(src, m, step).value.scheme == m.c.scheme
    decreases m.rest.length, Rank(step)
  {
    if m.rest.length == 0 {
      return;
    }
    match step
    case CheckAuthority =>
      if GoesToAuthority(src, m) {
        RunKeepsScheme(src, SkipAuthorityMarker(src, m), Authority);
      } else {
        RunKeepsScheme(src, m, CheckSeparator);
      }
    case Authority =>
      match AuthorityStep(src, m) {
        case Err(_) =>
        case Ok(am) => RunKeepsScheme(src, am, CheckSeparator);
      }
    case CheckSeparator =>
      if Front(src, m) == '/' {
        RunKeepsScheme(src, m, Path);
      } else if Front(src, m) == '?' {
        RunKeepsScheme(src, Drop(m, 1), Query);
      } else {
        RunKeepsScheme(src, Drop(m, 1), Fragment);
      }
    case Path =>
      RunKeepsScheme(src, PathStep(src, m), CheckSeparator);
    case Query =>
      match QueryStep(src, m) {
        case Err(_) =>
        case Ok(qm) => RunKeepsScheme(src, qm, Fragment);
      }
    case Fragment =>
      RunKeepsScheme(src, FragmentStep(src, m), Fragment);
  }

  /** User, host and port are written only by the Authority step: the steps
      after it keep them. */
  lemma {:induction false} RunKeepsAuthority(src: string, m: Machine, step: Step)
    requires WellFormed(src, m) && StepReady(src, m, step) && Rank(step) <= Rank(CheckSeparator)
    ensures Run(src, m, step).Ok? ==>
      var c := Run(src, m, step).value;
      c.user == m.c.user && c.host == m.c.host && c.port == m.c.port
    decreases m.rest.length, Rank(step)
  {
    if m.rest.length == 0 {
      return;
    }
    match step
    case CheckSeparator =>
      if Front(src, m) == '/' {
        RunKeepsAuthority(src, m, Path);
      } else if Front(src, m) == '?' {
        RunKeepsAuthority(src, Drop(m, 1), Query);
      } else {
        RunKeepsAuthority(src, Drop(m, 1), Fragment);
      }
    case Path =>
      RunKeepsAuthority(src, PathStep(src, m), CheckSeparator);
    case Query =>
      match QueryStep(src, m) {
        case Err(_) =>
        case Ok(qm) => RunKeepsAuthority(src, qm, Fragment);
      }
    case Fragment =>
      RunKeepsAuthority(src, FragmentStep(src, m), Fragment);
  }

  /** The scheme of a parse is the text before the first "://" of the
      whole text, and there is none without a "://". */
  lemma DecomposeScheme(src: string)
    ensures Decompose(src).Ok? ==>
      var p := Search(src, "://");
      Decompose(src).value.scheme == if p < |src| then View(0, p) else EmptyView
  {
    var m := Machine(Pristine, View(0, |src|));
    if |src| > 0 {
      assert Text(src, m.rest) == src;
      RunKeepsScheme(src, SchemeStep(src, m), CheckAuthority);
    }
  }

  // ---------------------------------------------------------------------
  // CheckAuthority

  /** The CheckAuthority condition as it acts: the authority follows when
      the view opens with "//" and is longer than that, or when it does not
      open with '/'. The test for a trailing separator adds nothing. */
  lemma CheckAuthorityRule(src: string, m: Machine)
    requires m.rest.Within(|src|) && m.rest.length > 0
    ensures GoesToAuthority(src, m) <==> HasAuthorityMarker(src, m) || Front(src, m) != '/'
  {
    assert Text(src, m.rest)[0] == Front(src, m);
  }

  // ---------------------------------------------------------------------
  // Authority

  /** The authority runs to the first '/', '?' or '#', and the step fails
      exactly when it opens with '@'. */
  lemma AuthorityExtent(src: string, m: Machine)
    requires WellFormed(src, m)
    ensures var t := Text(src, m.rest); var a := AuthorityLength(src, m);
      (forall j | 0 <= j < a :: t[j] != '/' && t[j] != '?' && t[j] != '#') &&
      (a < |t| ==> t[a] == '/' || t[a] == '?' || t[a] == '#') &&
      (AuthorityStep(src, m).Err? <==> a > 0 && t[0] == '@')
  {
    var t := Text(src, m.rest);
    var a := AuthorityLength(src, m);
    var A := Text(src, m.rest.Prefix(a));
    assert forall j | 0 <= j < a :: A[j] == t[j];
  }

  /** tryParseUser as a split: the user, the '@' and what follows make up
      the view again, and the user holds no '@'. */
  lemma UserParts(src: string, m: Machine)
    requires WellFormed(src, m) && UserStep(src, m).Ok?
    ensures var A := Text(src, m.rest); var u := Find(A, '@'); var um := UserStep(src, m).value;
      Text(src, um.rest) == (if u < |A| then A[u + 1..] else A) &&
      (u < |A| ==> 0 < u && Text(src, um.c.user) + "@" + Text(src, um.rest) == A && '@' !in Text(src, um.c.user)) &&
      (u == |A| ==> um.c.user == m.c.user)
  {
    var A := Text(src, m.rest);
    var u := Find(A, '@');
    if u < |A| {
      var um := UserStep(src, m).value;
      assert Text(src, um.c.user) == A[..u];
      assert A == A[..u] + "@" + A[u + 1..];
    }
  }

  /** tryParseHost as a split: with a ':' the host, the last ':' and a port
      without ':' make up the view again; without one, all of it is host and
      the port is kept. */
  lemma HostParts(src: string, m: Machine)
    requires WellFormed(src, m)
    ensures var H := Text(src, m.rest); var c := HostStep(src, m).c;
      (':' in H ==> Text(src, c.host) + ":" + Text(src, c.port) == H && ':' !in Text(src, c.port)) &&
      (':' !in H ==> Text(src, c.host) == H && c.port == m.c.port)
  {
    var H := Text(src, m.rest);
    var k := FindLast(H, ':');
    if k < |H| {
      var c := HostStep(src, m).c;
      assert Text(src, c.host) == H[..k];
      assert Text(src, c.port) == H[k + 1..];
      assert H == H[..k] + ":" + H[k + 1..];
    }
  }

  /** What a successful authority step puts together again: the user, the
      '@' and the host part; the host, the last ':' and the port. Without an
      '@' the user is kept; with nothing after the user, host and port are
      kept. */
  lemma AuthorityComponents(src: string, m: Machine)
    requires WellFormed(src, m) && AuthorityStep(src, m).Ok?
    ensures var A := Text(src, m.rest.Prefix(AuthorityLength(src, m)));
      var c := AuthorityStep(src, m).value.c;
      var u := Find(A, '@');
      var H := if u < |A| then A[u + 1..] else A;
      (u < |A| ==> 0 < u && Text(src, c.user) + "@" + H == A && '@' !in Text(src, c.user)) &&
      (u == |A| ==> c.user == m.c.user) &&
      (|H| > 0 && ':' in H ==> Text(src, c.host) + ":" + Text(src, c.port) == H && ':' !in Text(src, c.port)) &&
      (|H| > 0 && ':' !in H ==> Text(src, c.host) == H && c.port == m.c.port) &&
      (|H| == 0 ==> c.host == m.c.host && c.port == m.c.port)
  {
    var authority := Machine(m.c, m.rest.Prefix(AuthorityLength(src, m)));
    UserParts(src, authority);
    var um := UserStep(src, authority).value;
    if um.rest.length > 0 {
      HostParts(src, um);
    }
  }

  /** A text without '/', '?' and '#' (such as "mailto:bob@example.com")
      holds no "://", so no scheme is found, and it does not open with '/',
      so all of it is read as an authority: AuthorityComponents then makes
      the text before the '@' the user. */
  lemma AuthorityOnly(src: string)
    requires |src| > 0 && '/' !in src && '?' !in src && '#' !in src
    ensures var m := Machine(Pristine, View(0, |src|));
      AuthorityLength(src, m) == |src| &&
      Decompose(src) == (match AuthorityStep(src, m) case Err(e) => Err(e) case Ok(am) => Ok(am.c)) &&
      (Decompose(src).Ok? ==> Decompose(src).value.scheme == EmptyView)
  {
    var m := Machine(Pristine, View(0, |src|));
    assert Text(src, m.rest) == src;
    NoDelimiterAtAll(src);
    NoSlashAuthorityFirst(src);
    var r := AuthorityStep(src, m);
    if r.Ok? {
      var am := r.value;
      assert am.rest.length == 0;
      assert Run(src, m, Authority) == Run(src, am, CheckSeparator) == Ok(am.c);
      assert am.c.scheme == EmptyView;
    } else {
      assert Run(src, m, Authority) == Err(r.error);
    }
  }

  /** A text without "://" that does not open with '/' goes straight to the
      Authority step. */
  lemma AuthorityFirst(src: string)
    requires |src| > 0 && src[0] != '/' && Search(src, "://") == |src|
    ensures Decompose(src) == Run(src, Machine(Pristine, View(0, |src|)), Authority)
  {
    var m := Machine(Pristine, View(0, |src|));
    assert Text(src, m.rest) == src;
    assert SchemeStep(src, m) == m;
    assert Decompose(src) == Run(src, m, CheckAuthority);
    NoAuthorityMarker(src, m);
    CheckAuthorityRule(src, m);
    assert SkipAuthorityMarker(src, m) == m;
  }

  /** In particular a text without '/' goes straight to the Authority
      step. */
  lemma NoSlashAuthorityFirst(src: string)
    requires |src| > 0 && '/' !in src
    ensures Decompose(src) == Run(src, Machine(Pristine, View(0, |src|)), Authority)
  {
    NoSchemeSeparator(src);
    assert src[0] in src;
    AuthorityFirst(src);
  }

  /** An empty user before the host: "@host.com/path" is refused
      with MalformedAuthority. */
  lemma AtHostRefused(src: string)
    requires src == "@host.com/path"
    ensures Decompose(src) == Err(MalformedAuthority)
  {
    assert forall i | 0 <= i < |src| :: src[i] != ':';
    NoColonNoSchemeSeparator(src);
    AtFirstFails(src);
  }

  /** A query piece without a value: in
      "http://host?k1=v1&k2" the piece "k2" has no '=', and the parse is
      refused with MalformedQueryPair. */
  lemma QueryPairRefused(src: string)
    requires src == "http://host?k1=v1&k2"
    ensures Decompose(src) == Err(MalformedQueryPair)
  {
    PairlessToAuthority(src);
    PairlessToQuery(src);
    PairlessQueryFails(src);
  }

  /** The scheme separator of "http://host?k1=v1&k2" is found after "http". */
  lemma PairlessScheme(src: string)
    requires src == "http://host?k1=v1&k2"
    ensures Search(src, "://") == 4
  {
    assert src[0] != ':' && src[1] != ':' && src[2] != ':' && src[3] != ':';
    assert src[4] == ':' && src[5] == '/' && src[6] == '/';
    FirstOccurrence(src, "://", 4);
  }

  /** Search finds k when the pattern occurs at k and nowhere before. */
  lemma FirstOccurrence(s: string, pat: string, k: nat)
    requires |pat| == 3 && k + 3 <= |s|
    requires s[k] == pat[0] && s[k + 1] == pat[1] && s[k + 2] == pat[2]
    requires forall j | 0 <= j < k :: s[j] != pat[0]
    ensures Search(s, pat) == k
  {
    assert s[k..k + 3] == pat;
    assert OccursAt(s, pat, k);
    forall j | 0 <= j < k ensures !OccursAt(s, pat, j) {
      assert s[j..j + 3][0] == s[j];
    }
  }

  /** tryParseScheme cuts "http" and leaves "//host?k1=v1&k2". */
  lemma PairlessSchemeStep(src: string)
    requires src == "http://host?k1=v1&k2"
    ensures SchemeStep(src, Machine(Pristine, View(0, 20))) ==
      Machine(Pristine.(scheme := View(0, 4)), View(5, 15))
  {
    assert Text(src, View(0, 20)) == src;
    PairlessScheme(src);
  }

  /** What follows the scheme opens with the "//" marker. */
  lemma PairlessMarker(src: string)
    requires src == "http://host?k1=v1&k2"
    ensures HasAuthorityMarker(src, Machine(Pristine.(scheme := View(0, 4)), View(5, 15)))
  {
    var t := Text(src, View(5, 15));
    assert t[0] == src[5] == '/' && t[1] == src[6] == '/';
    assert t[..2] == "//";
  }

  /** Scheme "http", then the "//" marker leads to the Authority step. */
  lemma PairlessToAuthority(src: string)
    requires src == "http://host?k1=v1&k2"
    ensures Decompose(src) ==
      Run(src, Machine(Pristine.(scheme := View(0, 4)), View(7, 13)), Authority)
  {
    var m0 := Machine(Pristine, View(0, 20));
    var m1 := Machine(Pristine.(scheme := View(0, 4)), View(5, 15));
    PairlessSchemeStep(src);
    PairlessMarker(src);
    assert Decompose(src) == Run(src, m1, CheckAuthority);
    assert Run(src, m1, CheckAuthority) == Run(src, Drop(m1, 2), Authority);
  }

  /** The authority of "http://host?k1=v1&k2" is "host": it ends at the '?'
      and holds no '@' and no ':'. */
  lemma PairlessAuthority(src: string)
    requires src == "http://host?k1=v1&k2"
    ensures var c := Pristine.(scheme := View(0, 4));
      AuthorityLength(src, Machine(c, View(7, 13))) == 4 &&
      Find(Text(src, View(7, 4)), '@') == 4 &&
      FindLast(Text(src, View(7, 4)), ':') == 4
  {
    var A := Text(src, View(7, 13));
    assert A[4] == src[11] == '?';
    assert A[0] == src[7] && A[1] == src[8] && A[2] == src[9] && A[3] == src[10];
    var H := Text(src, View(7, 4));
    assert H[0] == src[7] && H[1] == src[8] && H[2] == src[9] && H[3] == src[10];
  }

  /** The authority "host" is all host. */
  lemma PairlessAuthorityStep(src: string)
    requires src == "http://host?k1=v1&k2"
    ensures var c := Pristine.(scheme := View(0, 4));
      AuthorityStep(src, Machine(c, View(7, 13))) == Ok(Machine(c.(host := View(7, 4)), View(11, 9)))
  {
    var c := Pristine.(scheme := View(0, 4));
    PairlessAuthority(src);
    var authority := Machine(c, View(7, 4));
    assert UserStep(src, authority) == Ok(authority);
    assert HostStep(src, authority).c == c.(host := View(7, 4));
  }

  /** The '?' after the authority leads to the Query step. */
  lemma PairlessToQuery(src: string)
    requires src == "http://host?k1=v1&k2"
    ensures var c := Pristine.(scheme := View(0, 4));
      Run(src, Machine(c, View(7, 13)), Authority) ==
      Run(src, Machine(c.(host := View(7, 4)), View(12, 8)), Query)
  {
    var c := Pristine.(scheme := View(0, 4));
    PairlessAuthorityStep(src);
    var am := Machine(c.(host := View(7, 4)), View(11, 9));
    assert Run(src, Machine(c, View(7, 13)), Authority) == Run(src, am, CheckSeparator);
    PairlessSeparator(src);
  }

  /** After "host" comes the '?', which the CheckSeparator case drops. */
  lemma PairlessSeparator(src: string)
    requires src == "http://host?k1=v1&k2"
    ensures var c := Pristine.(scheme := View(0, 4), host := View(7, 4));
      Run(src, Machine(c, View(11, 9)), CheckSeparator) == Run(src, Machine(c, View(12, 8)), Query)
  {
    var am := Machine(Pristine.(scheme := View(0, 4), host := View(7, 4)), View(11, 9));
    assert Front(src, am) == '?';
  }

  /** The query line "k1=v1&k2" runs to the end and is cut into the
      pieces "k1=v1" and "k2". */
  lemma PairlessPieces(src: string)
    requires src == "http://host?k1=v1&k2"
    ensures var t := Text(src, View(12, 8));
      Find(t, '#') == 8 && QueryPieces(t) == ["k1=v1", "k2"]
  {
    var t := Text(src, View(12, 8));
    assert t == "k1=v1" + "&" + "k2";
    assert '#' !in t && '&' !in "k1=v1" && '&' !in "k2";
    TwoPieces(t, "k1=v1", "k2");
  }

  /** A line made of two pieces without '&' joined by one '&'. */
  lemma TwoPieces(t: string, a: string, b: string)
    requires t == a + "&" + b && '&' !in a && '&' !in b && |b| > 0
    ensures QueryPieces(t) == [a, b]
  {
    QueryPiecesCons(a, b);
    QueryPiecesSingle(b);
  }

  /** The piece "k2" has no '=': the Query step throws. */
  lemma PairlessQueryFails(src: string)
    requires src == "http://host?k1=v1&k2"
    ensures Run(src, Machine(Pristine.(scheme := View(0, 4), host := View(7, 4)), View(12, 8)), Query) ==
      Err(MalformedQueryPair)
  {
    var qm := Machine(Pristine.(scheme := View(0, 4), host := View(7, 4)), View(12, 8));
    var t := Text(src, qm.rest);
    PairlessPieces(src);
    assert t[..8] == t;
    var pieces := QueryPieces(t);
    assert pieces[1] == "k2" && '=' !in "k2";
    QueryStepFails(src, qm);
  }


  /** tryParseUser throws on a text without "://" that opens with '@' (such
      as "@host.com/path"): the whole parse is MalformedAuthority. */
  lemma AtFirstFails(src: string)
    requires |src| > 0 && src[0] == '@' && Search(src, "://") == |src|
    ensures Decompose(src) == Err(MalformedAuthority)
  {
    var m := Machine(Pristine, View(0, |src|));
    assert Text(src, m.rest) == src;
    AuthorityFirst(src);
    AtOpensAuthority(src, m);
  }

  /** An authority that opens with '@' ends the loop with
      MalformedAuthority. */
  lemma AtOpensAuthority(src: string, m: Machine)
    requires WellFormed(src, m) && m.rest.length > 0 && Front(src, m) == '@'
    ensures Run(src, m, Authority) == Err(MalformedAuthority)
  {
    var t := Text(src, m.rest);
    assert t[0] == '@';
    AuthorityExtent(src, m);
    var a := AuthorityLength(src, m);
    var authority := Machine(m.c, m.rest.Prefix(a));
    assert Text(src, authority.rest)[0] == '@';
    assert UserStep(src, authority) == Err(MalformedAuthority);
  }

  /** Without a ':' there is no "://". */
  lemma NoColonNoSchemeSeparator(s: string)
    requires ':' !in s
    ensures Search(s, "://") == |s|
  {
    forall j | 0 <= j < |s| ensures !OccursAt(s, "://", j) {
      if j + 3 <= |s| {
        assert s[j..j + 3][0] == s[j];
      }
    }
  }

  /** Without '/', '?' and '#' the authority runs to the end. */
  lemma NoDelimiterAtAll(s: string)
    requires '/' !in s && '?' !in s && '#' !in s
    ensures FindFirstOf(s, {'/', '#', '?'}) == |s|
  {
    assert forall j | 0 <= j < |s| :: s[j] in s;
  }

  /** Without a '/' there is no "://". */
  lemma NoSchemeSeparator(s: string)
    requires '/' !in s
    ensures Search(s, "://") == |s|
  {
    forall j | 0 <= j < |s| ensures !OccursAt(s, "://", j) {
      if j + 3 <= |s| {
        assert s[j..j + 3][1] == s[j + 1];
      }
    }
  }

  /** A view that does not open with '/' has no authority marker. */
  lemma NoAuthorityMarker(src: string, m: Machine)
    requires m.rest.Within(|src|) && m.rest.length > 0 && Front(src, m) != '/'
    ensures !HasAuthorityMarker(src, m)
  {
    var t := Text(src, m.rest);
    assert t[0] == Front(src, m);
    if |t| > 2 {
      assert t[..2][0] == t[0];
    }
  }

  // ---------------------------------------------------------------------
  // Fragment

  /** Reached through CheckSeparator (no query before it), the fragment
      loses the character after the '#' as well: CheckSeparator drops the
      '#' and tryParseFragment drops one more. */
  lemma FragmentViaSeparator(src: string, m: Machine)
    requires WellFormed(src, m) && m.rest.length >= 2
    requires Front(src, m) != '/' && Front(src, m) != '?'
    ensures Run(src, m, CheckSeparator) == Ok(m.c.(fragment := m.rest.RemovePrefix(2)))
  {
    var dm := Drop(m, 1);
    assert Run(src, dm, Fragment) == Run(src, FragmentStep(src, dm), Fragment);
  }

  /** After a query the fragment is all the text after the '#'. */
  lemma FragmentAfterQuery(src: string, m: Machine)
    requires WellFormed(src, m) && m.rest.length > 0 && QueryStep(src, m).Ok?
    ensures var qm := QueryStep(src, m).value;
      qm.rest.length > 0 ==>
        src[qm.rest.offset] == '#' &&
        Run(src, m, Query) == Ok(qm.c.(fragment := qm.rest.RemovePrefix(1)))
  {
    var h := Find(Text(src, m.rest), '#');
    var qm := QueryStep(src, m).value;
    if qm.rest.length > 0 {
      assert src[qm.rest.offset] == Text(src, m.rest)[h];
      assert Run(src, m, Query) == Run(src, qm, Fragment);
      assert Run(src, qm, Fragment) == Run(src, FragmentStep(src, qm), Fragment);
    }
  }

  // ---------------------------------------------------------------------
  // The two errors

  /** The Query step throws exactly when a piece of the query line (the
      text before the first '#') holds no '=', and the error is then
      MalformedQueryPair; otherwise the loop ends without error. */
  lemma QueryStepFails(src: string, m: Machine)
    requires WellFormed(src, m) && m.rest.length > 0 && ValuesWithin(|src|, m.c.queries)
    ensures var t := Text(src, m.rest); var pieces := QueryPieces(t[..Find(t, '#')]);
      (Run(src, m, Query).Err? <==> exists k | 0 <= k < |pieces| :: '=' !in pieces[k]) &&
      (Run(src, m, Query).Err? ==> Run(src, m, Query) == Err(MalformedQueryPair))
  {
    var t := Text(src, m.rest);
    var h := Find(t, '#');
    var line := m.rest.Prefix(h);
    TextCut(src, m.rest, h);
    QueryLineFails(src, line, m.c.queries);
    QueryRunOutcome(src, m);
  }

  /** The Query step decides the outcome of the rest of the loop: its error,
      or success, since the Fragment step cannot fail. */
  lemma QueryRunOutcome(src: string, m: Machine)
    requires WellFormed(src, m) && m.rest.length > 0
    ensures var line := m.rest.Prefix(Find(Text(src, m.rest), '#'));
      (QueryPairs(src, line, m.c.queries).Err? ==> Run(src, m, Query) == Err(QueryPairs(src, line, m.c.queries).error)) &&
      (QueryPairs(src, line, m.c.queries).Ok? ==> Run(src, m, Query).Ok?)
  {
    if QueryStep(src, m).Ok? {
      var qm := QueryStep(src, m).value;
      assert Run(src, m, Query) == Run(src, qm, Fragment);
      if qm.rest.length > 0 {
        assert Run(src, qm, Fragment) == Run(src, FragmentStep(src, qm), Fragment);
      }
    }
  }

  /** What a view ending where v ends, and no longer, holds, v holds. */
  lemma TailHolds(src: string, v: View, w: View)
    requires v.Within(|src|) && w.End() == v.End() && w.length <= v.length
    ensures forall c | c in Text(src, w) :: c in Text(src, v)
  {
    var V, W := Text(src, v), Text(src, w);
    forall c | c in W ensures c in V {
      var i :| 0 <= i < |W| && W[i] == c;
      assert V[i + (v.length - w.length)] == c;
    }
  }

  /** Where the errors come from: MalformedAuthority needs an '@' in the
      rest of the text, and MalformedQueryPair a '?' (or the Query step
      itself). */
  lemma {:induction false} RunErrors(src: string, m: Machine, step: Step)
    requires WellFormed(src, m) && StepReady(src, m, step)
    ensures Run(src, m, step) == Err(MalformedAuthority) ==> '@' in Text(src, m.rest)
    ensures Run(src, m, step) == Err(MalformedQueryPair) ==> step == Query || '?' in Text(src, m.rest)
    decreases m.rest.length, Rank(step)
  {
    if m.rest.length == 0 {
      return;
    }
    var t := Text(src, m.rest);
    assert t[0] == Front(src, m);
    match step
    case Scheme =>
      var n := SchemeStep(src, m);
      RunErrors(src, n, CheckAuthority);
      TailHolds(src, m.rest, n.rest);
    case CheckAuthority =>
      if GoesToAuthority(src, m) {
        var n := SkipAuthorityMarker(src, m);
        RunErrors(src, n, Authority);
        TailHolds(src, m.rest, n.rest);
      } else {
        RunErrors(src, m, CheckSeparator);
      }
    case Authority =>
      AuthorityExtent(src, m);
      if AuthorityStep(src, m).Ok? {
        var am := AuthorityStep(src, m).value;
        RunErrors(src, am, CheckSeparator);
        TailHolds(src, m.rest, am.rest);
      } else {
        var authority := Machine(m.c, m.rest.Prefix(AuthorityLength(src, m)));
        assert UserStep(src, authority) == Err(MalformedAuthority);
      }
    case CheckSeparator =>
      if Front(src, m) == '/' {
        RunErrors(src, m, Path);
      } else if Front(src, m) == '?' {
        RunErrors(src, Drop(m, 1), Query);
        TailHolds(src, m.rest, Drop(m, 1).rest);
      } else {
        RunErrors(src, Drop(m, 1), Fragment);
        TailHolds(src, m.rest, Drop(m, 1).rest);
      }
    case Path =>
      var n := PathStep(src, m);
      RunErrors(src, n, CheckSeparator);
      TailHolds(src, m.rest, n.rest);
    case Query =>
      if QueryStep(src, m).Ok? {
        var qm := QueryStep(src, m).value;
        RunErrors(src, qm, Fragment);
        TailHolds(src, m.rest, qm.rest);
      } else {
        QueryPairsError(src, m.rest.Prefix(Find(t, '#')), m.c.queries);
      }
    case Fragment =>
      var n := FragmentStep(src, m);
      assert Run(src, n, Fragment) == Ok(n.c);
  }

  /** A text without '@' never fails with MalformedAuthority, and one
      without '?' never with MalformedQueryPair; a text with neither always
      parses. */
  lemma DecomposeErrors(src: string)
    ensures '@' !in src ==> Decompose(src) != Err(MalformedAuthority)
    ensures '?' !in src ==> Decompose(src) != Err(MalformedQueryPair)
    ensures '@' !in src && '?' !in src ==> Decompose(src).Ok?
  {
    var m := Machine(Pristine, View(0, |src|));
    assert Text(src, m.rest) == src;
    RunErrors(src, m, Scheme);
    if Decompose(src).Err? {
      var e := Decompose(src).error;
      assert Decompose(src) == Err(e);
      assert e == MalformedAuthority || e == MalformedQueryPair;
    }
  }
}
