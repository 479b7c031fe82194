/** Class URI: it owns the text, runs the step loop of parse over a view of
    it, and answers questions about the pieces it found. Every parsing
    method is proved to do what the corresponding function of UriSpec
    says, so parse as a whole computes Decompose. */
module UriEngine {
  import opened ElementsChecks
  import opened StringViews
  import opened UriSpec
  import opened UriCompliance
  import opened UriProperties
  import opened UriQuery

  class Uri {
    var source: string
    var isAbsolutePath: bool
    var scheme: View
    var user: View
    var host: View
    var port: View
    var path: View
    var queryLine: View
    var fragment: View
    var pathSegments: seq<View>
    var queries: map<string, View>
    /** How the constructor that parses ended: Ok, or the error it throws. */
    var outcome: Result<ParsingResult>

    /** The members parse assigns, as one value. */
    function Snapshot(): Components
      reads this
    {
      Components(isAbsolutePath, scheme, user, host, port, path, queryLine, fragment,
                 pathSegments, queries)
    }

    ghost predicate Valid()
      reads this
    {
      Consistent(source, Snapshot())
    }

    /** URI(): an empty text and nothing parsed; the outcome is the one the
        empty text parses to. */
    constructor ()
      ensures source == "" && Snapshot() == Pristine && Valid() && outcome == Ok(EmptyURI)
    {
      source := "";
      outcome := Ok(EmptyURI);
      isAbsolutePath := false;
      scheme, user, host, port := EmptyView, EmptyView, EmptyView, EmptyView;
      path, queryLine, fragment := EmptyView, EmptyView, EmptyView;
      pathSegments := [];
      queries := map[];
    }

    /** URI(uri): own the text and parse it. The source drops the parse
        result and lets the error propagate as a throw: `outcome` is that
        throw, or Ok when the constructor returns. */
    constructor Parsed(uri: string)
      ensures source == uri && Bounded(source, Snapshot())
      ensures outcome == (if Decompose(uri).Ok? then Ok(if |uri| == 0 then EmptyURI else NoError)
                          else Err(Decompose(uri).error))
      ensures Decompose(uri).Ok? ==> Snapshot() == Decompose(uri).value && Valid()
    {
      source := uri;
      outcome := Ok(EmptyURI);
      isAbsolutePath := false;
      scheme, user, host, port := EmptyView, EmptyView, EmptyView, EmptyView;
      path, queryLine, fragment := EmptyView, EmptyView, EmptyView;
      pathSegments := [];
      queries := map[];
      new;
      outcome := Parse();
    }

    // -------------------------------------------------------------------
    // The parsing methods

    method TryParseScheme(uri: View) returns (r: View)
      requires WellFormed(source, Machine(Snapshot(), uri))
      modifies this
      ensures source == old(source)
      ensures Machine(Snapshot(), r) == SchemeStep(source, Machine(old(Snapshot()), uri))
    {
      var t := Text(source, uri);
      var schemeSeparatorPosition := Search(t, "://");
      r := uri;
      if schemeSeparatorPosition < |t| {
        scheme := uri.Prefix(schemeSeparatorPosition);
        r := r.RemovePrefix(scheme.length + 1);
      }
    }

    method TryParseUser(uri: View) returns (r: Result<View>)
      requires WellFormed(source, Machine(Snapshot(), uri))
      modifies this
      ensures source == old(source) && Bounded(source, Snapshot())
      ensures r.Ok? ==> UserStep(source, Machine(old(Snapshot()), uri)) == Ok(Machine(Snapshot(), r.value))
      ensures r.Err? ==> UserStep(source, Machine(old(Snapshot()), uri)) == Err(r.error)
    {
      var userSeparatorPosition := Find(Text(source, uri), '@');
      if userSeparatorPosition < uri.length {
        if userSeparatorPosition == 0 {
          return Err(MalformedAuthority);
        }
        user := uri.Prefix(userSeparatorPosition);
        return Ok(uri.RemovePrefix(user.length + 1));
      }
      return Ok(uri);
    }

    method TryParseHost(uri: View) returns (r: View)
      requires WellFormed(source, Machine(Snapshot(), uri))
      modifies this
      ensures source == old(source)
      ensures Machine(Snapshot(), r) == HostStep(source, Machine(old(Snapshot()), uri))
    {
      var portSeparatorPosition := FindLast(Text(source, uri), ':');
      if portSeparatorPosition < uri.length {
        host := uri.Prefix(portSeparatorPosition);
        port := View(uri.offset + portSeparatorPosition + 1, uri.length - portSeparatorPosition - 1);
        r := uri.RemovePrefix(host.length + 1 + port.length);
      } else {
        host := uri;
        r := uri.RemovePrefix(host.length);
      }
    }

    method TryParseAuthority(uri: View) returns (r: Result<View>)
      requires WellFormed(source, Machine(Snapshot(), uri))
      modifies this
      ensures source == old(source) && Bounded(source, Snapshot())
      ensures r.Ok? ==> AuthorityStep(source, Machine(old(Snapshot()), uri)) == Ok(Machine(Snapshot(), r.value))
      ensures r.Err? ==> AuthorityStep(source, Machine(old(Snapshot()), uri)) == Err(r.error)
    {
      var pos := AuthorityLength(source, Machine(Snapshot(), uri));
      var authority := uri.Prefix(pos);
      var initialAuthSize := authority.length;
      var afterUser := TryParseUser(authority);
      if afterUser.Err? {
        return Err(afterUser.error);
      }
      authority := afterUser.value;
      if authority.length > 0 {
        authority := TryParseHost(authority);
      }
      return Ok(uri.RemovePrefix(initialAuthSize));
    }

    method TryParsePath(uri: View) returns (r: View)
      requires WellFormed(source, Machine(Snapshot(), uri)) && uri.length > 0
      modifies this
      ensures source == old(source)
      ensures Machine(Snapshot(), r) == PathStep(source, Machine(old(Snapshot()), uri))
    {
      var view := uri;
      if host.length > 0 {
        view := view.RemovePrefix(1);
      }
      var pos := FindFirstOf(Text(source, view), {'?', '#'});
      path := view;
      if pos < view.length {
        path := view.Prefix(pos);
      }
      if view.length > 0 && source[view.offset] == '/' {
        isAbsolutePath := true;
      }
      AppendSegments(path);
      r := view.RemovePrefix(path.length);
    }

    /** The segment loop of tryParsePath: emplace_back one segment per '/',
        then what follows the last one. */
    method AppendSegments(pathView: View)
      requires pathView.Within(|source|)
      modifies this`pathSegments
      ensures pathSegments == old(pathSegments) + Segments(source, pathView)
    {
      var view := pathView;
      while view.length > 0
        invariant view.Within(|source|)
        invariant pathSegments + Segments(source, view) == old(pathSegments) + Segments(source, pathView)
        decreases view.length
      {
        var next := Find(Text(source, view), '/');
        SegmentsStep(source, view, pathSegments);
        if next < view.length {
          pathSegments := pathSegments + [view.Prefix(next + 1)];
          view := view.RemovePrefix(next + 1);
        } else {
          pathSegments := pathSegments + [view];
          view := EmptyView;
        }
      }
    }

    method TryParseQuery(uri: View) returns (r: Result<View>)
      requires WellFormed(source, Machine(Snapshot(), uri))
      modifies this
      ensures source == old(source) && Bounded(source, Snapshot())
      ensures r.Ok? ==> QueryStep(source, Machine(old(Snapshot()), uri)) == Ok(Machine(Snapshot(), r.value))
      ensures r.Err? ==> QueryStep(source, Machine(old(Snapshot()), uri)) == Err(r.error)
    {
      var pos := Find(Text(source, uri), '#');
      queryLine := uri;
      if pos < uri.length {
        queryLine := uri.Prefix(pos);
      }
      var emplaced := EmplacePairs(queryLine);
      if emplaced.Err? {
        return Err(emplaced.error);
      }
      return Ok(uri.RemovePrefix(queryLine.length));
    }

    /** The pair loop of tryParseQuery: emplace key and value of every piece
        up to the next '&', and fail on a piece without '='. */
    method EmplacePairs(queryLine: View) returns (r: Result<()>)
      requires queryLine.Within(|source|)
      modifies this`queries
      ensures QueryPairs(source, queryLine, old(queries)) == (if r.Ok? then Ok(queries) else Err(r.error))
    {
      var queryView := queryLine;
      while queryView.length > 0
        invariant queryView.Within(|source|)
        invariant QueryPairs(source, queryView, queries) == QueryPairs(source, queryLine, old(queries))
        decreases queryView.length
      {
        var next := Find(Text(source, queryView), '&');
        var queryPiece := queryView.Prefix(next);
        var emplaced := EmplacePiece(queryPiece);
        if !emplaced {
          return Err(MalformedQueryPair);
        }
        if next < queryView.length {
          queryView := queryView.RemovePrefix(queryPiece.length + 1);
        } else {
          queryView := EmptyView;
        }
      }
      return Ok(());
    }

    /** The body of the pair loop for one piece: false where the source
        throws, the piece holding no '='. */
    method EmplacePiece(queryPiece: View) returns (emplaced: bool)
      requires queryPiece.Within(|source|)
      modifies this`queries
      ensures PiecePair(source, queryPiece, old(queries)) ==
        (if emplaced then Ok(queries) else Err(MalformedQueryPair))
    {
      var equal := Find(Text(source, queryPiece), '=');
      if equal == queryPiece.length {
        return false;
      }
      queries := Emplace(queries, Text(source, queryPiece.Prefix(equal)),
                         View(queryPiece.offset + equal + 1, queryPiece.length - (equal + 1)));
      return true;
    }

    method TryParseFragment(uri: View) returns (r: View)
      requires WellFormed(source, Machine(Snapshot(), uri)) && uri.length > 0
      modifies this
      ensures source == old(source)
      ensures Machine(Snapshot(), r) == FragmentStep(source, Machine(old(Snapshot()), uri))
    {
      r := uri.RemovePrefix(1);
      fragment := r;
      r := r.RemovePrefix(fragment.length);
    }

    /** The Scheme case of the step loop. */
    method SchemeCase(uriView: View) returns (next: View)
      requires WellFormed(source, Machine(Snapshot(), uriView)) && uriView.length > 0
      modifies this
      ensures source == old(source)
      ensures Advances(source, Machine(old(Snapshot()), uriView), Scheme, Machine(Snapshot(), next), CheckAuthority)
    {
      next := TryParseScheme(uriView);
    }

    /** The CheckAuthority case of the step loop: go to the authority when
        the view opens with "//" (skipping it), when characters precede the
        next '/', or when there is no '/' at all. */
    method CheckAuthorityCase(uriView: View) returns (next: View, step: Step)
      requires WellFormed(source, Machine(Snapshot(), uriView)) && uriView.length > 0
      ensures Advances(source, Machine(Snapshot(), uriView), CheckAuthority, Machine(Snapshot(), next), step)
    {
      var m := Machine(Snapshot(), uriView);
      var authAnon := HasAuthorityMarker(source, m);
      var nxtPathSep := FindFrom(Text(source, uriView), '/', if authAnon then 2 else 0);
      next := uriView;
      if authAnon || nxtPathSep > 0 || nxtPathSep == uriView.length || uriView.length - nxtPathSep == 0 {
        step := Step.Authority;
        if authAnon {
          next := uriView.RemovePrefix(2);
        }
      } else {
        step := CheckSeparator;
      }
    }

    /** The Authority case of the step loop; an error ends the loop. */
    method AuthorityCase(uriView: View) returns (next: Result<View>)
      requires WellFormed(source, Machine(Snapshot(), uriView)) && uriView.length > 0
      modifies this
      ensures source == old(source) && Bounded(source, Snapshot())
      ensures next.Ok? ==>
        Advances(source, Machine(old(Snapshot()), uriView), Step.Authority, Machine(Snapshot(), next.value), CheckSeparator)
      ensures next.Err? ==> Run(source, Machine(old(Snapshot()), uriView), Step.Authority) == Err(next.error)
    {
      next := TryParseAuthority(uriView);
    }

    /** The CheckSeparator case of the step loop: a '/' leads to the path, a
        '?' (dropped) to the query, anything else (dropped) to the fragment. */
    method CheckSeparatorCase(uriView: View) returns (next: View, step: Step)
      requires WellFormed(source, Machine(Snapshot(), uriView)) && uriView.length > 0
      ensures Advances(source, Machine(Snapshot(), uriView), CheckSeparator, Machine(Snapshot(), next), step)
    {
      next := uriView;
      if source[uriView.offset] == '/' {
        step := Step.Path;
      } else if source[uriView.offset] == '?' {
        step := Step.Query;
        next := uriView.RemovePrefix(1);
      } else {
        step := Step.Fragment;
        next := uriView.RemovePrefix(1);
      }
    }

    /** The Path case of the step loop, entered in front of a '/'. */
    method PathCase(uriView: View) returns (next: View)
      requires WellFormed(source, Machine(Snapshot(), uriView)) && OpensWithSlash(source, uriView)
      modifies this
      ensures source == old(source)
      ensures Advances(source, Machine(old(Snapshot()), uriView), Step.Path, Machine(Snapshot(), next), CheckSeparator)
    {
      next := TryParsePath(uriView);
    }

    /** The Query case of the step loop; an error ends the loop. */
    method QueryCase(uriView: View) returns (next: Result<View>)
      requires WellFormed(source, Machine(Snapshot(), uriView)) && uriView.length > 0
      modifies this
      ensures source == old(source) && Bounded(source, Snapshot())
      ensures next.Ok? ==>
        Advances(source, Machine(old(Snapshot()), uriView), Step.Query, Machine(Snapshot(), next.value), Step.Fragment)
      ensures next.Err? ==> Run(source, Machine(old(Snapshot()), uriView), Step.Query) == Err(next.error)
    {
      next := TryParseQuery(uriView);
    }

    /** The Fragment case of the step loop. */
    method FragmentCase(uriView: View) returns (next: View)
      requires WellFormed(source, Machine(Snapshot(), uriView)) && uriView.length > 0
      modifies this
      ensures source == old(source)
      ensures Advances(source, Machine(old(Snapshot()), uriView), Step.Fragment, Machine(Snapshot(), next), Step.Fragment)
    {
      next := TryParseFragment(uriView);
    }

    /** parse: the step loop. It is only run on a freshly constructed
        object, and it computes Decompose of the owned text. */
    method Parse() returns (r: Result<ParsingResult>)
      requires Snapshot() == Pristine
      modifies this
      ensures source == old(source) && Bounded(source, Snapshot())
      ensures Decompose(source).Err? ==> r == Err(Decompose(source).error)
      ensures Decompose(source).Ok? ==>
        r == Ok(if |source| == 0 then EmptyURI else NoError) && Snapshot() == Decompose(source).value
      ensures Decompose(source).Ok? ==> Valid()
      ensures Decompose(source).Ok? ==> (isAbsolutePath <==> OpensWithSlash(source, path))
      ensures |source| == 0 ==> r == Ok(EmptyURI) && Snapshot() == Pristine
    {
      DecomposeConsistent(source);
      DecomposeAbsolutePath(source);
      if |source| == 0 {
        return Ok(EmptyURI);
      }
      var uriView := View(0, |source|);
      var step := Step.Scheme;
      while uriView.length > 0
        invariant source == old(source)
        invariant WellFormed(source, Machine(Snapshot(), uriView))
        invariant StepReady(source, Machine(Snapshot(), uriView), step)
        invariant Run(source, Machine(Snapshot(), uriView), step) == Decompose(source)
        decreases uriView.length, Rank(step)
      {
        match step {
          case Scheme =>
            uriView := SchemeCase(uriView);
            step := CheckAuthority;
          case CheckAuthority =>
            uriView, step := CheckAuthorityCase(uriView);
          case Authority =>
            var next := AuthorityCase(uriView);
            if next.Err? {
              return Err(next.error);
            }
            uriView := next.value;
            step := CheckSeparator;
          case CheckSeparator =>
            uriView, step := CheckSeparatorCase(uriView);
          case Path =>
            uriView := PathCase(uriView);
            step := CheckSeparator;
          case Query =>
            var next := QueryCase(uriView);
            if next.Err? {
              return Err(next.error);
            }
            uriView := next.value;
            step := Step.Fragment;
          case Fragment =>
            uriView := FragmentCase(uriView);
        }
      }
      return Ok(NoError);
    }

    // -------------------------------------------------------------------
    // Accessors

    /** scheme(): none exactly when the scheme view is empty. */
    function SchemeText(): (r: Option<string>)
      reads this
      requires Valid()
      ensures r.None? <==> scheme.length == 0
      ensures r.Some? ==> r.value == Text(source, scheme)
    {
      if scheme.length == 0 then None else Some(Text(source, scheme))
    }

    /** user(): none exactly when the user view is empty. */
    function UserText(): (r: Option<string>)
      reads this
      requires Valid()
      ensures r.None? <==> user.length == 0
      ensures r.Some? ==> r.value == Text(source, user)
    {
      if user.length == 0 then None else Some(Text(source, user))
    }

    /** host(): none exactly when the host view is empty. */
    function HostText(): (r: Option<string>)
      reads this
      requires Valid()
      ensures r.None? <==> host.length == 0
      ensures r.Some? ==> r.value == Text(source, host)
    {
      if host.length == 0 then None else Some(Text(source, host))
    }

    /** port() with the default return type: the port view, possibly empty. */
    function PortText(): (r: string)
      reads this
      requires Valid()
      ensures |r| == port.length
      ensures r == Text(source, port)
    {
      Text(source, port)
    }

    /** port<int>(): 0 for an empty port, otherwise the decimal value of a
        port made of digits only; other ports are not modelled (None). */
    function PortNumber(): (r: Option<nat>)
      reads this
      requires Valid()
      ensures port.length == 0 ==> r == Some(0)
      ensures r.Some? <==> IsPortCompliant(PortText())
      ensures r.Some? ==> r.value == DecimalValue(PortText())
    {
      var t := Text(source, port);
      if |t| == 0 then Some(0)
      else if AllDigits(t) then Some(DecimalValue(t))
      else None
    }

    /** path(): none exactly when the path view is empty. */
    function PathText(): (r: Option<string>)
      reads this
      requires Valid()
      ensures r.None? <==> path.length == 0
      ensures r.Some? ==> r.value == Text(source, path)
    {
      if path.length == 0 then None else Some(Text(source, path))
    }

    /** The segment index after clamping i to the last segment. */
    function Clamp(i: nat): (k: nat)
      reads this
      requires Valid() && path.length > 0
      ensures k < |pathSegments| && k <= i
      ensures k == i || k == |pathSegments| - 1
    {
      if i < |pathSegments| - 1 then i else |pathSegments| - 1
    }

    /** path(i): the i-th segment, i clamped to the last one; none without
        a path. A segment is never empty and holds no '/' but possibly as
        its last character. */
    function PathSegment(i: nat): (r: Option<string>)
      reads this
      requires Valid()
      ensures r.None? <==> path.length == 0
      ensures r.Some? ==> r.value == Text(source, pathSegments[Clamp(i)])
      ensures r.Some? ==> |r.value| > 0 && '/' !in r.value[..|r.value| - 1]
    {
      if path.length == 0 then None
      else
        var w := pathSegments[Clamp(i)];
        SegmentsShape(source, path);
        assert SlashOnlyLast(source, w);
        assert forall j | 0 <= j < w.length - 1 :: Text(source, w)[j] == source[w.offset + j];
        Some(Text(source, w))
    }

    /** pathUntil(i): the path up to and including segment i (clamped):
        exactly the texts of the first segments, concatenated, which is a
        prefix of the path. */
    function PathUntil(i: nat): (r: Option<string>)
      reads this
      requires Valid()
      ensures r.None? <==> path.length == 0
      ensures r.Some? ==> r.value == Joined(source, pathSegments[..Clamp(i) + 1])
      ensures r.Some? ==> r.value <= Text(source, path)
    {
      if path.length == 0 then None
      else
        var k := Clamp(i);
        SegmentsPrefixText(source, path, k + 1);
        var length := TotalLength(pathSegments[..k + 1]);
        assert Text(source, path.Prefix(length)) == Text(source, path)[..length];
        Some(Text(source, path.Prefix(length)))
    }

    /** pathSize(): the number of segments; none without a path. */
    function PathSize(): (r: Option<nat>)
      reads this
      requires Valid()
      ensures r.None? <==> path.length == 0
      ensures r.Some? ==> r.value == |pathSegments| && r.value > 0
      ensures r.Some? ==> TotalLength(pathSegments) == path.length
    {
      if path.length == 0 then None
      else
        SegmentsJoin(source, path);
        Some(|pathSegments|)
    }

    /** queryLine(): none exactly when the query line is empty. */
    function QueryLineText(): (r: Option<string>)
      reads this
      requires Valid()
      ensures r.None? <==> queryLine.length == 0
      ensures r.Some? ==> r.value == Text(source, queryLine)
    {
      if queryLine.length == 0 then None else Some(Text(source, queryLine))
    }

    /** queries(): none when no pair was emplaced; otherwise the pairs of
        the query line as the pair loop's reference builds them. */
    function Queries(): (r: Option<map<string, string>>)
      reads this
      requires Valid()
      ensures r.None? <==> |queries| == 0
      ensures r.Some? ==> PairsOf(QueryPieces(Text(source, queryLine)), map[]) == Ok(r.value)
    {
      QueriesMeaning(source, Snapshot());
      if |queries| == 0 then None else Some(Texts(source, queries))
    }

    /** fragment(): none exactly when the fragment view is empty. */
    function FragmentText(): (r: Option<string>)
      reads this
      requires Valid()
      ensures r.None? <==> fragment.length == 0
      ensures r.Some? ==> r.value == Text(source, fragment)
    {
      if fragment.length == 0 then None else Some(Text(source, fragment))
    }

    /** hasAuthority(): a host was found. */
    function HasAuthority(): (r: bool)
      reads this
      requires Valid()
      ensures r <==> HostText().Some?
    {
      host.length > 0
    }

    /** hasQueries(): some pair was emplaced. */
    function HasQueries(): (r: bool)
      reads this
      requires Valid()
      ensures r <==> Queries().Some?
    {
      |queries| > 0
    }

    /** hasPath(): a path was found. */
    function HasPath(): (r: bool)
      reads this
      requires Valid()
      ensures r <==> PathText().Some?
    {
      path.length > 0
    }

    /** hasFragment(): a fragment was found. */
    function HasFragment(): (r: bool)
      reads this
      requires Valid()
      ensures r <==> FragmentText().Some?
    {
      fragment.length > 0
    }

    // -------------------------------------------------------------------
    // Compliance and clear

    /** isCompliant: the checks in the order of the source, each stopping
        the evaluation at the first failure, with all_of over the segments. */
    method IsCompliant() returns (r: bool)
      requires Valid()
      ensures r == Compliant(source, Snapshot())
    {
      if !IsSchemeCompliant(Text(source, scheme)) {
        return false;
      }
      r := CheckUser(Text(source, user));
      if !r {
        return false;
      }
      if host.length == 0 {
        return false;
      }
      r := CheckHost(Text(source, host));
      if !r || !IsPortCompliant(Text(source, port)) {
        return false;
      }
      r := CheckSegments();
      if !r {
        return false;
      }
      r := CheckFragment(Text(source, queryLine));
      if !r {
        return false;
      }
      r := CheckFragment(Text(source, fragment));
    }

    /** The all_of of isCompliant over the path segments. */
    method CheckSegments() returns (r: bool)
      requires AllWithin(|source|, pathSegments)
      ensures r == SegmentsCompliant(source, pathSegments)
    {
      for k := 0 to |pathSegments|
        invariant SegmentsCompliant(source, pathSegments[..k])
      {
        r := CheckPathSegment(Text(source, pathSegments[k]));
        if !r {
          return false;
        }
        assert pathSegments[..k + 1][k] == pathSegments[k];
      }
      assert pathSegments[..|pathSegments|] == pathSegments;
      return true;
    }

    /** clear(): every view and the text emptied, the segments and the
        queries dropped; isAbsolutePath keeps its value. */
    method Clear()
      modifies this
      ensures source == "" && Snapshot() == Pristine.(isAbsolutePath := old(isAbsolutePath))
      ensures Valid() && outcome == old(outcome)
    {
      scheme, user, host, port := EmptyView, EmptyView, EmptyView, EmptyView;
      path, fragment, queryLine := EmptyView, EmptyView, EmptyView;
      pathSegments := [];
      queries := map[];
      source := "";
      assert Segments(source, EmptyView) == [];
      assert QueryPairs(source, EmptyView, map[]) == Ok(map[]);
      assert ValuesWithin(0, map[]);
    }
  }
}
