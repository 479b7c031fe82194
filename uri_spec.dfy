/** The parse of class URI as pure functions. Every std::string_view member of
    the class is a View into the owned text; one function per stage of the
    step loop says what that stage does to the components and to the view
    left to parse, and Run replays the loop itself. */
module UriSpec {
  import opened StringViews

  // ---------------------------------------------------------------------
  // Outcomes

  /** URI::ParsingResult. */
  datatype ParsingResult = NoError | EmptyURI

  /** The two std::runtime_error throws of the parse. */
  datatype ParseError =
    | MalformedAuthority   // an '@' opens the authority: the user name is empty
    | MalformedQueryPair   // a piece of the query line has no '='

  datatype Result<T> = Ok(value: T) | Err(error: ParseError)

  datatype Option<T> = None | Some(value: T)

  /** URI::ParsingSteps. */
  datatype Step = Scheme | CheckAuthority | Authority | CheckSeparator | Path | Fragment | Query

  /** The order in which the loop may visit the steps while the view keeps
      its length: every step that consumes nothing moves to a lower rank. */
  function Rank(step: Step): nat {
    match step
    case Scheme => 5
    case CheckAuthority => 4
    case Authority => 3
    case CheckSeparator => 2
    case Path => 1
    case Query => 1
    case Fragment => 0
  }

  // ---------------------------------------------------------------------
  // The state the parse fills in

  /** Every member of URI that parse assigns, the owned text left aside. */
  datatype Components = Components(
    isAbsolutePath: bool,
    scheme: View,
    user: View,
    host: View,
    port: View,
    path: View,
    queryLine: View,
    fragment: View,
    segments: seq<View>,
    queries: map<string, View>)

  /** A freshly constructed URI: every view empty, no segment, no query. */
  const Pristine := Components(false, EmptyView, EmptyView, EmptyView, EmptyView,
                               EmptyView, EmptyView, EmptyView, [], map[])

  /** The components together with the view the loop still has to parse. */
  datatype Machine = Machine(c: Components, rest: View)

  predicate ValuesWithin(n: nat, m: map<string, View>) {
    forall v | v in m.Values :: v.Within(n)
  }

  /** The views of the components lie inside the owned text. The segments
      and the query values are bounded through Segments and QueryPairs once
      the parse is complete (see Consistent). */
  predicate Bounded(src: string, c: Components) {
    var n := |src|;
    c.scheme.Within(n) && c.user.Within(n) && c.host.Within(n) && c.port.Within(n) &&
    c.path.Within(n) && c.queryLine.Within(n) && c.fragment.Within(n)
  }

  /** What a complete parse leaves behind: bounded views, the segments of
      the path and the pairs of the query line, each computed once. */
  predicate Consistent(src: string, c: Components) {
    Bounded(src, c) &&
    c.segments == Segments(src, c.path) &&
    QueryPairs(src, c.queryLine, map[]) == Ok(c.queries) && ValuesWithin(|src|, c.queries)
  }

  predicate WellFormed(src: string, m: Machine) {
    Bounded(src, m.c) && m.rest.Within(|src|)
  }

  /** remove_prefix on the view left to parse. */
  function Drop(m: Machine, k: nat): (r: Machine)
    requires k <= m.rest.length
    ensures r.c == m.c && r.rest.End() == m.rest.End() && r.rest.length == m.rest.length - k
  {
    Machine(m.c, m.rest.RemovePrefix(k))
  }

  /** The first character of the view left to parse (front()). */
  function Front(src: string, m: Machine): char
    requires m.rest.Within(|src|) && m.rest.length > 0
  {
    src[m.rest.offset]
  }

  // ---------------------------------------------------------------------
  // tryParseScheme

  /** The scheme is the text before the first "://"; only the ':' is
      consumed, so the "//" is left for the authority check. */
  function SchemeStep(src: string, m: Machine): (r: Machine)
    requires WellFormed(src, m)
    ensures WellFormed(src, r) && r.rest.End() == m.rest.End() && r.rest.length <= m.rest.length
    ensures r.c == m.c.(scheme := r.c.scheme)
  {
    var t := Text(src, m.rest);
    var p := Search(t, "://");
    if p < |t| then
      Machine(m.c.(scheme := m.rest.Prefix(p)), m.rest.RemovePrefix(p + 1))
    else
      m
  }

  // ---------------------------------------------------------------------
  // The CheckAuthority step

  /** The remainder opens with "//" and is longer than that. */
  predicate HasAuthorityMarker(src: string, m: Machine)
    requires m.rest.Within(|src|)
  {
    var t := Text(src, m.rest);
    |t| > 2 && t[..2] == "//"
  }

  /** The condition of the CheckAuthority case, as written: the marker, or
      characters before the next '/', or no '/' at all, or a trailing one. */
  predicate GoesToAuthority(src: string, m: Machine)
    requires m.rest.Within(|src|)
  {
    var t := Text(src, m.rest);
    var anon := HasAuthorityMarker(src, m);
    var next := FindFrom(t, '/', if anon then 2 else 0);
    anon || next > 0 || next == |t| || |t| - next == 0
  }

  /** The view after the CheckAuthority case chose the Authority step. */
  function SkipAuthorityMarker(src: string, m: Machine): (r: Machine)
    requires m.rest.Within(|src|)
    ensures r.c == m.c && r.rest.End() == m.rest.End() && r.rest.length <= m.rest.length
    ensures HasAuthorityMarker(src, m) ==> "//" + Text(src, r.rest) == Text(src, m.rest)
    ensures !HasAuthorityMarker(src, m) ==> r == m
  {
    if HasAuthorityMarker(src, m) then
      TextCut(src, m.rest, 2);
      Drop(m, 2)
    else m
  }

  // ---------------------------------------------------------------------
  // tryParseUser, tryParseHost, tryParseAuthority

  /** tryParseUser on the authority view m.rest: the user is the text
      before the first '@', which is consumed with it; an '@' in first
      position is an error. */
  function UserStep(src: string, m: Machine): (r: Result<Machine>)
    requires WellFormed(src, m)
    ensures r.Ok? ==> WellFormed(src, r.value) && r.value.rest.End() == m.rest.End()
    ensures r.Ok? ==> r.value.c == m.c.(user := r.value.c.user)
  {
    var u := Find(Text(src, m.rest), '@');
    if u == m.rest.length then Ok(m)
    else if u == 0 then Err(MalformedAuthority)
    else Ok(Machine(m.c.(user := m.rest.Prefix(u)), m.rest.RemovePrefix(u + 1)))
  }

  /** tryParseHost on the view m.rest: split at the last ':' into host and
      port, the colon belonging to neither; without a ':' all is host. */
  function HostStep(src: string, m: Machine): (r: Machine)
    requires WellFormed(src, m)
    ensures WellFormed(src, r) && r.rest.End() == m.rest.End() && r.rest.length == 0
    ensures r.c == m.c.(host := r.c.host, port := r.c.port)
  {
    var k := FindLast(Text(src, m.rest), ':');
    if k < m.rest.length then
      var host := m.rest.Prefix(k);
      var port := View(m.rest.offset + k + 1, m.rest.length - k - 1);
      Machine(m.c.(host := host, port := port), m.rest.RemovePrefix(m.rest.length))
    else
      Machine(m.c.(host := m.rest), m.rest.RemovePrefix(m.rest.length))
  }

  /** Where the authority ends: the first '/', '#' or '?', or the end. */
  function AuthorityLength(src: string, m: Machine): (a: nat)
    requires m.rest.Within(|src|)
    ensures a <= m.rest.length
  {
    FindFirstOf(Text(src, m.rest), {'/', '#', '?'})
  }

  /** tryParseAuthority: user and host are read from the authority only,
      and the whole authority is consumed. */
  function AuthorityStep(src: string, m: Machine): (r: Result<Machine>)
    requires WellFormed(src, m)
    ensures r.Ok? ==> WellFormed(src, r.value) && r.value.rest == m.rest.RemovePrefix(AuthorityLength(src, m))
    ensures r.Ok? ==> r.value.c == m.c.(user := r.value.c.user, host := r.value.c.host, port := r.value.c.port)
  {
    var a := AuthorityLength(src, m);
    var authority := Machine(m.c, m.rest.Prefix(a));
    match UserStep(src, authority)
    case Err(e) => Err(e)
    case Ok(um) =>
      var hm := if um.rest.length > 0 then HostStep(src, um) else um;
      Ok(Machine(hm.c, m.rest.RemovePrefix(a)))
  }

  // ---------------------------------------------------------------------
  // tryParsePath

  /** The segments of a path: cut after every '/', which stays with the
      segment it closes; what remains after the last '/' is the last one. */
  function Segments(src: string, v: View): (r: seq<View>)
    requires v.Within(|src|)
    ensures AllWithin(|src|, r)
    ensures |r| == 0 <==> v.length == 0
    decreases v.length
  {
    if v.length == 0 then []
    else
      var k := Find(Text(src, v), '/');
      if k < v.length then [v.Prefix(k + 1)] + Segments(src, v.RemovePrefix(k + 1))
      else [v]
  }

  /** One turn of the loop that builds the segments: what is done so far
      followed by the segments of the rest stays the same. */
  lemma SegmentsStep(src: string, v: View, done: seq<View>)
    requires v.Within(|src|) && v.length > 0
    ensures var k := Find(Text(src, v), '/');
      k < v.length ==> done + Segments(src, v) == (done + [v.Prefix(k + 1)]) + Segments(src, v.RemovePrefix(k + 1))
    ensures Find(Text(src, v), '/') == v.length ==> done + Segments(src, v) == done + [v]
  {
    var k := Find(Text(src, v), '/');
    if k < v.length {
      var tail := Segments(src, v.RemovePrefix(k + 1));
      assert (done + [v.Prefix(k + 1)]) + tail == done + ([v.Prefix(k + 1)] + tail);
    }
  }

  /** The first character of a view is '/'. */
  predicate OpensWithSlash(src: string, v: View)
    requires v.Within(|src|)
  {
    v.length > 0 && src[v.offset] == '/'
  }

  /** tryParsePath: with a host the leading '/' is dropped first; the path
      runs to the first '?' or '#'; its segments are appended; the path is
      marked absolute when what follows the authority opens with '/'. */
  function PathStep(src: string, m: Machine): (r: Machine)
    requires WellFormed(src, m) && m.rest.length > 0
    ensures WellFormed(src, r) && r.rest.End() == m.rest.End() && r.rest.length <= m.rest.length
    ensures m.c.host.length > 0 || OpensWithSlash(src, m.rest) ==> r.rest.length < m.rest.length
    ensures r.c == m.c.(path := r.c.path, segments := r.c.segments, isAbsolutePath := r.c.isAbsolutePath)
  {
    var t := if m.c.host.length > 0 then m.rest.RemovePrefix(1) else m.rest;
    var q := FindFirstOf(Text(src, t), {'?', '#'});
    var path := t.Prefix(q);
    var abs := if OpensWithSlash(src, t) then true else m.c.isAbsolutePath;
    Machine(m.c.(path := path, segments := m.c.segments + Segments(src, path), isAbsolutePath := abs),
            t.RemovePrefix(q))
  }

  // ---------------------------------------------------------------------
  // tryParseQuery

  /** std::map::emplace: an existing key keeps its value. */
  function Emplace<V>(m: map<string, V>, key: string, value: V): map<string, V> {
    if key in m then m else m[key := value]
  }

  /** emplace adds the key, never changes the value of a key already there,
      and stores the value only for a new key. */
  lemma EmplaceKeepsExisting<V>(m: map<string, V>, key: string, value: V)
    ensures var r := Emplace(m, key, value);
      key in r && r.Keys == m.Keys + {key} &&
      (forall k | k in m :: r[k] == m[k]) &&
      (key !in m ==> r[key] == value)
  {
  }

  /** One piece of the query line: it must hold an '='; the key, the text
      before the first '=', is emplaced with the text after it as value. */
  function PiecePair(src: string, piece: View, m: map<string, View>): (r: Result<map<string, View>>)
    requires piece.Within(|src|)
  {
    var e := Find(Text(src, piece), '=');
    if e == piece.length then Err(MalformedQueryPair)
    else Ok(Emplace(m, Text(src, piece.Prefix(e)), View(piece.offset + e + 1, piece.length - (e + 1))))
  }

  /** The pair loop of tryParseQuery on the view v, emplacing into m: the
      pieces are cut at every '&' and handled in order by PiecePair. */
  function QueryPairs(src: string, v: View, m: map<string, View>): (r: Result<map<string, View>>)
    requires v.Within(|src|)
    decreases v.length
  {
    if v.length == 0 then Ok(m)
    else
      var p := Find(Text(src, v), '&');
      match PiecePair(src, v.Prefix(p), m)
      case Err(e) => Err(e)
      case Ok(m') => if p < v.length then QueryPairs(src, v.RemovePrefix(p + 1), m') else Ok(m')
  }

  /** tryParseQuery: the query line runs to the first '#'. */
  function QueryStep(src: string, m: Machine): (r: Result<Machine>)
    requires WellFormed(src, m)
    ensures r.Ok? ==> WellFormed(src, r.value) && r.value.rest.End() == m.rest.End()
    ensures r.Ok? ==> r.value.c == m.c.(queryLine := r.value.c.queryLine, queries := r.value.c.queries)
  {
    var h := Find(Text(src, m.rest), '#');
    var line := m.rest.Prefix(h);
    match QueryPairs(src, line, m.c.queries)
    case Err(e) => Err(e)
    case Ok(qs) => Ok(Machine(m.c.(queryLine := line, queries := qs), m.rest.RemovePrefix(h)))
  }

  // ---------------------------------------------------------------------
  // tryParseFragment

  /** tryParseFragment: one character (the '#') is dropped and the fragment
      is all that follows. */
  function FragmentStep(src: string, m: Machine): (r: Machine)
    requires WellFormed(src, m) && m.rest.length > 0
    ensures WellFormed(src, r) && r.rest.length == 0
    ensures r.c == m.c.(fragment := r.c.fragment)
  {
    var t := m.rest.RemovePrefix(1);
    Machine(m.c.(fragment := t), t.RemovePrefix(t.length))
  }

  // ---------------------------------------------------------------------
  // The step loop of parse

  /** The loop only enters the Path step in front of a '/'. */
  predicate StepReady(src: string, m: Machine, step: Step)
    requires m.rest.Within(|src|)
  {
    step == Path && m.rest.length > 0 ==> OpensWithSlash(src, m.rest)
  }

  /** The loop of parse, from the machine m and the step `step`, to its end:
      it stops as soon as the view is empty. */
  function Run(src: string, m: Machine, step: Step): (r: Result<Components>)
    requires WellFormed(src, m) && StepReady(src, m, step)
    ensures r.Ok? ==> Bounded(src, r.value)
    decreases m.rest.length, Rank(step)
  {
    if m.rest.length == 0 then Ok(m.c)
    else
      match step
      case Scheme => Run(src, SchemeStep(src, m), CheckAuthority)
      case CheckAuthority =>
        if GoesToAuthority(src, m) then Run(src, SkipAuthorityMarker(src, m), Authority)
        else Run(src, m, CheckSeparator)
      case Authority =>
        (match AuthorityStep(src, m)
         case Err(e) => Err(e)
         case Ok(am) => Run(src, am, CheckSeparator))
      case CheckSeparator =>
        if Front(src, m) == '/' then Run(src, m, Path)
        else if Front(src, m) == '?' then Run(src, Drop(m, 1), Query)
        else Run(src, Drop(m, 1), Fragment)
      case Path => Run(src, PathStep(src, m), CheckSeparator)
      case Query =>
        (match QueryStep(src, m)
         case Err(e) => Err(e)
         case Ok(qm) => Run(src, qm, Fragment))
      case Fragment => Run(src, FragmentStep(src, m), Fragment)
  }

  /** One turn of the loop takes the machine m at step `step` to m2 at
      step2 without changing the outcome of the rest of the loop, and it
      either consumes part of the view or moves to a lower step. */
  predicate Advances(src: string, m: Machine, step: Step, m2: Machine, step2: Step) {
    WellFormed(src, m) && StepReady(src, m, step) &&
    WellFormed(src, m2) && StepReady(src, m2, step2) &&
    Run(src, m2, step2) == Run(src, m, step) &&
    (m2.rest.length < m.rest.length || (m2.rest.length == m.rest.length && Rank(step2) < Rank(step)))
  }

  /** The whole text, parsed from a pristine state. */
  function Decompose(src: string): (r: Result<Components>)
    ensures r.Ok? ==> Bounded(src, r.value)
  {
    Run(src, Machine(Pristine, View(0, |src|)), Scheme)
  }
}
