/** What the pair loop of tryParseQuery computes, told on plain strings:
    the query line is cut at every '&', each piece must hold an '=', and the
    first piece with a given key decides its value. */
module UriQuery {
  import opened StringViews
  import opened UriSpec

  /** The pieces the pair loop visits: the line cut at every '&'. The loop
      stops once the view is empty, so an empty last piece (an empty line,
      or a line ending in '&') is not visited; an empty piece anywhere else
      is. */
  function QueryPieces(t: string): seq<string> {
    var P := Split(t, '&');
    if P[|P| - 1] == "" then P[..|P| - 1] else P
  }

  /** The key of a piece: the text before its first '='. */
  function Key(piece: string): string {
    piece[..Find(piece, '=')]
  }

  /** The value of a piece: the text after its first '='. */
  function Value(piece: string): string
    requires '=' in piece
  {
    piece[Find(piece, '=') + 1..]
  }

  /** The reference for the pair loop: the pieces in order, each emplaced
      by key, and an error at the first piece without '='. */
  function PairsOf(pieces: seq<string>, m: map<string, string>): Result<map<string, string>>
    decreases |pieces|
  {
    if |pieces| == 0 then Ok(m)
    else if '=' !in pieces[0] then Err(MalformedQueryPair)
    else PairsOf(pieces[1..], Emplace(m, Key(pieces[0]), Value(pieces[0])))
  }

  /** The texts the query values designate. */
  function Texts(src: string, m: map<string, View>): (r: map<string, string>)
    requires ValuesWithin(|src|, m)
    ensures r.Keys == m.Keys
  {
    map k | k in m :: Text(src, m[k])
  }

  // ---------------------------------------------------------------------
  // The pieces

  /** The pieces hold no '&', and put back together with '&' they give the
      line, up to the '&' that closed the dropped empty piece. */
  lemma QueryPiecesShape(t: string)
    ensures forall k | 0 <= k < |QueryPieces(t)| :: '&' !in QueryPieces(t)[k]
    ensures |QueryPieces(t)| == 0 <==> |t| == 0
    ensures |QueryPieces(t)| > 0 ==>
      Join(QueryPieces(t), '&') == t || Join(QueryPieces(t), '&') + "&" == t
  {
    var P := Split(t, '&');
    SplitPiecesHaveNoSeparator(t, '&');
    JoinSplit(t, '&');
    if |t| == 0 {
      assert P == [""];
    } else if |P| == 1 {
      assert Join(P, '&') == P[0];
    } else if P[|P| - 1] == "" {
      JoinSnoc(P[..|P| - 1], "", '&');
      assert P[..|P| - 1] + [""] == P;
    }
  }

  /** Join of pieces with one more piece at the end. */
  lemma {:induction false} JoinSnoc(pieces: seq<string>, last: string, sep: char)
    requires |pieces| >= 1
    ensures Join(pieces + [last], sep) == Join(pieces, sep) + [sep] + last
    decreases |pieces|
  {
    if |pieces| > 1 {
      assert (pieces + [last])[1..] == pieces[1..] + [last];
      JoinSnoc(pieces[1..], last, sep);
    } else {
      assert (pieces + [last])[1..] == [last];
    }
  }

  /** A piece closed by '&' is the first piece, and the pieces of the rest
      follow it. */
  lemma QueryPiecesCons(head: string, tail: string)
    requires '&' !in head
    ensures QueryPieces(head + "&" + tail) == [head] + QueryPieces(tail)
  {
    SplitWithoutSeparator(head, '&');
    SplitSnocSeparator(head, '&');
    assert head + "&" == head + ['&'];
    SplitAppendAfterSeparator(head + "&", tail, '&');
    var T := Split(tail, '&');
    assert Split(head + "&" + tail, '&') == [head] + T;
    if T[|T| - 1] == "" {
      assert ([head] + T)[..|T|] == [head] + T[..|T| - 1];
    }
  }

  /** Without '&' a non-empty line is a single piece. */
  lemma QueryPiecesSingle(t: string)
    requires '&' !in t && |t| > 0
    ensures QueryPieces(t) == [t]
  {
    SplitWithoutSeparator(t, '&');
  }

  // ---------------------------------------------------------------------
  // The pair loop against its reference

  lemma TextsEmplace(src: string, m: map<string, View>, key: string, value: View)
    requires ValuesWithin(|src|, m) && value.Within(|src|)
    ensures ValuesWithin(|src|, Emplace(m, key, value))
    ensures Texts(src, Emplace(m, key, value)) == Emplace(Texts(src, m), key, Text(src, value))
  {
  }

  /** One piece: PiecePair fails exactly when the piece holds no '=', and
      otherwise emplaces the piece's key with its value. */
  lemma PiecePairMeaning(src: string, piece: View, m: map<string, View>)
    requires piece.Within(|src|) && ValuesWithin(|src|, m)
    ensures var P := Text(src, piece);
      (PiecePair(src, piece, m).Err? <==> '=' !in P) &&
      (PiecePair(src, piece, m).Ok? ==>
        ValuesWithin(|src|, PiecePair(src, piece, m).value) &&
        Texts(src, PiecePair(src, piece, m).value) == Emplace(Texts(src, m), Key(P), Value(P)))
  {
    var P := Text(src, piece);
    var e := Find(P, '=');
    if e < piece.length {
      var value := View(piece.offset + e + 1, piece.length - (e + 1));
      PieceTexts(src, piece);
      var m' := Emplace(m, Key(P), value);
      assert PiecePair(src, piece, m) == Ok(m');
      TextsEmplace(src, m, Key(P), value);
      assert Texts(src, m') == Emplace(Texts(src, m), Key(P), Value(P));
    }
  }

  /** The views PiecePair cuts out designate the key and the value. */
  lemma PieceTexts(src: string, piece: View)
    requires piece.Within(|src|) && Find(Text(src, piece), '=') < piece.length
    ensures var P := Text(src, piece); var e := Find(P, '=');
      var value := View(piece.offset + e + 1, piece.length - (e + 1));
      Text(src, piece.Prefix(e)) == Key(P) && value.Within(|src|) && Text(src, value) == Value(P)
  {
  }

  /** The pair loop from the map m over the view v agrees with its
      reference: both fail or neither does, and the texts of the map the
      loop builds are the map the reference builds. */
  predicate PairsAgree(src: string, v: View, m: map<string, View>)
    requires v.Within(|src|) && ValuesWithin(|src|, m)
  {
    QueryPairs(src, v, m).Ok? == PairsOf(QueryPieces(Text(src, v)), Texts(src, m)).Ok? &&
    (QueryPairs(src, v, m).Ok? ==>
      ValuesWithin(|src|, QueryPairs(src, v, m).value) &&
      Texts(src, QueryPairs(src, v, m).value) == PairsOf(QueryPieces(Text(src, v)), Texts(src, m)).value)
  }

  /** The pair loop computes its reference, on every query line. */
  lemma {:induction false} QueryPairsMeaning(src: string, v: View, m: map<string, View>)
    requires v.Within(|src|) && ValuesWithin(|src|, m)
    ensures QueryPairs(src, v, m).Ok? == PairsOf(QueryPieces(Text(src, v)), Texts(src, m)).Ok?
    ensures QueryPairs(src, v, m).Ok? ==>
      ValuesWithin(|src|, QueryPairs(src, v, m).value) &&
      Texts(src, QueryPairs(src, v, m).value) == PairsOf(QueryPieces(Text(src, v)), Texts(src, m)).value
    decreases v.length
  {
    if v.length == 0 {
      assert Split(Text(src, v), '&') == [""];
      return;
    }
    var p := Find(Text(src, v), '&');
    if p < v.length {
      PiecePairMeaning(src, v.Prefix(p), m);
      if PiecePair(src, v.Prefix(p), m).Ok? {
        QueryPairsMeaning(src, v.RemovePrefix(p + 1), PiecePair(src, v.Prefix(p), m).value);
      }
      PairsAgreeCons(src, v, m, p);
    } else {
      PairsAgreeLast(src, v, m);
    }
  }

  /** A piece closed by '&', given that the rest of the line agrees. */
  lemma PairsAgreeCons(src: string, v: View, m: map<string, View>, p: nat)
    requires v.Within(|src|) && ValuesWithin(|src|, m)
    requires p == Find(Text(src, v), '&') && p < v.length
    requires PiecePair(src, v.Prefix(p), m).Ok? ==>
      ValuesWithin(|src|, PiecePair(src, v.Prefix(p), m).value) &&
      PairsAgree(src, v.RemovePrefix(p + 1), PiecePair(src, v.Prefix(p), m).value)
    ensures PairsAgree(src, v, m)
  {
    var T := Text(src, v);
    var piece, rest := v.Prefix(p), v.RemovePrefix(p + 1);
    var P := Text(src, piece);
    TextCut(src, v, p);
    TextCut(src, v, p + 1);
    CutAround(T, p);
    PiecePairMeaning(src, piece, m);
    assert T == P + "&" + Text(src, rest);
    QueryPiecesCons(P, Text(src, rest));
    var pieces := QueryPieces(T);
    assert pieces[0] == P && pieces[1..] == QueryPieces(Text(src, rest));
    match PiecePair(src, piece, m) {
      case Err(_) =>
        assert QueryPairs(src, v, m).Err?;
        assert PairsOf(pieces, Texts(src, m)).Err?;
      case Ok(m') =>
        QueryPairsCons(src, v, m);
        assert PairsOf(pieces, Texts(src, m)) == PairsOf(pieces[1..], Texts(src, m'));
    }
  }

  /** The pair loop past a piece closed by '&'. */
  lemma QueryPairsCons(src: string, v: View, m: map<string, View>)
    requires v.Within(|src|) && Find(Text(src, v), '&') < v.length
    ensures var p := Find(Text(src, v), '&');
      PiecePair(src, v.Prefix(p), m).Ok? ==>
        QueryPairs(src, v, m) == QueryPairs(src, v.RemovePrefix(p + 1), PiecePair(src, v.Prefix(p), m).value)
  {
  }

  /** The last piece of the line, with no '&' after it. */
  lemma PairsAgreeLast(src: string, v: View, m: map<string, View>)
    requires v.Within(|src|) && ValuesWithin(|src|, m)
    requires v.length > 0 && Find(Text(src, v), '&') == v.length
    ensures PairsAgree(src, v, m)
  {
    var T := Text(src, v);
    assert v.Prefix(v.length) == v;
    PiecePairMeaning(src, v, m);
    QueryPiecesSingle(T);
    var pieces := QueryPieces(T);
    match PiecePair(src, v, m) {
      case Err(_) =>
        assert QueryPairs(src, v, m).Err?;
        assert PairsOf(pieces, Texts(src, m)).Err?;
      case Ok(m') =>
        assert QueryPairs(src, v, m) == Ok(m');
        assert PairsOf(pieces, Texts(src, m)) == PairsOf([], Texts(src, m'));
    }
  }

  // ---------------------------------------------------------------------
  // What the reference promises

  /** The pair loop fails exactly when some piece holds no '='. */
  lemma {:induction false} PairsOfFails(pieces: seq<string>, m: map<string, string>)
    ensures PairsOf(pieces, m).Err? <==> exists k | 0 <= k < |pieces| :: '=' !in pieces[k]
    decreases |pieces|
  {
    if |pieces| > 0 && '=' in pieces[0] {
      PairsOfFails(pieces[1..], Emplace(m, Key(pieces[0]), Value(pieces[0])));
      assert forall k | 1 <= k < |pieces| :: pieces[k] == pieces[1..][k - 1];
    }
  }

  /** A key keeps the first value it is given: a key already in the map
      keeps its value, and otherwise the key of the first piece that has it
      takes that piece's value. The keys are those of the map and of the
      pieces. */
  lemma {:induction false} PairsOfFirstWins(pieces: seq<string>, m: map<string, string>)
    requires PairsOf(pieces, m).Ok?
    ensures var r := PairsOf(pieces, m).value;
      (forall k | k in m :: k in r && r[k] == m[k]) &&
      (forall j | 0 <= j < |pieces| ::
        '=' in pieces[j] && Key(pieces[j]) in r &&
        (Key(pieces[j]) !in m && (forall i | 0 <= i < j :: Key(pieces[i]) != Key(pieces[j])) ==>
          r[Key(pieces[j])] == Value(pieces[j]))) &&
      (forall k | k in r :: k in m || exists j | 0 <= j < |pieces| :: k == Key(pieces[j]))
    decreases |pieces|
  {
    if |pieces| > 0 {
      var m' := Emplace(m, Key(pieces[0]), Value(pieces[0]));
      PairsOfFirstWins(pieces[1..], m');
      assert forall j | 1 <= j < |pieces| :: pieces[j] == pieces[1..][j - 1];
    }
  }

  /** The queries of a complete parse are those the reference builds from
      the pieces of the query line, starting from no query. */
  lemma QueriesMeaning(src: string, c: Components)
    requires Consistent(src, c)
    ensures PairsOf(QueryPieces(Text(src, c.queryLine)), map[]) == Ok(Texts(src, c.queries))
  {
    assert Texts(src, map[]) == map[];
    QueryPairsMeaning(src, c.queryLine, map[]);
  }

  /** The only error the pair loop reports is MalformedQueryPair. */
  lemma {:induction false} QueryPairsError(src: string, v: View, m: map<string, View>)
    requires v.Within(|src|)
    ensures QueryPairs(src, v, m).Err? ==> QueryPairs(src, v, m).error == MalformedQueryPair
    decreases v.length
  {
    if v.length > 0 {
      var p := Find(Text(src, v), '&');
      if PiecePair(src, v.Prefix(p), m).Ok? && p < v.length {
        QueryPairsError(src, v.RemovePrefix(p + 1), PiecePair(src, v.Prefix(p), m).value);
      }
    }
  }

  /** The pair loop throws on the query line exactly when one of its pieces
      holds no '=', and then with MalformedQueryPair. */
  lemma QueryLineFails(src: string, v: View, m: map<string, View>)
    requires v.Within(|src|) && ValuesWithin(|src|, m)
    ensures var pieces := QueryPieces(Text(src, v));
      (QueryPairs(src, v, m).Err? <==> exists k | 0 <= k < |pieces| :: '=' !in pieces[k]) &&
      (QueryPairs(src, v, m).Err? ==> QueryPairs(src, v, m).error == MalformedQueryPair)
  {
    QueryPairsMeaning(src, v, m);
    PairsOfFails(QueryPieces(Text(src, v)), Texts(src, m));
    QueryPairsError(src, v, m);
  }
}
