/** Non-owning views into a text, and the searches the URI code performs on
    them. A view is an (offset, length) pair into one source text; the
    position "not found" (std::string_view::npos) is represented by the
    length of the searched text. */
module StringViews {

  datatype View = View(offset: nat, length: nat) {

    /** One past the last position the view covers. */
    function End(): nat {
      offset + length
    }

    /** The view lies inside a text of length n. */
    predicate Within(n: nat) {
      offset + length <= n
    }

    /** remove_prefix(k): drop the first k characters of the view. */
    function RemovePrefix(k: nat): (r: View)
      requires k <= length
      ensures r.End() == End() && r.length == length - k
    {
      View(offset + k, length - k)
    }

    /** substr(0, k): the first k characters of the view. */
    function Prefix(k: nat): (r: View)
      requires k <= length
      ensures r.offset == offset && r.length == k
    {
      View(offset, k)
    }
  }

  /** A default-constructed string_view: no characters. */
  const EmptyView := View(0, 0)

  /** The characters a view designates in its source text. */
  function Text(src: string, v: View): (t: string)
    requires v.Within(|src|)
    ensures |t| == v.length
  {
    src[v.offset .. v.End()]
  }

  /** substr and remove_prefix cut the text the way slicing does, and the
      two parts make up the whole again. */
  lemma TextCut(src: string, v: View, k: nat)
    requires v.Within(|src|) && k <= v.length
    ensures Text(src, v.Prefix(k)) == Text(src, v)[..k]
    ensures Text(src, v.RemovePrefix(k)) == Text(src, v)[k..]
    ensures Text(src, v) == Text(src, v.Prefix(k)) + Text(src, v.RemovePrefix(k))
  {
    assert Text(src, v) == Text(src, v)[..k] + Text(src, v)[k..];
  }

  /** A text is what comes before position p, the character there, and
      what comes after it. */
  lemma CutAround(s: string, p: nat)
    requires p < |s|
    ensures s == s[..p] + [s[p]] + s[p + 1..]
  {
  }

  /** Every view of vs lies inside a text of length n. */
  predicate AllWithin(n: nat, vs: seq<View>) {
    forall k | 0 <= k < |vs| :: vs[k].Within(n)
  }

  /** The summed length of the views (the std::accumulate of pathUntil). */
  function TotalLength(vs: seq<View>): nat {
    if |vs| == 0 then 0 else vs[0].length + TotalLength(vs[1..])
  }

  /** The texts of the views, one after the other. */
  function Joined(src: string, vs: seq<View>): (r: string)
    requires AllWithin(|src|, vs)
    ensures |r| == TotalLength(vs)
  {
    if |vs| == 0 then "" else Text(src, vs[0]) + Joined(src, vs[1..])
  }

  /** Joining distributes over concatenation of the views. */
  lemma {:induction false} JoinedAppend(src: string, a: seq<View>, b: seq<View>)
    requires AllWithin(|src|, a) && AllWithin(|src|, b)
    ensures AllWithin(|src|, a + b) && Joined(src, a + b) == Joined(src, a) + Joined(src, b)
  {
    assert AllWithin(|src|, a + b) by {
      forall k | 0 <= k < |a + b| ensures (a + b)[k].Within(|src|) {
        if k >= |a| {
          assert (a + b)[k] == b[k - |a|];
        }
      }
    }
    if |a| > 0 {
      assert (a + b)[1..] == a[1..] + b;
      JoinedAppend(src, a[1..], b);
    } else {
      assert a + b == b;
    }
  }

  /** find(c): the first position of c in s, or |s| when c does not occur. */
  function Find(s: string, c: char): (r: nat)
    ensures r <= |s|
    ensures r < |s| ==> s[r] == c
    ensures forall j | 0 <= j < r :: s[j] != c
  {
    if |s| == 0 || s[0] == c then 0 else 1 + Find(s[1..], c)
  }

  /** find(c, from): the first position at or after from holding c, or |s|. */
  function FindFrom(s: string, c: char, from: nat): (r: nat)
    ensures r <= |s|
    ensures r < |s| ==> from <= r && s[r] == c
    ensures forall j | from <= j < r :: s[j] != c
  {
    if from >= |s| then |s| else from + Find(s[from..], c)
  }

  /** find_first_of(cs): the first position holding a character of cs, or |s|. */
  function FindFirstOf(s: string, cs: set<char>): (r: nat)
    ensures r <= |s|
    ensures r < |s| ==> s[r] in cs
    ensures forall j | 0 <= j < r :: s[j] !in cs
  {
    if |s| == 0 || s[0] in cs then 0 else 1 + FindFirstOf(s[1..], cs)
  }

  /** find_last_of(c): the last position of c in s, or |s| when c does not occur. */
  function FindLast(s: string, c: char): (r: nat)
    ensures r <= |s|
    ensures r < |s| ==> s[r] == c && forall j | r < j < |s| :: s[j] != c
    ensures r == |s| ==> forall j | 0 <= j < |s| :: s[j] != c
  {
    if |s| == 0 then 0
    else if s[|s| - 1] == c then |s| - 1
    else
      var k := FindLast(s[..|s| - 1], c);
      if k == |s| - 1 then |s| else k
  }

  /** pat occurs in s starting at position j. */
  predicate OccursAt(s: string, pat: string, j: nat) {
    j + |pat| <= |s| && s[j..j + |pat|] == pat
  }

  /** std::search for a non-empty pattern: the first position where pat
      occurs in s, or |s| when it occurs nowhere. */
  function Search(s: string, pat: string): (r: nat)
    requires |pat| > 0
    ensures r <= |s|
    ensures r < |s| ==> OccursAt(s, pat, r)
    ensures forall j | 0 <= j < r :: !OccursAt(s, pat, j)
  {
    if |s| < |pat| then |s|
    else if s[..|pat|] == pat then 0
    else
      var r := Search(s[1..], pat);
      assert forall j | 1 <= j <= r :: OccursAt(s, pat, j) == OccursAt(s[1..], pat, j - 1) by {
        forall j | 1 <= j <= r ensures OccursAt(s, pat, j) == OccursAt(s[1..], pat, j - 1) {
          if j + |pat| <= |s| {
            assert s[1..][j - 1..j - 1 + |pat|] == s[j..j + |pat|];
          }
        }
      }
      assert r < |s| - 1 ==> OccursAt(s[1..], pat, r) && s[1..][r..r + |pat|] == s[r + 1..r + 1 + |pat|];
      assert !OccursAt(s, pat, 0);
      1 + r
  }

  // ---------------------------------------------------------------------
  // Cutting a text at every occurrence of a separator

  /** The pieces of s between occurrences of sep; there is always at least
      one piece, and a separator at either end yields an empty piece. */
  function Split(s: string, sep: char): (r: seq<string>)
    ensures |r| >= 1
    decreases |s|
  {
    if |s| == 0 then [""]
    else
      var t := Split(s[1..], sep);
      if s[0] == sep then [""] + t else [[s[0]] + t[0]] + t[1..]
  }

  /** The pieces put back together with the separator between them. */
  function Join(pieces: seq<string>, sep: char): string
    requires |pieces| >= 1
  {
    if |pieces| == 1 then pieces[0] else pieces[0] + [sep] + Join(pieces[1..], sep)
  }

  /** No piece contains the separator. */
  lemma {:induction false} SplitPiecesHaveNoSeparator(s: string, sep: char)
    ensures forall k | 0 <= k < |Split(s, sep)| :: sep !in Split(s, sep)[k]
  {
    if |s| > 0 {
      SplitPiecesHaveNoSeparator(s[1..], sep);
    }
  }

  /** Joining the pieces gives back the text. */
  lemma {:induction false} JoinSplit(s: string, sep: char)
    ensures Join(Split(s, sep), sep) == s
  {
    if |s| > 0 {
      var t := Split(s[1..], sep);
      JoinSplit(s[1..], sep);
      if s[0] == sep {
        assert ([""] + t)[1..] == t;
      } else {
        var r := [[s[0]] + t[0]] + t[1..];
        if |t| == 1 {
          assert Join(r, sep) == [s[0]] + t[0];
        } else {
          assert r[1..] == t[1..];
          assert Join(t, sep) == t[0] + [sep] + Join(t[1..], sep);
          assert Join(r, sep) == [s[0]] + t[0] + [sep] + Join(t[1..], sep);
        }
      }
      assert s == [s[0]] + s[1..];
    }
  }

  /** A text without the separator is a single piece. */
  lemma {:induction false} SplitWithoutSeparator(s: string, sep: char)
    requires sep !in s
    ensures Split(s, sep) == [s]
  {
    if |s| > 0 {
      SplitWithoutSeparator(s[1..], sep);
      assert s == [s[0]] + s[1..];
    }
  }

  /** Appending a separator opens a new, empty, last piece. */
  lemma {:induction false} SplitSnocSeparator(a: string, sep: char)
    ensures Split(a + [sep], sep) == Split(a, sep) + [""]
  {
    if |a| == 0 {
      assert a + [sep] == [sep];
      assert [sep][1..] == [];
    } else {
      assert (a + [sep])[1..] == a[1..] + [sep];
      SplitSnocSeparator(a[1..], sep);
      var A' := Split(a[1..], sep);
      if a[0] != sep {
        assert ([[a[0]] + A'[0]] + A'[1..]) + [""] == [[a[0]] + (A' + [""])[0]] + (A' + [""])[1..];
      }
    }
  }

  /** Appending any other character extends the last piece. */
  lemma {:induction false} SplitSnocOther(a: string, c: char, sep: char)
    requires c != sep
    ensures var A := Split(a, sep); Split(a + [c], sep) == A[..|A| - 1] + [A[|A| - 1] + [c]]
  {
    var A := Split(a, sep);
    if |a| == 0 {
      assert a + [c] == [c];
      assert [c][1..] == [];
      assert Split([c][1..], sep) == [""];
      assert [c] + "" == [c];
      assert Split([c], sep) == [[c]];
      assert A == [""] && A[0] + [c] == [c];
    } else {
      assert (a + [c])[1..] == a[1..] + [c];
      SplitSnocOther(a[1..], c, sep);
      var A' := Split(a[1..], sep);
      var t := Split(a[1..] + [c], sep);
      assert t == A'[..|A'| - 1] + [A'[|A'| - 1] + [c]];
      if a[0] == sep {
        assert A == [""] + A';
      } else {
        assert A == [[a[0]] + A'[0]] + A'[1..];
        if |A'| == 1 {
          assert [a[0]] + (A'[0] + [c]) == ([a[0]] + A'[0]) + [c];
        } else {
          assert t[0] == A'[0];
          assert t[1..] == A'[1..|A'| - 1] + [A'[|A'| - 1] + [c]];
        }
      }
    }
  }

  /** Appending one character: a separator opens a new empty piece, any other
      character extends the last piece. */
  lemma SplitSnoc(a: string, c: char, sep: char)
    ensures var A := Split(a, sep);
      Split(a + [c], sep) == if c == sep then A + [""] else A[..|A| - 1] + [A[|A| - 1] + [c]]
  {
    if c == sep { SplitSnocSeparator(a, sep); } else { SplitSnocOther(a, c, sep); }
  }

  /** Appending text keeps every complete piece (all but the last) and only
      extends the last piece. */
  lemma {:induction false} SplitPrefixStable(a: string, b: string, sep: char)
    ensures var A, R := Split(a, sep), Split(a + b, sep);
      |R| >= |A| && R[..|A| - 1] == A[..|A| - 1] &&
      |A[|A| - 1]| <= |R[|A| - 1]| && R[|A| - 1][..|A[|A| - 1]|] == A[|A| - 1]
  {
    if |b| > 0 {
      var b' := b[..|b| - 1];
      assert a + b == (a + b') + [b[|b| - 1]];
      SplitPrefixStable(a, b', sep);
      SplitSnoc(a + b', b[|b| - 1], sep);
    } else {
      assert a + b == a;
    }
  }

  /** Cutting pieces that hold no separator, joined by it, gives them back. */
  lemma {:induction false} SplitJoin(pieces: seq<string>, sep: char)
    requires |pieces| >= 1
    requires forall k | 0 <= k < |pieces| :: sep !in pieces[k]
    ensures Split(Join(pieces, sep), sep) == pieces
  {
    if |pieces| == 1 {
      SplitWithoutSeparator(pieces[0], sep);
    } else {
      var rest := Join(pieces[1..], sep);
      SplitJoin(pieces[1..], sep);
      SplitWithoutSeparator(pieces[0], sep);
      SplitSnocSeparator(pieces[0], sep);
      SplitAppendAfterSeparator(pieces[0] + [sep], rest, sep);
      assert Join(pieces, sep) == (pieces[0] + [sep]) + rest;
      assert [pieces[0]] + pieces[1..] == pieces;
    }
  }

  /** Splitting a + b where a ends with the separator: the pieces of a
      (without its empty last piece) followed by those of b. */
  lemma {:induction false} SplitAppendAfterSeparator(a: string, b: string, sep: char)
    requires |a| > 0 && a[|a| - 1] == sep
    ensures Split(a + b, sep) == Split(a, sep)[..|Split(a, sep)| - 1] + Split(b, sep)
    decreases |b|
  {
    if |b| == 0 {
      var A := Split(a, sep);
      assert a + b == a;
      var a' := a[..|a| - 1];
      assert a == a' + [sep];
      SplitSnocSeparator(a', sep);
      assert A[..|A| - 1] + [""] == A;
    } else {
      var b', c := b[..|b| - 1], b[|b| - 1];
      assert b == b' + [c];
      SplitAppendAfterSeparator(a, b', sep);
      SplitAppendSnoc(a, b', c, sep);
    }
  }

  /** One more character after the separator, given the shorter case. */
  lemma SplitAppendSnoc(a: string, b: string, c: char, sep: char)
    requires |a| > 0
    requires Split(a + b, sep) == Split(a, sep)[..|Split(a, sep)| - 1] + Split(b, sep)
    ensures Split(a + (b + [c]), sep) == Split(a, sep)[..|Split(a, sep)| - 1] + Split(b + [c], sep)
  {
    assert a + (b + [c]) == (a + b) + [c];
    if c == sep {
      SplitAppendSnocSeparator(a, b, sep);
    } else {
      SplitAppendSnocOther(a, b, c, sep);
    }
  }

  lemma SplitAppendSnocSeparator(a: string, b: string, sep: char)
    requires |a| > 0
    requires Split(a + b, sep) == Split(a, sep)[..|Split(a, sep)| - 1] + Split(b, sep)
    ensures Split((a + b) + [sep], sep) == Split(a, sep)[..|Split(a, sep)| - 1] + Split(b + [sep], sep)
  {
    var L := Split(a, sep)[..|Split(a, sep)| - 1];
    var B := Split(b, sep);
    SplitSnocSeparator(a + b, sep);
    SplitSnocSeparator(b, sep);
    assert (L + B) + [""] == L + (B + [""]);
  }

  lemma SplitAppendSnocOther(a: string, b: string, c: char, sep: char)
    requires |a| > 0 && c != sep
    requires Split(a + b, sep) == Split(a, sep)[..|Split(a, sep)| - 1] + Split(b, sep)
    ensures Split((a + b) + [c], sep) == Split(a, sep)[..|Split(a, sep)| - 1] + Split(b + [c], sep)
  {
    var L := Split(a, sep)[..|Split(a, sep)| - 1];
    var B := Split(b, sep);
    SplitSnocOther(a + b, c, sep);
    SplitSnocOther(b, c, sep);
    ExtendLastOfConcat(L, B, [c]);
  }

  /** Extending the last piece of L + B extends the last piece of B. */
  lemma ExtendLastOfConcat(L: seq<string>, B: seq<string>, x: string)
    requires |B| >= 1
    ensures var R := L + B;
      R[..|R| - 1] + [R[|R| - 1] + x] == L + (B[..|B| - 1] + [B[|B| - 1] + x])
  {
    var R := L + B;
    assert R[..|R| - 1] == L + B[..|B| - 1];
  }
}
