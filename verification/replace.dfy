/** Replace-all on strings as done by Go's strings.Replace(s, old, new, -1),
    which main.go uses to substitute query values into a source URL. */
module Replace {

  /** p occurs in s starting at position i. */
  predicate OccursAt(s: string, p: string, i: int) {
    0 <= i && i + |p| <= |s| && s[i..i + |p|] == p
  }

  predicate Occurs(s: string, p: string) {
    exists i | 0 <= i <= |s| :: OccursAt(s, p, i)
  }

  /** strings.Replace with a negative count: scanning left to right, every
      non-overlapping occurrence of p is replaced by r. An empty p matches
      before every character and at the end. */
  function ReplaceAll(s: string, p: string, r: string): string
    decreases |s|
  {
    if |p| == 0 then InsertEverywhere(s, r)
    else if |s| < |p| then s
    else if s[..|p|] == p then r + ReplaceAll(s[|p|..], p, r)
    else [s[0]] + ReplaceAll(s[1..], p, r)
  }

  /** The empty-pattern case of strings.Replace: r before every character and
      once more at the end. */
  function InsertEverywhere(s: string, r: string): string
  {
    if |s| == 0 then r else r + [s[0]] + InsertEverywhere(s[1..], r)
  }

  /** Cut s at the occurrences of p that ReplaceAll replaces (p non-empty). */
  function Split(s: string, p: string): (pieces: seq<string>)
    requires |p| > 0
    ensures |pieces| > 0
    ensures pieces[0] <= s
    decreases |s|
  {
    if |s| < |p| then [s]
    else if s[..|p|] == p then [[]] + Split(s[|p|..], p)
    else
      var rest := Split(s[1..], p);
      [[s[0]] + rest[0]] + rest[1..]
  }

  /** The pieces, with sep between each two neighbours. */
  function Join(pieces: seq<string>, sep: string): string
  {
    if |pieces| == 0 then []
    else if |pieces| == 1 then pieces[0]
    else pieces[0] + sep + Join(pieces[1..], sep)
  }

  /** Adding a character to the first piece adds it to the front of the join. */
  lemma JoinConsFirst(c: char, pieces: seq<string>, sep: string)
    requires |pieces| > 0
    ensures Join([[c] + pieces[0]] + pieces[1..], sep) == [c] + Join(pieces, sep)
  {
    var q := [[c] + pieces[0]] + pieces[1..];
    assert q[1..] == pieces[1..];
  }

  /** Splitting at p and joining with p gives back the original string. */
  lemma {:induction false} SplitJoin(s: string, p: string)
    requires |p| > 0
    ensures Join(Split(s, p), p) == s
    decreases |s|
  {
    if |s| < |p| {
    } else if s[..|p|] == p {
      var rest := Split(s[|p|..], p);
      SplitJoin(s[|p|..], p);
      assert ([[]] + rest)[1..] == rest;
      assert s == s[..|p|] + s[|p|..];
    } else {
      var rest := Split(s[1..], p);
      SplitJoin(s[1..], p);
      JoinConsFirst(s[0], rest, p);
      assert s == [s[0]] + s[1..];
    }
  }

  /** ReplaceAll is the split at p joined back with r. */
  lemma {:induction false} ReplaceAllIsJoinOfSplit(s: string, p: string, r: string)
    requires |p| > 0
    ensures ReplaceAll(s, p, r) == Join(Split(s, p), r)
    decreases |s|
  {
    if |s| < |p| {
    } else if s[..|p|] == p {
      var rest := Split(s[|p|..], p);
      ReplaceAllIsJoinOfSplit(s[|p|..], p, r);
      assert ([[]] + rest)[1..] == rest;
    } else {
      var rest := Split(s[1..], p);
      ReplaceAllIsJoinOfSplit(s[1..], p, r);
      JoinConsFirst(s[0], rest, r);
    }
  }

  /** No piece of the split contains p: every occurrence of p has been cut out. */
  lemma {:induction false} SplitPiecesFree(s: string, p: string)
    requires |p| > 0
    ensures forall k :: 0 <= k < |Split(s, p)| ==> !Occurs(Split(s, p)[k], p)
    decreases |s|
  {
    var pieces := Split(s, p);
    if |s| < |p| {
    } else if s[..|p|] == p {
      SplitPiecesFree(s[|p|..], p);
      assert pieces[1..] == Split(s[|p|..], p);
    } else {
      var rest := Split(s[1..], p);
      SplitPiecesFree(s[1..], p);
      assert pieces[1..] == rest[1..];
      var first := [s[0]] + rest[0];
      assert first <= s;
      forall i | 0 <= i <= |first|
        ensures !OccursAt(first, p, i)
      {
        if i > 0 && OccursAt(first, p, i) {
          assert first[i..i + |p|] == rest[0][i - 1..i - 1 + |p|];
          assert OccursAt(rest[0], p, i - 1);
        }
      }
      assert pieces[0] == first;
    }
  }

  /** Every cut is leftmost: no occurrence of p starts inside a piece that is
      followed by a cut, not even one that runs on into the cut-out p. */
  predicate LeftmostCuts(pieces: seq<string>, p: string) {
    forall k, j :: 0 <= k < |pieces| - 1 && 0 <= j < |pieces[k]| ==> !OccursAt(pieces[k] + p, p, j)
  }

  /** When the split has a cut, its first piece followed by p begins s. */
  lemma SplitFirstCut(s: string, p: string)
    requires |p| > 0 && |Split(s, p)| > 1
    ensures Split(s, p)[0] + p <= s
  {
    var pieces := Split(s, p);
    SplitJoin(s, p);
    var rest := Join(pieces[1..], p);
    assert s == (pieces[0] + p) + rest;
  }

  /** The split cuts at the leftmost occurrence each time, as Go's scan with
      strings.Index does: "aaa" cut at "aa" is ["", "a"], never ["a", ""]. */
  lemma {:induction false} SplitLeftmost(s: string, p: string)
    requires |p| > 0
    ensures LeftmostCuts(Split(s, p), p)
    decreases |s|
  {
    var pieces := Split(s, p);
    if |s| < |p| {
    } else if s[..|p|] == p {
      var rest := Split(s[|p|..], p);
      SplitLeftmost(s[|p|..], p);
      assert pieces == [[]] + rest;
      forall k, j | 0 <= k < |pieces| - 1 && 0 <= j < |pieces[k]|
        ensures !OccursAt(pieces[k] + p, p, j)
      {
        assert pieces[k] == rest[k - 1];
      }
    } else {
      var rest := Split(s[1..], p);
      SplitLeftmost(s[1..], p);
      var first := [s[0]] + rest[0];
      assert pieces == [first] + rest[1..];
      forall k, j | 0 <= k < |pieces| - 1 && 0 <= j < |pieces[k]|
        ensures !OccursAt(pieces[k] + p, p, j)
      {
        if k > 0 {
          assert pieces[k] == rest[k];
        } else if j == 0 {
          SplitFirstCut(s[1..], p);
          assert first + p <= s;
          assert (first + p)[0..|p|] == s[..|p|];
        } else {
          assert !OccursAt(rest[0] + p, p, j - 1);
          assert (first + p)[j..j + |p|] == (rest[0] + p)[j - 1..j - 1 + |p|];
        }
      }
    }
  }

  /** A string without p is split into itself alone. */
  lemma {:induction false} SplitWithoutOccurrence(s: string, p: string)
    requires |p| > 0 && !Occurs(s, p)
    ensures Split(s, p) == [s]
    decreases |s|
  {
    if |s| >= |p| {
      assert !OccursAt(s, p, 0);
      NoOccurrenceInTail(s, p);
      SplitWithoutOccurrence(s[1..], p);
      assert [s[0]] + s[1..] == s;
    }
  }

  /** Dropping the first character cannot create an occurrence. */
  lemma NoOccurrenceInTail(s: string, p: string)
    requires |s| > 0 && !Occurs(s, p)
    ensures !Occurs(s[1..], p)
  {
    forall i | 0 <= i <= |s[1..]|
      ensures !OccursAt(s[1..], p, i)
    {
      assert !OccursAt(s, p, i + 1);
      if i + |p| <= |s[1..]| {
        assert s[1..][i..i + |p|] == s[i + 1..i + 1 + |p|];
      }
    }
  }

  /** Leftmost cuts stay leftmost when the first piece is dropped. */
  lemma LeftmostCutsTail(q: seq<string>, p: string)
    requires |q| > 0 && LeftmostCuts(q, p)
    ensures LeftmostCuts(q[1..], p)
  {
    forall k, j | 0 <= k < |q[1..]| - 1 && 0 <= j < |q[1..][k]|
      ensures !OccursAt(q[1..][k] + p, p, j)
    {
      assert q[1..][k] == q[k + 1];
    }
  }

  /** Leftmost cuts stay leftmost when the first piece loses its first
      character. */
  lemma LeftmostCutsDropChar(q: seq<string>, p: string)
    requires |q| > 1 && |q[0]| > 0 && LeftmostCuts(q, p)
    ensures LeftmostCuts([q[0][1..]] + q[1..], p)
  {
    var q' := [q[0][1..]] + q[1..];
    forall k, j | 0 <= k < |q'| - 1 && 0 <= j < |q'[k]|
      ensures !OccursAt(q'[k] + p, p, j)
    {
      if k == 0 {
        assert !OccursAt(q[0] + p, p, j + 1);
        assert (q'[0] + p)[j..j + |p|] == (q[0] + p)[j + 1..j + 1 + |p|];
      } else {
        assert q'[k] == q[k];
      }
    }
  }

  /** Any cutting of s into pieces joined by p, with leftmost cuts and no p
      left in the last piece, is the split. */
  lemma {:induction false} SplitUnique(s: string, p: string, q: seq<string>)
    requires |p| > 0 && |q| > 0
    requires Join(q, p) == s && LeftmostCuts(q, p) && !Occurs(q[|q| - 1], p)
    ensures q == Split(s, p)
    decreases |s|
  {
    if |q| == 1 {
      SplitWithoutOccurrence(s, p);
    } else {
      var t := Join(q[1..], p);
      assert s == (q[0] + p) + t;
      LeftmostCutsTail(q, p);
      assert q[1..][|q[1..]| - 1] == q[|q| - 1];
      if |q[0]| == 0 {
        assert s[..|p|] == p && s[|p|..] == t;
        SplitUnique(t, p, q[1..]);
        assert q == [[]] + q[1..];
      } else {
        assert !OccursAt(q[0] + p, p, 0);
        assert s[..|p|] == (q[0] + p)[..|p|];
        var q' := [q[0][1..]] + q[1..];
        LeftmostCutsDropChar(q, p);
        assert q'[1..] == q[1..];
        assert Join(q', p) == s[1..];
        assert q'[|q'| - 1] == q[|q| - 1];
        SplitUnique(s[1..], p, q');
        assert s[0] == q[0][0];
        assert q[0] == [s[0]] + q'[0];
        assert q == [[s[0]] + q'[0]] + q'[1..];
      }
    }
  }

  /** The split is characterised without reference to how it is computed:
      pieces that join back to s with p, every cut leftmost, and no p left in
      the last piece. */
  lemma SplitCharacterised(s: string, p: string, q: seq<string>)
    requires |p| > 0
    ensures q == Split(s, p) <==>
      |q| > 0 && Join(q, p) == s && LeftmostCuts(q, p) && !Occurs(q[|q| - 1], p)
  {
    if q == Split(s, p) {
      SplitJoin(s, p);
      SplitLeftmost(s, p);
      SplitPiecesFree(s, p);
    } else if |q| > 0 && Join(q, p) == s && LeftmostCuts(q, p) && !Occurs(q[|q| - 1], p) {
      SplitUnique(s, p, q);
    }
  }

  /** A string without an occurrence of p is left as it is. */
  lemma {:induction false} ReplaceAllWithoutOccurrence(s: string, p: string, r: string)
    requires |p| > 0
    requires !Occurs(s, p)
    ensures ReplaceAll(s, p, r) == s
    decreases |s|
  {
    if |s| < |p| {
    } else {
      assert !OccursAt(s, p, 0);
      NoOccurrenceInTail(s, p);
      ReplaceAllWithoutOccurrence(s[1..], p, r);
    }
  }

  /** Replacing p by itself is the identity, as strings.Replace's own shortcut
      for old == new returns s unchanged. */
  lemma ReplaceAllSelf(s: string, p: string)
    ensures ReplaceAll(s, p, p) == s
  {
    if |p| == 0 {
      InsertEverywhereEmpty(s);
    } else {
      ReplaceAllIsJoinOfSplit(s, p, p);
      SplitJoin(s, p);
    }
  }

  lemma {:induction false} InsertEverywhereEmpty(s: string)
    ensures InsertEverywhere(s, []) == s
    decreases |s|
  {
    if |s| > 0 {
      InsertEverywhereEmpty(s[1..]);
      assert s == [s[0]] + s[1..];
    }
  }
}
