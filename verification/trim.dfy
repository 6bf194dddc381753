/** Whitespace trimming as done by Go's strings.TrimSpace, which main.go applies
    to every text it extracts. Strings are sequences of Unicode scalar values;
    invalid UTF-8 does not arise in this model. */
module Trim {

  /** The characters Go's unicode.IsSpace accepts: the ASCII and Latin-1 spaces
      and the other characters with the Unicode White_Space property. */
  predicate IsSpace(c: char) {
    var x := c as int;
    || (9 <= x <= 13) || x == 0x20 || x == 0x85 || x == 0xA0
    || x == 0x1680 || (0x2000 <= x <= 0x200A) || x == 0x2028 || x == 0x2029
    || x == 0x202F || x == 0x205F || x == 0x3000
  }

  predicate AllSpace(s: string) {
    forall k :: 0 <= k < |s| ==> IsSpace(s[k])
  }

  /** Neither end of s is whitespace (vacuously true of the empty string). */
  predicate NoEdgeSpace(s: string) {
    |s| == 0 || (!IsSpace(s[0]) && !IsSpace(s[|s| - 1]))
  }

  /** r occurs in s at position i with only whitespace before and after it. */
  predicate CoreAt(s: string, r: string, i: int) {
    && 0 <= i <= |s| - |r|
    && s[i..i + |r|] == r
    && AllSpace(s[..i])
    && AllSpace(s[i + |r|..])
  }

  /** r is what is left of s once the whitespace runs at both of its ends are
      removed: r sits inside s between two runs of whitespace and does not
      itself start or end with whitespace. */
  predicate IsTrimOf(s: string, r: string) {
    NoEdgeSpace(r) && exists i | 0 <= i <= |s| :: CoreAt(s, r, i)
  }

  /** Length of the whitespace run at the start of s. */
  function LeadingSpaces(s: string): (n: nat)
    ensures n <= |s|
    ensures AllSpace(s[..n])
    ensures n < |s| ==> !IsSpace(s[n])
  {
    if |s| == 0 || !IsSpace(s[0]) then 0 else 1 + LeadingSpaces(s[1..])
  }

  /** Length of the whitespace run at the end of s. */
  function TrailingSpaces(s: string): (n: nat)
    ensures n <= |s|
    ensures AllSpace(s[|s| - n..])
    ensures n < |s| ==> !IsSpace(s[|s| - n - 1])
  {
    if |s| == 0 || !IsSpace(s[|s| - 1]) then 0
    else 1 + TrailingSpaces(s[..|s| - 1])
  }

  /** strings.TrimSpace: drop the leading run, then the trailing run of what
      remains. */
  function TrimSpace(s: string): (r: string)
    ensures IsTrimOf(s, r)
  {
    var i := LeadingSpaces(s);
    var t := TrailingSpaces(s[i..]);
    var r := s[i..|s| - t];
    assert CoreAt(s, r, i) by {
      assert s[i + |r|..] == s[i..][|s[i..]| - t..];
    }
    r
  }

  /** There is only one way to trim a string. */
  lemma TrimUnique(s: string, r1: string, r2: string)
    requires IsTrimOf(s, r1) && IsTrimOf(s, r2)
    ensures r1 == r2
  {
    var i1 :| 0 <= i1 <= |s| && CoreAt(s, r1, i1);
    var i2 :| 0 <= i2 <= |s| && CoreAt(s, r2, i2);
    CoreAtIndexed(s, r1, i1);
    CoreAtIndexed(s, r2, i2);
    if |r1| == 0 || |r2| == 0 {
      // One of them is empty, so s is whitespace throughout and the other
      // cannot start with a non-space character.
      assert |r1| == 0 && |r2| == 0;
    } else {
      // Both start at the first non-space character of s and end just after
      // its last non-space character.
      assert i1 == i2;
      assert i1 + |r1| == i2 + |r2|;
      assert r1 == s[i1..i1 + |r1|];
    }
  }

  /** CoreAt spelled out position by position. */
  lemma CoreAtIndexed(s: string, r: string, i: int)
    requires CoreAt(s, r, i)
    ensures forall k :: 0 <= k < i ==> IsSpace(s[k])
    ensures forall k :: i + |r| <= k < |s| ==> IsSpace(s[k])
    ensures forall k :: 0 <= k < |r| ==> s[i + k] == r[k]
  {
    forall k | 0 <= k < i
      ensures IsSpace(s[k])
    {
      assert s[..i][k] == s[k];
    }
    forall k | i + |r| <= k < |s|
      ensures IsSpace(s[k])
    {
      assert s[i + |r|..][k - i - |r|] == s[k];
    }
    forall k | 0 <= k < |r|
      ensures s[i + k] == r[k]
    {
      assert s[i..i + |r|][k] == s[i + k];
    }
  }

  /** TrimSpace returns exactly the trim of s, and nothing else is one. */
  lemma TrimSpaceCharacterised(s: string, r: string)
    ensures IsTrimOf(s, r) <==> r == TrimSpace(s)
  {
    if IsTrimOf(s, r) {
      TrimUnique(s, r, TrimSpace(s));
    }
  }

  /** A string without whitespace at its ends is its own trim. */
  lemma TrimmedIsOwnTrim(t: string)
    requires NoEdgeSpace(t)
    ensures IsTrimOf(t, t)
  {
    assert CoreAt(t, t, 0) by {
      assert t[..0] == [] && t[|t|..] == [];
    }
  }

  /** Whitespace around a core without edge whitespace is exactly what
      TrimSpace removes. */
  lemma TrimSpaceOfPadded(before: string, core: string, after: string)
    requires AllSpace(before) && AllSpace(after) && NoEdgeSpace(core)
    ensures TrimSpace(before + core + after) == core
  {
    var s := before + core + after;
    assert s[..|before|] == before;
    assert s[|before|..|before| + |core|] == core;
    assert s[|before| + |core|..] == after;
    assert CoreAt(s, core, |before|);
    TrimSpaceCharacterised(s, core);
  }

  /** Trimming an already trimmed string changes nothing. */
  lemma TrimSpaceIdempotent(s: string)
    ensures TrimSpace(TrimSpace(s)) == TrimSpace(s)
  {
    var t := TrimSpace(s);
    TrimmedIsOwnTrim(t);
    TrimSpaceCharacterised(t, t);
  }

  /** A string trims to the empty string exactly when it is all whitespace. */
  lemma TrimSpaceEmptyIffAllSpace(s: string)
    ensures TrimSpace(s) == [] <==> AllSpace(s)
  {
    var t := TrimSpace(s);
    var i :| 0 <= i <= |s| && CoreAt(s, t, i);
    CoreAtIndexed(s, t, i);
    if t != [] {
      assert s[i] == t[0];
    }
  }
}
