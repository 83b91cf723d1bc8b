/**
 * The Python string builtins that the concept extractor relies on:
 * str.lower, str.index, slicing and str.replace, over strings of code points.
 */
module PyStr {
  import opened Wrappers

  // ---------------------------------------------------------------------------
  // str.lower
  // ---------------------------------------------------------------------------

  /** The upper-case letters of ASCII and Latin-1 (U+00C0..U+00DE except the multiplication sign). */
  predicate IsUpper(c: char) {
    ('A' <= c <= 'Z') || ((0xC0 as char) <= c <= (0xDE as char) && c != (0xD7 as char))
  }

  /** A string with no upper-case letter is what str.lower returns. */
  predicate IsLowered(s: string) {
    forall i :: 0 <= i < |s| ==> !IsUpper(s[i])
  }

  predicate HasUpper(s: string) {
    exists i :: 0 <= i < |s| && IsUpper(s[i])
  }

  function LowerChar(c: char): (r: char)
    ensures !IsUpper(r)
    ensures !IsUpper(c) ==> r == c
  {
    if IsUpper(c) then (c as int + 32) as char else c
  }

  /** Python's str.lower, restricted to the letters IsUpper knows. */
  function Lower(s: string): (r: string)
    ensures |r| == |s|
  {
    if s == [] then [] else [LowerChar(s[0])] + Lower(s[1..])
  }

  /** Lower-casing works character by character, leaves no upper-case letter and keeps a lower-case string as it is. */
  lemma {:induction false} LowerSpec(s: string)
    ensures forall i :: 0 <= i < |s| ==> Lower(s)[i] == LowerChar(s[i])
    ensures IsLowered(Lower(s))
    ensures IsLowered(s) ==> Lower(s) == s
  {
    if s != [] {
      LowerSpec(s[1..]);
      var r := Lower(s);
      assert r == [LowerChar(s[0])] + Lower(s[1..]);
      forall i | 0 <= i < |s| ensures r[i] == LowerChar(s[i]) {
        if i > 0 {
          assert r[i] == Lower(s[1..])[i - 1];
          assert s[1..][i - 1] == s[i];
        }
      }
    }
  }

  lemma LowerIdempotent(s: string)
    ensures Lower(Lower(s)) == Lower(s)
  {
    LowerSpec(s);
    LowerSpec(Lower(s));
  }

  // ---------------------------------------------------------------------------
  // Occurrences and str.index
  // ---------------------------------------------------------------------------

  /** `p` occurs in `s` starting at position `i`. */
  predicate OccursAt(s: string, p: string, i: nat) {
    i + |p| <= |s| && s[i..i + |p|] == p
  }

  /** Python's `p in s`. */
  ghost predicate Contains(s: string, p: string) {
    exists i: nat :: OccursAt(s, p, i)
  }

  /** `i` is the position of the leftmost occurrence of `p` in `s`. */
  predicate FirstOccurrence(s: string, p: string, i: nat) {
    OccursAt(s, p, i) && forall j: nat :: j < i ==> !OccursAt(s, p, j)
  }

  lemma OccursAfterPrefix(a: string, b: string, p: string, j: nat)
    ensures OccursAt(a + b, p, |a| + j) <==> OccursAt(b, p, j)
  {
    if |a| + j + |p| <= |a + b| {
      assert (a + b)[|a| + j..|a| + j + |p|] == b[j..j + |p|];
    }
  }

  lemma OccursInSuffix(s: string, p: string, k: nat, j: nat)
    requires k <= |s|
    ensures OccursAt(s[k..], p, j) <==> OccursAt(s, p, k + j)
  {
    assert s == s[..k] + s[k..];
    OccursAfterPrefix(s[..k], s[k..], p, j);
  }

  /** A one-character pattern occurs exactly where that character stands. */
  lemma OccursAtChar(s: string, c: char, i: nat)
    ensures OccursAt(s, [c], i) <==> i < |s| && s[i] == c
  {
    if i < |s| {
      assert s[i..i + 1] == [s[i]];
    }
  }

  /**
   * Python's str.index: the leftmost position of `p` in `s`, or None where
   * Python raises ValueError. An empty `p` is found at position 0.
   */
  function IndexOf(s: string, p: string): Option<nat>
    decreases |s|
  {
    if |s| < |p| then None
    else if s[..|p|] == p then Some(0)
    else
      match IndexOf(s[1..], p)
      case None => None
      case Some(i) => Some(i + 1)
  }

  /** str.index finds the first occurrence, and fails exactly when there is none. */
  lemma {:induction false} IndexOfSpec(s: string, p: string)
    ensures IndexOf(s, p).Some? ==> FirstOccurrence(s, p, IndexOf(s, p).value)
    ensures IndexOf(s, p).None? <==> !Contains(s, p)
    decreases |s|
  {
    if |s| < |p| {
    } else if s[..|p|] == p {
      assert OccursAt(s, p, 0);
    } else {
      IndexOfSpec(s[1..], p);
      assert !OccursAt(s, p, 0);
      match IndexOf(s[1..], p)
      case None =>
        forall j: nat ensures !OccursAt(s, p, j) {
          if j > 0 { OccursInSuffix(s, p, 1, j - 1); }
        }
      case Some(i) =>
        OccursInSuffix(s, p, 1, i);
        forall j: nat | j < i + 1 ensures !OccursAt(s, p, j) {
          if j > 0 { OccursInSuffix(s, p, 1, j - 1); }
        }
    }
  }

  lemma FirstOccurrenceUnique(s: string, p: string, i: nat, j: nat)
    requires FirstOccurrence(s, p, i) && FirstOccurrence(s, p, j)
    ensures i == j
  {
  }

  // ---------------------------------------------------------------------------
  // Slicing
  // ---------------------------------------------------------------------------

  /** How Python normalises one bound of a slice of a sequence of length `n`. */
  function SliceBound(k: int, n: nat): (r: nat)
    ensures r <= n
    ensures 0 <= k <= n ==> r == k
  {
    if k < 0 then (if k + n < 0 then 0 else k + n)
    else if k > n then n
    else k
  }

  /** Python's `s[start:stop]`, negative bounds counted from the end. */
  function PySlice(s: string, start: int, stop: int): (r: string)
    ensures 0 <= start <= stop <= |s| ==> r == s[start..stop]
    ensures |r| <= |s|
  {
    var a := SliceBound(start, |s|);
    var b := SliceBound(stop, |s|);
    if a < b then s[a..b] else []
  }

  /**
   * The one-character slice just before position `i`: at `i == 0` the slice
   * is `s[-1:0]`, which is empty, not the last character.
   */
  lemma SliceBefore(s: string, i: nat)
    requires i <= |s|
    ensures PySlice(s, i - 1, i) == if i == 0 then [] else [s[i - 1]]
  {
  }

  // ---------------------------------------------------------------------------
  // str.replace
  // ---------------------------------------------------------------------------

  /**
   * Python's `s.replace(pat, rep)`: every non-overlapping occurrence, left to
   * right. An empty `pat` puts `rep` before every character and at the end.
   */
  function Replace(s: string, pat: string, rep: string): string
    decreases |s|
  {
    if pat == [] then (if s == [] then rep else rep + [s[0]] + Replace(s[1..], pat, rep))
    else if |s| < |pat| then s
    else if s[..|pat|] == pat then rep + Replace(s[|pat|..], pat, rep)
    else [s[0]] + Replace(s[1..], pat, rep)
  }

  /** Where the pattern does not occur, str.replace returns the string unchanged. */
  lemma {:induction false} ReplaceWithoutOccurrence(s: string, pat: string, rep: string)
    requires pat != [] && !Contains(s, pat)
    ensures Replace(s, pat, rep) == s
    decreases |s|
  {
    if |s| < |pat| {
    } else if s[..|pat|] == pat {
      assert OccursAt(s, pat, 0);
    } else {
      forall j: nat ensures !OccursAt(s[1..], pat, j) {
        OccursInSuffix(s, pat, 1, j);
      }
      ReplaceWithoutOccurrence(s[1..], pat, rep);
    }
  }

  /** Every character of a replacement comes from the subject or from the replacement text. */
  lemma {:induction false} ReplaceKeepsLowered(s: string, pat: string, rep: string)
    requires IsLowered(s) && IsLowered(rep)
    ensures IsLowered(Replace(s, pat, rep))
    decreases |s|
  {
    if pat == [] {
      if s != [] {
        ReplaceKeepsLowered(s[1..], pat, rep);
      }
    } else if |s| < |pat| {
    } else if s[..|pat|] == pat {
      ReplaceKeepsLowered(s[|pat|..], pat, rep);
    } else {
      ReplaceKeepsLowered(s[1..], pat, rep);
    }
  }

  /** Replacing a pattern with itself changes nothing. */
  lemma {:induction false} ReplaceWithItself(s: string, pat: string)
    requires pat != []
    ensures Replace(s, pat, pat) == s
    decreases |s|
  {
    if |s| < |pat| {
    } else if s[..|pat|] == pat {
      ReplaceWithItself(s[|pat|..], pat);
      assert s == s[..|pat|] + s[|pat|..];
    } else {
      ReplaceWithItself(s[1..], pat);
      assert s == [s[0]] + s[1..];
    }
  }

  // ---------------------------------------------------------------------------
  // The pieces between occurrences (Python's str.split), used to state what
  // str.replace leaves alone.
  // ---------------------------------------------------------------------------

  ghost function Split(s: string, pat: string): (r: seq<string>)
    requires pat != []
    ensures |r| >= 1
    ensures |r[0]| <= |s| && r[0] == s[..|r[0]|]
    decreases |s|
  {
    if |s| < |pat| then [s]
    else if s[..|pat|] == pat then [[]] + Split(s[|pat|..], pat)
    else
      var rest := Split(s[1..], pat);
      [[s[0]] + rest[0]] + rest[1..]
  }

  ghost function Join(pieces: seq<string>, sep: string): string
  {
    if pieces == [] then []
    else if |pieces| == 1 then pieces[0]
    else pieces[0] + sep + Join(pieces[1..], sep)
  }

  lemma {:induction false} ReplaceJoinsPieces(s: string, pat: string, rep: string)
    requires pat != []
    ensures Replace(s, pat, rep) == Join(Split(s, pat), rep)
    decreases |s|
  {
    if |s| < |pat| {
    } else if s[..|pat|] == pat {
      var tail := s[|pat|..];
      ReplaceJoinsPieces(tail, pat, rep);
      assert Split(s, pat) == [[]] + Split(tail, pat);
      assert Replace(s, pat, rep) == rep + Replace(tail, pat, rep);
      JoinCons([], Split(tail, pat), rep);
    } else {
      var tail := s[1..];
      ReplaceJoinsPieces(tail, pat, rep);
      var rest := Split(tail, pat);
      assert Split(s, pat) == [[s[0]] + rest[0]] + rest[1..];
      assert Replace(s, pat, rep) == [s[0]] + Replace(tail, pat, rep);
      if |rest| == 1 {
        assert Join(rest, rep) == rest[0];
      } else {
        assert rest == [rest[0]] + rest[1..];
        JoinCons(rest[0], rest[1..], rep);
        JoinCons([s[0]] + rest[0], rest[1..], rep);
      }
    }
  }

  lemma JoinCons(first: string, more: seq<string>, sep: string)
    requires more != []
    ensures Join([first] + more, sep) == first + sep + Join(more, sep)
  {
    assert ([first] + more)[1..] == more;
  }

  lemma {:induction false} PiecesAreFree(s: string, pat: string)
    requires pat != []
    ensures forall k :: 0 <= k < |Split(s, pat)| ==> !Contains(Split(s, pat)[k], pat)
    decreases |s|
  {
    if |s| < |pat| {
    } else if s[..|pat|] == pat {
      PiecesAreFree(s[|pat|..], pat);
    } else {
      PiecesAreFree(s[1..], pat);
      var rest := Split(s[1..], pat);
      var first := [s[0]] + rest[0];
      assert first == s[..|first|];
      forall j: nat ensures !OccursAt(first, pat, j) {
        if j == 0 {
          if |pat| <= |first| {
            assert s[..|pat|] == first[..|pat|];
          }
        } else {
          OccursAfterPrefix([s[0]], rest[0], pat, j - 1);
        }
      }
    }
  }

  lemma {:induction false} FirstPieceEndsAtIndex(s: string, pat: string)
    requires pat != []
    ensures IndexOf(s, pat).None? ==> Split(s, pat) == [s]
    ensures IndexOf(s, pat).Some? ==> |Split(s, pat)| >= 2 && |Split(s, pat)[0]| == IndexOf(s, pat).value
    decreases |s|
  {
    if |s| < |pat| {
    } else if s[..|pat|] == pat {
    } else {
      FirstPieceEndsAtIndex(s[1..], pat);
      assert [s[0]] + s[1..] == s;
    }
  }

  /** After the first occurrence, the pieces are those of the rest of the string: the scan goes on from there. */
  lemma {:induction false} SplitAfterFirst(s: string, pat: string, i: nat)
    requires pat != [] && FirstOccurrence(s, pat, i)
    ensures Split(s, pat)[1..] == Split(s[i + |pat|..], pat)
    decreases |s|
  {
    if i == 0 {
      assert s[..|pat|] == pat;
    } else {
      assert !OccursAt(s, pat, 0);
      OccursInSuffix(s, pat, 1, i - 1);
      forall j: nat | j < i - 1 ensures !OccursAt(s[1..], pat, j) {
        OccursInSuffix(s, pat, 1, j);
      }
      SplitAfterFirst(s[1..], pat, i - 1);
      assert s[1..][i - 1 + |pat|..] == s[i + |pat|..];
      var rest := Split(s[1..], pat);
      assert Split(s, pat) == [[s[0]] + rest[0]] + rest[1..];
    }
  }

  /**
   * What `s.replace(pat, rep)` does and does not change: `s` is its pieces
   * joined by `pat`, the result is the same pieces joined by `rep`, no piece
   * still holds `pat`, and the first piece ends at the first occurrence.
   */
  lemma ReplaceOnlyOccurrences(s: string, pat: string, rep: string)
    requires pat != []
    ensures Join(Split(s, pat), pat) == s
    ensures Replace(s, pat, rep) == Join(Split(s, pat), rep)
    ensures forall k :: 0 <= k < |Split(s, pat)| ==> !Contains(Split(s, pat)[k], pat)
    ensures forall i: nat :: FirstOccurrence(s, pat, i) ==> |Split(s, pat)| >= 2 && |Split(s, pat)[0]| == i
    ensures forall i: nat :: FirstOccurrence(s, pat, i) ==> Split(s, pat)[1..] == Split(s[i + |pat|..], pat)
    ensures !Contains(s, pat) ==> Split(s, pat) == [s]
  {
    IndexOfSpec(s, pat);
    ReplaceJoinsPieces(s, pat, rep);
    ReplaceJoinsPieces(s, pat, pat);
    ReplaceWithItself(s, pat);
    PiecesAreFree(s, pat);
    FirstPieceEndsAtIndex(s, pat);
    forall i: nat | FirstOccurrence(s, pat, i)
      ensures |Split(s, pat)| >= 2 && |Split(s, pat)[0]| == i
      ensures Split(s, pat)[1..] == Split(s[i + |pat|..], pat)
    {
      FirstOccurrenceUnique(s, pat, i, IndexOf(s, pat).value);
      SplitAfterFirst(s, pat, i);
    }
  }

  // ---------------------------------------------------------------------------
  // When a masked term cannot come back
  // ---------------------------------------------------------------------------

  /**
   * `p` cannot be formed with any character of `tag`: it holds neither the
   * tag's first nor its last character and does not occur inside the tag.
   */
  ghost predicate NoTagOverlap(p: string, tag: string) {
    p != [] && |tag| > 0 && tag[0] !in p && tag[|tag| - 1] !in p && !Contains(tag, p)
  }

  /** A window starting inside the tag at the front of a string is never `p`. */
  lemma WindowInTag(tag: string, rest: string, p: string, j: nat)
    requires NoTagOverlap(p, tag)
    requires j < |tag|
    ensures !OccursAt(tag + rest, p, j)
  {
    if j + |p| <= |tag| {
      assert (tag + rest)[j..j + |p|] == tag[j..j + |p|];
      assert OccursAt(tag + rest, p, j) ==> OccursAt(tag, p, j);
    } else if j + |p| <= |tag + rest| {
      var k := |tag| - 1 - j;
      assert (tag + rest)[j..j + |p|][k] == tag[|tag| - 1];
    }
  }

  /** A tag in front of a string free of `p` leaves it free of `p`. */
  lemma TagInFront(tag: string, rest: string, p: string)
    requires NoTagOverlap(p, tag) && !Contains(rest, p)
    ensures !Contains(tag + rest, p)
  {
    forall j: nat ensures !OccursAt(tag + rest, p, j) {
      if j < |tag| {
        WindowInTag(tag, rest, p, j);
      } else {
        OccursAfterPrefix(tag, rest, p, j - |tag|);
      }
    }
  }

  lemma CharInFront(c: char, rest: string, p: string)
    requires !Contains(rest, p) && !OccursAt([c] + rest, p, 0)
    ensures !Contains([c] + rest, p)
  {
    forall j: nat ensures !OccursAt([c] + rest, p, j) {
      if j > 0 {
        OccursAfterPrefix([c], rest, p, j - 1);
      }
    }
  }

  /**
   * A prefix of a replacement result that does not hold the tag's first
   * character is a prefix of the original string too.
   */
  /** A string that starts with a character missing from `w` does not start with `w`. */
  lemma HeadBlocks(r: string, w: string)
    requires w != [] && |r| > 0 && r[0] !in w
    ensures !OccursAt(r, w, 0)
  {
    if |w| <= |r| {
      assert r[..|w|][0] == r[0];
    }
  }

  lemma {:induction false} UntouchedPrefix(x: string, q: string, tag: string, w: string)
    requires |tag| > 0 && tag[0] !in w
    ensures OccursAt(Replace(x, q, tag), w, 0) ==> OccursAt(x, w, 0)
    decreases |x|
  {
    var r := Replace(x, q, tag);
    if w == [] {
    } else if q == [] {
      if x == [] {
        assert r == tag;
      } else {
        assert r == tag + [x[0]] + Replace(x[1..], q, tag);
      }
      assert r[0] == tag[0];
      HeadBlocks(r, w);
    } else if |x| < |q| {
      assert r == x;
    } else if x[..|q|] == q {
      assert r == tag + Replace(x[|q|..], q, tag);
      assert r[0] == tag[0];
      HeadBlocks(r, w);
    } else {
      UntouchedPrefix(x[1..], q, tag, w[1..]);
      assert r == [x[0]] + Replace(x[1..], q, tag);
      if OccursAt(r, w, 0) {
        assert Replace(x[1..], q, tag)[..|w| - 1] == r[1..|w|] == w[1..];
        assert x[1..][..|w| - 1] == w[1..];
        assert x[..|w|] == [x[0]] + x[1..][..|w| - 1];
      }
    }
  }

  /** Masking `p` with the tag removes every occurrence of `p` for good. */
  lemma {:induction false} MaskRemovesTerm(y: string, p: string, tag: string)
    requires NoTagOverlap(p, tag)
    ensures !Contains(Replace(y, p, tag), p)
    decreases |y|
  {
    var r := Replace(y, p, tag);
    if |y| < |p| {
    } else if y[..|p|] == p {
      var r' := Replace(y[|p|..], p, tag);
      MaskRemovesTerm(y[|p|..], p, tag);
      assert r == tag + r';
      TagInFront(tag, r', p);
    } else {
      var r' := Replace(y[1..], p, tag);
      MaskRemovesTerm(y[1..], p, tag);
      assert r == [y[0]] + r';
      UntouchedPrefix(y, p, tag, p);
      CharInFront(y[0], r', p);
    }
  }

  lemma AbsentInSuffix(y: string, p: string, k: nat)
    requires k <= |y| && !Contains(y, p)
    ensures !Contains(y[k..], p)
  {
    forall j: nat ensures !OccursAt(y[k..], p, j) {
      OccursInSuffix(y, p, k, j);
    }
  }

  /** The window right after an inserted tag, at the first character of `y`. */
  lemma AfterInsertedTag(y: string, tag: string, p: string)
    requires NoTagOverlap(p, tag) && y != []
    requires !OccursAt(y, p, 0)
    ensures !OccursAt([y[0]] + Replace(y[1..], [], tag), p, 0)
  {
    var r' := Replace(y[1..], [], tag);
    UntouchedPrefix(y[1..], [], tag, p[1..]);
    if |p| <= |[y[0]] + r'| {
      assert r'[..|p| - 1] == ([y[0]] + r')[1..|p|];
    }
    if |p| <= |y| {
      assert y[..|p|] == [y[0]] + y[1..][..|p| - 1];
    }
  }

  lemma {:induction false} EmptyPatternKeepsAbsent(y: string, tag: string, p: string)
    requires NoTagOverlap(p, tag)
    requires !Contains(y, p)
    ensures !Contains(Replace(y, [], tag), p)
    decreases |y|
  {
    var r := Replace(y, [], tag);
    if y == [] {
      assert r == tag;
    } else {
      var r' := Replace(y[1..], [], tag);
      AbsentInSuffix(y, p, 1);
      EmptyPatternKeepsAbsent(y[1..], tag, p);
      assert r == tag + ([y[0]] + r');
      forall j: nat ensures !OccursAt(r, p, j) {
        if j < |tag| {
          WindowInTag(tag, [y[0]] + r', p, j);
        } else {
          OccursAfterPrefix(tag, [y[0]] + r', p, j - |tag|);
          if j == |tag| {
            AfterInsertedTag(y, tag, p);
          } else {
            OccursAfterPrefix([y[0]], r', p, j - |tag| - 1);
          }
        }
      }
    }
  }

  lemma {:induction false} PatternKeepsAbsent(y: string, q: string, tag: string, p: string)
    requires NoTagOverlap(p, tag) && q != []
    requires !Contains(y, p)
    ensures !Contains(Replace(y, q, tag), p)
    decreases |y|
  {
    var r := Replace(y, q, tag);
    if |y| < |q| {
    } else if y[..|q|] == q {
      var r' := Replace(y[|q|..], q, tag);
      AbsentInSuffix(y, p, |q|);
      PatternKeepsAbsent(y[|q|..], q, tag, p);
      assert r == tag + r';
      TagInFront(tag, r', p);
    } else {
      var r' := Replace(y[1..], q, tag);
      AbsentInSuffix(y, p, 1);
      PatternKeepsAbsent(y[1..], q, tag, p);
      assert r == [y[0]] + r';
      UntouchedPrefix(y, q, tag, p);
      CharInFront(y[0], r', p);
    }
  }

  /** Masking any other term with the tag never creates an occurrence of `p`. */
  lemma MaskKeepsAbsent(y: string, q: string, tag: string, p: string)
    requires NoTagOverlap(p, tag)
    requires !Contains(y, p)
    ensures !Contains(Replace(y, q, tag), p)
  {
    if q == [] {
      EmptyPatternKeepsAbsent(y, tag, p);
    } else {
      PatternKeepsAbsent(y, q, tag, p);
    }
  }

  /** A string without upper-case letters holds no term that has one. */
  lemma LoweredHasNoUpperTerm(w: string, p: string)
    requires IsLowered(w) && HasUpper(p)
    ensures !Contains(w, p)
  {
    var k :| 0 <= k < |p| && IsUpper(p[k]);
    forall i: nat ensures !OccursAt(w, p, i) {
      if i + |p| <= |w| {
        assert w[i + k] == w[i..i + |p|][k];
      }
    }
  }
}
