/** Literal search-and-replace over strings, with the semantics of JavaScript's
    `String.prototype.replace`: with a string pattern only the leftmost
    occurrence is replaced; with a global regular expression made of plain
    characters every occurrence is replaced, scanning left to right, each match
    starting after the end of the previous one. Replacement texts are inserted
    literally. */
module Replace {

  datatype Option<T> = None | Some(value: T)

  /** `pat` occurs in `s` starting at index `i`. */
  ghost predicate OccursAt(s: string, pat: string, i: int) {
    0 <= i && i + |pat| <= |s| && s[i..i + |pat|] == pat
  }

  ghost predicate Contains(s: string, pat: string) {
    exists i :: OccursAt(s, pat, i)
  }

  /** `i` is the leftmost occurrence of `pat` in `s`. */
  ghost predicate FirstOccurrence(s: string, pat: string, i: int) {
    OccursAt(s, pat, i) && forall j :: 0 <= j < i ==> !OccursAt(s, pat, j)
  }

  lemma ConsTail(s: string, x: string)
    requires s != []
    ensures [s[0]] + (s[1..] + x) == s + x
    ensures (s + x)[1..] == s[1..] + x
  {
    assert [s[0]] + s[1..] == s;
  }

  lemma ConsPrefix(s: string, i: int, rep: string, x: string)
    requires 0 < i <= |s|
    ensures [s[0]] + (s[1..][..i - 1] + rep + x) == s[..i] + rep + x
  {
    assert [s[0]] + s[1..][..i - 1] == s[..i];
  }

  lemma OccursAtStart(s: string, pat: string)
    ensures OccursAt(s, pat, 0) <==> pat <= s
  {
  }

  /** An occurrence one position further into `s` is an occurrence in its tail. */
  lemma OccursShift(s: string, pat: string, i: int)
    requires s != [] && 0 <= i
    ensures OccursAt(s, pat, i + 1) <==> OccursAt(s[1..], pat, i)
  {
    if i + 1 + |pat| <= |s| {
      assert s[i + 1..i + 1 + |pat|] == s[1..][i..i + |pat|];
    }
  }

  /** An occurrence is either at the front or in the tail. */
  lemma ContainsSplit(s: string, pat: string)
    requires s != []
    ensures Contains(s, pat) <==> pat <= s || Contains(s[1..], pat)
  {
    OccursAtStart(s, pat);
    if Contains(s, pat) && !(pat <= s) {
      var i :| OccursAt(s, pat, i);
      OccursShift(s, pat, i - 1);
      assert OccursAt(s[1..], pat, i - 1);
    }
    if Contains(s[1..], pat) {
      var i :| OccursAt(s[1..], pat, i);
      OccursShift(s, pat, i);
      assert OccursAt(s, pat, i + 1);
    }
  }

  /** A pattern with a character that `s` lacks does not occur in `s`. */
  lemma MissingCharNoMatch(s: string, pat: string, k: nat)
    requires k < |pat| && pat[k] !in s
    ensures !Contains(s, pat)
  {
    forall i | 0 <= i && i + |pat| <= |s| ensures !OccursAt(s, pat, i) {
      assert s[i..i + |pat|][k] == s[i + k];
    }
  }

  /** Text without the pattern holds it in none of its prefixes. */
  lemma ContainsInPrefix(a: string, b: string, pat: string)
    requires !Contains(a + b, pat)
    ensures !Contains(a, pat)
  {
    forall i | 0 <= i && i + |pat| <= |a| ensures !OccursAt(a, pat, i) {
      assert (a + b)[i..i + |pat|] == a[i..i + |pat|];
      assert !OccursAt(a + b, pat, i);
    }
  }

  /** JavaScript's `indexOf`: the leftmost index at which `pat` occurs in `s`. */
  function IndexOf(s: string, pat: string): (r: Option<nat>)
    ensures r.Some? ==> FirstOccurrence(s, pat, r.value)
    ensures r.None? <==> !Contains(s, pat)
    decreases |s|
  {
    OccursAtStart(s, pat);
    if pat <= s then Some(0)
    else if s == [] then
      assert forall i :: !OccursAt(s, pat, i);
      None
    else
      ContainsSplit(s, pat);
      match IndexOf(s[1..], pat)
      case None => None
      case Some(i) =>
        assert forall j :: 0 <= j < i + 1 ==> !OccursAt(s, pat, j) by {
          forall j | 0 <= j < i + 1 ensures !OccursAt(s, pat, j) {
            if j > 0 { OccursShift(s, pat, j - 1); }
          }
        }
        OccursShift(s, pat, i);
        Some(i + 1)
  }

  /** There is only one leftmost occurrence. */
  lemma FirstOccurrenceUnique(s: string, pat: string, i: int, j: int)
    requires FirstOccurrence(s, pat, i) && FirstOccurrence(s, pat, j)
    ensures i == j
  {
  }

  /** `s.replace(pat, rep)` with a string pattern: only the leftmost occurrence
      is replaced, and the text after it is kept verbatim. */
  function ReplaceFirst(s: string, pat: string, rep: string): (r: string)
    ensures !Contains(s, pat) ==> r == s
    ensures forall i :: FirstOccurrence(s, pat, i) ==> r == s[..i] + rep + s[i + |pat|..]
  {
    match IndexOf(s, pat)
    case None => s
    case Some(i) =>
      assert forall j :: FirstOccurrence(s, pat, j) ==> j == i by {
        forall j | FirstOccurrence(s, pat, j) ensures j == i {
          FirstOccurrenceUnique(s, pat, i, j);
        }
      }
      s[..i] + rep + s[i + |pat|..]
  }

  /** An occurrence after the replaced one survives, shifted by the change in length. */
  lemma ReplaceFirstKeepsLater(s: string, pat: string, rep: string, i: int, j: int)
    requires FirstOccurrence(s, pat, i) && OccursAt(s, pat, j) && i + |pat| <= j
    ensures OccursAt(ReplaceFirst(s, pat, rep), pat, j - |pat| + |rep|)
  {
    ReplaceFirstAt(s, pat, rep, i);
    SpliceKeepsLater(s, pat, rep, i, j);
  }

  lemma SpliceKeepsLater(s: string, pat: string, rep: string, i: int, j: int)
    requires 0 <= i && i + |pat| <= j && OccursAt(s, pat, j)
    ensures OccursAt(s[..i] + rep + s[i + |pat|..], pat, j - |pat| + |rep|)
  {
    var front, back := s[..i] + rep, s[i + |pat|..];
    var m := j - i - |pat|;
    SliceOfSuffix(front, back, m, |pat|);
    assert back[m..m + |pat|] == s[j..j + |pat|];
  }

  lemma ReplaceFirstAt(s: string, pat: string, rep: string, i: int)
    requires FirstOccurrence(s, pat, i)
    ensures ReplaceFirst(s, pat, rep) == s[..i] + rep + s[i + |pat|..]
  {
  }

  lemma SliceOfSuffix(a: string, c: string, m: int, len: int)
    requires 0 <= m && 0 <= len && m + len <= |c|
    ensures (a + c)[|a| + m..|a| + m + len] == c[m..m + len]
  {
  }

  /** `s.replace(/pat/g, rep)`: every occurrence of `pat` replaced, scanning left
      to right without overlap. */
  function ReplaceAll(s: string, pat: string, rep: string): (r: string)
    requires pat != []
    decreases |s|
  {
    if s == [] then []
    else if pat <= s then rep + ReplaceAll(s[|pat|..], pat, rep)
    else [s[0]] + ReplaceAll(s[1..], pat, rep)
  }

  /** One step of the scan. */
  lemma ReplaceAllStep(s: string, pat: string, rep: string)
    requires pat != [] && s != []
    ensures pat <= s ==> ReplaceAll(s, pat, rep) == rep + ReplaceAll(s[|pat|..], pat, rep)
    ensures !(pat <= s) ==> ReplaceAll(s, pat, rep) == [s[0]] + ReplaceAll(s[1..], pat, rep)
  {
  }

  /** A global replacement whose pattern does not occur is the identity. */
  lemma {:induction false} ReplaceAllNoMatch(s: string, pat: string, rep: string)
    requires pat != [] && !Contains(s, pat)
    ensures ReplaceAll(s, pat, rep) == s
    decreases |s|
  {
    if s != [] {
      ContainsSplit(s, pat);
      ReplaceAllStep(s, pat, rep);
      ReplaceAllNoMatch(s[1..], pat, rep);
      ConsTail(s, []);
    }
  }

  /** The scan agrees with the `indexOf` decomposition: everything before the
      leftmost occurrence is kept, the occurrence becomes `rep`, and the scan
      resumes right after it. */
  lemma {:induction false} ReplaceAllAtFirst(s: string, pat: string, rep: string, i: int)
    requires pat != [] && FirstOccurrence(s, pat, i)
    ensures ReplaceAll(s, pat, rep) == s[..i] + rep + ReplaceAll(s[i + |pat|..], pat, rep)
  {
    if i == 0 {
      OccursAtStart(s, pat);
      ReplaceAllStep(s, pat, rep);
      assert s[..0] + rep == rep;
    } else {
      var t := s[1..];
      FirstOccurrenceTail(s, pat, i);
      ReplaceAllStep(s, pat, rep);
      ReplaceAllAtFirst(t, pat, rep, i - 1);
      assert t[i - 1 + |pat|..] == s[i + |pat|..];
      ConsPrefix(s, i, rep, ReplaceAll(s[i + |pat|..], pat, rep));
    }
  }

  /** A leftmost occurrence past the front is the leftmost occurrence in the
      tail, one position earlier. */
  lemma FirstOccurrenceTail(s: string, pat: string, i: int)
    requires 0 < i && FirstOccurrence(s, pat, i)
    ensures !(pat <= s) && FirstOccurrence(s[1..], pat, i - 1)
  {
    OccursAtStart(s, pat);
    OccursShift(s, pat, i - 1);
    forall j | 0 <= j < i - 1 ensures !OccursAt(s[1..], pat, j) {
      OccursShift(s, pat, j);
    }
  }

  /** A text whose leftmost occurrence is followed by no other has exactly that
      occurrence replaced. */
  lemma ReplaceAllOnce(a: string, pat: string, rep: string, b: string)
    requires pat != [] && FirstOccurrence(a + pat + b, pat, |a|) && !Contains(b, pat)
    ensures ReplaceAll(a + pat + b, pat, rep) == a + rep + b
  {
    var s := a + pat + b;
    ReplaceAllAtFirst(s, pat, rep, |a|);
    assert s[..|a|] == a;
    assert s[|a| + |pat|..] == b;
    ReplaceAllNoMatch(b, pat, rep);
  }

  /** A pattern whose first character does not recur in it cannot overlap
      itself, so placed after text that lacks it, it is the leftmost
      occurrence. */
  lemma NoOverlapFirst(a: string, pat: string, b: string)
    requires pat != [] && pat[0] !in pat[1..] && !Contains(a, pat)
    ensures FirstOccurrence(a + pat + b, pat, |a|)
  {
    var s := a + pat + b;
    assert s[|a|..|a| + |pat|] == pat;
    forall j | 0 <= j < |a| ensures !OccursAt(s, pat, j) {
      if j + |pat| <= |a| {
        assert s[j..j + |pat|] == a[j..j + |pat|];
        assert !OccursAt(a, pat, j);
      } else if j + |pat| <= |s| {
        var k := |a| - j;
        assert s[j..j + |pat|][k] == s[|a|] == pat[0];
        assert pat[1..][k - 1] == pat[k];
      }
    }
  }

  /** Two occurrences of a pattern that cannot overlap itself do not overlap. */
  lemma NoOverlapGap(s: string, pat: string, i: int, j: int)
    requires pat != [] && pat[0] !in pat[1..]
    requires OccursAt(s, pat, i) && OccursAt(s, pat, j) && i < j
    ensures i + |pat| <= j
  {
    forall k | i < k < i + |pat| ensures !OccursAt(s, pat, k) {
      if k + |pat| <= |s| {
        assert s[k..k + |pat|][0] == s[k] == s[i..i + |pat|][k - i];
        assert pat[1..][k - i - 1] == pat[k - i];
      }
    }
  }

  /** For a pattern that cannot overlap itself, every occurrence is replaced:
      around any occurrence, the scan is the scan of the text before it, `rep`,
      and the scan of the text after it. */
  lemma {:induction false} ReplaceAllAround(x: string, pat: string, rep: string, y: string)
    requires pat != [] && pat[0] !in pat[1..]
    ensures ReplaceAll(x + pat + y, pat, rep) == ReplaceAll(x, pat, rep) + rep + ReplaceAll(y, pat, rep)
    decreases |x|
  {
    if x == [] {
      assert x + pat + y == pat + y;
      ReplaceAllFront(pat, rep, y);
    } else if pat <= x + pat + y {
      LeadingBeforeOccurrence(x, pat, y);
      ReplaceAllAround(x[|pat|..], pat, rep, y);
      AroundAfterLeading(x, pat, rep, y);
    } else {
      ReplaceAllAround(x[1..], pat, rep, y);
      AroundAfterOther(x, pat, rep, y);
    }
  }

  /** The inductive step of `ReplaceAllAround` when the scan matches at the front. */
  lemma AroundAfterLeading(x: string, pat: string, rep: string, y: string)
    requires pat != [] && pat <= x
    requires ReplaceAll(x[|pat|..] + pat + y, pat, rep)
      == ReplaceAll(x[|pat|..], pat, rep) + rep + ReplaceAll(y, pat, rep)
    ensures ReplaceAll(x + pat + y, pat, rep) == ReplaceAll(x, pat, rep) + rep + ReplaceAll(y, pat, rep)
  {
    PrefixThrough(x, pat, y);
    ReplaceAllStep(x + pat + y, pat, rep);
    ReplaceAllStep(x, pat, rep);
  }

  /** The inductive step of `ReplaceAllAround` when the scan copies a character. */
  lemma AroundAfterOther(x: string, pat: string, rep: string, y: string)
    requires pat != [] && x != [] && !(pat <= x + pat + y)
    requires ReplaceAll(x[1..] + pat + y, pat, rep)
      == ReplaceAll(x[1..], pat, rep) + rep + ReplaceAll(y, pat, rep)
    ensures ReplaceAll(x + pat + y, pat, rep) == ReplaceAll(x, pat, rep) + rep + ReplaceAll(y, pat, rep)
  {
    CharThrough(x, pat, y);
    ReplaceAllStep(x + pat + y, pat, rep);
    ReplaceAllStep(x, pat, rep);
    ConsTail(x, rep + ReplaceAll(y, pat, rep));
  }

  lemma PrefixThrough(x: string, pat: string, y: string)
    requires pat <= x
    ensures pat <= x + pat + y && (x + pat + y)[|pat|..] == x[|pat|..] + pat + y
  {
    assert (x + pat + y)[..|pat|] == x[..|pat|];
  }

  lemma CharThrough(x: string, pat: string, y: string)
    requires x != [] && !(pat <= x + pat + y)
    ensures !(pat <= x) && (x + pat + y)[0] == x[0] && (x + pat + y)[1..] == x[1..] + pat + y
  {
    if |pat| <= |x| {
      assert (x + pat + y)[..|pat|] == x[..|pat|];
    }
  }

  lemma ReplaceAllFront(pat: string, rep: string, y: string)
    requires pat != []
    ensures ReplaceAll(pat + y, pat, rep) == ReplaceAll([], pat, rep) + rep + ReplaceAll(y, pat, rep)
  {
    ReplaceAllStep(pat + y, pat, rep);
    assert (pat + y)[|pat|..] == y;
  }

  /** An occurrence at the front of `x + pat + y` lies within `x`. */
  lemma LeadingBeforeOccurrence(x: string, pat: string, y: string)
    requires pat != [] && pat[0] !in pat[1..] && x != [] && pat <= x + pat + y
    ensures pat <= x
  {
    var s := x + pat + y;
    OccursAtStart(s, pat);
    assert s[|x|..|x| + |pat|] == pat;
    NoOverlapGap(s, pat, 0, |x|);
    assert s[..|pat|] == x[..|pat|];
  }

  /** Every occurrence of such a pattern is replaced, wherever it is. */
  lemma ReplaceAllAtEvery(s: string, pat: string, rep: string, j: int)
    requires pat != [] && pat[0] !in pat[1..] && OccursAt(s, pat, j)
    ensures ReplaceAll(s, pat, rep)
      == ReplaceAll(s[..j], pat, rep) + rep + ReplaceAll(s[j + |pat|..], pat, rep)
  {
    assert s == s[..j] + pat + s[j + |pat|..];
    ReplaceAllAround(s[..j], pat, rep, s[j + |pat|..]);
  }

  /** A text that starts with the pattern, and holds no other occurrence,
      has just that occurrence replaced. */
  lemma ReplaceAllLeading(pat: string, rep: string, b: string)
    requires pat != [] && !Contains(b, pat)
    ensures ReplaceAll(pat + b, pat, rep) == rep + b
  {
    var s := pat + b;
    assert pat <= s;
    ReplaceAllStep(s, pat, rep);
    assert s[|pat|..] == b;
    ReplaceAllNoMatch(b, pat, rep);
  }

  /** Number of non-overlapping occurrences found by the left-to-right scan. */
  function Count(s: string, pat: string): (n: nat)
    requires pat != []
    decreases |s|
  {
    if s == [] then 0
    else if pat <= s then 1 + Count(s[|pat|..], pat)
    else Count(s[1..], pat)
  }

  /** The scan finds something exactly when the pattern occurs. */
  lemma {:induction false} CountZeroIff(s: string, pat: string)
    requires pat != []
    ensures Count(s, pat) == 0 <==> !Contains(s, pat)
    decreases |s|
  {
    if s == [] {
      assert forall i :: !OccursAt(s, pat, i);
    } else {
      ContainsSplit(s, pat);
      if !(pat <= s) {
        CountZeroIff(s[1..], pat);
      }
    }
  }

  /** Each replacement changes the length by `|rep| - |pat|`. */
  lemma {:induction false} ReplaceAllLength(s: string, pat: string, rep: string)
    requires pat != []
    ensures |ReplaceAll(s, pat, rep)| == |s| + Count(s, pat) * (|rep| - |pat|)
    decreases |s|
  {
    if s != [] {
      ReplaceAllStep(s, pat, rep);
      if pat <= s {
        ReplaceAllLength(s[|pat|..], pat, rep);
        var c, d := Count(s[|pat|..], pat), |rep| - |pat|;
        assert Count(s, pat) == 1 + c;
        MulStep(c, d);
      } else {
        ReplaceAllLength(s[1..], pat, rep);
        assert Count(s, pat) == Count(s[1..], pat);
      }
    }
  }

  lemma MulStep(c: int, d: int)
    ensures (1 + c) * d == d + c * d
  {
  }

  /** Replacing a pattern by itself changes nothing. */
  lemma {:induction false} ReplaceAllSelf(s: string, pat: string)
    requires pat != []
    ensures ReplaceAll(s, pat, pat) == s
    decreases |s|
  {
    if s != [] {
      ReplaceAllStep(s, pat, pat);
      if pat <= s {
        ReplaceAllSelf(s[|pat|..], pat);
        assert s == pat + s[|pat|..];
      } else {
        ReplaceAllSelf(s[1..], pat);
        ConsTail(s, []);
      }
    }
  }

  lemma DifferentHeads(rep: string, tail: string, pat: string, t: string, c: nat)
    requires rep != pat && |tail| == |t| + c * (|rep| - |pat|)
    ensures rep + tail != pat + t
  {
    if |rep| == |pat| {
      assert (rep + tail)[..|rep|] == rep;
      assert (pat + t)[..|pat|] == pat;
    } else if |rep| > |pat| {
      assert c * (|rep| - |pat|) >= 0;
      assert |rep + tail| > |pat + t|;
    } else {
      assert c * (|pat| - |rep|) >= 0;
      assert |rep + tail| < |pat + t|;
    }
  }

  /** A global replacement whose pattern occurs, with a different text,
      changes the text. */
  lemma ReplaceAllChanges(s: string, pat: string, rep: string)
    requires pat != [] && Contains(s, pat) && rep != pat
    ensures ReplaceAll(s, pat, rep) != s
  {
    ReplaceAllChangesAt(s, pat, rep, IndexOf(s, pat).value);
  }

  lemma ReplaceAllChangesAt(s: string, pat: string, rep: string, i: int)
    requires pat != [] && FirstOccurrence(s, pat, i) && rep != pat
    ensures ReplaceAll(s, pat, rep) != s
  {
    var t := s[i + |pat|..];
    ReplaceAllAtFirst(s, pat, rep, i);
    ReplaceAllLength(t, pat, rep);
    var tail := ReplaceAll(t, pat, rep);
    DifferentHeads(rep, tail, pat, t, Count(t, pat));
    DropFront(s[..i], rep, tail);
    DropFront(s[..i], pat, t);
    assert s == s[..i] + pat + t;
  }

  lemma DropFront(a: string, b: string, c: string)
    ensures (a + b + c)[|a|..] == b + c
  {
  }

  /** A global replacement leaves the text unchanged exactly when the pattern
      does not occur or is replaced by itself. */
  lemma ReplaceAllUnchangedIff(s: string, pat: string, rep: string)
    requires pat != []
    ensures ReplaceAll(s, pat, rep) == s <==> !Contains(s, pat) || rep == pat
  {
    if rep == pat {
      ReplaceAllSelf(s, pat);
    } else if !Contains(s, pat) {
      ReplaceAllNoMatch(s, pat, rep);
    } else {
      ReplaceAllChanges(s, pat, rep);
    }
  }
}
