/** Removal of guide comments from template files: every match of the global
    regular expression `/\/\*d: \*[^\*]+\* d:\*\//` is replaced by the empty
    string. A guide block is the opener `/*d: *`, a non-empty body without any
    `*` (it may span lines: a negated character class matches newlines), and
    the closer `* d:*/`. Since the body cannot contain `*`, the regular
    expression never backtracks: after the opener the body is the maximal run
    of characters other than `*`, and the closer must start at the `*` that
    ends it. */
module GuideBlocks {
  import opened Replace

  const Opener: string := "/*d: *"
  const Closer: string := "* d:*/"

  /** `b` is exactly one guide block. */
  ghost predicate IsGuideBlock(b: string) {
    |b| >= |Opener| + 1 + |Closer|
    && b[..|Opener|] == Opener
    && b[|b| - |Closer|..] == Closer
    && '*' !in b[|Opener|..|b| - |Closer|]
  }

  /** Length of the longest prefix of `s` without a `*`. */
  function StarFreeRun(s: string): (n: nat)
    ensures n <= |s|
    ensures '*' !in s[..n]
    ensures n < |s| ==> s[n] == '*'
  {
    if s == [] || s[0] == '*' then 0
    else
      var n := 1 + StarFreeRun(s[1..]);
      assert s[..n] == [s[0]] + s[1..][..n - 1];
      n
  }

  /** A star-free prefix followed by a `*` is exactly the maximal run. */
  lemma StarFreeRunIs(s: string, k: nat)
    requires k < |s| && '*' !in s[..k] && s[k] == '*'
    ensures StarFreeRun(s) == k
  {
  }

  /** Length of the guide block the regular expression matches at the start of
      `s`, if any. */
  function GuideMatchAt(s: string): (r: Option<nat>)
    ensures r.Some? ==> r.value <= |s| && IsGuideBlock(s[..r.value])
  {
    if Opener <= s then
      var k := StarFreeRun(s[|Opener|..]);
      var end := |Opener| + k;
      if k >= 1 && Closer <= s[end..] then
        var n := end + |Closer|;
        assert s[..n][|Opener|..n - |Closer|] == s[|Opener|..][..k];
        Some(n)
      else None
    else None
  }

  /** Every guide block at the start of `s` is the one the regular expression
      matches: the match is found, and it is neither shorter nor longer. */
  lemma GuideMatchComplete(s: string, n: nat)
    requires n <= |s| && IsGuideBlock(s[..n])
    ensures GuideMatchAt(s) == Some(n)
  {
    var b := s[..n];
    var k := n - |Opener| - |Closer|;
    var rest := s[|Opener|..];
    assert rest[..k] == b[|Opener|..|b| - |Closer|];
    assert rest[k] == b[n - |Closer|] == '*';
    StarFreeRunIs(rest, k);
    assert s[..|Opener|] == b[..|Opener|];
    assert s[|Opener| + k..][..|Closer|] == b[n - |Closer|..];
  }

  /** `content.replace(/\/\*d: \*[^\*]+\* d:\*\//mg, '')`. */
  function StripGuideBlocks(s: string): (r: string)
    ensures |r| <= |s|
    decreases |s|
  {
    if s == [] then []
    else
      match GuideMatchAt(s)
      case Some(n) => StripGuideBlocks(s[n..])
      case None => [s[0]] + StripGuideBlocks(s[1..])
  }

  /** Text without the opener is left unchanged. */
  lemma {:induction false} StripNoOpener(s: string)
    requires !Contains(s, Opener)
    ensures StripGuideBlocks(s) == s
    decreases |s|
  {
    if s != [] {
      OccursAtStart(s, Opener);
      ContainsSplit(s, Opener);
      StripNoOpener(s[1..]);
      assert s == [s[0]] + s[1..];
    }
  }

  /** A guide block at the scan position is removed whole. */
  lemma StripBlockFirst(b: string, t: string)
    requires IsGuideBlock(b)
    ensures StripGuideBlocks(b + t) == StripGuideBlocks(t)
  {
    assert (b + t)[..|b|] == b;
    GuideMatchComplete(b + t, |b|);
    assert (b + t)[|b|..] == t;
  }

  /** Where the opener does not start, the scan copies one character. */
  lemma StripCopiesChar(s: string)
    requires s != [] && !(Opener <= s)
    ensures StripGuideBlocks(s) == [s[0]] + StripGuideBlocks(s[1..])
  {
  }

  /** The opener cannot start inside opener-free text that is followed by a `/`
      (or by nothing): the opener does not overlap itself. */
  lemma NoOpenerAtFront(pre: string, t: string)
    requires pre != [] && !Contains(pre, Opener)
    requires t == [] || t[0] == '/'
    ensures !(Opener <= pre + t)
  {
    var s := pre + t;
    if |pre| >= |Opener| {
      OccursAtStart(pre, Opener);
      assert s[..|Opener|] == pre[..|Opener|];
    } else if |s| >= |Opener| {
      assert s[|pre|] == '/';
      assert Opener[|pre|] != '/';
    }
  }

  /** Opener-free text in front of a `/` (or of nothing) is copied unchanged. */
  lemma {:induction false} StripSkipsText(pre: string, t: string)
    requires !Contains(pre, Opener)
    requires t == [] || t[0] == '/'
    ensures StripGuideBlocks(pre + t) == pre + StripGuideBlocks(t)
    decreases |pre|
  {
    if pre == [] {
      assert pre + t == t;
    } else {
      NoOpenerAtFront(pre, t);
      StripCopiesChar(pre + t);
      ContainsSplit(pre, Opener);
      StripSkipsText(pre[1..], t);
      ConsTail(pre, t);
      ConsTail(pre, StripGuideBlocks(t));
    }
  }

  /** Opener-free text followed by a guide block: the text is kept, the block
      is dropped, and the scan goes on after the block. */
  lemma StripSegment(pre: string, b: string, rest: string)
    requires !Contains(pre, Opener) && IsGuideBlock(b)
    ensures StripGuideBlocks(pre + b + rest) == pre + StripGuideBlocks(rest)
  {
    assert b[0] == Opener[0];
    StripSkipsText(pre, b + rest);
    StripBlockFirst(b, rest);
    assert pre + b + rest == pre + (b + rest);
  }

  /** One guide block between opener-free texts is removed, and the texts
      around it are kept exactly, in order. */
  lemma GuideBlockRemoved(pre: string, b: string, post: string)
    requires !Contains(pre, Opener) && IsGuideBlock(b) && !Contains(post, Opener)
    ensures StripGuideBlocks(pre + b + post) == pre + post
  {
    StripSegment(pre, b, post);
    StripNoOpener(post);
  }

  /** The opener, any non-empty body without `*` (line breaks included), and
      the closer form a guide block. */
  lemma BlockOf(body: string)
    requires body != [] && '*' !in body
    ensures IsGuideBlock(Opener + body + Closer)
  {
    var b := Opener + body + Closer;
    assert b[..|Opener|] == Opener;
    assert b[|b| - |Closer|..] == Closer;
    assert b[|Opener|..|b| - |Closer|] == body;
  }

  /** A guide block whose body spans two lines is removed like any other. */
  lemma MultiLineBlockRemoved(pre: string, post: string)
    requires '/' !in pre && '/' !in post
    ensures StripGuideBlocks(pre + (Opener + "Step one\nStep two" + Closer) + post) == pre + post
  {
    var body := "Step one\nStep two";
    assert forall i | 0 <= i < |body| :: body[i] != '*';
    BlockOf(body);
    MissingCharNoMatch(pre, Opener, 0);
    MissingCharNoMatch(post, Opener, 0);
    GuideBlockRemoved(pre, Opener + body + Closer, post);
  }

  /** Texts interleaved with guide blocks. */
  function Interleave(segments: seq<(string, string)>): (r: string) {
    if segments == [] then [] else segments[0].0 + segments[0].1 + Interleave(segments[1..])
  }

  function Texts(segments: seq<(string, string)>): (r: string) {
    if segments == [] then [] else segments[0].0 + Texts(segments[1..])
  }

  lemma InterleaveFirst(segments: seq<(string, string)>, tail: string)
    requires segments != []
    ensures Interleave(segments) + tail
      == segments[0].0 + segments[0].1 + (Interleave(segments[1..]) + tail)
    ensures Texts(segments) + tail == segments[0].0 + (Texts(segments[1..]) + tail)
  {
  }

  /** Every guide block is removed and everything between them is kept exactly,
      in order. */
  lemma {:induction false} StripAllBlocks(segments: seq<(string, string)>, tail: string)
    requires forall k :: 0 <= k < |segments| ==>
      !Contains(segments[k].0, Opener) && IsGuideBlock(segments[k].1)
    requires !Contains(tail, Opener)
    ensures StripGuideBlocks(Interleave(segments) + tail) == Texts(segments) + tail
  {
    if segments == [] {
      StripNoOpener(tail);
      assert Interleave(segments) + tail == tail;
    } else {
      var text, b := segments[0].0, segments[0].1;
      var rest := Interleave(segments[1..]) + tail;
      InterleaveFirst(segments, tail);
      StripSegment(text, b, rest);
      StripAllBlocks(segments[1..], tail);
    }
  }

  /** In `Opener + body + Closer` with a `/`-free body the only `/` are the
      first and the last character. */
  lemma SlashPositions(body: string, j: int)
    requires '/' !in body
    requires 0 <= j < |Opener + body + Closer| && (Opener + body + Closer)[j] == '/'
    ensures j == 0 || j == |Opener + body + Closer| - 1
  {
  }

  /** A would-be block whose body is empty, or holds a `*` (and no `/`), is not
      matched at its opener. */
  lemma MalformedNoMatch(body: string)
    requires body == [] || ('*' in body && '/' !in body)
    ensures GuideMatchAt(Opener + body + Closer).None?
  {
    var s := Opener + body + Closer;
    forall n | 0 <= n <= |s| ensures !IsGuideBlock(s[..n]) {
      if n >= |Opener| + 1 + |Closer| && s[..n][n - |Closer|..] == Closer {
        assert s[n - 1] == s[..n][n - |Closer|..][|Closer| - 1] == '/';
        SlashPositions(body, n - 1);
        assert s[..n] == s;
        assert s[|Opener|..|s| - |Closer|] == body;
      }
    }
  }

  /** Past its first character such a would-be block holds no opener. */
  lemma MalformedNoLaterOpener(body: string)
    requires '/' !in body
    ensures !Contains((Opener + body + Closer)[1..], Opener)
  {
    var s := Opener + body + Closer;
    var t := s[1..];
    forall i | 0 <= i && i + |Opener| <= |t| ensures !OccursAt(t, Opener, i) {
      if OccursAt(t, Opener, i) {
        assert t[i] == t[i..i + |Opener|][0] == '/';
        assert s[i + 1] == '/';
        SlashPositions(body, i + 1);
        assert false;
      }
    }
  }

  /** A would-be block whose body is empty, or holds a `*` (and no `/`), stays
      in the text. */
  lemma MalformedBlockKept(body: string)
    requires body == [] || ('*' in body && '/' !in body)
    ensures StripGuideBlocks(Opener + body + Closer) == Opener + body + Closer
  {
    var s := Opener + body + Closer;
    MalformedNoMatch(body);
    MalformedNoLaterOpener(body);
    StripNoOpener(s[1..]);
    ConsTail(s, []);
  }

  /** A star at the closer's place near the end of `s` fixes the matcher's
      answer at the front of `s`: text appended after `s` does not change it. */
  lemma GuideMatchAtExtend(s: string, post: string)
    requires |s| >= |Opener| + |Closer| && s[|s| - |Closer|] == '*'
    ensures GuideMatchAt(s + post) == GuideMatchAt(s)
  {
    var t := s + post;
    assert t[..|Opener|] == s[..|Opener|];
    if Opener <= s {
      var u, v := s[|Opener|..], t[|Opener|..];
      var k := StarFreeRun(u);
      assert u[|s| - |Closer| - |Opener|] == '*';
      assert v[..k] == u[..k] && v[k] == u[k];
      StarFreeRunIs(v, k);
      var end := |Opener| + k;
      assert t[end..][..|Closer|] == s[end..][..|Closer|];
    }
  }

  /** Where nothing matches, the scan copies one character. */
  lemma StripCopiesUnmatched(s: string)
    requires s != [] && GuideMatchAt(s).None?
    ensures StripGuideBlocks(s) == [s[0]] + StripGuideBlocks(s[1..])
  {
  }

  /** A would-be block whose body is empty, or holds a `*` and no `/`, is kept
      between other text: after opener-free text it is copied up to its last
      character, and the scan resumes at that final `/`, which may begin a guide
      block together with the text after it. */
  lemma MalformedKeptInContext(pre: string, body: string, post: string)
    requires !Contains(pre, Opener)
    requires body == [] || ('*' in body && '/' !in body)
    ensures StripGuideBlocks(pre + (Opener + body + Closer) + post)
      == pre + (Opener + body + "* d:*") + StripGuideBlocks("/" + post)
  {
    var m := Opener + body + Closer;
    MalformedRestKept(body, post);
    assert m[..|m| - 1] == Opener + body + "* d:*";
    StripAfterPrefix(pre, m, post, Opener + body + "* d:*", StripGuideBlocks("/" + post));
  }

  /** Opener-free text before a `/` passes through the scan unchanged. */
  lemma StripAfterPrefix(pre: string, m: string, post: string, kept: string, rest: string)
    requires !Contains(pre, Opener) && m != [] && m[0] == '/'
    requires StripGuideBlocks(m + post) == kept + rest
    ensures StripGuideBlocks(pre + m + post) == pre + kept + rest
  {
    assert pre + m + post == pre + (m + post);
    StripSkipsText(pre, m + post);
  }

  /** The scan of such a block followed by more text. */
  lemma MalformedRestKept(body: string, post: string)
    requires body == [] || ('*' in body && '/' !in body)
    ensures StripGuideBlocks((Opener + body + Closer) + post)
      == (Opener + body + Closer)[..|Opener + body + Closer| - 1] + StripGuideBlocks("/" + post)
  {
    var mid := MalformedShape(body, post);
    StripAfterUnmatched(Opener + body + Closer + post, mid, "/" + post);
  }

  /** Where nothing matches at the front and opener-free text follows the
      first character, the scan copies both and resumes at `tail`. */
  lemma StripAfterUnmatched(s: string, mid: string, tail: string)
    requires s != [] && GuideMatchAt(s).None?
    requires s[1..] == mid + tail && !Contains(mid, Opener)
    requires tail == [] || tail[0] == '/'
    ensures StripGuideBlocks(s) == [s[0]] + mid + StripGuideBlocks(tail)
  {
    StripCopiesUnmatched(s);
    StripSkipsText(mid, tail);
    var x := StripGuideBlocks(tail);
    calc {
      StripGuideBlocks(s);
      [s[0]] + StripGuideBlocks(mid + tail);
      [s[0]] + (mid + x);
      { Regroup([s[0]], mid, x); }
      [s[0]] + mid + x;
    }
  }

  lemma Regroup(a: string, b: string, c: string)
    ensures a + (b + c) == a + b + c
  {
  }

  /** The shape of such a block followed by more text: no guide block starts
      at its front, and after its first character comes opener-free text and
      then the block's final `/`. */
  lemma MalformedShape(body: string, post: string) returns (mid: string)
    requires body == [] || ('*' in body && '/' !in body)
    ensures GuideMatchAt((Opener + body + Closer) + post).None?
    ensures (Opener + body + Closer) + post != []
    ensures ((Opener + body + Closer) + post)[1..] == mid + ("/" + post)
    ensures !Contains(mid, Opener)
    ensures [((Opener + body + Closer) + post)[0]] + mid
      == (Opener + body + Closer)[..|Opener + body + Closer| - 1]
  {
    var m := Opener + body + Closer;
    mid := m[1..|m| - 1];
    assert m[|m| - |Closer|] == '*';
    MalformedNoMatch(body);
    GuideMatchAtExtend(m, post);
    assert (m + post)[1..] == mid + ("/" + post);
    MalformedNoLaterOpener(body);
    assert m[1..] == mid + "/";
    ContainsInPrefix(mid, "/", Opener);
    assert [m[0]] + mid == m[..|m| - 1];
  }

  /** With text after it that cannot complete an opener, such a block stays in
      the output exactly. */
  lemma MalformedKeptBetween(pre: string, body: string, post: string)
    requires !Contains(pre, Opener) && !Contains("/" + post, Opener)
    requires body == [] || ('*' in body && '/' !in body)
    ensures StripGuideBlocks(pre + (Opener + body + Closer) + post)
      == pre + (Opener + body + Closer) + post
  {
    var m := Opener + body + Closer;
    MalformedRestKept(body, post);
    StripNoOpener("/" + post);
    assert m[|m| - 1] == '/';
    RejoinLast(m, post);
    StripAfterPrefix(pre, m, post, m, post);
  }

  /** Text ending in `/` is its front followed by that `/`. */
  lemma RejoinLast(m: string, post: string)
    requires m != [] && m[|m| - 1] == '/'
    ensures m[..|m| - 1] + ("/" + post) == m + post
  {
  }
}
