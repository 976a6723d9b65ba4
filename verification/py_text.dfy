/** The Python `str` operations the scraper relies on: `startswith`,
    `strip()` with no argument, and `split(sep)` with an explicit one-character
    separator. */
module PyText {

  /** `s.startswith(prefix)`. */
  predicate StartsWith(s: string, prefix: string) {
    |prefix| <= |s| && s[..|prefix|] == prefix
  }

  /** `s.startswith(prefix)` holds exactly when `s` is `prefix` followed by
      something; the empty prefix starts every text. */
  lemma StartsWithIff(s: string, prefix: string)
    ensures StartsWith(s, prefix) <==> |prefix| <= |s| && s == prefix + s[|prefix|..]
    ensures StartsWith(prefix + s, prefix)
    ensures StartsWith(s, [])
  {
    if |prefix| <= |s| && s == prefix + s[|prefix|..] {
      assert s[..|prefix|] == (prefix + s[|prefix|..])[..|prefix|];
    }
    assert (prefix + s)[..|prefix|] == prefix;
  }

  /** The characters for which Python's `str.isspace()` is true: the ASCII
      whitespace and separator controls, NEL, NO-BREAK SPACE and the Unicode
      space and line/paragraph separators. */
  predicate IsSpace(c: char) {
    || ('\U{0009}' <= c <= '\U{000D}')
    || ('\U{001C}' <= c <= '\U{0020}')
    || c == '\U{0085}' || c == '\U{00A0}' || c == '\U{1680}'
    || ('\U{2000}' <= c <= '\U{200A}')
    || c == '\U{2028}' || c == '\U{2029}' || c == '\U{202F}' || c == '\U{205F}' || c == '\U{3000}'
  }

  /** `s.lstrip()`: the longest suffix of `s` that does not start with whitespace. */
  function StripStart(s: string): (r: string)
    ensures |r| <= |s| && r == s[|s| - |r|..]
    ensures r == [] || !IsSpace(r[0])
    ensures AllSpace(s[..|s| - |r|])
  {
    if |s| > 0 && IsSpace(s[0]) then
      var r := StripStart(s[1..]);
      assert s[..|s| - |r|] == [s[0]] + s[1..][..|s| - 1 - |r|];
      r
    else s
  }

  /** `s.rstrip()`: the longest prefix of `s` that does not end with whitespace. */
  function StripEnd(s: string): (r: string)
    ensures |r| <= |s| && r == s[..|r|]
    ensures r == [] || !IsSpace(r[|r| - 1])
    ensures AllSpace(s[|r|..])
  {
    if |s| > 0 && IsSpace(s[|s| - 1]) then
      var r := StripEnd(s[..|s| - 1]);
      assert s[|r|..] == s[..|s| - 1][|r|..] + [s[|s| - 1]];
      r
    else s
  }

  /** Every character of `t` is whitespace. */
  predicate AllSpace(t: string) {
    forall i :: 0 <= i < |t| ==> IsSpace(t[i])
  }

  /** `s.strip()`: `s` without its leading and trailing whitespace. */
  function Strip(s: string): (r: string)
    ensures |r| <= |s|
    ensures r == [] || (!IsSpace(r[0]) && !IsSpace(r[|r| - 1]))
  {
    var left := StripStart(s);
    var r := StripEnd(left);
    assert r != [] ==> r[0] == left[0];
    r
  }

  /** A text with whitespace-only padding strips to its core, when the core
      neither starts nor ends with whitespace. Every string splits this way,
      so this pins `Strip` down completely. */
  lemma StripExact(pre: string, core: string, post: string)
    requires AllSpace(pre) && AllSpace(post)
    requires core == [] || (!IsSpace(core[0]) && !IsSpace(core[|core| - 1]))
    ensures Strip(pre + core + post) == core
  {
    StripIgnoresPadding(pre, core, post);
    if core != [] {
      assert StripStart(core) == core;
      assert StripEnd(core) == core;
    }
  }

  /** Stripping twice is stripping once. */
  lemma StripIdempotent(s: string)
    ensures Strip(Strip(s)) == Strip(s)
  {
    var r := Strip(s);
    assert StripStart(r) == r;
    assert StripEnd(r) == r;
  }

  /** Whitespace around a text never changes what it strips to. */
  lemma StripIgnoresPadding(pre: string, t: string, post: string)
    requires AllSpace(pre) && AllSpace(post)
    ensures Strip(pre + t + post) == Strip(t)
  {
    var tp := t + post;
    var left := StripStart(pre + tp);
    assert left == StripStart(tp) by {
      StripStartSkipsPadding(pre, tp);
    }
    assert StripEnd(left) == StripEnd(StripStart(t)) by {
      StripStartThroughSuffix(t, post);
    }
    assert pre + t + post == pre + tp;
  }

  lemma {:induction false} StripStartSkipsPadding(pre: string, t: string)
    requires AllSpace(pre)
    ensures StripStart(pre + t) == StripStart(t)
  {
    if pre != [] {
      var u := pre + t;
      assert u[0] == pre[0];
      assert u[1..] == pre[1..] + t;
      StripStartSkipsPadding(pre[1..], t);
    } else {
      assert pre + t == t;
    }
  }

  lemma {:induction false} StripEndSkipsPadding(t: string, post: string)
    requires AllSpace(post)
    ensures StripEnd(t + post) == StripEnd(t)
    decreases |post|
  {
    if post != [] {
      var u := t + post;
      var post' := post[..|post| - 1];
      assert u[|u| - 1] == post[|post| - 1];
      assert u[..|u| - 1] == t + post';
      assert StripEnd(u) == StripEnd(t + post');
      StripEndSkipsPadding(t, post');
    } else {
      assert t + post == t;
    }
  }

  /** Stripping the front of `t + post` and then the end of the result strips
      `t` when `post` is whitespace only. */
  lemma {:induction false} StripStartThroughSuffix(t: string, post: string)
    requires AllSpace(post)
    ensures StripEnd(StripStart(t + post)) == StripEnd(StripStart(t))
  {
    if t == [] {
      assert t + post == post + [];
      StripStartSkipsPadding(post, []);
    } else if IsSpace(t[0]) {
      var u := t + post;
      assert u[0] == t[0];
      assert u[1..] == t[1..] + post;
      StripStartThroughSuffix(t[1..], post);
    } else {
      assert (t + post)[0] == t[0];
      assert StripStart(t + post) == t + post;
      StripEndSkipsPadding(t, post);
    }
  }

  /** Occurrences of `c` in `s`. */
  function Count(s: string, c: char): nat {
    multiset(s)[c]
  }

  /** `s.split(sep)`: the pieces of `s` between occurrences of `sep`, empty
      pieces kept. There is one piece more than there are separators. */
  function Split(s: string, sep: char): (pieces: seq<string>)
    ensures |pieces| == Count(s, sep) + 1
    ensures forall k :: 0 <= k < |pieces| ==> sep !in pieces[k]
    decreases |s|
  {
    if sep !in s then
      [s]
    else
      var i := IndexOf(s, sep);
      assert s == s[..i] + [sep] + s[i + 1..];
      assert multiset(s) == multiset(s[..i]) + multiset{sep} + multiset(s[i + 1..]);
      [s[..i]] + Split(s[i + 1..], sep)
  }

  /** The position of the first `c` in `s`. */
  function IndexOf(s: string, c: char): (i: nat)
    requires c in s
    ensures i < |s| && s[i] == c && c !in s[..i]
  {
    if s[0] == c then 0 else 1 + IndexOf(s[1..], c)
  }

  /** `sep.join(pieces)`. */
  function Join(pieces: seq<string>, sep: char): string
    requires |pieces| >= 1
  {
    if |pieces| == 1 then pieces[0] else pieces[0] + [sep] + Join(pieces[1..], sep)
  }

  /** Joining the pieces again gives back the string. */
  lemma {:induction false} JoinSplit(s: string, sep: char)
    ensures Join(Split(s, sep), sep) == s
    decreases |s|
  {
    if sep in s {
      var i := IndexOf(s, sep);
      JoinSplit(s[i + 1..], sep);
      assert s == s[..i] + [sep] + s[i + 1..];
    }
  }

  /** In `head + [sep] + tail` with no `sep` in `head`, the first `sep` is
      the one after `head`. */
  lemma {:induction false} IndexOfAfter(head: string, sep: char, tail: string)
    requires sep !in head
    ensures sep in head + [sep] + tail
    ensures IndexOf(head + [sep] + tail, sep) == |head|
  {
    var s := head + [sep] + tail;
    assert s[|head|] == sep;
    if head != [] {
      assert s[0] == head[0];
      assert s[1..] == head[1..] + [sep] + tail;
      IndexOfAfter(head[1..], sep, tail);
    }
  }

  /** Splitting a join of separator-free pieces gives back the pieces. */
  lemma {:induction false} SplitJoin(pieces: seq<string>, sep: char)
    requires |pieces| >= 1
    requires forall k :: 0 <= k < |pieces| ==> sep !in pieces[k]
    ensures Split(Join(pieces, sep), sep) == pieces
  {
    if |pieces| > 1 {
      var head := pieces[0];
      var tail := Join(pieces[1..], sep);
      var s := head + [sep] + tail;
      assert Join(pieces, sep) == s;
      IndexOfAfter(head, sep, tail);
      assert s[..|head|] == head;
      assert s[|head| + 1..] == tail;
      assert Split(s, sep) == [head] + Split(tail, sep);
      SplitJoin(pieces[1..], sep);
      assert pieces == [head] + pieces[1..];
    }
  }
}
