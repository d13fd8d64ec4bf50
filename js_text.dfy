/** The optional value shared by the modules of this model. */
module Wrappers {
  datatype Option<+T> = None | Some(value: T)
}

/**
 * The JavaScript string built-ins that the application's text handling relies
 * on, written out over `seq<char>`: the `\s` character class and `trim`, ASCII
 * case folding, `startsWith` / `includes` / `indexOf`, `split` / `join` with a
 * string separator, `substring(0, n)`, and the global non-greedy replacement
 * `s.replace(/OPEN(.*?)CLOSE/g, PRE + "$1" + POST)`.
 *
 * Each `char` stands for one UTF-16 code unit of a JavaScript string.
 */
module JsText {
  import opened Wrappers

  /** The characters matched by `\s` in a regular expression; `trim` removes exactly these. */
  predicate IsSpace(c: char) {
    c == '\t' || c == '\n' || c == '\U{B}' || c == '\U{C}' || c == '\r' || c == ' '
    || c == '\U{A0}' || c == '\U{1680}' || ('\U{2000}' <= c <= '\U{200A}')
    || c == '\U{2028}' || c == '\U{2029}' || c == '\U{202F}' || c == '\U{205F}'
    || c == '\U{3000}' || c == '\U{FEFF}'
  }

  /** The characters that `.` does not match and after which a multiline `^` matches. */
  predicate IsLineTerminator(c: char) {
    c == '\n' || c == '\r' || c == '\U{2028}' || c == '\U{2029}'
  }

  /** ASCII case folding: what a case-insensitive match of an ASCII pattern compares. */
  function LowerAscii(c: char): char {
    if 'A' <= c <= 'Z' then (c as int + 32) as char else c
  }

  /** `toUpperCase` of one character, for ASCII letters: it only changes case. */
  function UpperAscii(c: char): (u: char)
    ensures !('a' <= u <= 'z')
    ensures LowerAscii(u) == LowerAscii(c)
    ensures u != c <==> 'a' <= c <= 'z'
  {
    if 'a' <= c <= 'z' then (c as int - 32) as char else c
  }

  function LowerString(s: string): (r: string)
    ensures |r| == |s|
    ensures forall i :: 0 <= i < |s| ==> r[i] == LowerAscii(s[i])
  {
    seq(|s|, i requires 0 <= i < |s| => LowerAscii(s[i]))
  }

  predicate IsDigit(c: char) {
    '0' <= c <= '9'
  }

  /** `w` occurs in `s` at index `i`. */
  predicate StartsAt(s: string, i: nat, w: string) {
    i + |w| <= |s| && forall t :: 0 <= t < |w| ==> s[i + t] == w[t]
  }

  /** One differing character is enough for `w` not to occur at `i`. */
  lemma MismatchAt(s: string, i: nat, w: string, k: nat)
    requires k < |w| && i + k < |s| && s[i + k] != w[k]
    ensures !StartsAt(s, i, w)
  {
  }

  /** The lower-case pattern `w` matches `s` at index `i` under the `/i` flag. */
  predicate StartsAtFolded(s: string, i: nat, w: string) {
    i + |w| <= |s| && forall k :: 0 <= k < |w| ==> LowerAscii(s[i + k]) == w[k]
  }

  predicate Contains(s: string, w: string) {
    exists i: nat :: i <= |s| && StartsAt(s, i, w)
  }

  /** A string in which the one-character string `[c]` does not occur has no `c`. */
  lemma NoCharWhereAbsent(s: string, c: char)
    requires !Contains(s, [c])
    ensures forall k :: 0 <= k < |s| ==> s[k] != c
  {
    forall k | 0 <= k < |s| ensures s[k] != c {
      SingleCharAt(s, k, c);
    }
  }

  /** The one-character string `[c]` occurs at `k` exactly when `s[k]` is `c`. */
  lemma SingleCharAt(s: string, k: nat, c: char)
    requires k < |s|
    ensures StartsAt(s, k, [c]) <==> s[k] == c
  {
    if s[k] == c {
      assert forall m :: 0 <= m < 1 ==> s[k + m] == [c][m];
    } else {
      assert s[k + 0] != [c][0];
    }
  }

  /** `a` and `b` agree on their common prefix. */
  predicate PrefixCompatible(a: string, b: string) {
    forall k :: 0 <= k < |a| && k < |b| ==> a[k] == b[k]
  }

  /** One differing character within both is enough for `a` and `b` not to be compatible. */
  lemma DiffersAt(a: string, b: string, k: nat)
    requires k < |a| && k < |b| && a[k] != b[k]
    ensures !PrefixCompatible(a, b)
  {
  }

  /** Two patterns that both match at one index agree on their common prefix. */
  lemma FoldedMatchesAgree(s: string, i: nat, a: string, b: string)
    requires StartsAtFolded(s, i, a) && StartsAtFolded(s, i, b)
    ensures PrefixCompatible(a, b)
  {
    forall k | 0 <= k < |a| && k < |b| ensures a[k] == b[k] {
      assert LowerAscii(s[i + k]) == a[k] && LowerAscii(s[i + k]) == b[k];
    }
  }

  /** `s.indexOf(w, i)`: the leftmost occurrence of `w` at or after `i`. */
  function FindFrom(s: string, w: string, i: nat): (r: Option<nat>)
    requires i <= |s|
    decreases |s| - i
    ensures r.None? ==> forall j: nat :: i <= j <= |s| ==> !StartsAt(s, j, w)
    ensures r.Some? ==> i <= r.value && StartsAt(s, r.value, w)
    ensures r.Some? ==> forall j: nat :: i <= j < r.value ==> !StartsAt(s, j, w)
  {
    if StartsAt(s, i, w) then Some(i)
    else if i == |s| then None
    else FindFrom(s, w, i + 1)
  }

  /** `s.includes(w)`. */
  function Includes(s: string, w: string): (b: bool)
    ensures b <==> Contains(s, w)
  {
    FindFrom(s, w, 0).Some?
  }

  /** The first index at or after `i` that does not hold whitespace. */
  function SkipSpaces(s: string, i: nat): (j: nat)
    requires i <= |s|
    decreases |s| - i
    ensures i <= j <= |s|
    ensures forall k :: i <= k < j ==> IsSpace(s[k])
    ensures j < |s| ==> !IsSpace(s[j])
  {
    if i < |s| && IsSpace(s[i]) then SkipSpaces(s, i + 1) else i
  }

  /** The end of `s[lo..j]` once its trailing whitespace is dropped. */
  function SkipSpacesBack(s: string, lo: nat, j: nat): (b: nat)
    requires lo <= j <= |s|
    decreases j
    ensures lo <= b <= j
    ensures forall k :: b <= k < j ==> IsSpace(s[k])
    ensures b > lo ==> !IsSpace(s[b - 1])
  {
    if j > lo && IsSpace(s[j - 1]) then SkipSpacesBack(s, lo, j - 1) else j
  }

  /** `s.trim()`: the infix of `s` left after removing leading and trailing whitespace. */
  function Trim(s: string): (r: string)
    ensures |r| <= |s|
    ensures r == [] <==> forall k :: 0 <= k < |s| ==> IsSpace(s[k])
    ensures r != [] ==> !IsSpace(r[0]) && !IsSpace(r[|r| - 1])
    ensures TrimStart(s) + |r| <= |s| && r == s[TrimStart(s)..TrimStart(s) + |r|]
    ensures forall k :: 0 <= k < TrimStart(s) ==> IsSpace(s[k])
    ensures forall k :: TrimStart(s) + |r| <= k < |s| ==> IsSpace(s[k])
  {
    var a := TrimStart(s);
    s[a..SkipSpacesBack(s, a, |s|)]
  }

  /** The index at which `s.trim()` starts in `s`. */
  function TrimStart(s: string): nat {
    SkipSpaces(s, 0)
  }

  /** `s.substring(0, n)`. */
  function Truncate(s: string, n: nat): (r: string)
    ensures r <= s
    ensures |r| == if |s| <= n then |s| else n
  {
    if |s| <= n then s else s[..n]
  }

  /**
   * `s.split(sep)` for a non-empty string separator: the string is cut at the
   * leftmost occurrence of `sep`, and the rest is split again.
   */
  function SplitOn(s: string, sep: string): (parts: seq<string>)
    requires |sep| > 0
    decreases |s|
    ensures |parts| >= 1
    ensures parts[0] <= s
    ensures forall k :: 0 <= k < |parts| ==> !Contains(parts[k], sep)
  {
    match FindFrom(s, sep, 0)
    case None =>
      [s]
    case Some(j) =>
      NoOccurrenceInPrefix(s, sep, j);
      [s[..j]] + SplitOn(s[j + |sep|..], sep)
  }

  /**
   * Where `split` cuts: a string with no `sep` is one piece, itself. Otherwise
   * the first piece ends at the leftmost `sep`, and the pieces after it are
   * the split of what follows that `sep`.
   */
  lemma SplitAtFirst(s: string, sep: string)
    requires |sep| > 0
    ensures var parts := SplitOn(s, sep);
            && (|parts| == 1 <==> !Contains(s, sep))
            && (|parts| == 1 ==> parts[0] == s)
            && (|parts| > 1 ==> StartsAt(s, |parts[0]|, sep) && forall i: nat :: i < |parts[0]| ==> !StartsAt(s, i, sep))
            && (|parts| > 1 ==> |parts[0]| + |sep| <= |s| && parts[1..] == SplitOn(s[|parts[0]| + |sep|..], sep))
  {
    match FindFrom(s, sep, 0)
    case None =>
    case Some(j) =>
      var rest := SplitOn(s[j + |sep|..], sep);
      var parts := SplitOn(s, sep);
      assert parts == [s[..j]] + rest;
      assert |parts[0]| == j && parts[1..] == rest;
      assert StartsAt(s, j, sep);
  }

  /**
   * When the first `sep` of `a + sep + b` is the one after `a`, the split is
   * `a` followed by the pieces of `b`.
   */
  lemma SplitAround(a: string, sep: string, b: string)
    requires |sep| > 0
    requires forall i: nat :: i < |a| ==> !StartsAt(a + sep + b, i, sep)
    ensures SplitOn(a + sep + b, sep) == [a] + SplitOn(b, sep)
  {
    var s := a + sep + b;
    assert s[|a|..|a| + |sep|] == sep;
    assert StartsAt(s, |a|, sep);
    SplitAtFirst(s, sep);
    var parts := SplitOn(s, sep);
    assert |parts[0]| == |a|;
    assert parts[0] == a;
    assert s[|a| + |sep|..] == b;
    assert parts == [parts[0]] + parts[1..];
  }

  /** A string in which `sep` does not occur splits into itself alone. */
  lemma SplitWithoutSep(s: string, sep: string)
    requires |sep| > 0 && !Contains(s, sep)
    ensures SplitOn(s, sep) == [s]
  {
    SplitAtFirst(s, sep);
  }

  /** `FindFrom` returns the first position from `i` where `w` starts. */
  lemma FindFromIs(s: string, w: string, i: nat, e: nat)
    requires i <= e <= |s| && StartsAt(s, e, w)
    requires forall j: nat :: i <= j < e ==> !StartsAt(s, j, w)
    ensures FindFrom(s, w, i) == Some(e)
  {
  }

  /** A string that does not open with the one-character separator `[c]` has a non-empty first piece. */
  lemma SplitFirstPieceNonEmpty(s: string, c: char)
    requires |s| > 0 && s[0] != c
    ensures SplitOn(s, [c])[0] != []
  {
    MismatchAt(s, 0, [c], 0);
  }

  lemma NoOccurrenceInPrefix(s: string, sep: string, j: nat)
    requires j <= |s|
    requires forall i: nat :: i < j ==> !StartsAt(s, i, sep)
    requires |sep| > 0
    ensures !Contains(s[..j], sep)
  {
    forall i: nat | i <= j ensures !StartsAt(s[..j], i, sep) {
      if i + |sep| <= j {
        PrefixStartsAt(s, j, i, sep);
      }
    }
  }

  /** Below the cut, matching in a prefix is matching in the whole string. */
  lemma PrefixStartsAt(s: string, j: nat, i: nat, w: string)
    requires j <= |s| && i + |w| <= j
    ensures StartsAt(s[..j], i, w) == StartsAt(s, i, w)
  {
    assert forall m :: i <= m < i + |w| ==> s[..j][m] == s[m];
  }

  /** `xs.map(f)`. */
  function MapSeq<A, B>(f: A -> B, xs: seq<A>): (r: seq<B>)
    decreases |xs|
    ensures |r| == |xs|
    ensures forall k :: 0 <= k < |xs| ==> r[k] == f(xs[k])
  {
    if xs == [] then []
    else
      assert forall k :: 1 <= k < |xs| ==> xs[k] == xs[1..][k - 1];
      [f(xs[0])] + MapSeq(f, xs[1..])
  }

  lemma {:induction false} MapSeqAppend<A, B>(f: A -> B, a: seq<A>, b: seq<A>)
    ensures MapSeq(f, a + b) == MapSeq(f, a) + MapSeq(f, b)
    decreases |a|
  {
    if a == [] {
      assert a + b == b;
    } else {
      assert (a + b)[1..] == a[1..] + b;
      MapSeqAppend(f, a[1..], b);
    }
  }

  /** `xs.map(f).join("")`. */
  function MapJoin<A>(f: A -> string, xs: seq<A>): (r: string)
    decreases |xs|
    ensures r == [] <==> forall k :: 0 <= k < |xs| ==> f(xs[k]) == []
  {
    if xs == [] then []
    else
      assert forall k :: 1 <= k < |xs| ==> xs[k] == xs[1..][k - 1];
      f(xs[0]) + MapJoin(f, xs[1..])
  }

  lemma {:induction false} MapJoinAppend<A>(f: A -> string, a: seq<A>, b: seq<A>)
    ensures MapJoin(f, a + b) == MapJoin(f, a) + MapJoin(f, b)
    decreases |a|
  {
    if a == [] {
      assert a + b == b;
    } else {
      assert (a + b)[1..] == a[1..] + b;
      MapJoinAppend(f, a[1..], b);
    }
  }

  /** When `p + t + w` opens `s` and `t` never holds the first character of `w`, the first `w` after `p` follows `t`. */
  lemma FirstOccurrenceAfter(s: string, p: string, t: string, w: string)
    requires |w| > 0 && p + t + w <= s
    requires forall k :: 0 <= k < |t| ==> t[k] != w[0]
    ensures FindFrom(s, w, |p|) == Some(|p| + |t|)
  {
    StartsAfterPrefix(s, p + t, w);
    NotBeforeFirstChar(s, p, t, w);
    FindFromIs(s, w, |p|, |p| + |t|);
  }

  /** `w` occurs in `s` just after a prefix `p` when `p + w` opens `s`. */
  lemma StartsAfterPrefix(s: string, p: string, w: string)
    requires p + w <= s
    ensures StartsAt(s, |p|, w)
  {
    forall q | 0 <= q < |w| ensures s[|p| + q] == w[q] {
      assert s[|p| + q] == (p + w)[|p| + q];
    }
  }

  /** Where `p + t` opens `s` and `t` lacks the first character of `w`, `w` starts nowhere within `t`. */
  lemma NotBeforeFirstChar(s: string, p: string, t: string, w: string)
    requires |w| > 0 && p + t <= s
    requires forall k :: 0 <= k < |t| ==> t[k] != w[0]
    ensures forall j: nat :: |p| <= j < |p| + |t| ==> !StartsAt(s, j, w)
  {
    forall j: nat | |p| <= j < |p| + |t| ensures !StartsAt(s, j, w) {
      assert s[j] == (p + t)[j] == t[j - |p|];
      MismatchAt(s, j, w, 0);
    }
  }

  /** `parts.join(sep)`. */
  function Join(parts: seq<string>, sep: string): string
    decreases |parts|
  {
    if |parts| == 0 then []
    else if |parts| == 1 then parts[0]
    else parts[0] + sep + Join(parts[1..], sep)
  }

  /** Joining the pieces of a split with its separator gives back the string. */
  lemma {:induction false} JoinSplit(s: string, sep: string)
    requires |sep| > 0
    ensures Join(SplitOn(s, sep), sep) == s
    decreases |s|
  {
    match FindFrom(s, sep, 0)
    case None =>
    case Some(j) =>
      var rest := SplitOn(s[j + |sep|..], sep);
      JoinSplit(s[j + |sep|..], sep);
      assert SplitOn(s, sep) == [s[..j]] + rest;
      assert ([s[..j]] + rest)[1..] == rest;
      assert s[j..j + |sep|] == sep;
      assert s == s[..j] + s[j..j + |sep|] + s[j + |sep|..];
  }

  /** The first line terminator at or after `j`, or the end of `s`: as far as `.` can match. */
  function LineEnd(s: string, j: nat): (e: nat)
    requires j <= |s|
    decreases |s| - j
    ensures j <= e <= |s|
  {
    if j == |s| || IsLineTerminator(s[j]) then j else LineEnd(s, j + 1)
  }

  /** `LineEnd` stops at the first line terminator: none comes before it. */
  lemma {:induction false} LineEndIsFirstTerminator(s: string, j: nat)
    requires j <= |s|
    decreases |s| - j
    ensures forall m :: j <= m < LineEnd(s, j) ==> !IsLineTerminator(s[m])
    ensures LineEnd(s, j) < |s| ==> IsLineTerminator(s[LineEnd(s, j)])
  {
    if j < |s| && !IsLineTerminator(s[j]) {
      LineEndIsFirstTerminator(s, j + 1);
    }
  }

  /**
   * The index of `close` that the lazy group `(.*?)` starting at `j` stops at:
   * the first occurrence of `close` that starts on the line of `j`, at its
   * terminator at the latest; none when there is no such occurrence.
   */
  function FindClose(s: string, close: string, j: nat): (r: Option<nat>)
    requires j <= |s|
    decreases |s| - j
    ensures r.Some? ==> j <= r.value && r.value + |close| <= |s|
  {
    if StartsAt(s, j, close) then Some(j)
    else if j < |s| && !IsLineTerminator(s[j]) then FindClose(s, close, j + 1)
    else None
  }

  /**
   * `FindClose` finds the first `close` on the line of `j`, its terminator
   * included, and only when there is one.
   */
  lemma {:induction false} FindCloseIsFirst(s: string, close: string, j: nat)
    requires j <= |s|
    decreases |s| - j
    ensures FindClose(s, close, j).Some? ==>
              FindClose(s, close, j).value <= LineEnd(s, j) && StartsAt(s, FindClose(s, close, j).value, close)
    ensures FindClose(s, close, j).Some? ==>
              forall m :: j <= m < FindClose(s, close, j).value ==> !StartsAt(s, m, close)
    ensures FindClose(s, close, j).None? ==> forall m :: j <= m <= LineEnd(s, j) ==> !StartsAt(s, m, close)
  {
    if !StartsAt(s, j, close) && j < |s| && !IsLineTerminator(s[j]) {
      FindCloseIsFirst(s, close, j + 1);
    }
  }

  /** Where the pair opening at `i` closes, if a pair opens there. */
  function PairClose(s: string, open: string, close: string, i: nat): (r: Option<nat>)
    requires i <= |s|
    ensures r.Some? ==> i + |open| <= r.value && r.value + |close| <= |s|
  {
    if StartsAt(s, i, open) then FindClose(s, close, i + |open|) else None
  }

  predicate PairAt(s: string, open: string, close: string, i: nat)
    requires i <= |s|
  {
    PairClose(s, open, close, i).Some?
  }

  /** A matched pair cuts `s[i..]` into the opening mark, the inside, the closing mark and the rest. */
  lemma PairPieces(s: string, i: nat, open: string, k: nat, close: string)
    requires StartsAt(s, i, open) && i + |open| <= k && StartsAt(s, k, close)
    ensures s[i..] == open + s[i + |open|..k] + close + s[k + |close|..]
  {
    assert s[i..i + |open|] == open;
    assert s[k..k + |close|] == close;
    assert s[i..] == s[i..i + |open|] + s[i + |open|..k] + s[k..k + |close|] + s[k + |close|..];
  }

  /**
   * `s.slice(i).replace(/OPEN(.*?)CLOSE/g, PRE + "$1" + POST)`, scanning from
   * index `i`: each leftmost `open` that has a `close` later on its line is
   * replaced, together with the nearest such `close`, by `pre` and `post`.
   * Only the marks are dropped: every other character occurs as often as
   * before, apart from those the replacement adds.
   */
  function ReplacePairsFrom(s: string, open: string, close: string, pre: string, post: string, i: nat): (r: string)
    requires |open| > 0 && |close| > 0 && i <= |s|
    decreases |s| - i
    ensures |pre| == 0 && |post| == 0 ==> |r| <= |s| - i
  {
    if i == |s| then []
    else
      match PairClose(s, open, close, i)
      case Some(k) => pre + s[i + |open|..k] + post + ReplacePairsFrom(s, open, close, pre, post, k + |close|)
      case None => [s[i]] + ReplacePairsFrom(s, open, close, pre, post, i + 1)
  }

  function ReplacePairs(s: string, open: string, close: string, pre: string, post: string): (r: string)
    requires |open| > 0 && |close| > 0
    ensures |pre| == 0 && |post| == 0 ==> |r| <= |s|
  {
    ReplacePairsFrom(s, open, close, pre, post, 0)
  }

  /** At a matched pair, the replacement emits `pre`, the inside and `post`, then resumes after the close. */
  lemma PairStep(s: string, open: string, close: string, pre: string, post: string, i: nat, k: nat)
    requires |open| > 0 && |close| > 0 && i <= |s| && PairClose(s, open, close, i) == Some(k)
    ensures ReplacePairsFrom(s, open, close, pre, post, i)
            == pre + s[i + |open|..k] + post + ReplacePairsFrom(s, open, close, pre, post, k + |close|)
  {
    assert i < |s|;
  }

  /** A pair opens at `i` exactly when `open` starts there and its lazy close is found. */
  lemma PairCloseAt(s: string, open: string, close: string, i: nat, k: nat)
    requires |open| > 0 && StartsAt(s, i, open) && FindClose(s, close, i + |open|) == Some(k)
    ensures i < |s| && PairClose(s, open, close, i) == Some(k)
  {
  }

  /** Away from a matched pair, the replacement copies one character and moves on. */
  lemma NoPairStep(s: string, open: string, close: string, pre: string, post: string, i: nat)
    requires |open| > 0 && |close| > 0 && i < |s| && !PairAt(s, open, close, i)
    ensures ReplacePairsFrom(s, open, close, pre, post, i) == [s[i]] + ReplacePairsFrom(s, open, close, pre, post, i + 1)
  {
  }

  /** One replaced pair: the counts of `c` on both sides are those of the inside plus those of the rest. */
  lemma PairStepCounts(s: string, open: string, close: string, pre: string, post: string, i: nat, k: nat, c: char)
    requires |open| > 0 && |close| > 0 && i <= |s| && PairClose(s, open, close, i) == Some(k)
    requires c !in open && c !in close && c !in pre && c !in post
    ensures multiset(ReplacePairsFrom(s, open, close, pre, post, i))[c]
            == multiset(s[i + |open|..k])[c] + multiset(ReplacePairsFrom(s, open, close, pre, post, k + |close|))[c]
    ensures multiset(s[i..])[c] == multiset(s[i + |open|..k])[c] + multiset(s[k + |close|..])[c]
  {
    FindCloseIsFirst(s, close, i + |open|);
    PairPieces(s, i, open, k, close);
    PairStep(s, open, close, pre, post, i, k);
  }

  /** Away from a pair, one step copies one character: the counts of `c` on both sides grow alike. */
  lemma NoPairStepCounts(s: string, open: string, close: string, pre: string, post: string, i: nat, c: char)
    requires |open| > 0 && |close| > 0 && i < |s| && !PairAt(s, open, close, i)
    ensures multiset(ReplacePairsFrom(s, open, close, pre, post, i))[c]
            == multiset([s[i]])[c] + multiset(ReplacePairsFrom(s, open, close, pre, post, i + 1))[c]
    ensures multiset(s[i..])[c] == multiset([s[i]])[c] + multiset(s[i + 1..])[c]
  {
    NoPairStep(s, open, close, pre, post, i);
    assert s[i..] == [s[i]] + s[i + 1..];
  }

  /** The replacement changes only the marks: every other character keeps its count. */
  lemma {:induction false} PairsKeepOtherChars(s: string, open: string, close: string, pre: string, post: string, i: nat, c: char)
    requires |open| > 0 && |close| > 0 && i <= |s|
    requires c !in open && c !in close && c !in pre && c !in post
    ensures multiset(ReplacePairsFrom(s, open, close, pre, post, i))[c] == multiset(s[i..])[c]
    decreases |s| - i, 1
  {
    if i == |s| {
      assert s[i..] == [];
    } else {
      match PairClose(s, open, close, i)
      case Some(k) => PairKeepsOtherChars(s, open, close, pre, post, i, k, c);
      case None => CopyKeepsOtherChars(s, open, close, pre, post, i, c);
    }
  }

  /** `PairsKeepOtherChars` at a pair that opens at `i` and closes at `k`. */
  lemma {:induction false} PairKeepsOtherChars(s: string, open: string, close: string, pre: string, post: string, i: nat, k: nat, c: char)
    requires |open| > 0 && |close| > 0 && i <= |s| && PairClose(s, open, close, i) == Some(k)
    requires c !in open && c !in close && c !in pre && c !in post
    ensures multiset(ReplacePairsFrom(s, open, close, pre, post, i))[c] == multiset(s[i..])[c]
    decreases |s| - i, 0
  {
    PairsKeepOtherChars(s, open, close, pre, post, k + |close|, c);
    PairStepCounts(s, open, close, pre, post, i, k, c);
  }

  /** `PairsKeepOtherChars` at an index `i` where no pair opens. */
  lemma {:induction false} CopyKeepsOtherChars(s: string, open: string, close: string, pre: string, post: string, i: nat, c: char)
    requires |open| > 0 && |close| > 0 && i < |s| && !PairAt(s, open, close, i)
    requires c !in open && c !in close && c !in pre && c !in post
    ensures multiset(ReplacePairsFrom(s, open, close, pre, post, i))[c] == multiset(s[i..])[c]
    decreases |s| - i, 0
  {
    PairsKeepOtherChars(s, open, close, pre, post, i + 1, c);
    NoPairStepCounts(s, open, close, pre, post, i, c);
  }

  /** `ReplacePairs` removes only the marks: other characters keep their multiplicity. */
  lemma ReplacePairsKeepsOtherChars(s: string, open: string, close: string, pre: string, post: string)
    requires |open| > 0 && |close| > 0
    ensures forall c :: c !in open && c !in close && c !in pre && c !in post ==>
              multiset(ReplacePairs(s, open, close, pre, post))[c] == multiset(s)[c]
  {
    assert s[0..] == s;
    forall c | c !in open && c !in close && c !in pre && c !in post
      ensures multiset(ReplacePairs(s, open, close, pre, post))[c] == multiset(s)[c]
    {
      PairsKeepOtherChars(s, open, close, pre, post, 0, c);
    }
  }

  /** Up to the first matched pair, the text is copied unchanged. */
  lemma {:induction false} KeptBeforePair(s: string, open: string, close: string, pre: string, post: string, i: nat, j: nat)
    requires |open| > 0 && |close| > 0 && i <= j <= |s|
    requires forall m: nat :: i <= m < j ==> !PairAt(s, open, close, m)
    ensures ReplacePairsFrom(s, open, close, pre, post, i) == s[i..j] + ReplacePairsFrom(s, open, close, pre, post, j)
    decreases j - i
  {
    if i < j {
      KeptBeforePair(s, open, close, pre, post, i + 1, j);
      KeptOneMore(s, open, close, pre, post, i, j);
    }
  }

  /** One more copied character in front of a kept stretch. */
  lemma KeptOneMore(s: string, open: string, close: string, pre: string, post: string, i: nat, j: nat)
    requires |open| > 0 && |close| > 0 && i < j <= |s| && !PairAt(s, open, close, i)
    requires ReplacePairsFrom(s, open, close, pre, post, i + 1) == s[i + 1..j] + ReplacePairsFrom(s, open, close, pre, post, j)
    ensures ReplacePairsFrom(s, open, close, pre, post, i) == s[i..j] + ReplacePairsFrom(s, open, close, pre, post, j)
  {
    NoPairStep(s, open, close, pre, post, i);
    ConsOntoKept(s, i, j, ReplacePairsFrom(s, open, close, pre, post, i),
      ReplacePairsFrom(s, open, close, pre, post, i + 1), ReplacePairsFrom(s, open, close, pre, post, j));
  }

  /** Prepending `s[i]` to `s[i + 1..j] + t` gives `s[i..j] + t`. */
  lemma ConsOntoKept(s: string, i: nat, j: nat, r: string, r1: string, t: string)
    requires i < j <= |s| && r == [s[i]] + r1 && r1 == s[i + 1..j] + t
    ensures r == s[i..j] + t
  {
    assert s[i..j] == [s[i]] + s[i + 1..j];
  }

  /**
   * The first matched pair at or after `i`, at `j` with its `close` at `k`,
   * is replaced by `pre`, the text between the marks and `post`; the text
   * before it is kept, and the scan goes on just after the `close`.
   */
  lemma FirstPairReplaced(s: string, open: string, close: string, pre: string, post: string, i: nat, j: nat, k: nat)
    requires |open| > 0 && |close| > 0 && i <= j <= |s|
    requires forall m: nat :: i <= m < j ==> !PairAt(s, open, close, m)
    requires StartsAt(s, j, open) && FindClose(s, close, j + |open|) == Some(k)
    ensures ReplacePairsFrom(s, open, close, pre, post, i)
            == s[i..j] + (pre + s[j + |open|..k] + post + ReplacePairsFrom(s, open, close, pre, post, k + |close|))
  {
    KeptBeforePair(s, open, close, pre, post, i, j);
    PairCloseAt(s, open, close, j, k);
    PairStep(s, open, close, pre, post, j, k);
  }

  /** Whether `w` occurs at `j` does not change when a prefix before `j` is cut off. */
  lemma SuffixStartsAt(s: string, off: nat, j: nat, w: string)
    requires off <= j <= |s|
    ensures StartsAt(s, j, w) == StartsAt(s[off..], j - off, w)
  {
    if j + |w| <= |s| {
      assert s[off..][j - off..j - off + |w|] == s[j..j + |w|];
    }
  }

  /** A word absent from `rest` occurs at no position of `head + rest` from `|head|` on. */
  lemma NoOpenInSuffix(head: string, rest: string, open: string)
    requires forall m :: 0 <= m < |rest| ==> !StartsAt(rest, m, open)
    ensures forall j: nat :: |head| <= j < |head + rest| ==> !StartsAt(head + rest, j, open)
  {
    var s := head + rest;
    assert s[|head|..] == rest;
    forall j: nat | |head| <= j < |s| ensures !StartsAt(s, j, open) {
      SuffixStartsAt(s, |head|, j, open);
    }
  }

  /** A pair `open + w + close` at the start of `s` is the first one replaced. */
  lemma WrappedPairFirstIn(s: string, open: string, w: string, close: string, pre: string, post: string)
    requires |open| > 0 && |close| > 0 && |open| + |w| <= |s|
    requires StartsAt(s, 0, open) && StartsAt(s, |open| + |w|, close) && s[|open|..|open| + |w|] == w
    requires forall m :: |open| <= m < |open| + |w| ==> !IsLineTerminator(s[m])
    requires forall m :: |open| <= m < |open| + |w| ==> !StartsAt(s, m, close)
    ensures ReplacePairsFrom(s, open, close, pre, post, 0)
         == pre + w + post + ReplacePairsFrom(s, open, close, pre, post, |open| + |w| + |close|)
  {
    FindCloseIs(s, close, |open|, |open| + |w|);
    PairCloseAt(s, open, close, 0, |open| + |w|);
    PairStepWith(s, open, w, close, pre, post, 0, |open| + |w|);
  }

  /** `PairStep` with the text between the delimiters named `w`. */
  lemma PairStepWith(s: string, open: string, w: string, close: string, pre: string, post: string, i: nat, k: nat)
    requires |open| > 0 && |close| > 0 && i <= |s| && PairClose(s, open, close, i) == Some(k)
    requires s[i + |open|..k] == w
    ensures ReplacePairsFrom(s, open, close, pre, post, i)
            == pre + w + post + ReplacePairsFrom(s, open, close, pre, post, k + |close|)
  {
    PairStep(s, open, close, pre, post, i, k);
  }

  /** The lazy close from `j` is `k` when `close` starts at `k` and `j..k` holds neither a terminator nor a `close`. */
  lemma {:induction false} FindCloseIs(s: string, close: string, j: nat, k: nat)
    requires j <= k <= |s| && StartsAt(s, k, close)
    requires forall m :: j <= m < k ==> !IsLineTerminator(s[m])
    requires forall m :: j <= m < k ==> !StartsAt(s, m, close)
    decreases k - j
    ensures FindClose(s, close, j) == Some(k)
  {
    if j < k {
      assert !StartsAt(s, j, close) && !IsLineTerminator(s[j]);
      FindCloseIs(s, close, j + 1, k);
    }
  }

  /** The concatenated form of `WrappedPairFirstIn`. */
  lemma WrappedPairFirst(open: string, w: string, close: string, rest: string, pre: string, post: string)
    requires |open| > 0 && |close| > 0
    requires forall k :: 0 <= k < |w| ==> !IsLineTerminator(w[k])
    requires forall m :: |open| <= m < |open| + |w| ==> !StartsAt(open + w + close + rest, m, close)
    ensures ReplacePairsFrom(open + w + close + rest, open, close, pre, post, 0)
         == pre + w + post + ReplacePairsFrom(open + w + close + rest, open, close, pre, post, |open| + |w| + |close|)
  {
    WrappedParts(open, w, close, rest);
    WrappedPairFirstIn(open + w + close + rest, open, w, close, pre, post);
  }

  /** Where `open`, `w` and `close` sit in `open + w + close + rest`. */
  lemma WrappedParts(open: string, w: string, close: string, rest: string)
    requires forall k :: 0 <= k < |w| ==> !IsLineTerminator(w[k])
    ensures StartsAt(open + w + close + rest, 0, open)
    ensures StartsAt(open + w + close + rest, |open| + |w|, close)
    ensures (open + w + close + rest)[|open|..|open| + |w|] == w
    ensures forall m :: |open| <= m < |open| + |w| ==> !IsLineTerminator((open + w + close + rest)[m])
  {
    var s := open + w + close + rest;
    assert s[..|open|] == open;
    assert s[|open| + |w|..|open| + |w| + |close|] == close;
    forall m | |open| <= m < |open| + |w| ensures !IsLineTerminator(s[m]) {
      assert s[m] == w[m - |open|];
    }
  }

  /**
   * A pair around text `w` on one line, with no `close` starting inside `w`,
   * becomes `pre`, `w` and `post`; a `rest` in which `open` never occurs
   * follows unchanged.
   */
  lemma WrappedPairThenRest(open: string, w: string, close: string, rest: string, pre: string, post: string)
    requires |open| > 0 && |close| > 0
    requires forall k :: 0 <= k < |w| ==> !IsLineTerminator(w[k])
    requires forall m :: |open| <= m < |open| + |w| ==> !StartsAt(open + w + close + rest, m, close)
    requires forall m :: 0 <= m < |rest| ==> !StartsAt(rest, m, open)
    ensures ReplacePairs(open + w + close + rest, open, close, pre, post) == pre + w + post + rest
  {
    var head := open + w + close;
    assert head + rest == open + w + close + rest;
    WrappedPairFirst(open, w, close, rest, pre, post);
    NoOpenInSuffix(head, rest, open);
    ReplacePairsWithoutOpen(head + rest, open, close, pre, post, |head|);
    assert (head + rest)[|head|..] == rest;
  }

  /** A pair around text `w` on one line, with no `close` starting inside `w`, becomes `pre`, `w` and `post`. */
  lemma WrappedPairReplaced(open: string, w: string, close: string, pre: string, post: string)
    requires |open| > 0 && |close| > 0
    requires forall k :: 0 <= k < |w| ==> !IsLineTerminator(w[k])
    requires forall m :: |open| <= m < |open| + |w| ==> !StartsAt(open + w + close, m, close)
    ensures ReplacePairs(open + w + close, open, close, pre, post) == pre + w + post
  {
    assert open + w + close + "" == open + w + close;
    assert pre + w + post + "" == pre + w + post;
    WrappedPairThenRest(open, w, close, "", pre, post);
  }

  /** A string in which `open` never occurs is left as it is. */
  lemma ReplacePairsWithoutOpen(s: string, open: string, close: string, pre: string, post: string, i: nat)
    requires |open| > 0 && |close| > 0 && i <= |s|
    requires forall j: nat :: i <= j < |s| ==> !StartsAt(s, j, open)
    ensures ReplacePairsFrom(s, open, close, pre, post, i) == s[i..]
  {
    KeptBeforePair(s, open, close, pre, post, i, |s|);
  }
}
