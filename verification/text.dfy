/**
  String primitives with the meaning they have in Python (`str.strip`,
  `str.split`, `in`, the regex class `\s`) and in JavaScript (`String.trim`).
  Strings are `seq<char>`; characters are Unicode scalar values.
 */
module Text {
  import opened Wrappers

  /** Python's whitespace: `str.isspace`, `str.strip()` and the regex class `\s`. */
  predicate IsSpace(c: char) {
    || c == ' ' || ('\t' <= c <= '\r') || ('\U{1C}' <= c <= '\U{1F}')
    || c == '\U{85}' || c == '\U{A0}' || c == '\U{1680}'
    || ('\U{2000}' <= c <= '\U{200A}') || c == '\U{2028}' || c == '\U{2029}'
    || c == '\U{202F}' || c == '\U{205F}' || c == '\U{3000}'
  }

  /** Any character but the double quote. */
  predicate NotQuote(c: char) {
    c != '"'
  }

  /** JavaScript's whitespace and line terminators, as removed by `String.prototype.trim`. */
  predicate IsJsSpace(c: char) {
    || c == ' ' || ('\t' <= c <= '\r') || c == '\U{A0}' || c == '\U{1680}'
    || ('\U{2000}' <= c <= '\U{200A}') || c == '\U{2028}' || c == '\U{2029}'
    || c == '\U{202F}' || c == '\U{205F}' || c == '\U{3000}' || c == '\U{FEFF}'
  }

  /** The first index at or after `i` whose character does not satisfy `p`, or `|s|`. */
  function SkipWhile(s: string, i: nat, p: char -> bool): (j: nat)
    requires i <= |s|
    ensures i <= j <= |s|
    ensures forall k :: i <= k < j ==> p(s[k])
    ensures j == |s| || !p(s[j])
    decreases |s| - i
  {
    if i == |s| || !p(s[i]) then i else SkipWhile(s, i + 1, p)
  }

  /** The contract of `SkipWhile` determines its result. */
  lemma SkipWhileIs(s: string, i: nat, p: char -> bool, j: nat)
    requires i <= j <= |s|
    requires forall k :: i <= k < j ==> p(s[k])
    requires j == |s| || !p(s[j])
    ensures SkipWhile(s, i, p) == j
  {
  }

  /** `pat` occurs in `s` at index `i`. */
  predicate StartsAt(s: string, i: nat, pat: string) {
    i + |pat| <= |s| && s[i..i + |pat|] == pat
  }

  /** The first occurrence of `pat` at or after `from`. */
  function Find(s: string, pat: string, from: nat): (r: Option<nat>)
    requires from <= |s|
    ensures r.Some? ==> from <= r.value && StartsAt(s, r.value, pat)
    ensures r.Some? ==> forall k :: from <= k < r.value ==> !StartsAt(s, k, pat)
    ensures r.None? ==> forall k :: from <= k <= |s| ==> !StartsAt(s, k, pat)
    decreases |s| - from
  {
    if StartsAt(s, from, pat) then Some(from)
    else if from == |s| then None
    else Find(s, pat, from + 1)
  }

  /** Python `pat in s`. */
  predicate Contains(s: string, pat: string) {
    Find(s, pat, 0).Some?
  }

  lemma ContainsAt(s: string, pat: string, i: nat)
    requires StartsAt(s, i, pat)
    ensures Contains(s, pat)
  {
  }

  /**
    Python `s.split(sep)[0]`: the longest prefix of `s` in which no `sep`
    starts; unless it is all of `s`, a `sep` follows it.
   */
  function Before(s: string, sep: string): (r: string)
    ensures |r| <= |s| && r == s[..|r|]
    ensures forall k :: 0 <= k < |r| ==> !StartsAt(s, k, sep)
    ensures |r| < |s| ==> StartsAt(s, |r|, sep)
  {
    match Find(s, sep, 0)
    case None => s
    case Some(i) => s[..i]
  }

  /** Python `s.split(sep, 1)[1]`: the text after the first `sep`. */
  function After(s: string, sep: string): (r: string)
    requires Contains(s, sep)
    ensures r == s[Find(s, sep, 0).value + |sep|..]
  {
    s[Find(s, sep, 0).value + |sep|..]
  }

  /**
    Python `s.strip(chars)` with the stripped characters given by `drop`:
    the infix of `s` left once the runs of `drop` characters at either end
    are cut off, and nothing else.
   */
  function Strip(s: string, drop: char -> bool): (r: string)
    ensures |r| <= |s|
    ensures StripAt(s, r, SkipWhile(s, 0, drop), drop)
    ensures |r| > 0 ==> !drop(r[0]) && !drop(r[|r| - 1])
    ensures |s| == 0 || (!drop(s[0]) && !drop(s[|s| - 1])) ==> r == s
  {
    var i := SkipWhile(s, 0, drop);
    var j := LastKept(s, i, |s|, drop);
    assert StripAt(s, s[i..j], i, drop);
    s[i..j]
  }

  /** `r` sits in `s` at `i`, and only `drop` characters lie before and after it. */
  predicate StripAt(s: string, r: string, i: nat, drop: char -> bool) {
    && i + |r| <= |s| && s[i..i + |r|] == r
    && (forall k :: 0 <= k < i ==> drop(s[k]))
    && (forall k :: i + |r| <= k < |s| ==> drop(s[k]))
  }

  /**
    The two properties of `Strip` pin its result down: an infix with only
    `drop` characters around it whose own ends are kept is the stripped text.
   */
  lemma StripUnique(s: string, r: string, i: nat, drop: char -> bool)
    requires StripAt(s, r, i, drop)
    requires |r| > 0 ==> !drop(r[0]) && !drop(r[|r| - 1])
    ensures Strip(s, drop) == r
  {
    if |r| > 0 {
      assert s[i] == r[0];
      SkipWhileIs(s, 0, drop, i);
      LastKeptIs(s, i, |s|, drop, i + |r|);
    } else {
      SkipWhileIs(s, 0, drop, |s|);
    }
  }

  /** The contract of `LastKept` determines its result. */
  lemma {:induction false} LastKeptIs(s: string, lo: nat, hi: nat, drop: char -> bool, j: nat)
    requires lo < j <= hi <= |s| && !drop(s[lo])
    requires !drop(s[j - 1]) && forall k :: j <= k < hi ==> drop(s[k])
    ensures LastKept(s, lo, hi, drop) == j
    decreases hi - lo
  {
    if hi > j {
      LastKeptIs(s, lo, hi - 1, drop, j);
    }
  }

  /** The end of `s[lo..hi]` once the characters satisfying `drop` are cut off its right. */
  function LastKept(s: string, lo: nat, hi: nat, drop: char -> bool): (j: nat)
    requires lo <= hi <= |s|
    requires lo == hi || !drop(s[lo])
    ensures lo <= j <= hi
    ensures forall k :: j <= k < hi ==> drop(s[k])
    ensures j > lo ==> !drop(s[j - 1])
    ensures j == lo ==> lo == hi
    decreases hi - lo
  {
    if hi == lo || !drop(s[hi - 1]) then hi else LastKept(s, lo, hi - 1, drop)
  }

  /** Python `s.strip()`: `s` without its leading and trailing whitespace. */
  function Trim(s: string): (r: string)
    ensures StripAt(s, r, SkipWhile(s, 0, IsSpace), IsSpace)
    ensures |r| > 0 ==> !IsSpace(r[0]) && !IsSpace(r[|r| - 1])
    ensures |s| == 0 || (!IsSpace(s[0]) && !IsSpace(s[|s| - 1])) ==> r == s
  {
    Strip(s, IsSpace)
  }

  /** JavaScript `s.trim()`: `s` without its leading and trailing whitespace and line terminators. */
  function JsTrim(s: string): (r: string)
    ensures StripAt(s, r, SkipWhile(s, 0, IsJsSpace), IsJsSpace)
    ensures |r| > 0 ==> !IsJsSpace(r[0]) && !IsJsSpace(r[|r| - 1])
  {
    Strip(s, IsJsSpace)
  }

  /** Python `s.split(c)` for a one-character separator: never empty. */
  function Split(s: string, c: char): (parts: seq<string>)
    ensures |parts| >= 1
    ensures forall p :: p in parts ==> c !in p
    decreases |s|
  {
    var i := SkipWhile(s, 0, x => x != c);
    if i == |s| then [s] else [s[..i]] + Split(s[i + 1..], c)
  }

  /** The same paths one step down, each under `key`, with what they lead to kept. */
  function Prefixed<T>(key: string, ls: seq<(seq<string>, T)>): (r: seq<(seq<string>, T)>)
    ensures |r| == |ls|
    ensures forall j :: 0 <= j < |ls| ==> r[j] == ([key] + ls[j].0, ls[j].1)
  {
    seq(|ls|, j requires 0 <= j < |ls| => ([key] + ls[j].0, ls[j].1))
  }

  /** A pair is among the prefixed ones exactly when its path starts with `key` and the rest was there. */
  lemma InPrefixed<T>(key: string, ls: seq<(seq<string>, T)>, p: seq<string>, v: T)
    ensures (p, v) in Prefixed(key, ls) <==> |p| >= 1 && p[0] == key && (p[1..], v) in ls
  {
    if (p, v) in Prefixed(key, ls) {
      var m :| 0 <= m < |ls| && Prefixed(key, ls)[m] == (p, v);
      assert p[1..] == ls[m].0;
    }
    if |p| >= 1 && p[0] == key && (p[1..], v) in ls {
      var m :| 0 <= m < |ls| && ls[m] == (p[1..], v);
      assert [key] + p[1..] == p;
      assert Prefixed(key, ls)[m] == (p, v);
    }
  }

  /** `c.join(parts)`. */
  function Join(parts: seq<string>, c: char): string
    requires |parts| >= 1
  {
    if |parts| == 1 then parts[0] else parts[0] + [c] + Join(parts[1..], c)
  }

  /** Joining what `Split` cut gives the string back. */
  lemma {:induction false} JoinSplit(s: string, c: char)
    ensures Join(Split(s, c), c) == s
    decreases |s|
  {
    var i := SkipWhile(s, 0, x => x != c);
    if i < |s| {
      JoinSplit(s[i + 1..], c);
      assert s == s[..i] + [c] + s[i + 1..];
    }
  }

  /** Joining two runs of parts puts one separator between their joins. */
  lemma {:induction false} JoinConcat(p: seq<string>, q: seq<string>, c: char)
    requires |p| >= 1 && |q| >= 1
    ensures Join(p + q, c) == Join(p, c) + [c] + Join(q, c)
    decreases |p|
  {
    if |p| == 1 {
      assert (p + q)[1..] == q;
    } else {
      assert (p + q)[1..] == p[1..] + q;
      JoinConcat(p[1..], q, c);
    }
  }

  /** Splitting a join of separator-free parts gives the parts back. */
  lemma {:induction false} SplitJoin(parts: seq<string>, c: char)
    requires |parts| >= 1
    requires forall p :: p in parts ==> c !in p
    ensures Split(Join(parts, c), c) == parts
    decreases |parts|
  {
    if |parts| == 1 {
      SplitNoSeparator(parts[0], "", c, false);
    } else {
      assert parts[0] in parts;
      assert forall p :: p in parts[1..] ==> p in parts;
      SplitJoin(parts[1..], c);
      SplitNoSeparator(parts[0], Join(parts[1..], c), c, true);
    }
  }

  /** `s.split(c)` has more than one part exactly when `c` occurs in `s`. */
  lemma SplitOne(s: string, c: char)
    ensures |Split(s, c)| == 1 <==> c !in s
  {
    var i := SkipWhile(s, 0, x => x != c);
    if i < |s| {
      assert s[i] == c;
    } else {
      forall k | 0 <= k < |s| ensures s[k] != c { }
    }
  }

  /** A string holding the separator splits at its first occurrence. */
  lemma SplitFirst(s: string, c: char) returns (i: nat)
    requires |Split(s, c)| >= 2
    ensures i < |s| && s == s[..i] + [c] + s[i + 1..]
    ensures c !in s[..i]
    ensures Split(s, c) == [s[..i]] + Split(s[i + 1..], c)
  {
    i := SkipWhile(s, 0, x => x != c);
    assert forall k :: 0 <= k < i ==> s[..i][k] == s[k];
  }

  /** Splitting at a separator splits the two sides apart. */
  lemma {:induction false} SplitAppend(a: string, r: string, c: char)
    ensures Split(a + [c] + r, c) == Split(a, c) + Split(r, c)
    decreases |a|
  {
    SplitOne(a, c);
    if c !in a {
      SplitNoSeparator(a, r, c, true);
      SplitNoSeparator(a, "", c, false);
    } else {
      var i := SplitFirst(a, c);
      var head, tail := a[..i], a[i + 1..];
      SplitAppend(tail, r, c);
      calc {
        a + [c] + r;
        (head + [c]) + tail + ([c] + r);
        { ConcatAssoc(head + [c], tail, [c] + r); }
        (head + [c]) + (tail + ([c] + r));
        { ConcatAssoc(tail, [c], r); }
        head + [c] + (tail + [c] + r);
      }
      SplitNoSeparator(head, tail + [c] + r, c, true);
      ConcatAssoc([head], Split(tail, c), Split(r, c));
    }
  }

  /**
    The last two parts of a split are the last two separated fields of the
    string: what `parts[-2]` and `parts[-1]` read.
   */
  lemma {:induction false} SplitLastTwo(s: string, c: char) returns (pre: string)
    requires |Split(s, c)| >= 2
    ensures var parts := Split(s, c);
      s == pre + (parts[|parts| - 2] + [c] + parts[|parts| - 1])
    ensures pre == [] || pre[|pre| - 1] == c
    decreases |s|
  {
    var i := SplitFirst(s, c);
    var head, tail := s[..i], s[i + 1..];
    var ts := Split(tail, c);
    if |ts| == 1 {
      JoinSplit(tail, c);
      assert ts[0] == tail;
      pre := [];
    } else {
      var p := SplitLastTwo(tail, c);
      var w := ts[|ts| - 2] + [c] + ts[|ts| - 1];
      pre := head + [c] + p;
      ConcatAssoc(head + [c], p, w);
    }
  }

  /** Concatenation regroups; stated once so that proofs can name the step. */
  lemma ConcatAssoc<T>(a: seq<T>, b: seq<T>, c: seq<T>)
    ensures (a + b) + c == a + (b + c)
  {
  }

  /** Splitting at the first separator of `p + [c] + rest`, where `p` holds no separator. */
  lemma SplitNoSeparator(p: string, rest: string, c: char, sep: bool)
    requires c !in p
    requires !sep ==> rest == ""
    ensures sep ==> Split(p + [c] + rest, c) == [p] + Split(rest, c)
    ensures !sep ==> Split(p, c) == [p]
  {
    var s := if sep then p + [c] + rest else p;
    var i := SkipWhile(s, 0, x => x != c);
    forall k | 0 <= k < |p| ensures s[k] != c {
      assert s[k] == p[k];
    }
    if sep {
      assert s[|p|] == c;
      assert i == |p|;
      assert s[..i] == p;
      assert s[i + 1..] == rest;
    }
  }

  /** Python `s.replace(a, b)` for one-character `a` and `b`. */
  function ReplaceChar(s: string, a: char, b: char): (r: string)
    ensures |r| == |s|
    ensures forall i :: 0 <= i < |s| ==> r[i] == (if s[i] == a then b else s[i])
  {
    if |s| == 0 then "" else [if s[0] == a then b else s[0]] + ReplaceChar(s[1..], a, b)
  }

  /** The characters of `s` that satisfy `keep`, in order. */
  function Filter(s: string, keep: char -> bool): (r: string)
    ensures |r| <= |s|
  {
    if |s| == 0 then "" else (if keep(s[0]) then [s[0]] else "") + Filter(s[1..], keep)
  }

  lemma {:induction false} FilterConcat(a: string, b: string, keep: char -> bool)
    ensures Filter(a + b, keep) == Filter(a, keep) + Filter(b, keep)
    decreases |a|
  {
    if |a| > 0 {
      assert (a + b)[1..] == a[1..] + b;
      assert (a + b)[0] == a[0];
      FilterConcat(a[1..], b, keep);
    } else {
      assert a + b == b;
    }
  }

  lemma {:induction false} FilterNone(a: string, keep: char -> bool)
    requires forall k :: 0 <= k < |a| ==> !keep(a[k])
    ensures Filter(a, keep) == ""
    decreases |a|
  {
    if |a| > 0 {
      FilterNone(a[1..], keep);
    }
  }

  /** Rewriting a prefix of `s` into `head`, keeping what `keep` sees, keeps what `keep` sees of the whole. */
  lemma FilterSplice(s: string, e: nat, head: string, rest: string, keep: char -> bool)
    requires e <= |s|
    requires Filter(head, keep) == Filter(s[..e], keep)
    requires Filter(rest, keep) == Filter(s[e..], keep)
    ensures Filter(head + rest, keep) == Filter(s, keep)
  {
    assert s == s[..e] + s[e..];
    FilterConcat(head, rest, keep);
    FilterConcat(s[..e], s[e..], keep);
  }

  /** Two strings that agree on what `p` keeps also agree on what `p` and `q` together keep. */
  lemma FilterBoth(a: string, b: string, p: char -> bool, q: char -> bool, both: char -> bool)
    requires Filter(a, p) == Filter(b, p)
    requires forall c :: both(c) == (p(c) && q(c))
    ensures Filter(a, both) == Filter(b, both)
  {
    FilterOfFilter(a, p, q, both);
    FilterOfFilter(b, p, q, both);
  }

  lemma {:induction false} FilterOfFilter(a: string, p: char -> bool, q: char -> bool, both: char -> bool)
    requires forall c :: both(c) == (p(c) && q(c))
    ensures Filter(Filter(a, p), q) == Filter(a, both)
    decreases |a|
  {
    if |a| > 0 {
      FilterOfFilter(a[1..], p, q, both);
      var x := if p(a[0]) then [a[0]] else "";
      FilterConcat(x, Filter(a[1..], p), q);
    }
  }
}
