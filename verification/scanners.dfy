/**
  The two regular-expression fallback passes the reconciler runs when the
  repaired reply is not valid JSON, written as exact scanners. Python's `re`
  engine backtracks: a greedy `[^{}]*` first tries the longest run and gives
  characters back one at a time, so each search below tries the candidate
  split points from the highest down, and the first one that lets the rest
  of the pattern match is the one the engine reports.
 */
module Scanners {
  import opened Wrappers
  import opened Text

  const KeyName := "key"
  const TranslationName := "translation"

  predicate IsBrace(c: char) {
    c == '{' || c == '}'
  }

  predicate BraceFree(s: string, lo: nat, hi: nat) {
    forall k :: lo <= k < hi && k < |s| ==> !IsBrace(s[k])
  }

  predicate CloseFree(s: string, lo: nat, hi: nat) {
    forall k :: lo <= k < hi && k < |s| ==> s[k] != '}'
  }

  predicate QuoteFree(v: string) {
    forall k :: 0 <= k < |v| ==> v[k] != '"'
  }

  /** A captured field: its value and the index just past the closing quote. */
  datatype Capture = Capture(value: string, end: nat)

  /**
    The sub-pattern `"name"\s*:\s*"([^"]+)"` tried at index `p`: the name in
    quotes, optional blank space, a colon, optional blank space, and a
    non-empty value with no double quote between two double quotes.
   */
  function FieldAt(s: string, p: nat, name: string): (r: Option<Capture>)
    ensures r.Some? ==> p + |name| + 4 < r.value.end <= |s|
    ensures r.Some? ==> StartsAt(s, p, "\"" + name + "\"") && s[r.value.end - 1] == '"'
    ensures r.Some? ==> |r.value.value| > 0 && QuoteFree(r.value.value)
  {
    var q := "\"" + name + "\"";
    if !StartsAt(s, p, q) then None else ColonValue(s, p + |q|)
  }

  /** `\s*:\s*"([^"]+)"` from `i`. */
  function ColonValue(s: string, i: nat): (r: Option<Capture>)
    requires i <= |s|
    ensures r.Some? ==> i + 2 < r.value.end <= |s| && s[r.value.end - 1] == '"'
    ensures r.Some? ==> |r.value.value| > 0 && QuoteFree(r.value.value)
  {
    var j := SkipWhile(s, i, IsSpace);
    if j < |s| && s[j] == ':' then QuotedValue(s, SkipWhile(s, j + 1, IsSpace)) else None
  }

  /** `"([^"]+)"` at `k`. */
  function QuotedValue(s: string, k: nat): (r: Option<Capture>)
    requires k <= |s|
    ensures r.Some? ==> k + 2 < r.value.end <= |s| && s[r.value.end - 1] == '"'
    ensures r.Some? ==> |r.value.value| > 0 && QuoteFree(r.value.value)
  {
    if k < |s| && s[k] == '"' then
      var e := SkipWhile(s, k + 1, NotQuote);
      if k + 1 < e < |s| then Some(Capture(s[k + 1..e], e + 1)) else None
    else None
  }

  /**
    One way for `"name"\s*:\s*"([^"]+)"` to match at `p`: blank space up to
    the colon at `j`, blank space up to the opening quote at `k`, and a
    non-empty run of non-quotes up to the closing quote at `e`.
   */
  predicate FieldWay(s: string, p: nat, name: string, j: nat, k: nat, e: nat) {
    var q := "\"" + name + "\"";
    && StartsAt(s, p, q) && p + |q| <= j && j < k && k + 1 < e < |s|
    && (forall i :: p + |q| <= i < j ==> IsSpace(s[i])) && s[j] == ':'
    && (forall i :: j + 1 <= i < k ==> IsSpace(s[i])) && s[k] == '"'
    && (forall i :: k + 1 <= i < e ==> s[i] != '"') && s[e] == '"'
  }

  /**
    The field pattern matches at `p` exactly when some way exists, and then
    the capture is that way's value: a colon and a quote are not blank, so
    there is only one way.
   */
  lemma FieldAtWay(s: string, p: nat, name: string)
    ensures FieldAt(s, p, name).Some? <==> exists j: nat, k: nat, e: nat :: FieldWay(s, p, name, j, k, e)
    ensures forall j: nat, k: nat, e: nat :: FieldWay(s, p, name, j, k, e) ==> FieldAt(s, p, name) == Some(Capture(s[k + 1..e], e + 1))
  {
    forall j: nat, k: nat, e: nat | FieldWay(s, p, name, j, k, e) ensures FieldAt(s, p, name) == Some(Capture(s[k + 1..e], e + 1)) {
      FieldWayReads(s, p, name, j, k, e);
    }
    if FieldAt(s, p, name).Some? {
      var j, k, e := FieldReadsWay(s, p, name);
    }
  }

  /** A way determines what `FieldAt` reads. */
  lemma FieldWayReads(s: string, p: nat, name: string, j: nat, k: nat, e: nat)
    requires FieldWay(s, p, name, j, k, e)
    ensures FieldAt(s, p, name) == Some(Capture(s[k + 1..e], e + 1))
  {
    var i := p + |name| + 2;
    QuotedValueReads(s, k, e);
    SkipWhileIs(s, j + 1, IsSpace, k);
    assert !IsSpace(s[j]);
    SkipWhileIs(s, i, IsSpace, j);
    assert ColonValue(s, i) == QuotedValue(s, k);
  }

  /** What `FieldAt` reads comes from a way. */
  lemma FieldReadsWay(s: string, p: nat, name: string) returns (j: nat, k: nat, e: nat)
    requires FieldAt(s, p, name).Some?
    ensures FieldWay(s, p, name, j, k, e)
  {
    var i := p + |name| + 2;
    j := SkipWhile(s, i, IsSpace);
    k := SkipWhile(s, j + 1, IsSpace);
    e := SkipWhile(s, k + 1, NotQuote);
  }

  /** The value skip stops at the closing quote `e`. */
  lemma QuotedValueReads(s: string, k: nat, e: nat)
    requires k + 1 < e < |s| && s[k] == '"' && s[e] == '"'
    requires forall i :: k + 1 <= i < e ==> s[i] != '"'
    ensures QuotedValue(s, k) == Some(Capture(s[k + 1..e], e + 1))
  {
    SkipWhileIs(s, k + 1, NotQuote, e);
  }

  /** The first brace at or after `from`, or `|s|`. */
  function NextBrace(s: string, from: nat): (b: nat)
    requires from <= |s|
    ensures from <= b <= |s| && BraceFree(s, from, b)
    ensures b < |s| ==> IsBrace(s[b])
  {
    SkipWhile(s, from, c => !IsBrace(c))
  }

  /** The first `}` at or after `from`, or `|s|`. */
  function NextClose(s: string, from: nat): (b: nat)
    requires from <= |s|
    ensures from <= b <= |s| && CloseFree(s, from, b)
    ensures b < |s| ==> s[b] == '}'
  {
    SkipWhile(s, from, c => c != '}')
  }

  /**
    The largest `k` in `lo..hi` satisfying `ok`: the split point a greedy
    sub-pattern settles on after giving back characters one at a time.
   */
  function LastTrue(lo: nat, hi: nat, ok: nat -> bool): (r: Option<nat>)
    requires lo <= hi
    ensures r.Some? ==> lo <= r.value <= hi && ok(r.value)
    ensures r.Some? ==> forall k :: r.value < k <= hi ==> !ok(k)
    ensures r.None? ==> forall k :: lo <= k <= hi ==> !ok(k)
    decreases hi - lo
  {
    if ok(hi) then Some(hi)
    else if hi == lo then None
    else LastTrue(lo, hi - 1, ok)
  }

  /**
    `re.finditer` over a text of length `n`, given `at(i)`, the match the
    engine reports when it tries index `i`: the scan tries `from`, `from + 1`,
    … and after each match resumes where that match ended. Each result pairs
    a start index with the match found there.
   */
  function FindAll<M>(n: nat, from: nat, at: nat -> Option<M>, end: M -> nat): (ms: seq<(nat, M)>)
    requires forall i :: from <= i < n && at(i).Some? ==> i < end(at(i).value)
    ensures forall k :: 0 <= k < |ms| ==> from <= ms[k].0 < n && at(ms[k].0) == Some(ms[k].1)
    ensures forall k :: 0 < k < |ms| ==> end(ms[k - 1].1) <= ms[k].0
    ensures NoMatchIn(at, from, NextStart(ms, 0, n))
    ensures forall k :: 0 <= k < |ms| ==> GapClear(at, end, ms, k, n)
    decreases n - from
  {
    if from >= n then []
    else
      match at(from)
      case Some(m) =>
        var rest := FindAll(n, end(m), at, end);
        var ms := [(from, m)] + rest;
        GapsAfterFirst(ms, n, at, end);
        ms
      case None => FindAll(n, from + 1, at, end)
  }

  /** The gaps of `[(i, m)] + rest`: the one after `m` is the stretch before `rest` starts. */
  lemma GapsAfterFirst<M>(ms: seq<(nat, M)>, n: nat, at: nat -> Option<M>, end: M -> nat)
    requires |ms| > 0
    requires NoMatchIn(at, end(ms[0].1), NextStart(ms[1..], 0, n))
    requires forall k :: 0 <= k < |ms[1..]| ==> GapClear(at, end, ms[1..], k, n)
    ensures forall k :: 0 <= k < |ms| ==> GapClear(at, end, ms, k, n)
  {
    var rest := ms[1..];
    forall k | 0 <= k < |ms| ensures GapClear(at, end, ms, k, n) {
      if k > 0 {
        assert GapClear(at, end, rest, k - 1, n);
        assert ms[k] == rest[k - 1];
        assert NextStart(ms, k + 1, n) == NextStart(rest, k, n);
      }
    }
  }

  /** Nothing matches from the end of `ms[k]` up to where the next result starts (or `n`). */
  predicate GapClear<M>(at: nat -> Option<M>, end: M -> nat, ms: seq<(nat, M)>, k: nat, n: nat)
    requires k < |ms|
  {
    NoMatchIn(at, end(ms[k].1), NextStart(ms, k + 1, n))
  }

  /** No index in `[lo, hi)` starts a match. */
  predicate NoMatchIn<M>(at: nat -> Option<M>, lo: nat, hi: nat) {
    forall i :: lo <= i < hi ==> at(i).None?
  }

  /** Where the result after `ms[j - 1]` starts, or `n` when there is none. */
  function NextStart<M>(ms: seq<(nat, M)>, j: nat, n: nat): nat {
    if j < |ms| then ms[j].0 else n
  }

  // ------------------------------------------------------------- pass one

  // Pass one is the pattern
  //   {[^{}]*"key"\s*:\s*"([^"]+)"[^{}]*"translation"\s*:\s*"([^"]+)"[^{}]*}
  // A way for it to match at `i` is fixed by where the key field starts (`p`)
  // and where the translation field starts (`q`); the trailing `[^{}]*}` then
  // has exactly one way to finish, at the next brace, which must be `}`.

  /** The translation field at `q`, then brace-free text up to a `}`; returns the end of the match. */
  function ClosingAt(s: string, q: nat): (r: Option<nat>)
    ensures r.Some? ==> q < r.value <= |s| && s[r.value - 1] == '}'
  {
    match FieldAt(s, q, TranslationName)
    case None => None
    case Some(f) =>
      var b := NextBrace(s, f.end);
      if b < |s| && s[b] == '}' then Some(b + 1) else None
  }

  /** After a key field ending at `e1`, the middle `[^{}]*` can stop at `q`. */
  predicate TranslationFrom(s: string, e1: nat, q: nat) {
    e1 <= q && BraceFree(s, e1, q) && ClosingAt(s, q).Some?
  }

  /** Pass one matches at `i` with its key field at `p` and translation field at `q`. */
  predicate Pass1Way(s: string, i: nat, p: nat, q: nat) {
    i < |s| && s[i] == '{' && i < p && BraceFree(s, i + 1, p)
    && FieldAt(s, p, KeyName).Some? && TranslationFrom(s, FieldAt(s, p, KeyName).value.end, q)
  }

  /** The split point the engine settles on for the middle `[^{}]*`: the largest one that works. */
  function BestTranslation(s: string, e1: nat): (r: Option<nat>)
    requires e1 <= |s|
    ensures r.Some? ==> TranslationFrom(s, e1, r.value)
    ensures r.Some? ==> forall q' :: r.value < q' ==> !TranslationFrom(s, e1, q')
    ensures r.None? ==> forall q' :: !TranslationFrom(s, e1, q')
  {
    var b := NextBrace(s, e1);
    forall q': nat | b < q' ensures !TranslationFrom(s, e1, q') {
      if b < |s| {
        assert IsBrace(s[b]);
      } else {
        assert FieldAt(s, q', TranslationName).None?;
      }
    }
    var ok := (q: nat) => TranslationFrom(s, e1, q);
    var r := LastTrue(e1, b, ok);
    assert r.None? ==> forall q' :: e1 <= q' <= b ==> !TranslationFrom(s, e1, q') by {
      if r.None? {
        forall q': nat | e1 <= q' <= b ensures !TranslationFrom(s, e1, q') {
          assert !ok(q');
        }
      }
    }
    assert r.Some? ==> forall q' :: r.value < q' <= b ==> !TranslationFrom(s, e1, q') by {
      if r.Some? {
        forall q': nat | r.value < q' <= b ensures !TranslationFrom(s, e1, q') {
          assert !ok(q');
        }
      }
    }
    r
  }

  /** The best way to finish pass one at `i` once the key field is placed at `p`. */
  function KeyHere(s: string, i: nat, p: nat): (r: Option<nat>)
    ensures r.Some? ==> Pass1Way(s, i, p, r.value)
    ensures r.Some? ==> forall q' :: r.value < q' ==> !Pass1Way(s, i, p, q')
    ensures r.None? ==> forall q' :: !Pass1Way(s, i, p, q')
  {
    if i < |s| && s[i] == '{' && i < p && BraceFree(s, i + 1, p) then
      match FieldAt(s, p, KeyName)
      case Some(f) => BestTranslation(s, f.end)
      case None => None
    else None
  }

  /** One pass-one match: where it starts and ends, where its two fields start, and their values. */
  datatype Match = Match(start: nat, keyAt: nat, translationAt: nat, end: nat, key: string, translation: string)

  /** A pass-one match with its fields read off the text. */
  predicate IsPass1Match(s: string, m: Match) {
    Pass1Way(s, m.start, m.keyAt, m.translationAt)
    && FieldAt(s, m.keyAt, KeyName).value.value == m.key
    && ClosingAt(s, m.translationAt) == Some(m.end)
    && FieldAt(s, m.translationAt, TranslationName).value.value == m.translation
  }

  /**
    The match the engine reports at `i`, if any: the way with the largest
    key position, and for it the largest translation position.
   */
  function Pass1At(s: string, i: nat): (r: Option<Match>)
    ensures r.Some? ==> IsPass1Match(s, r.value) && r.value.start == i && i < r.value.end <= |s|
    ensures r.Some? ==> forall p', q' :: r.value.keyAt < p' ==> !Pass1Way(s, i, p', q')
    ensures r.Some? ==> forall q' :: r.value.translationAt < q' ==> !Pass1Way(s, i, r.value.keyAt, q')
    ensures r.None? ==> forall p', q' :: !Pass1Way(s, i, p', q')
  {
    if i < |s| && s[i] == '{' then
      var b := NextBrace(s, i + 1);
      var ok := KeyFits(s, i);
      var found := LastTrue(i + 1, b, ok);
      KeyChoice(s, i, b, ok, found);
      if found.None? then None
      else
        var p := found.value;
        var q := KeyHere(s, i, p).value;
        var e := ClosingAt(s, q).value;
        Some(Match(i, p, q, e, FieldAt(s, p, KeyName).value.value, FieldAt(s, q, TranslationName).value.value))
    else
      None
  }

  /** Whether pass one at `i` can finish with its key field at `p`. */
  function KeyFits(s: string, i: nat): nat -> bool {
    (p: nat) => KeyHere(s, i, p).Some?
  }

  /** The key position `LastTrue` reports over the run before the first brace is the engine's choice. */
  lemma KeyChoice(s: string, i: nat, b: nat, ok: nat -> bool, found: Option<nat>)
    requires i < |s| && b == NextBrace(s, i + 1)
    requires ok == KeyFits(s, i)
    requires found.Some? ==> i + 1 <= found.value <= b && ok(found.value)
    requires found.Some? ==> forall k :: found.value < k <= b ==> !ok(k)
    requires found.None? ==> forall k :: i + 1 <= k <= b ==> !ok(k)
    ensures found.Some? ==> KeyHere(s, i, found.value).Some?
    ensures found.Some? ==> forall p', q' :: found.value < p' ==> !Pass1Way(s, i, p', q')
    ensures found.None? ==> forall p', q' :: !Pass1Way(s, i, p', q')
  {
    NoKeyPastBrace(s, i, b);
    var lo := if found.Some? then found.value + 1 else i + 1;
    forall p': nat, q': nat | lo <= p' <= b ensures !Pass1Way(s, i, p', q') {
      assert !ok(p');
    }
  }

  /** The leading `[^{}]*` cannot run past the first brace after `{`. */
  lemma NoKeyPastBrace(s: string, i: nat, b: nat)
    requires i < |s| && b == NextBrace(s, i + 1)
    ensures forall p', q' :: b < p' ==> !Pass1Way(s, i, p', q')
  {
    forall p': nat, q': nat | b < p' ensures !Pass1Way(s, i, p', q') {
      if b < |s| {
        assert IsBrace(s[b]);
      } else {
        assert FieldAt(s, p', KeyName).None?;
      }
    }
  }

  /**
    `re.finditer` of pass one over the whole text: the successive matches,
    with no match anywhere before the first, between two, or after the last.
   */
  function Pass1All(s: string): (ms: seq<(nat, Match)>)
    ensures forall k :: 0 <= k < |ms| ==> Pass1At(s, ms[k].0) == Some(ms[k].1)
    ensures forall k :: 0 < k < |ms| ==> ms[k - 1].1.end <= ms[k].0
    ensures |ms| == 0 ==> forall i :: Pass1At(s, i).None?
    ensures NoMatchIn(Pass1Exec(s), 0, NextStart(ms, 0, |s|))
    ensures forall k :: 0 <= k < |ms| ==> GapClear(Pass1Exec(s), MatchEnd, ms, k, |s|)
  {
    var at := Pass1Exec(s);
    var ms := FindAll(|s|, 0, at, MatchEnd);
    forall k | 0 <= k < |ms| ensures Pass1At(s, ms[k].0) == Some(ms[k].1) {
      assert at(ms[k].0) == Pass1At(s, ms[k].0);
    }
    if |ms| == 0 then
      forall i: nat ensures Pass1At(s, i).None? {
        assert i < |s| ==> at(i).None?;
      }
      ms
    else
      ms
  }

  /** `finditer`'s attempt at each index. */
  function Pass1Exec(s: string): nat -> Option<Match> {
    (i: nat) => Pass1At(s, i)
  }

  function MatchEnd(m: Match): nat {
    m.end
  }

  // ------------------------------------------------------------- pass two

  // Pass two is the pattern
  //   "key"\s*:\s*"([^"]+)"[^}]+"translation"\s*:\s*"([^"]+)"
  // fixed by where it starts (`p`) and where the translation field starts (`q`).

  /** Pass two matches at `p` with the translation field at `q`. */
  predicate Pass2Way(s: string, p: nat, q: nat) {
    FieldAt(s, p, KeyName).Some?
    && FieldAt(s, p, KeyName).value.end < q && CloseFree(s, FieldAt(s, p, KeyName).value.end, q)
    && FieldAt(s, q, TranslationName).Some?
  }

  /** A pass-two match: where it starts and ends and the two captured values. */
  datatype Pair = Pair(start: nat, translationAt: nat, end: nat, key: string, translation: string)

  predicate IsPass2Match(s: string, m: Pair) {
    Pass2Way(s, m.start, m.translationAt)
    && FieldAt(s, m.start, KeyName).value.value == m.key
    && FieldAt(s, m.translationAt, TranslationName).value == Capture(m.translation, m.end)
  }

  /** The match the engine reports at `p`, if any: the one with the largest translation position. */
  function Pass2At(s: string, p: nat): (r: Option<Pair>)
    ensures r.Some? ==> IsPass2Match(s, r.value) && r.value.start == p && p < r.value.end <= |s|
    ensures r.Some? ==> forall q' :: r.value.translationAt < q' ==> !Pass2Way(s, p, q')
    ensures r.None? ==> forall q' :: !Pass2Way(s, p, q')
  {
    match FieldAt(s, p, KeyName)
    case None => None
    case Some(f) =>
      var b := NextClose(s, f.end);
      NoTranslationPastClose(s, p, b);
      var ok := (q: nat) => Pass2Way(s, p, q);
      if b == f.end then None
      else
        match LastTrue(f.end + 1, b, ok)
        case None =>
          forall q': nat | f.end + 1 <= q' <= b ensures !Pass2Way(s, p, q') {
            assert !ok(q');
          }
          None
        case Some(q) =>
          forall q': nat | q < q' <= b ensures !Pass2Way(s, p, q') {
            assert !ok(q');
          }
          var t := FieldAt(s, q, TranslationName).value;
          Some(Pair(p, q, t.end, f.value, t.value))
  }

  /** The `[^}]+` of pass two cannot run past the first `}` after the key field. */
  lemma NoTranslationPastClose(s: string, p: nat, b: nat)
    requires FieldAt(s, p, KeyName).Some?
    requires b == NextClose(s, FieldAt(s, p, KeyName).value.end)
    ensures forall q': nat :: b < q' || q' <= FieldAt(s, p, KeyName).value.end ==> !Pass2Way(s, p, q')
  {
    forall q': nat | b < q' ensures !Pass2Way(s, p, q') {
      if b < |s| {
        assert s[b] == '}';
      } else {
        assert FieldAt(s, q', TranslationName).None?;
      }
    }
  }

  /**
    `re.finditer` of pass two over the whole text: the successive matches,
    with no match anywhere before the first, between two, or after the last.
   */
  function Pass2All(s: string): (ms: seq<(nat, Pair)>)
    ensures forall k :: 0 <= k < |ms| ==> Pass2At(s, ms[k].0) == Some(ms[k].1)
    ensures forall k :: 0 < k < |ms| ==> ms[k - 1].1.end <= ms[k].0
    ensures |ms| == 0 ==> forall i :: Pass2At(s, i).None?
    ensures NoMatchIn(Pass2Exec(s), 0, NextStart(ms, 0, |s|))
    ensures forall k :: 0 <= k < |ms| ==> GapClear(Pass2Exec(s), PairEnd, ms, k, |s|)
  {
    var at := Pass2Exec(s);
    var ms := FindAll(|s|, 0, at, PairEnd);
    forall k | 0 <= k < |ms| ensures Pass2At(s, ms[k].0) == Some(ms[k].1) {
      assert at(ms[k].0) == Pass2At(s, ms[k].0);
    }
    assert |ms| == 0 ==> forall i :: Pass2At(s, i).None? by {
      if |ms| == 0 {
        forall i: nat ensures Pass2At(s, i).None? {
          assert i < |s| ==> at(i).None?;
        }
      }
    }
    ms
  }

  /** `finditer`'s attempt at each index. */
  function Pass2Exec(s: string): nat -> Option<Pair> {
    (i: nat) => Pass2At(s, i)
  }

  function PairEnd(m: Pair): nat {
    m.end
  }

  // ----------------------------------------------------------- re.search

  /** `re.search` of a single field pattern: its leftmost match at or after `from`. */
  function SearchField(s: string, name: string, from: nat): (r: Option<Capture>)
    ensures r.Some? ==> exists p :: from <= p && FieldAt(s, p, name) == r
    ensures r.Some? ==> forall p :: from <= p && FieldAt(s, p, name).Some? ==> r.value.end <= FieldAt(s, p, name).value.end
    ensures r.None? ==> forall p :: from <= p ==> FieldAt(s, p, name).None?
    decreases |s| - from
  {
    if from >= |s| then None
    else if FieldAt(s, from, name).Some? then FieldAt(s, from, name)
    else SearchField(s, name, from + 1)
  }
}
