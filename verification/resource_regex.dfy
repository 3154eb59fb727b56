/**
  The browser-side reading of an Android `strings.xml` file: the global
  regular expression

    /<string[^>]*name="([^"]*)"[^>]*>([\s\S]*?)<\/string>/g

  run with `exec` until it fails, each match storing its trimmed body under
  its name. JavaScript's engine backtracks like Python's: the greedy
  `[^>]*` before `name="` gives characters back one at a time, so the
  `name="` it settles on is the last one before the first `>` that lets the
  rest of the pattern match. Everything after `name="` has one way to
  match: the name runs to the next `"`, the tag to the next `>`, and the
  lazy body to the next `</string>`.
 */
module ResourceRegex {
  import opened Wrappers
  import opened Text
  import opened Dicts
  import opened Scanners

  const OpenTag := "<string"
  const NameOpen := "name=\""
  const CloseTag := "</string>"

  predicate NotCloseAngle(c: char) {
    c != '>'
  }

  /** No `>` in `s[lo..hi]`. */
  predicate AngleFree(s: string, lo: nat, hi: nat) {
    forall k :: lo <= k < hi && k < |s| ==> s[k] != '>'
  }

  /** What follows `name="`: the name, where the tag closes, the body, and the index past `</string>`. */
  datatype Tail = Tail(name: string, gt: nat, body: string, end: nat)

  /**
    `([^"]*)"[^>]*>([\s\S]*?)<\/string>` matching from `p + 6`: a name with
    no `"`, a `"`, a run with no `>`, a `>`, and the shortest body that is
    followed by `</string>`.
   */
  predicate TailWay(s: string, p: nat, t: Tail) {
    var q := p + 6 + |t.name|;
    && q < t.gt < |s| && s[p + 6..q] == t.name && '"' !in t.name && s[q] == '"'
    && AngleFree(s, q + 1, t.gt) && s[t.gt] == '>'
    && t.gt + 1 <= t.end - 9 && FirstClose(s, t.gt + 1, t.end - 9)
    && t.body == s[t.gt + 1..t.end - 9]
  }

  /** `e` is where the first `</string>` at or after `from` starts. */
  predicate FirstClose(s: string, from: nat, e: nat) {
    from <= e && StartsAt(s, e, CloseTag) && forall k :: from <= k < e ==> !StartsAt(s, k, CloseTag)
  }

  /** `Find` reports exactly the first `</string>`. */
  lemma FindFirstClose(s: string, from: nat, e: nat)
    requires from <= |s|
    ensures Find(s, CloseTag, from) == Some(e) <==> FirstClose(s, from, e)
  {
    if FirstClose(s, from, e) {
      FindIs(s, CloseTag, from, e);
    }
  }

  /** There is only one first `</string>`. */
  lemma FirstCloseUnique(s: string, from: nat, e: nat)
    requires FirstClose(s, from, e)
    ensures forall e': nat :: FirstClose(s, from, e') ==> e' == e
  {
  }

  /** The rest of the pattern after `name="` at `p`: it has at most one way to match. */
  function TailAt(s: string, p: nat): (r: Option<Tail>)
    requires p + 6 <= |s|
    ensures forall t :: TailWay(s, p, t) <==> r == Some(t)
  {
    var q := SkipWhile(s, p + 6, NotQuote);
    if q == |s| then
      NoTail(s, p, q, |s|);
      None
    else
      var g := SkipWhile(s, q + 1, NotCloseAngle);
      if g == |s| then
        NoTail(s, p, q, g);
        None
      else
        match Find(s, CloseTag, g + 1)
        case None =>
          NoTail(s, p, q, g);
          None
        case Some(e) =>
          OnlyTail(s, p, q, g, e);
          Some(Tail(s[p + 6..q], g, s[g + 1..e], e + 9))
  }

  /** With the first close tag at `e`, the tail found is the only way to match. */
  lemma OnlyTail(s: string, p: nat, q: nat, g: nat, e: nat)
    requires p + 6 <= q < |s| && (forall k :: p + 6 <= k < q ==> NotQuote(s[k])) && s[q] == '"'
    requires q + 1 <= g < |s| && (forall k :: q + 1 <= k < g ==> NotCloseAngle(s[k])) && s[g] == '>'
    requires Find(s, CloseTag, g + 1) == Some(e)
    ensures forall t :: TailWay(s, p, t) <==> t == Tail(s[p + 6..q], g, s[g + 1..e], e + 9)
  {
    NameIsRun(s, p, q);
    FindFirstClose(s, g + 1, e);
    FirstCloseUnique(s, g + 1, e);
    NoTail(s, p, q, g);
    TailFound(s, p, q, g, e);
  }

  /** The first `"`, the first `>` after it and the first `</string>` after that make a way. */
  lemma TailFound(s: string, p: nat, q: nat, g: nat, e: nat)
    requires p + 6 <= q < |s| && (forall k :: p + 6 <= k < q ==> NotQuote(s[k])) && s[q] == '"'
    requires q + 1 <= g < |s| && (forall k :: q + 1 <= k < g ==> NotCloseAngle(s[k])) && s[g] == '>'
    requires FirstClose(s, g + 1, e)
    ensures TailWay(s, p, Tail(s[p + 6..q], g, s[g + 1..e], e + 9))
  {
    NameIsRun(s, p, q);
  }

  lemma NameIsRun(s: string, p: nat, q: nat)
    requires p + 6 <= q < |s| && forall k :: p + 6 <= k < q ==> NotQuote(s[k])
    ensures '"' !in s[p + 6..q] && p + 6 + |s[p + 6..q]| == q
  {
    var name := s[p + 6..q];
    assert forall k :: 0 <= k < |name| ==> name[k] == s[p + 6 + k];
  }

  /**
    Any way for the tail to match uses the first `"` after the name's start
    (`q`) and the first `>` after it (`g`), and ends at the first
    `</string>` after that.
   */
  lemma NoTail(s: string, p: nat, q: nat, g: nat)
    requires p + 6 <= q <= |s| && forall k :: p + 6 <= k < q ==> NotQuote(s[k])
    requires q == |s| || s[q] == '"'
    requires q < |s| ==> q + 1 <= g <= |s| && (forall k :: q + 1 <= k < g ==> NotCloseAngle(s[k])) && (g == |s| || s[g] == '>')
    ensures forall t :: TailWay(s, p, t) ==>
      (&& q < |s| && g < |s| && p + 6 + |t.name| == q && t.gt == g
       && FirstClose(s, g + 1, t.end - 9) && t.name == s[p + 6..q] && t.body == s[g + 1..t.end - 9])
  {
    forall t | TailWay(s, p, t)
      ensures q < |s| && g < |s| && p + 6 + |t.name| == q && t.gt == g
    {
      TailFixed(s, p, q, g, t);
    }
  }

  lemma TailFixed(s: string, p: nat, q: nat, g: nat, t: Tail)
    requires p + 6 <= q <= |s| && forall k :: p + 6 <= k < q ==> NotQuote(s[k])
    requires q == |s| || s[q] == '"'
    requires q < |s| ==> q + 1 <= g <= |s| && (forall k :: q + 1 <= k < g ==> NotCloseAngle(s[k])) && (g == |s| || s[g] == '>')
    requires TailWay(s, p, t)
    ensures q < |s| && g < |s| && p + 6 + |t.name| == q && t.gt == g
  {
    TailQuote(s, p, q, t);
    TailAngle(s, q, g, t);
  }

  lemma TailQuote(s: string, p: nat, q: nat, t: Tail)
    requires p + 6 <= q <= |s| && forall k :: p + 6 <= k < q ==> NotQuote(s[k])
    requires q == |s| || s[q] == '"'
    requires TailWay(s, p, t)
    ensures p + 6 + |t.name| == q
  {
  }

  lemma TailAngle(s: string, q: nat, g: nat, t: Tail)
    requires q < |s| && q < t.gt < |s| && AngleFree(s, q + 1, t.gt) && s[t.gt] == '>'
    requires q + 1 <= g <= |s| && (forall k :: q + 1 <= k < g ==> NotCloseAngle(s[k])) && (g == |s| || s[g] == '>')
    ensures t.gt == g
  {
  }

  /** A first occurrence is what `Find` reports. */
  lemma FindIs(s: string, pat: string, from: nat, e: nat)
    requires from <= e && StartsAt(s, e, pat)
    requires forall k :: from <= k < e ==> !StartsAt(s, k, pat)
    ensures Find(s, pat, from) == Some(e)
    decreases e - from
  {
    if from < e {
      FindIs(s, pat, from + 1, e);
    }
  }
  // ---------------------------------------------------------------- elements

  /** The regex matches at `i` with its `name="` at `p`. */
  predicate ElementWay(s: string, i: nat, p: nat) {
    && StartsAt(s, i, OpenTag) && i + 7 <= p && AngleFree(s, i + 7, p)
    && StartsAt(s, p, NameOpen) && TailAt(s, p).Some?
  }

  /** A `name="` at `p` whose tail matches. */
  predicate NamedTail(s: string, p: nat) {
    StartsAt(s, p, NameOpen) && TailAt(s, p).Some?
  }

  /** One match: where it starts, where its `name="` is, and what follows it. */
  datatype Element = Element(start: nat, nameAt: nat, tail: Tail)

  /**
    The match the engine reports at `i`: it takes the last `name="` that
    works, and reports nothing when none does.
   */
  ghost predicate EngineChoice(s: string, i: nat, r: Option<Element>) {
    && (r.Some? ==> r.value.start == i && ElementWay(s, i, r.value.nameAt))
    && (r.Some? ==> TailAt(s, r.value.nameAt) == Some(r.value.tail))
    && (r.Some? ==> forall p': nat :: r.value.nameAt < p' ==> !ElementWay(s, i, p'))
    && (r.None? ==> forall p': nat :: !ElementWay(s, i, p'))
  }

  /**
    `regex.exec` tried at index `i` (the `lastIndex`): the match with the
    last `name="` that works, if any.
   */
  function ElementAt(s: string, i: nat): (r: Option<Element>)
    ensures r.Some? ==> i < r.value.tail.end <= |s|
    ensures EngineChoice(s, i, r)
  {
    if !StartsAt(s, i, OpenTag) then None
    else
      var b := SkipWhile(s, i + 7, NotCloseAngle);
      var ok := (p: nat) => NamedTail(s, p);
      var found := LastTrue(i + 7, b, ok);
      LastNamedTail(s, i, b, ok, found);
      if found.None? then None
      else Some(Element(i, found.value, TailAt(s, found.value).value))
  }

  /** What `LastTrue` reports over the run before the first `>` is the engine's choice of `name="`. */
  lemma LastNamedTail(s: string, i: nat, b: nat, ok: nat -> bool, found: Option<nat>)
    requires StartsAt(s, i, OpenTag) && b == SkipWhile(s, i + 7, NotCloseAngle)
    requires forall p: nat :: ok(p) == NamedTail(s, p)
    requires found.Some? ==> i + 7 <= found.value <= b && ok(found.value)
    requires found.Some? ==> forall k :: found.value < k <= b ==> !ok(k)
    requires found.None? ==> forall k :: i + 7 <= k <= b ==> !ok(k)
    ensures found.Some? ==> ElementWay(s, i, found.value) && i < TailAt(s, found.value).value.end <= |s|
    ensures found.Some? ==> forall p': nat :: found.value < p' ==> !ElementWay(s, i, p')
    ensures found.None? ==> forall p': nat :: !ElementWay(s, i, p')
  {
    AngleRun(s, i, b);
    if found.Some? {
      var t := TailAt(s, found.value).value;
      assert TailWay(s, found.value, t);
    }
  }

  /** The leading `[^>]*` stops at or before the first `>` after `<string`. */
  lemma AngleRun(s: string, i: nat, b: nat)
    requires StartsAt(s, i, OpenTag) && i + 7 <= b <= |s|
    requires forall k :: i + 7 <= k < b ==> NotCloseAngle(s[k])
    requires b == |s| || !NotCloseAngle(s[b])
    ensures forall p: nat :: ElementWay(s, i, p) <==> i + 7 <= p <= b && NamedTail(s, p)
  {
    forall p: nat ensures ElementWay(s, i, p) <==> i + 7 <= p <= b && NamedTail(s, p) {
    }
  }

  /** `exec` as a function of `lastIndex`. */
  function ExecAt(s: string): nat -> Option<Element> {
    (i: nat) => ElementAt(s, i)
  }

  function EndOf(m: Element): nat {
    m.tail.end
  }

  /** The successive matches of the `exec` loop, from `lastIndex` 0. */
  function Elements(s: string): seq<(nat, Element)> {
    FindAll(|s|, 0, ExecAt(s), EndOf)
  }

  /**
    The loop reports, in order and without overlap, what `exec` finds from
    each `lastIndex`, and skips no match: nothing matches before the first
    result, between one result's end and the next start, or after the last.
   */
  lemma ElementsMeaning(s: string)
    ensures var ms := Elements(s);
      forall k :: 0 <= k < |ms| ==> ElementAt(s, ms[k].0) == Some(ms[k].1)
    ensures var ms := Elements(s);
      forall k :: 0 < k < |ms| ==> ms[k - 1].1.tail.end <= ms[k].0
    ensures var ms := Elements(s);
      forall i: nat :: i < |s| && (|ms| == 0 || i < ms[0].0) ==> ElementAt(s, i).None?
    ensures var ms := Elements(s);
      forall k :: 0 <= k < |ms| ==> GapClear(ExecAt(s), EndOf, ms, k, |s|)
  {
    var ms := Elements(s);
    var at := ExecAt(s);
    assert forall k :: 0 <= k < |ms| ==> at(ms[k].0) == Some(ms[k].1);
    forall k | 0 <= k < |ms| ensures ElementAt(s, ms[k].0) == Some(ms[k].1) {
      assert at(ms[k].0) == ElementAt(s, ms[k].0);
    }
    forall i: nat | i < |s| && (|ms| == 0 || i < ms[0].0) ensures ElementAt(s, i).None? {
      assert at(i).None?;
    }
  }

  /** Each match as the assignment `strings[match[1]] = match[2].trim()`. */
  function Assignments(ms: seq<(nat, Element)>): (ps: Dict<string, string>)
    ensures |ps| == |ms|
    ensures forall k :: 0 <= k < |ms| ==> ps[k] == (ms[k].1.tail.name, JsTrim(ms[k].1.tail.body))
  {
    seq(|ms|, k requires 0 <= k < |ms| => (ms[k].1.tail.name, JsTrim(ms[k].1.tail.body)))
  }

  /**
    `getStringsFromFile(path, content)`: every match's trimmed body under its
    name, a later match of the same name overwriting an earlier one.
   */
  function GetStrings(s: string): (r: Dict<string, string>)
    ensures UniqueKeys(r)
    ensures forall n :: Get(r, n) == LastOf(Assignments(Elements(s)), n)
  {
    var ps := Assignments(Elements(s));
    forall n ensures Get(Update([], ps), n) == LastOf(ps, n) {
      GetUpdateLast([], ps, n);
    }
    Update([], ps)
  }

  /**
    A name is present exactly when some match carries it, and it holds the
    trimmed body of the last such match.
   */
  lemma GetStringsLastWins(s: string, n: string)
    ensures HasKey(GetStrings(s), n) <==> exists k :: 0 <= k < |Elements(s)| && Elements(s)[k].1.tail.name == n
    ensures Get(GetStrings(s), n) == LastOf(Assignments(Elements(s)), n)
  {
    var ms := Elements(s);
    var ps := Assignments(ms);
    GetUpdateLast([], ps, n);
    if HasKey(ps, n) {
      var a := HasKeyAt(ps, n);
      assert ms[a].1.tail.name == n;
    }
    forall k | 0 <= k < |ms| && ms[k].1.tail.name == n ensures HasKey(ps, n) {
      AtHasKey(ps, k);
    }
  }
  // -------------------------------------------------------------- round trip

  /** One resource line as Android writes it: `<string name="k">v</string>`. */
  function Render(k: string, v: string): string {
    "<string name=\"" + k + "\">" + v + CloseTag
  }

  /**
    Reading one rendered element gives back its name and its trimmed value,
    when the name holds no `"` or `>` and the value no `"` or `<`.
   */
  lemma ReadRendered(k: string, v: string)
    requires '"' !in k && '>' !in k && '"' !in v && '<' !in v
    ensures GetStrings(Render(k, v)) == [(k, JsTrim(v))]
  {
    var s := Render(k, v);
    var q := 14 + |k|;
    var t := Tail(k, q + 1, v, |s|);
    RenderLayout(k, v);
    RenderTail(k, v);
    RenderOnlyName(k, v);
    var r := ElementAt(s, 0);
    assert ElementWay(s, 0, 8);
    assert r == Some(Element(0, 8, t));
    var tailEnd := FindAll(|s|, |s|, ExecAt(s), EndOf);
    assert tailEnd == [];
    assert Elements(s) == [(0, Element(0, 8, t))] + tailEnd;
    var ps := Assignments(Elements(s));
    assert ps == [(k, JsTrim(v))];
    assert ps[1..] == [];
    assert Update([], ps) == Update(Put([], k, JsTrim(v)), []);
  }

  /**
    Why `ReadRendered` asks for a value without `"`: for the name `name=`, a
    `"` in the value lets the greedy `[^>]*` settle on the later `name="` that
    ends the name, and the element reads as a different one.
   */
  lemma QuoteInValueMisreads()
    ensures GetStrings(Render("name=", "x\" >y")) == [(">x", JsTrim("y"))]
  {
    var s := Render("name=", "x\" >y");
    var t := Tail(">x", 24, "y", 35);
    MisreadElement();
    var tailEnd := FindAll(|s|, |s|, ExecAt(s), EndOf);
    assert tailEnd == [];
    assert Elements(s) == [(0, Element(0, 14, t))] + tailEnd;
    var ps := Assignments(Elements(s));
    assert ps == [(">x", JsTrim("y"))];
    assert ps[1..] == [];
    assert Update([], ps) == Update(Put([], ">x", JsTrim("y")), []);
  }

  const MisreadDoc := "<string name=\"name=\">x\" >y</string>"

  /** The match at 0 takes the `name="` at 14, the last one before the first `>`. */
  lemma MisreadElement()
    ensures |Render("name=", "x\" >y")| == 35
    ensures ElementAt(Render("name=", "x\" >y"), 0) == Some(Element(0, 14, Tail(">x", 24, "y", 35)))
  {
    assert Render("name=", "x\" >y") == MisreadDoc;
    MisreadTail();
    MisreadWay();
    MisreadNoLater();
  }

  lemma MisreadWay()
    ensures ElementWay(MisreadDoc, 0, 14)
  {
    MisreadTail();
    MisreadHead();
  }

  lemma MisreadHead()
    ensures StartsAt(MisreadDoc, 0, OpenTag) && StartsAt(MisreadDoc, 14, NameOpen)
    ensures AngleFree(MisreadDoc, 7, 14)
  {
    var s := MisreadDoc;
    var a := OpenTag + " " + NameOpen;
    var b := NameOpen + ">x\" >y" + CloseTag;
    assert s == a + b;
    assert |a| == 14;
    assert s[0..7] == a[0..7];
    assert s[14..20] == b[0..6];
  }

  /** No `name="` between 14 and the first `>` at 20. */
  lemma MisreadNoLater()
    ensures forall p: nat :: 14 < p ==> !ElementWay(MisreadDoc, 0, p)
  {
    var s := MisreadDoc;
    assert s[20] == '>';
    forall p: nat | 14 < p <= 20 ensures !StartsAt(s, p, NameOpen) {
      if StartsAt(s, p, NameOpen) {
        assert false;
      }
    }
  }

  /** After the `name="` at 14 come the name `>x`, the `>` at 24 and the body `y`. */
  lemma MisreadTail()
    ensures TailAt(MisreadDoc, 14) == Some(Tail(">x", 24, "y", 35))
  {
    var s := MisreadDoc;
    MisreadChars();
    TailFound(s, 14, 22, 24, 26);
  }

  lemma MisreadChars()
    ensures var s := MisreadDoc;
      && |s| == 35 && s[20] == '>' && s[21] == 'x' && s[22] == '"' && s[23] == ' ' && s[24] == '>'
      && s[20..22] == ">x" && s[25..26] == "y"
      && FirstClose(s, 25, 26)
  {
    var s := MisreadDoc;
    assert s == "<string name=\"name=\">x\" >y" + CloseTag;
    assert s[26..] == CloseTag;
    assert s[25] == 'y' && !StartsAt(s, 25, CloseTag);
  }

  /** The `name="` at 8 has the rendered name, tag end and body as its tail. */
  lemma RenderTail(k: string, v: string)
    requires '"' !in k && '<' !in v
    ensures TailAt(Render(k, v), 8) == Some(Tail(k, 15 + |k|, v, |Render(k, v)|))
  {
    var s := Render(k, v);
    var q := 14 + |k|;
    var t := Tail(k, q + 1, v, |s|);
    RenderLayout(k, v);
    forall j | t.gt + 1 <= j < t.end - 9 ensures !StartsAt(s, j, CloseTag) {
      assert s[j] == v[j - q - 2];
    }
    assert TailWay(s, 8, t);
  }

  /** No `name="` after the one at 8 starts a tail that matches. */
  lemma RenderOnlyName(k: string, v: string)
    requires '"' !in k && '"' !in v
    ensures forall p: nat :: 8 < p ==> !ElementWay(Render(k, v), 0, p)
  {
    var s := Render(k, v);
    var q := 14 + |k|;
    RenderQuotes(k, v);
    forall p: nat | 8 < p && StartsAt(s, p, NameOpen) ensures TailAt(s, p).None? {
      assert s[p + 5] == NameOpen[5];
      assert p + 5 == q;
    }
  }

  /** The only `"` characters of a rendered element are the two around the name. */
  lemma RenderQuotes(k: string, v: string)
    requires '"' !in k && '"' !in v
    ensures var s := Render(k, v);
      forall j :: 0 <= j < |s| && s[j] == '"' ==> j == 13 || j == 14 + |k|
  {
    var s := Render(k, v);
    var q := 14 + |k|;
    RenderLayout(k, v);
    forall j | 0 <= j < |s| && j != 13 && j != q ensures s[j] != '"' {
      if 14 <= j < q {
        assert s[j] == k[j - 14];
      } else if q + 2 <= j < q + 2 + |v| {
        assert s[j] == v[j - q - 2];
      }
    }
  }

  /** Where the characters of a rendered element sit. */
  lemma RenderLayout(k: string, v: string)
    ensures var s := Render(k, v); var q := 14 + |k|;
      && |s| == q + 11 + |v| && StartsAt(s, 0, OpenTag) && StartsAt(s, 8, NameOpen)
      && s[14..q] == k && s[q] == '"' && s[q + 1] == '>' && s[q + 2..q + 2 + |v|] == v
      && StartsAt(s, q + 2 + |v|, CloseTag)
      && (forall j :: 0 <= j < 14 ==> (s[j] == '"' <==> j == 13))
      && (forall j :: 0 <= j < 14 ==> s[j] != '>')
      && (forall j :: 14 <= j < q ==> s[j] == k[j - 14])
      && (forall j :: q + 2 <= j < q + 2 + |v| ==> s[j] == v[j - q - 2])
      && (forall j :: q + 2 + |v| <= j < |s| ==> s[j] != '"')
  {
    var head := "<string name=\"";
    var s := Render(k, v);
    var q := 14 + |k|;
    var mid := head + k + "\">";
    assert s == mid + v + CloseTag;
    assert forall j :: 0 <= j < 14 ==> s[j] == head[j];
    assert s[0..7] == head[0..7] == OpenTag;
    assert s[8..14] == head[8..14] == NameOpen;
    assert s[14..q] == k;
    assert |mid| == q + 2 && mid[q] == '"' && mid[q + 1] == '>';
    assert s[q] == mid[q] && s[q + 1] == mid[q + 1];
    assert s[q..q + 2] == "\">";
    assert s[q + 2..q + 2 + |v|] == v;
    assert s[q + 2 + |v|..] == CloseTag;
    forall j | q + 2 + |v| <= j < |s| ensures s[j] != '"' {
      assert s[j] == CloseTag[j - q - 2 - |v|];
    }
  }
}
