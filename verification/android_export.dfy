/**
  The Android `strings.xml` export of the single-file app: one
  `<string name="K">V</string>` line per translation, in insertion order,
  between the XML header with `<resources>` and `</resources>`. The name is
  the key with every `.` turned into `_`; the value goes through four
  successive `str.replace` calls: `&`, then `<`, then `>`, then `"` to `\"`.

  The escaping is shown equal to a per-character escape, its output is shown
  free of raw angle brackets with every `&` starting an entity, and it is
  inverted by `Unescape`. A reader for the whole document recovers the
  entries whenever no key holds a `"`. Over the session's translations,
  whose keys are whatever the reply decoded to, a key that is not a string
  makes `key.replace` raise.
 */
module AndroidExport {
  import opened Wrappers
  import opened Text
  import opened Dicts
  import opened Json

  // ---------------------------------------------------------------- escaping

  /** Python `s.replace(c, r)` for a one-character pattern: every `c` becomes `r`. */
  function ReplaceAll(s: string, c: char, r: string): string {
    if |s| == 0 then "" else (if s[0] == c then r else [s[0]]) + ReplaceAll(s[1..], c, r)
  }

  /** The four replacements, in the order the export applies them. */
  function Escape(s: string): string {
    ReplaceAll(ReplaceAll(ReplaceAll(ReplaceAll(s, '&', "&amp;"), '<', "&lt;"), '>', "&gt;"), '"', "\\\"")
  }

  /** What one input character turns into. */
  function EscapeChar(c: char): (r: string)
    ensures |r| >= 1 && r[0] != '"'
  {
    if c == '&' then "&amp;"
    else if c == '<' then "&lt;"
    else if c == '>' then "&gt;"
    else if c == '"' then "\\\""
    else [c]
  }

  /** The per-character reading of the escape. */
  function EscapeEach(s: string): (r: string)
    ensures |r| >= |s|
    ensures |r| > 0 ==> r[0] != '"'
  {
    if |s| == 0 then "" else EscapeChar(s[0]) + EscapeEach(s[1..])
  }

  lemma {:induction false} ReplaceAllConcat(a: string, b: string, c: char, r: string)
    ensures ReplaceAll(a + b, c, r) == ReplaceAll(a, c, r) + ReplaceAll(b, c, r)
    decreases |a|
  {
    if |a| == 0 {
      assert a + b == b;
    } else {
      assert (a + b)[1..] == a[1..] + b;
      ReplaceAllConcat(a[1..], b, c, r);
    }
  }

  lemma ReplaceAllOne(x: char, c: char, r: string)
    ensures ReplaceAll([x], c, r) == if x == c then r else [x]
  {
    assert [x][1..] == "";
  }

  lemma {:induction false} ReplaceAllNone(s: string, c: char, r: string)
    requires forall i :: 0 <= i < |s| ==> s[i] != c
    ensures ReplaceAll(s, c, r) == s
    decreases |s|
  {
    if |s| > 0 {
      ReplaceAllNone(s[1..], c, r);
    }
  }

  /** Each character goes through the four replacements on its own. */
  lemma EscapeOneChar(x: char)
    ensures Escape([x]) == EscapeChar(x)
  {
    ReplaceAllOne(x, '&', "&amp;");
    if x == '&' {
      EscapeAmpersand();
    } else {
      ReplaceAllOne(x, '<', "&lt;");
      if x == '<' {
        EscapeLess();
      } else {
        ReplaceAllOne(x, '>', "&gt;");
        ReplaceAllOne(x, '"', "\\\"");
      }
    }
  }

  lemma EscapeAmpersand()
    ensures Escape("&") == "&amp;"
  {
    var e := "&amp;";
    ReplaceAllOne('&', '&', e);
    assert ReplaceAll("&", '&', e) == e;
    AmpNoSpecial();
    ReplaceAllNone(e, '<', "&lt;");
    ReplaceAllNone(e, '>', "&gt;");
    ReplaceAllNone(e, '"', "\\\"");
  }

  lemma AmpNoSpecial()
    ensures forall i :: 0 <= i < |"&amp;"| ==> "&amp;"[i] != '<' && "&amp;"[i] != '>' && "&amp;"[i] != '"'
  {
  }

  lemma EscapeLess()
    ensures Escape("<") == "&lt;"
  {
    ReplaceAllOne('<', '&', "&amp;");
    ReplaceAllOne('<', '<', "&lt;");
    ReplaceAllNone("&lt;", '>', "&gt;");
    ReplaceAllNone("&lt;", '"', "\\\"");
  }

  /** The successive replacements act character by character. */
  lemma {:induction false} EscapeIsEach(s: string)
    ensures Escape(s) == EscapeEach(s)
    decreases |s|
  {
    if |s| > 0 {
      var x, rest := [s[0]], s[1..];
      assert s == x + rest;
      var a1, b1 := ReplaceAll(x, '&', "&amp;"), ReplaceAll(rest, '&', "&amp;");
      ReplaceAllConcat(x, rest, '&', "&amp;");
      var a2, b2 := ReplaceAll(a1, '<', "&lt;"), ReplaceAll(b1, '<', "&lt;");
      ReplaceAllConcat(a1, b1, '<', "&lt;");
      var a3, b3 := ReplaceAll(a2, '>', "&gt;"), ReplaceAll(b2, '>', "&gt;");
      ReplaceAllConcat(a2, b2, '>', "&gt;");
      ReplaceAllConcat(a3, b3, '"', "\\\"");
      EscapeOneChar(s[0]);
      EscapeIsEach(rest);
    }
  }

  /** The escaped text holds no raw `<` or `>`. */
  lemma {:induction false} NoRawAngles(s: string)
    ensures forall i :: 0 <= i < |Escape(s)| ==> Escape(s)[i] != '<' && Escape(s)[i] != '>'
  {
    EscapeIsEach(s);
    EachNoRawAngles(s);
  }

  lemma {:induction false} EachNoRawAngles(s: string)
    ensures forall i :: 0 <= i < |EscapeEach(s)| ==> EscapeEach(s)[i] != '<' && EscapeEach(s)[i] != '>'
    decreases |s|
  {
    if |s| > 0 {
      EachNoRawAngles(s[1..]);
      var h := EscapeChar(s[0]);
      assert forall i :: 0 <= i < |h| ==> h[i] != '<' && h[i] != '>';
    }
  }

  /** Every `&` in the escaped text begins `&amp;`, `&lt;` or `&gt;`. */
  predicate EntityAt(e: string, i: nat) {
    StartsAt(e, i, "&amp;") || StartsAt(e, i, "&lt;") || StartsAt(e, i, "&gt;")
  }

  lemma StartsAtShift(a: string, b: string, i: nat, pat: string)
    requires StartsAt(b, i, pat)
    ensures StartsAt(a + b, |a| + i, pat)
  {
    assert (a + b)[|a| + i..|a| + i + |pat|] == b[i..i + |pat|];
  }

  lemma StartsAtFront(a: string, b: string, pat: string)
    requires StartsAt(a, 0, pat)
    ensures StartsAt(a + b, 0, pat)
  {
    assert (a + b)[..|pat|] == a[..|pat|];
  }

  lemma {:induction false} AmpersandsBeginEntities(s: string)
    ensures forall i :: 0 <= i < |Escape(s)| && Escape(s)[i] == '&' ==> EntityAt(Escape(s), i)
  {
    EscapeIsEach(s);
    EachAmpersands(s);
  }

  lemma {:induction false} EachAmpersands(s: string)
    ensures forall i :: 0 <= i < |EscapeEach(s)| && EscapeEach(s)[i] == '&' ==> EntityAt(EscapeEach(s), i)
    decreases |s|
  {
    if |s| > 0 {
      var h, t := EscapeChar(s[0]), EscapeEach(s[1..]);
      EachAmpersands(s[1..]);
      CharAmpersands(s[0]);
      forall i | 0 <= i < |h + t| && (h + t)[i] == '&' ensures EntityAt(h + t, i) {
        if i < |h| {
          assert h[i] == '&';
          EntityFront(h, t);
        } else {
          assert t[i - |h|] == '&';
          EntityShift(h, t, i - |h|);
        }
      }
    }
  }

  /** In one escaped character, an `&` can only be the first character of an entity. */
  lemma CharAmpersands(c: char)
    ensures forall i :: 0 <= i < |EscapeChar(c)| && EscapeChar(c)[i] == '&' ==> i == 0 && EntityAt(EscapeChar(c), 0)
  {
  }

  lemma EntityFront(h: string, t: string)
    requires EntityAt(h, 0)
    ensures EntityAt(h + t, 0)
  {
    if StartsAt(h, 0, "&amp;") { StartsAtFront(h, t, "&amp;"); }
    if StartsAt(h, 0, "&lt;") { StartsAtFront(h, t, "&lt;"); }
    if StartsAt(h, 0, "&gt;") { StartsAtFront(h, t, "&gt;"); }
  }

  lemma EntityShift(h: string, t: string, j: nat)
    requires EntityAt(t, j)
    ensures EntityAt(h + t, |h| + j)
  {
    if StartsAt(t, j, "&amp;") { StartsAtShift(h, t, j, "&amp;"); }
    if StartsAt(t, j, "&lt;") { StartsAtShift(h, t, j, "&lt;"); }
    if StartsAt(t, j, "&gt;") { StartsAtShift(h, t, j, "&gt;"); }
  }

  /** Reading the escapes back, left to right. */
  function Unescape(e: string): string
    decreases |e|
  {
    if |e| == 0 then ""
    else if StartsAt(e, 0, "&amp;") then "&" + Unescape(e[5..])
    else if StartsAt(e, 0, "&lt;") then "<" + Unescape(e[4..])
    else if StartsAt(e, 0, "&gt;") then ">" + Unescape(e[4..])
    else if StartsAt(e, 0, "\\\"") then "\"" + Unescape(e[2..])
    else [e[0]] + Unescape(e[1..])
  }

  /** The escape loses nothing: a backslash in the input is never mistaken for the start of `\"`. */
  lemma {:induction false} UnescapeEscape(s: string)
    ensures Unescape(Escape(s)) == s
  {
    EscapeIsEach(s);
    UnescapeEach(s);
  }

  lemma {:induction false} UnescapeEach(s: string)
    ensures Unescape(EscapeEach(s)) == s
    decreases |s|
  {
    if |s| > 0 {
      UnescapeEach(s[1..]);
      UnescapeFront(s[0], EscapeEach(s[1..]));
      assert s == [s[0]] + s[1..];
    }
  }

  /** The escape of one character is read back as that character, unless what follows starts with `"`. */
  lemma UnescapeFront(x: char, t: string)
    requires |t| == 0 || t[0] != '"'
    ensures Unescape(EscapeChar(x) + t) == [x] + Unescape(t)
  {
    if x == '&' || x == '<' || x == '>' || x == '"' {
      UnescapeEntity(x, t);
    } else {
      UnescapePlain(x, t);
    }
  }

  lemma UnescapePlain(x: char, t: string)
    requires x != '&' && x != '<' && x != '>' && x != '"'
    requires |t| == 0 || t[0] != '"'
    ensures Unescape([x] + t) == [x] + Unescape(t)
  {
    var e := [x] + t;
    assert e[1..] == t;
    assert e[0] == x;
    assert |e| == 1 || e[1] == t[0];
    assert !StartsAt(e, 0, "&amp;") by { assert |e| < 5 || e[..5][0] == x; }
    assert !StartsAt(e, 0, "&lt;") by { assert |e| < 4 || e[..4][0] == x; }
    assert !StartsAt(e, 0, "&gt;") by { assert |e| < 4 || e[..4][0] == x; }
    assert !StartsAt(e, 0, "\\\"") by {
      assert |e| < 2 || (e[..2][0] == x && e[..2][1] == e[1]);
    }
    assert Unescape(e) == [e[0]] + Unescape(e[1..]);
  }

  lemma UnescapeEntity(x: char, t: string)
    requires x == '&' || x == '<' || x == '>' || x == '"'
    ensures Unescape(EscapeChar(x) + t) == [x] + Unescape(t)
  {
    var h := EscapeChar(x);
    var e := h + t;
    assert e[|h|..] == t;
    assert e[..|h|] == h;
    assert e[0] == h[0] && e[1] == h[1];
    if x == '&' {
      assert StartsAt(e, 0, "&amp;");
    } else if x == '<' {
      assert !StartsAt(e, 0, "&amp;");
      assert StartsAt(e, 0, "&lt;");
    } else if x == '>' {
      assert !StartsAt(e, 0, "&amp;") && !StartsAt(e, 0, "&lt;");
      assert StartsAt(e, 0, "&gt;");
    } else {
      assert !StartsAt(e, 0, "&amp;") && !StartsAt(e, 0, "&lt;") && !StartsAt(e, 0, "&gt;");
      assert StartsAt(e, 0, "\\\"");
    }
  }

  // ---------------------------------------------------------------- document

  const Header: string := "<?xml version=\"1.0\" encoding=\"utf-8\"?>\n<resources>\n"
  const Footer: string := "</resources>"
  const Open: string := "    <string name=\""
  const Mid: string := "\">"
  const Close: string := "</string>\n"

  /** The Android resource name for a key: every `.` becomes `_`. */
  function ResourceName(key: string): (r: string)
    ensures |r| == |key| && '.' !in r
    ensures forall i :: 0 <= i < |key| ==> r[i] == (if key[i] == '.' then '_' else key[i])
  {
    ReplaceChar(key, '.', '_')
  }

  predicate NotOpenAngle(c: char) { c != '<' }

  /** The line written for one translation. */
  function Line(key: string, value: string): string {
    Open + ResourceName(key) + Mid + Escape(value) + Close
  }

  function Lines(entries: seq<(string, string)>): string {
    if |entries| == 0 then "" else Line(entries[0].0, entries[0].1) + Lines(entries[1..])
  }

  /** The exported `strings.xml` text. */
  function Export(entries: seq<(string, string)>): string {
    Header + Lines(entries) + Footer
  }

  /** One line read back: the name up to the first `"`, the value up to the first `<`, unescaped, and where the line ends. */
  function ReadLine(s: string): (r: Option<(string, string, nat)>)
    ensures r.Some? ==> 0 < r.value.2 <= |s|
  {
    if !StartsAt(s, 0, Open) then None
    else
      var n := SkipWhile(s, |Open|, NotQuote);
      if !StartsAt(s, n, Mid) then None
      else
        var v := SkipWhile(s, n + |Mid|, NotOpenAngle);
        if !StartsAt(s, v, Close) then None
        else Some((s[|Open|..n], Unescape(s[n + |Mid|..v]), v + |Close|))
  }

  /** Reads the lines back, one after the other, until the text is used up. */
  function ReadLines(s: string): Option<seq<(string, string)>>
    decreases |s|
  {
    if |s| == 0 then Some([])
    else
      match ReadLine(s)
      case None => None
      case Some((name, value, e)) =>
        match ReadLines(s[e..])
        case None => None
        case Some(rest) => Some([(name, value)] + rest)
  }

  function ReadExport(doc: string): Option<seq<(string, string)>> {
    if |doc| >= |Header| + |Footer| && StartsAt(doc, 0, Header) && StartsAt(doc, |doc| - |Footer|, Footer)
    then ReadLines(doc[|Header|..|doc| - |Footer|])
    else None
  }

  /**
    Python `str(v)`: a string is itself; the text of any other value comes
    from `show`, since `str()` of numbers, lists and dicts is not modelled.
   */
  function PyStr(v: Json, show: Json -> string): (r: string)
    ensures v.JStr? ==> r == v.s
  {
    if v.JStr? then v.s else show(v)
  }

  /**
    The export loop over the session's translations, whose keys are whatever
    the reply decoded to. `key.replace` on a key that is not a string raises
    `AttributeError`, which nothing catches: the result is then `None`.
   */
  function ExportTranslations(translations: Dict<Json, Json>, show: Json -> string): (r: Option<string>)
    ensures r.None? <==> exists i :: 0 <= i < |translations| && !translations[i].0.JStr?
  {
    if forall i :: 0 <= i < |translations| ==> translations[i].0.JStr? then
      Some(Export(seq(|translations|, i requires 0 <= i < |translations| =>
        (translations[i].0.s, PyStr(translations[i].1, show)))))
    else None
  }

  /** With string keys free of `"`, the exported file reads back as the renamed keys with their `str()` texts. */
  lemma ExportTranslationsReadsBack(translations: Dict<Json, Json>, show: Json -> string)
    requires forall i :: 0 <= i < |translations| ==> translations[i].0.JStr? && '"' !in translations[i].0.s
    ensures ExportTranslations(translations, show).Some?
    ensures var r := ReadExport(ExportTranslations(translations, show).value);
      r.Some? && |r.value| == |translations| &&
      forall i :: 0 <= i < |translations| ==>
        r.value[i] == (ResourceName(translations[i].0.s), PyStr(translations[i].1, show))
  {
    var entries := seq(|translations|, i requires 0 <= i < |translations| =>
      (translations[i].0.s, PyStr(translations[i].1, show)));
    ExportReadsBack(entries);
  }

  /** A reply decoded to `[{"key": 5, "translation": "x"}]` leaves the integer key 5, and the export raises. */
  lemma IntegerKeyRaises(show: Json -> string)
    ensures ExportTranslations([(JNum(5), JStr("x"))], show) == None
  {
  }

  /** What a reader of the file gets for some entries: renamed keys, the values as given. */
  function Expected(entries: seq<(string, string)>): (r: seq<(string, string)>)
    ensures |r| == |entries|
    ensures forall i :: 0 <= i < |entries| ==> r[i] == (ResourceName(entries[i].0), entries[i].1)
  {
    seq(|entries|, i requires 0 <= i < |entries| => (ResourceName(entries[i].0), entries[i].1))
  }

  /** Skipping from the end of `pre` over `mid`, whose characters all pass, stops where `tail` begins. */
  lemma SkipOver(pre: string, mid: string, tail: string, p: char -> bool)
    requires forall i :: 0 <= i < |mid| ==> p(mid[i])
    requires |tail| > 0 && !p(tail[0])
    ensures SkipWhile(pre + mid + tail, |pre|, p) == |pre| + |mid|
    ensures (pre + mid + tail)[|pre|..|pre| + |mid|] == mid
    ensures (pre + mid + tail)[|pre| + |mid|..] == tail
  {
    var s := pre + mid + tail;
    assert forall k :: |pre| <= k < |pre| + |mid| ==> s[k] == mid[k - |pre|];
    assert s[|pre| + |mid|] == tail[0];
    SkipWhileIs(s, |pre|, p, |pre| + |mid|);
  }

  lemma StartsAtHere(pre: string, pat: string, tail: string)
    ensures StartsAt(pre + pat + tail, |pre|, pat)
    ensures (pre + pat + tail)[|pre| + |pat|..] == tail
  {
    assert (pre + pat + tail)[|pre|..|pre| + |pat|] == pat;
  }

  lemma Regroup(a: string, b: string, c: string, d: string, e: string, f: string)
    ensures a + b + c + d + e + f == a + (b + c + d + e + f)
    ensures a + b + c + d + e + f == a + b + (c + d + e + f)
    ensures a + b + c + d + e + f == (a + b) + c + (d + (e + f))
    ensures a + b + c + d + e + f == (a + b + c) + d + (e + f)
  {
  }

  lemma PrefixHere(a: string, b: string)
    ensures StartsAt(a + b, 0, a)
  {
    assert (a + b)[0..|a|] == a;
  }

  /** The groupings of a line followed by more text that the reader's steps need. */
  lemma LineShape(key: string, value: string, rest: string)
    ensures var s, name, esc := Line(key, value) + rest, ResourceName(key), Escape(value);
      && s == Open + (name + Mid + esc + Close + rest)
      && s == Open + name + (Mid + esc + Close + rest)
      && s == (Open + name) + Mid + (esc + (Close + rest))
      && s == (Open + name + Mid) + esc + (Close + rest)
      && s == (Open + name + Mid + esc) + Close + rest
  {
    Regroup(Open, ResourceName(key), Mid, Escape(value), Close, rest);
  }

  /** Where the reader finds the name in a line. */
  lemma LineName(key: string, value: string, rest: string)
    requires '"' !in key
    ensures var s, n := Line(key, value) + rest, |Open| + |ResourceName(key)|;
      StartsAt(s, 0, Open) && SkipWhile(s, |Open|, NotQuote) == n && s[|Open|..n] == ResourceName(key) && StartsAt(s, n, Mid)
  {
    var name, esc := ResourceName(key), Escape(value);
    LineShape(key, value, rest);
    PrefixHere(Open, name + Mid + esc + Close + rest);
    assert forall i :: 0 <= i < |name| ==> NotQuote(name[i]);
    SkipOver(Open, name, Mid + esc + Close + rest, NotQuote);
    StartsAtHere(Open + name, Mid, esc + (Close + rest));
  }

  /** Where the reader finds the value in a line, and what follows it. */
  lemma LineValue(key: string, value: string, rest: string)
    ensures var s, n := Line(key, value) + rest, |Open| + |ResourceName(key)|;
      var v := n + |Mid| + |Escape(value)|;
      SkipWhile(s, n + |Mid|, NotOpenAngle) == v && s[n + |Mid|..v] == Escape(value) &&
      StartsAt(s, v, Close) && s[v + |Close|..] == rest
  {
    var name, esc := ResourceName(key), Escape(value);
    var s := Line(key, value) + rest;
    var upToMid := Open + name + Mid;
    var afterEsc := Close + rest;
    LineShape(key, value, rest);
    NoRawAngles(value);
    assert forall i :: 0 <= i < |esc| ==> NotOpenAngle(esc[i]);
    SkipOver(upToMid, esc, afterEsc, NotOpenAngle);
    StartsAtHere(upToMid + esc, Close, rest);
  }

  /** One line is read back as its renamed key and its value, whatever follows it. */
  lemma ReadOneLine(key: string, value: string, rest: string)
    requires '"' !in key
    ensures ReadLines(Line(key, value) + rest) ==
      match ReadLines(rest) { case None => None case Some(r) => Some([(ResourceName(key), value)] + r) }
  {
    LineReads(key, value, rest);
    assert |Line(key, value) + rest| > 0;
  }

  /** The reader takes exactly one written line off the front. */
  lemma LineReads(key: string, value: string, rest: string)
    requires '"' !in key
    ensures ReadLine(Line(key, value) + rest) == Some((ResourceName(key), value, |Line(key, value)|))
    ensures (Line(key, value) + rest)[|Line(key, value)|..] == rest
  {
    var s := Line(key, value) + rest;
    var n := |Open| + |ResourceName(key)|;
    var v := n + |Mid| + |Escape(value)|;
    LineName(key, value, rest);
    LineValue(key, value, rest);
    UnescapeEscape(value);
    assert ReadLine(s) == Some((ResourceName(key), value, v + |Close|));
    LineLength(key, value);
  }

  lemma LineLength(key: string, value: string)
    ensures |Line(key, value)| == |Open| + |ResourceName(key)| + |Mid| + |Escape(value)| + |Close|
  {
  }

  lemma {:induction false} ReadLinesBack(entries: seq<(string, string)>)
    requires forall i :: 0 <= i < |entries| ==> '"' !in entries[i].0
    ensures ReadLines(Lines(entries)) == Some(Expected(entries))
    decreases |entries|
  {
    if |entries| > 0 {
      ReadOneLine(entries[0].0, entries[0].1, Lines(entries[1..]));
      ReadLinesBack(entries[1..]);
      ExpectedCons(entries);
    }
  }

  lemma ExpectedCons(entries: seq<(string, string)>)
    requires |entries| > 0
    ensures Expected(entries) == [(ResourceName(entries[0].0), entries[0].1)] + Expected(entries[1..])
  {
    var r := [(ResourceName(entries[0].0), entries[0].1)] + Expected(entries[1..]);
    assert forall i :: 0 < i < |r| ==> r[i] == Expected(entries[1..])[i - 1];
  }

  /** The export can be read back whenever no key holds a `"`: one entry per line, in order. */
  lemma ExportReadsBack(entries: seq<(string, string)>)
    requires forall i :: 0 <= i < |entries| ==> '"' !in entries[i].0
    ensures ReadExport(Export(entries)) == Some(Expected(entries))
  {
    ReadWrapped(Lines(entries));
    ReadLinesBack(entries);
  }

  /** The header and footer are recognised and stripped around any body. */
  lemma ReadWrapped(body: string)
    ensures ReadExport(Header + body + Footer) == ReadLines(body)
  {
    Framed(Header, body, Footer);
  }

  lemma Framed(a: string, b: string, c: string)
    ensures var doc := a + b + c;
      && doc[0..|a|] == a && doc[|doc| - |c|..|doc|] == c && doc[|a|..|doc| - |c|] == b
  {
  }

  /** Two different keys can end up under the same resource name. */
  lemma NamesCollide()
    ensures "a.b" != "a_b" && ResourceName("a.b") == ResourceName("a_b")
  {
    assert ResourceName("a.b") == "a_b";
  }

  /** A `"` in a key is written unescaped, and the line no longer reads back as that key. */
  lemma QuoteInKeyMisreads()
    ensures ReadExport(Export([("a\"b", "x")])) != Some(Expected([("a\"b", "x")]))
  {
    var s := Lines([("a\"b", "x")]);
    var n := SkipWhile(s, |Open|, NotQuote);
    assert s[|Open| + 1] == '"';
    SkipWhileIs(s, |Open|, NotQuote, |Open| + 1);
    assert s[|Open| + 2] == 'b';
    assert !StartsAt(s, n, Mid);
    assert ReadLine(s) == None;
    ReadWrapped(s);
  }
}
