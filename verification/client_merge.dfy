/**
  The translate page of the browser client: choosing files, reading their
  strings, one translation request per file and target language, and the
  merge of the replies into the project's stored translations.

  JavaScript objects are ordered dictionaries (`Dict`); a value that is
  absent, `undefined` or the empty string is falsy, which `Filled` captures
  for string-valued objects. The translation endpoint is an oracle `api`
  from a request to its reply, `None` when the call throws.
 */
module ClientMerge {
  import opened Wrappers
  import opened Dicts
  import opened ResourceRegex

  type Path = string
  type Lang = string
  /** String name to text, as one `strings.xml` or one reply holds them. */
  type Table = Dict<string, string>
  /** Language code to table, for one file. */
  type FileTable = Dict<Lang, Table>
  /** File path to its languages: the project's `file_translations`. */
  type Translations = Dict<Path, FileTable>

  predicate Distinct<T(==)>(s: seq<T>) {
    forall i, j :: 0 <= i < j < |s| ==> s[i] != s[j]
  }

  // -------------------------------------------------------------- selection

  /** `prevSelected.filter(p => p !== path)`. */
  function Without(sel: seq<Path>, p: Path): (r: seq<Path>)
    ensures forall x :: x in r <==> x in sel && x != p
    ensures Distinct(sel) ==> Distinct(r)
    ensures p !in sel ==> r == sel
  {
    if |sel| == 0 then []
    else
      var rest := Without(sel[1..], p);
      assert forall x :: x in sel <==> x == sel[0] || x in sel[1..];
      DistinctCons(sel);
      if sel[0] == p then rest else
        DistinctCons([sel[0]] + rest);
        assert ([sel[0]] + rest)[1..] == rest;
        [sel[0]] + rest
  }

  /** A sequence is distinct when its head is not in its tail and its tail is distinct. */
  lemma DistinctCons<T>(s: seq<T>)
    requires |s| > 0
    ensures Distinct(s) <==> s[0] !in s[1..] && Distinct(s[1..])
  {
    if s[0] !in s[1..] && Distinct(s[1..]) {
      forall i, j | 0 <= i < j < |s| ensures s[i] != s[j] {
        if i > 0 {
          assert s[i] == s[1..][i - 1] && s[j] == s[1..][j - 1];
        } else {
          assert s[j] == s[1..][j - 1];
        }
      }
    }
    if Distinct(s) {
      forall i, j | 0 <= i < j < |s[1..]| ensures s[1..][i] != s[1..][j] {
        assert s[1..][i] == s[i + 1] && s[1..][j] == s[j + 1];
      }
    }
  }

  /** `handleFileSelect`: a selected path is removed, another one is appended. */
  function Toggle(sel: seq<Path>, p: Path): (r: seq<Path>)
    ensures p in r <==> p !in sel
    ensures forall x :: x != p ==> (x in r <==> x in sel)
    ensures Distinct(sel) ==> Distinct(r)
  {
    if p in sel then Without(sel, p) else sel + [p]
  }

  /**
    Toggling twice gives the selection back when the path was not selected;
    a selected path instead moves to the end.
   */
  lemma ToggleTwice(sel: seq<Path>, p: Path)
    ensures p !in sel ==> Toggle(Toggle(sel, p), p) == sel
    ensures p in sel ==> Toggle(Toggle(sel, p), p) == Without(sel, p) + [p]
  {
    if p !in sel {
      assert p in sel + [p];
      WithoutLast(sel, p);
    }
  }

  lemma {:induction false} WithoutLast(sel: seq<Path>, p: Path)
    requires p !in sel
    ensures Without(sel + [p], p) == sel
    decreases |sel|
  {
    if |sel| > 0 {
      assert (sel + [p])[1..] == sel[1..] + [p];
      WithoutLast(sel[1..], p);
    } else {
      assert sel + [p] == [p];
    }
  }

  /** `handleFileUpload`: every uploaded path becomes selected, in upload order. */
  function Upload(files: Dict<Path, string>): (sel: seq<Path>)
    ensures forall p :: p in sel <==> HasKey(files, p)
    ensures UniqueKeys(files) ==> Distinct(sel)
  {
    var sel := Keys(files);
    forall p ensures p in sel <==> HasKey(files, p) {
      HasKeyIsInKeys(files, p);
    }
    forall i, j | UniqueKeys(files) && 0 <= i < j < |sel| ensures sel[i] != sel[j] {
      UniqueKeysDistinct(files, i, j);
    }
    sel
  }

  // --------------------------------------------------------- one file's input

  /** `obj[k]` is truthy: present and not the empty string. */
  predicate Filled(d: Dict<string, string>, k: string) {
    Get(d, k).Some? && Get(d, k).value != ""
  }

  /** What the translate page knows when the button is pressed. */
  datatype Inputs = Inputs(
    projectFiles: Dict<Path, string>,
    uploaded: Dict<Path, string>,
    langs: seq<Lang>,
    languages: Dict<string, string>,
    contexts: Dict<string, string>,
    addContexts: bool)

  /** The content read for a file: the project's copy when it has one, else the uploaded copy. */
  function ContentOf(st: Inputs, f: Path): (r: Option<string>)
    ensures r.Some? <==> Filled(st.projectFiles, f) || Filled(st.uploaded, f)
    ensures Filled(st.projectFiles, f) ==> r == Get(st.projectFiles, f)
    ensures !Filled(st.projectFiles, f) ==> r == (if Filled(st.uploaded, f) then Get(st.uploaded, f) else None)
    ensures r.Some? ==> r.value != ""
  {
    if Filled(st.projectFiles, f) then Get(st.projectFiles, f)
    else if Filled(st.uploaded, f) then Get(st.uploaded, f)
    else None
  }

  /** The strings of a file, none when neither copy has content. */
  function FileStrings(st: Inputs, f: Path): (r: Table)
    ensures UniqueKeys(r)
    ensures ContentOf(st, f).None? ==> r == []
  {
    match ContentOf(st, f)
    case None => []
    case Some(c) => GetStrings(c)
  }

  /** The loop over `keys` copying each truthy context. */
  function PickContexts(keys: seq<string>, contexts: Dict<string, string>): (r: Table)
    ensures forall x :: HasKey(r, x) <==> x in keys && Filled(contexts, x)
    ensures forall x :: HasKey(r, x) ==> Get(r, x) == Get(contexts, x)
    ensures UniqueKeys(r)
    decreases |keys|
  {
    if |keys| == 0 then []
    else
      var init := keys[..|keys| - 1];
      var k := keys[|keys| - 1];
      var rest := PickContexts(init, contexts);
      assert forall x :: x in keys <==> x in init || x == k;
      if Filled(contexts, k) then
        forall x ensures Get(Put(rest, k, Get(contexts, k).value), x) == if x == k then Get(contexts, k) else Get(rest, x) {
          GetPut(rest, k, Get(contexts, k).value, x);
        }
        Put(rest, k, Get(contexts, k).value)
      else rest
  }

  /** `fileContexts`: the truthy contexts of this file's names, only when contexts are on. */
  function FileContexts(strings: Table, contexts: Dict<string, string>, addContexts: bool): (r: Table)
    ensures forall x :: HasKey(r, x) <==> addContexts && HasKey(strings, x) && Filled(contexts, x)
    ensures forall x :: HasKey(r, x) ==> Get(r, x) == Get(contexts, x)
    ensures UniqueKeys(r)
  {
    if addContexts then
      forall x ensures HasKey(strings, x) <==> x in Keys(strings) {
        HasKeyIsInKeys(strings, x);
      }
      PickContexts(Keys(strings), contexts)
    else []
  }

  /** `Object.keys(languages).find(k => languages[k] === v)`. */
  function KeyOfValue(languages: Dict<string, string>, v: string): (r: Option<string>)
    ensures r.Some? ==> exists j :: (0 <= j < |languages| && languages[j] == (r.value, v)
      && forall j' :: 0 <= j' < j ==> languages[j'].1 != v)
    ensures r.None? ==> forall j :: 0 <= j < |languages| ==> languages[j].1 != v
  {
    if |languages| == 0 then None
    else if languages[0].1 == v then Some(languages[0].0)
    else
      KeyOfValue(languages[1..], v)
  }

  /**
    `target_language`: the first name listed for the code, or the code
    itself when none is listed or the name found is empty.
   */
  function Target(languages: Dict<string, string>, lang: Lang): (r: string)
    ensures r == lang || (r != "" && exists j :: 0 <= j < |languages| && languages[j] == (r, lang))
    ensures (forall j :: 0 <= j < |languages| ==> languages[j].1 != lang) ==> r == lang
  {
    match KeyOfValue(languages, lang)
    case Some(k) => if k != "" then k else lang
    case None => lang
  }

  // --------------------------------------------------------------- requests

  /** The body of one `translateStrings` call. */
  datatype Request = Request(strings: Table, target: string, contexts: Table)

  /** The request sent for file `f` and language `l`. */
  function RequestFor(st: Inputs, f: Path, l: Lang): (q: Request)
    ensures q.strings == FileStrings(st, f)
    ensures forall x :: HasKey(q.contexts, x) ==> HasKey(q.strings, x) && Get(q.contexts, x) == Get(st.contexts, x)
    ensures !st.addContexts ==> q.contexts == []
  {
    var strings := FileStrings(st, f);
    Request(strings, Target(st.languages, l), FileContexts(strings, st.contexts, st.addContexts))
  }

  /** The replies for one file, as a function of the language. */
  function ReplyFor(st: Inputs, api: Request -> Option<Table>, f: Path): Lang -> Option<Table> {
    (l: Lang) => api(RequestFor(st, f, l))
  }

  /** The inner loop: every language except `en` gets the reply to its request. */
  function TranslateLangs(langs: seq<Lang>, acc: FileTable, reply: Lang -> Option<Table>): (r: Option<FileTable>)
    ensures r.None? <==> exists l :: l in langs && l != "en" && reply(l).None?
    ensures r.Some? ==> forall l :: Get(r.value, l) == if l in langs && l != "en" then reply(l) else Get(acc, l)
    ensures r.Some? && UniqueKeys(acc) ==> UniqueKeys(r.value)
    decreases |langs|
  {
    if |langs| == 0 then Some(acc)
    else
      var l := langs[0];
      assert forall x :: x in langs <==> x == l || x in langs[1..];
      if l == "en" then TranslateLangs(langs[1..], acc, reply)
      else
        match reply(l)
        case None => None
        case Some(t) =>
          var r := TranslateLangs(langs[1..], Put(acc, l, t), reply);
          forall x ensures Get(Put(acc, l, t), x) == if x == l then Some(t) else Get(acc, x) {
            GetPut(acc, l, t, x);
          }
          r
  }

  // ----------------------------------------------------------- collecting

  /** `translations[f][l]`, absent when either level is. */
  function Lookup(t: Translations, f: Path, l: Lang): Option<Table> {
    match Get(t, f)
    case None => None
    case Some(ft) => Get(ft, l)
  }

  /** Keys are unique at the file level and at each file's language level. */
  predicate TwoLevelUnique(t: Translations) {
    UniqueKeys(t) && forall i :: 0 <= i < |t| ==> UniqueKeys(t[i].1)
  }

  /** Some selected file with strings has a language whose request throws. */
  predicate AnyFailure(files: seq<Path>, st: Inputs, api: Request -> Option<Table>) {
    exists f, l :: f in files && FileStrings(st, f) != [] && l in st.langs && l != "en"
      && api(RequestFor(st, f, l)).None?
  }

  /** A selected file that yields at least one string. */
  predicate Collected(files: seq<Path>, st: Inputs, f: Path) {
    f in files && FileStrings(st, f) != []
  }

  /**
    What `allTranslations[f][l]` holds after the loop, starting from `all`:
    the reply for a requested language, else what the file held before,
    else its own strings under `en`.
   */
  function CollectedAt(files: seq<Path>, st: Inputs, api: Request -> Option<Table>, all: Translations, f: Path, l: Lang): Option<Table> {
    if !Collected(files, st, f) then Lookup(all, f, l)
    else if l in st.langs && l != "en" then api(RequestFor(st, f, l))
    else if HasKey(all, f) then Lookup(all, f, l)
    else if l == "en" then Some(FileStrings(st, f))
    else None
  }

  /** The outer loop over the selected files, stopping at the first request that throws. */
  function CollectFiles(files: seq<Path>, st: Inputs, api: Request -> Option<Table>, all: Translations): (r: Option<Translations>)
    decreases |files|
  {
    if |files| == 0 then Some(all)
    else
      var f := files[0];
      var strings := FileStrings(st, f);
      if strings == [] then CollectFiles(files[1..], st, api, all)
      else
        var base := Get(all, f).GetOr([("en", strings)]);
        match TranslateLangs(st.langs, base, ReplyFor(st, api, f))
        case None => None
        case Some(ft) => CollectFiles(files[1..], st, api, Put(all, f, ft))
  }

  /**
    The loop fails exactly when some request throws; otherwise each selected
    file with strings has its `en` strings and every requested language's
    reply, and nothing else changes.
   */
  lemma {:induction false} CollectFilesMeaning(files: seq<Path>, st: Inputs, api: Request -> Option<Table>, all: Translations)
    ensures CollectFiles(files, st, api, all).None? <==> AnyFailure(files, st, api)
    ensures var r := CollectFiles(files, st, api, all);
      r.Some? ==> forall f :: HasKey(r.value, f) <==> HasKey(all, f) || Collected(files, st, f)
    ensures var r := CollectFiles(files, st, api, all);
      r.Some? ==> forall f, l :: Lookup(r.value, f, l) == CollectedAt(files, st, api, all, f, l)
    ensures var r := CollectFiles(files, st, api, all);
      r.Some? && TwoLevelUnique(all) ==> TwoLevelUnique(r.value)
    decreases |files|
  {
    if |files| > 0 {
      var f := files[0];
      var rest := files[1..];
      var strings := FileStrings(st, f);
      assert forall x :: x in files <==> x == f || x in rest;
      if strings == [] {
        CollectFilesMeaning(rest, st, api, all);
        assert forall g :: Collected(files, st, g) <==> Collected(rest, st, g);
        assert AnyFailure(files, st, api) ==> AnyFailure(rest, st, api);
      } else {
        var base := Get(all, f).GetOr([("en", strings)]);
        var reply := ReplyFor(st, api, f);
        var step := TranslateLangs(st.langs, base, reply);
        if step.None? {
          var l :| l in st.langs && l != "en" && reply(l).None?;
          assert api(RequestFor(st, f, l)).None?;
        } else {
          CollectStep(files, st, api, all, base, step.value);
        }
      }
    }
  }

  /** One file with strings whose languages all succeed. */
  lemma {:induction false} CollectStep(files: seq<Path>, st: Inputs, api: Request -> Option<Table>, all: Translations, base: FileTable, ft: FileTable)
    requires |files| > 0 && FileStrings(st, files[0]) != []
    requires base == Get(all, files[0]).GetOr([("en", FileStrings(st, files[0]))])
    requires TranslateLangs(st.langs, base, ReplyFor(st, api, files[0])) == Some(ft)
    ensures CollectFiles(files, st, api, all).None? <==> AnyFailure(files, st, api)
    ensures var r := CollectFiles(files, st, api, all);
      r.Some? ==> forall f :: HasKey(r.value, f) <==> HasKey(all, f) || Collected(files, st, f)
    ensures var r := CollectFiles(files, st, api, all);
      r.Some? ==> forall f, l :: Lookup(r.value, f, l) == CollectedAt(files, st, api, all, f, l)
    ensures var r := CollectFiles(files, st, api, all);
      r.Some? && TwoLevelUnique(all) ==> TwoLevelUnique(r.value)
    decreases |files|, 0
  {
    var f := files[0];
    var rest := files[1..];
    var all' := Put(all, f, ft);
    var reply := ReplyFor(st, api, f);
    assert forall x :: x in files <==> x == f || x in rest;
    CollectFilesMeaning(rest, st, api, all');
    assert CollectFiles(files, st, api, all) == CollectFiles(rest, st, api, all');
    assert forall l :: l in st.langs && l != "en" ==> reply(l).Some?;
    FailureStep(files, st, api);
    forall g, l ensures CollectedAt(rest, st, api, all', g, l) == CollectedAt(files, st, api, all, g, l) {
      assert reply(l) == api(RequestFor(st, f, l));
      CollectedAtStep(files, st, api, all, ft, g, l);
    }
    if TwoLevelUnique(all) {
      UniqueBase(all, f, FileStrings(st, f));
      UniqueStep(all, f, ft);
    }
  }

  /** When the first file's requests all succeed, failures can only come from the rest. */
  lemma FailureStep(files: seq<Path>, st: Inputs, api: Request -> Option<Table>)
    requires |files| > 0
    requires forall l :: l in st.langs && l != "en" ==> ReplyFor(st, api, files[0])(l).Some?
    ensures AnyFailure(files, st, api) <==> AnyFailure(files[1..], st, api)
  {
    assert forall x :: x in files <==> x == files[0] || x in files[1..];
    if AnyFailure(files, st, api) {
      var f, l :| f in files && FileStrings(st, f) != [] && l in st.langs && l != "en"
        && api(RequestFor(st, f, l)).None?;
      assert ReplyFor(st, api, files[0])(l) == api(RequestFor(st, files[0], l));
    }
  }

  /** Processing the first file moves what `CollectedAt` reports for it into the accumulator. */
  lemma CollectedAtStep(files: seq<Path>, st: Inputs, api: Request -> Option<Table>, all: Translations, ft: FileTable, g: Path, l: Lang)
    requires |files| > 0 && FileStrings(st, files[0]) != []
    requires Get(ft, l) == if l in st.langs && l != "en" then api(RequestFor(st, files[0], l))
      else Get(Get(all, files[0]).GetOr([("en", FileStrings(st, files[0]))]), l)
    ensures CollectedAt(files[1..], st, api, Put(all, files[0], ft), g, l) == CollectedAt(files, st, api, all, g, l)
  {
    GetPut(all, files[0], ft, g);
    if g == files[0] {
      CollectedAtSame(files, st, api, all, ft, l);
    } else {
      assert g in files <==> g in files[1..];
    }
  }

  lemma CollectedAtSame(files: seq<Path>, st: Inputs, api: Request -> Option<Table>, all: Translations, ft: FileTable, l: Lang)
    requires |files| > 0 && FileStrings(st, files[0]) != []
    requires Get(ft, l) == if l in st.langs && l != "en" then api(RequestFor(st, files[0], l))
      else Get(Get(all, files[0]).GetOr([("en", FileStrings(st, files[0]))]), l)
    requires Get(Put(all, files[0], ft), files[0]) == Some(ft)
    ensures CollectedAt(files[1..], st, api, Put(all, files[0], ft), files[0], l) == CollectedAt(files, st, api, all, files[0], l)
  {
    var f := files[0];
    assert Collected(files, st, f);
    if !(l in st.langs && l != "en") && !HasKey(all, f) {
      var strings := FileStrings(st, f);
      assert Get([("en", strings)], l) == if l == "en" then Some(strings) else None;
    }
  }

  /** The table a file starts from has unique languages. */
  lemma UniqueBase(all: Translations, f: Path, strings: Table)
    requires TwoLevelUnique(all)
    ensures UniqueKeys(Get(all, f).GetOr([("en", strings)]))
  {
    if HasKey(all, f) {
      GetIsPair(all, f);
    }
  }

  /** Storing a table with unique languages keeps both levels unique. */
  lemma UniqueStep(all: Translations, f: Path, ft: FileTable)
    requires TwoLevelUnique(all) && UniqueKeys(ft)
    ensures TwoLevelUnique(Put(all, f, ft))
  {
    var p := Put(all, f, ft);
    PutPairs(all, f, ft);
    forall i | 0 <= i < |p| ensures UniqueKeys(p[i].1) {
      assert p[i] in p;
      if p[i] != (f, ft) {
        var j :| 0 <= j < |all| && all[j] == p[i];
      }
    }
  }

  // ---------------------------------------------------------------- merging

  /** `{...stored[l], ...add[l]}` for every language of `add`, in its order. */
  function MergeLangs(acc: FileTable, add: FileTable): FileTable
    decreases |add|
  {
    if |add| == 0 then acc
    else
      var l := add[0].0;
      MergeLangs(Put(acc, l, Update(Get(acc, l).GetOr([]), add[0].1)), add[1..])
  }

  /** Each language of `add` is overlaid on the stored table; other languages keep theirs. */
  lemma {:induction false} MergeLangsMeaning(acc: FileTable, add: FileTable, l: Lang)
    requires UniqueKeys(add)
    ensures Get(MergeLangs(acc, add), l)
      == if HasKey(add, l) then Some(Update(Get(acc, l).GetOr([]), Get(add, l).value)) else Get(acc, l)
    decreases |add|
  {
    if |add| > 0 {
      var k := add[0].0;
      var acc' := Put(acc, k, Update(Get(acc, k).GetOr([]), add[0].1));
      MergeLangsMeaning(acc', add[1..], l);
      GetPut(acc, k, Update(Get(acc, k).GetOr([]), add[0].1), l);
    }
  }

  /** The merge loop over `allTranslations`, one file at a time. */
  function MergeFiles(acc: Translations, all: Translations): Translations
    decreases |all|
  {
    if |all| == 0 then acc
    else
      var f := all[0].0;
      MergeFiles(Put(acc, f, MergeLangs(Get(acc, f).GetOr([]), all[0].1)), all[1..])
  }

  /**
    After the merge, a file and language the new translations carry hold
    the stored table overlaid with the new one; every other entry is the stored
    one, and a file is present when it was before or is new.
   */
  lemma {:induction false} MergeFilesMeaning(stored: Translations, all: Translations, f: Path, l: Lang)
    requires TwoLevelUnique(all)
    ensures HasKey(MergeFiles(stored, all), f) <==> HasKey(stored, f) || HasKey(all, f)
    ensures Lookup(MergeFiles(stored, all), f, l)
      == if Lookup(all, f, l).Some? then Some(Update(Lookup(stored, f, l).GetOr([]), Lookup(all, f, l).value))
         else Lookup(stored, f, l)
    decreases |all|
  {
    if |all| > 0 {
      var g := all[0].0;
      var merged := MergeLangs(Get(stored, g).GetOr([]), all[0].1);
      var stored' := Put(stored, g, merged);
      assert TwoLevelUnique(all[1..]) by {
        forall i | 0 <= i < |all[1..]| ensures UniqueKeys(all[1..][i].1) {
          assert all[1..][i] == all[i + 1];
        }
      }
      MergeFilesMeaning(stored', all[1..], f, l);
      GetPut(stored, g, merged, f);
      if f == g {
        assert UniqueKeys(all[0].1);
        MergeLangsMeaning(Get(stored, g).GetOr([]), all[0].1, l);
      }
    }
  }

  // ------------------------------------------------------------ the button

  /**
    `handleTranslate`: collect every reply, then merge them into the stored
    translations; when any request throws, the project is left as it was.
   */
  function HandleTranslate(files: seq<Path>, st: Inputs, api: Request -> Option<Table>, stored: Translations): Option<Translations> {
    match CollectFiles(files, st, api, [])
    case None => None
    case Some(all) => Some(MergeFiles(stored, all))
  }

  /** What a pressed button leaves under file `f` and language `l`. */
  function Fresh(files: seq<Path>, st: Inputs, api: Request -> Option<Table>, f: Path, l: Lang): Option<Table> {
    if !Collected(files, st, f) then None
    else if l in st.langs && l != "en" then api(RequestFor(st, f, l))
    else if l == "en" then Some(FileStrings(st, f))
    else None
  }

  /**
    The button fails exactly when a request throws. Otherwise each selected
    file with strings gets its strings overlaid on its stored `en` table and
    each requested language's reply overlaid on that language's stored
    table; every other stored table is unchanged.
   */
  lemma HandleTranslateMeaning(files: seq<Path>, st: Inputs, api: Request -> Option<Table>, stored: Translations, f: Path, l: Lang)
    ensures HandleTranslate(files, st, api, stored).None? <==> AnyFailure(files, st, api)
    ensures var r := HandleTranslate(files, st, api, stored);
      r.Some? ==> (Lookup(r.value, f, l)
        == if Fresh(files, st, api, f, l).Some? then Some(Update(Lookup(stored, f, l).GetOr([]), Fresh(files, st, api, f, l).value))
           else Lookup(stored, f, l))
  {
    var empty: Translations := [];
    CollectFilesMeaning(files, st, api, empty);
    var c := CollectFiles(files, st, api, []);
    if c.Some? {
      assert TwoLevelUnique(empty);
      MergeFilesMeaning(stored, c.value, f, l);
      assert Lookup(c.value, f, l) == Fresh(files, st, api, f, l);
    }
  }
}
