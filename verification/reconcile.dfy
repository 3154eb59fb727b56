/**
  The translation-response reconciler: it turns the model's raw reply into a
  key-to-translation dictionary. The reply is unfenced, repaired, and decoded
  as JSON; a list of items and an object of fields are read differently; when
  the text does not decode, the two fallback scans take over.

  `json.loads` is the parameter `decode`, an arbitrary function from text to
  a decoded value or a decode error: nothing here depends on what it accepts.
  Two variants exist. The service's parser catches every exception and
  returns an empty result; the single-file app's parser catches only the
  decode error, so an exception while reading a decoded value escapes.
 */
module Reconcile {
  import opened Wrappers
  import opened Text
  import opened Dicts
  import opened Json
  import opened Repairs
  import opened Scanners

  /** The result of `json.loads`. */
  datatype Decoded = Decoded(value: Json) | DecodeError

  /** What a parse attempt yields: the translations found, or an exception that escapes. */
  datatype Extraction = Extracted(found: Dict<Json, Json>) | Raised

  /** Every key could be stored in a Python dict. */
  predicate HashableKeys(d: Dict<Json, Json>) {
    forall i :: 0 <= i < |d| ==> Hashable(d[i].0)
  }

  lemma PutHashable(d: Dict<Json, Json>, k: Json, v: Json)
    requires HashableKeys(d) && Hashable(k)
    ensures HashableKeys(Put(d, k, v))
  {
    var r := Put(d, k, v);
    forall i | 0 <= i < |r| ensures Hashable(r[i].0) {
      assert Keys(r)[i] == r[i].0;
      if !HasKey(d, k) {
        assert Keys(r) == Keys(d) + [k];
      }
    }
  }

  // ----------------------------------------------------- list-shaped replies

  /**
    What one item of a list-shaped reply contributes: its `key` and
    `translation` when the item is a dict and both are truthy.
   */
  function ItemRecord(item: Json): Option<(Json, Json)> {
    match item
    case JObj(fields) =>
      var key := Field(fields, KeyName);
      var translation := Field(fields, TranslationName);
      if Truthy(key) && Truthy(translation) then Some((key, translation)) else None
    case _ => None
  }

  /** An item that makes the loop raise: not a dict (no `.get`), or one whose key cannot be hashed. */
  predicate BadItem(item: Json) {
    !item.JObj? || (ItemRecord(item).Some? && !Hashable(ItemRecord(item).value.0))
  }

  /** The order-insensitive meaning of the list loop: each recorded item overrides the ones before it. */
  function Records(items: seq<Json>): map<Json, Json> {
    if |items| == 0 then map[] else Here(items[0]) + Records(items[1..])
  }

  /** The pair one item records, as a map. */
  function Here(item: Json): map<Json, Json> {
    match ItemRecord(item)
    case Some((k, t)) => map[k := t]
    case None => map[]
  }

  /** One good item's effect on the result. */
  function Step(acc: Dict<Json, Json>, item: Json): Dict<Json, Json> {
    match ItemRecord(item)
    case Some((k, t)) => Put(acc, k, t)
    case None => acc
  }

  /**
    The loop over a list-shaped reply: it raises exactly when some item is
    bad, since the items are read in order and the first bad one raises.
   */
  function ExtractItems(items: seq<Json>, acc: Dict<Json, Json>): (r: Extraction)
    ensures r.Raised? <==> exists i :: 0 <= i < |items| && BadItem(items[i])
    decreases |items|
  {
    if |items| == 0 then Extracted(acc)
    else
      assert forall i :: 0 < i < |items| ==> items[i] == items[1..][i - 1];
      if BadItem(items[0]) then Raised else ExtractItems(items[1..], Step(acc, items[0]))
  }

  /** When the list loop finishes, the recorded pairs were put into `acc` in order, each later one overriding. */
  lemma {:induction false} ExtractItemsMap(items: seq<Json>, acc: Dict<Json, Json>)
    requires UniqueKeys(acc) && HashableKeys(acc)
    requires ExtractItems(items, acc).Extracted?
    ensures UniqueKeys(ExtractItems(items, acc).found) && HashableKeys(ExtractItems(items, acc).found)
    ensures ToMap(ExtractItems(items, acc).found) == ToMap(acc) + Records(items)
    decreases |items|
  {
    if |items| > 0 {
      var acc' := Step(acc, items[0]);
      assert ExtractItems(items, acc) == ExtractItems(items[1..], acc');
      StepKeeps(acc, items[0]);
      ExtractItemsMap(items[1..], acc');
      MapUnionAssoc(ToMap(acc), Here(items[0]), Records(items[1..]));
    }
  }

  lemma StepKeeps(acc: Dict<Json, Json>, item: Json)
    requires UniqueKeys(acc) && HashableKeys(acc) && !BadItem(item)
    ensures UniqueKeys(Step(acc, item)) && HashableKeys(Step(acc, item))
    ensures ToMap(Step(acc, item)) == ToMap(acc) + Here(item)
  {
    match ItemRecord(item)
    case Some((k, t)) => PutHashable(acc, k, t);
    case None =>
  }

  lemma MapUnionAssoc(a: map<Json, Json>, b: map<Json, Json>, c: map<Json, Json>)
    ensures (a + b) + c == a + (b + c)
  {
  }

  /** Among several items recording the same key, the last one decides its translation. */
  lemma {:induction false} LastRecordWins(items: seq<Json>, i: nat, k: Json, t: Json)
    requires i < |items| && ItemRecord(items[i]) == Some((k, t))
    requires forall j :: i < j < |items| && ItemRecord(items[j]).Some? ==> ItemRecord(items[j]).value.0 != k
    ensures k in Records(items) && Records(items)[k] == t
    decreases |items|
  {
    var rest := items[1..];
    forall j | 0 <= j < |rest| ensures rest[j] == items[j + 1] {
    }
    if i > 0 {
      LastRecordWins(rest, i - 1, k, t);
    } else {
      NoLaterRecord(rest, k);
    }
  }

  lemma {:induction false} NoLaterRecord(items: seq<Json>, k: Json)
    requires forall j :: 0 <= j < |items| && ItemRecord(items[j]).Some? ==> ItemRecord(items[j]).value.0 != k
    ensures k !in Records(items)
    decreases |items|
  {
    if |items| > 0 {
      var rest := items[1..];
      forall j | 0 <= j < |rest| ensures rest[j] == items[j + 1] {
      }
      NoLaterRecord(rest, k);
    }
  }

  // --------------------------------------------------- object-shaped replies

  /** What the object loop stores for one value: its `translation` field if it is a dict holding one, else the value itself. */
  function Unwrap(item: Json): Json {
    if item.JObj? && HasKey(item.fields, TranslationName) then Field(item.fields, TranslationName) else item
  }

  /**
    The loop over an object-shaped reply: every field name becomes a key,
    empty values included.
   */
  function ExtractFields(fields: Dict<string, Json>, acc: Dict<Json, Json>): (r: Dict<Json, Json>)
    ensures forall k :: HasKey(r, k) <==> HasKey(acc, k) || (k.JStr? && HasKey(fields, k.s))
    decreases |fields|
  {
    if |fields| == 0 then acc
    else
      assert forall k :: HasKey(fields, k) <==> k == fields[0].0 || HasKey(fields[1..], k);
      ExtractFields(fields[1..], Put(acc, JStr(fields[0].0), Unwrap(fields[0].1)))
  }

  /**
    Each field name is mapped to its own value unwrapped (the last one, when
    a name repeats, as in the decoded dict); other keys keep what `acc` had.
   */
  lemma {:induction false} ExtractFieldsMap(fields: Dict<string, Json>, acc: Dict<Json, Json>)
    requires UniqueKeys(acc) && HashableKeys(acc)
    ensures UniqueKeys(ExtractFields(fields, acc)) && HashableKeys(ExtractFields(fields, acc))
    ensures forall name :: HasKey(fields, name) ==>
      ToMap(ExtractFields(fields, acc))[JStr(name)] == Unwrap(ToMap(fields)[name])
    ensures forall k :: HasKey(acc, k) && !(k.JStr? && HasKey(fields, k.s)) ==>
      ToMap(ExtractFields(fields, acc))[k] == ToMap(acc)[k]
    decreases |fields|
  {
    if |fields| > 0 {
      var name := fields[0].0;
      var acc' := Put(acc, JStr(name), Unwrap(fields[0].1));
      PutHashable(acc, JStr(name), Unwrap(fields[0].1));
      ExtractFieldsMap(fields[1..], acc');
      assert forall k :: HasKey(fields, k) <==> k == name || HasKey(fields[1..], k);
    }
  }

  /** How the decoded value is read, by shape; a scalar yields nothing. */
  function Extract(v: Json): (r: Extraction)
    ensures v.JArr? ==> (r.Raised? <==> exists i :: 0 <= i < |v.items| && BadItem(v.items[i]))
    ensures v.JObj? ==> r.Extracted? && forall k :: HasKey(r.found, k) <==> k.JStr? && HasKey(v.fields, k.s)
    ensures !v.JArr? && !v.JObj? ==> r == Extracted([])
  {
    match v
    case JArr(items) => ExtractItems(items, [])
    case JObj(fields) => Extracted(ExtractFields(fields, []))
    case _ => Extracted([])
  }

  /** What a read yields, as a map: the list's records, or each field's unwrapped value. */
  lemma ExtractMeaning(v: Json)
    ensures Extract(v).Extracted? ==> UniqueKeys(Extract(v).found) && HashableKeys(Extract(v).found)
    ensures v.JArr? && Extract(v).Extracted? ==> ToMap(Extract(v).found) == Records(v.items)
    ensures v.JObj? ==> forall name :: HasKey(v.fields, name) ==>
      ToMap(Extract(v).found)[JStr(name)] == Unwrap(ToMap(v.fields)[name])
  {
    match v
    case JArr(items) => ExtractListMeaning(items);
    case JObj(fields) => ExtractFieldsMap(fields, []);
    case _ =>
  }

  lemma ExtractListMeaning(items: seq<Json>)
    ensures ExtractItems(items, []).Extracted? ==>
      && UniqueKeys(ExtractItems(items, []).found) && HashableKeys(ExtractItems(items, []).found)
      && ToMap(ExtractItems(items, []).found) == Records(items)
  {
    if ExtractItems(items, []).Extracted? {
      ExtractItemsMap(items, []);
      assert ToMap<Json, Json>([]) + Records(items) == Records(items);
    }
  }

  // ------------------------------------------------------------- fallbacks

  /** What reading a decoded pass-one fragment yields: a pair, nothing, or an exception. */
  datatype Read = Record(key: Json, translation: Json) | NoRecord | Unreadable

  /**
    `if "key" in obj and "translation" in obj: translations[obj["key"]] = obj["translation"]`
    on an arbitrary decoded value. Only a dict can be subscripted by a string;
    `in` raises on numbers, booleans and `None`; an unhashable key raises.
   */
  function ReadFragment(obj: Json): (r: Read)
    ensures r.Record? ==> obj.JObj? && Hashable(r.key)
    ensures obj.JObj? && HasKey(obj.fields, KeyName) && HasKey(obj.fields, TranslationName) && Hashable(Field(obj.fields, KeyName))
      ==> r == Record(Field(obj.fields, KeyName), Field(obj.fields, TranslationName))
    ensures obj.JObj? && !(HasKey(obj.fields, KeyName) && HasKey(obj.fields, TranslationName)) ==> r == NoRecord
    ensures obj.JNull? || obj.JBool? || obj.JNum? ==> r == Unreadable
  {
    match PyIn(obj, KeyName)
    case None => Unreadable
    case Some(hasKey) =>
      if !hasKey then NoRecord
      else
        match PyIn(obj, TranslationName)
        case None => Unreadable
        case Some(hasTranslation) =>
          if !hasTranslation then NoRecord
          else if !obj.JObj? then Unreadable
          else
            var key := Field(obj.fields, KeyName);
            if Hashable(key) then Record(key, Field(obj.fields, TranslationName)) else Unreadable
  }

  /**
    What one pass-one match records: the fragment, with trailing commas
    dropped, is decoded and read; when either step raises, the first key and
    translation fields in the fragment are taken as they stand.
   */
  function Pass1Entry(fragment: string, decode: string -> Decoded): (r: Option<(Json, Json)>)
    ensures r.Some? ==> Hashable(r.value.0)
  {
    var read := match decode(DropTrailingCommas(fragment, '}'))
      case Decoded(obj) => ReadFragment(obj)
      case DecodeError => Unreadable;
    match read
    case Record(k, t) => Some((k, t))
    case NoRecord => None
    case Unreadable =>
      match (SearchField(fragment, KeyName, 0), SearchField(fragment, TranslationName, 0))
      case (Some(k), Some(t)) => Some((JStr(k.value), JStr(t.value)))
      case _ => None
  }

  /** The text of each pass-one match, in order. */
  function Fragments(s: string, ms: seq<(nat, Match)>): (r: seq<string>)
    requires forall k :: 0 <= k < |ms| ==> ms[k].1.start < ms[k].1.end <= |s|
    ensures |r| == |ms|
    ensures forall k :: 0 <= k < |ms| ==> r[k] == s[ms[k].1.start..ms[k].1.end]
  {
    seq(|ms|, k requires 0 <= k < |ms| => s[ms[k].1.start..ms[k].1.end])
  }

  /** The pairs pass one records, in order: at most one per fragment. */
  function Pass1Entries(frags: seq<string>, entry: string -> Option<(Json, Json)>): (r: Dict<Json, Json>)
    requires forall f :: entry(f).Some? ==> Hashable(entry(f).value.0)
    ensures HashableKeys(r)
    ensures |r| <= |frags|
  {
    if |frags| == 0 then []
    else
      var rest := Pass1Entries(frags[1..], entry);
      match entry(frags[0])
      case Some(e) =>
        var r := [e] + rest;
        assert forall i :: 0 < i < |r| ==> r[i] == rest[i - 1];
        r
      case None => rest
  }

  /** `Pass1Entry` with the decoder fixed. */
  function EntryOf(decode: string -> Decoded): string -> Option<(Json, Json)> {
    (f: string) => Pass1Entry(f, decode)
  }

  /** Pass one: the matches' records put into a fresh dictionary, later ones overriding. */
  function Pass1Results(s: string, decode: string -> Decoded): (r: Dict<Json, Json>)
    ensures UniqueKeys(r) && HashableKeys(r)
    ensures |Pass1All(s)| == 0 ==> r == []
  {
    var ms := Pass1All(s);
    forall k | 0 <= k < |ms| ensures ms[k].1.start < ms[k].1.end <= |s| {
      assert Pass1At(s, ms[k].0) == Some(ms[k].1);
    }
    var entries := Pass1Entries(Fragments(s, ms), EntryOf(decode));
    UpdateHashable([], entries);
    Update([], entries)
  }

  lemma {:induction false} UpdateHashable(d: Dict<Json, Json>, e: Dict<Json, Json>)
    requires HashableKeys(d) && HashableKeys(e)
    ensures HashableKeys(Update(d, e))
    decreases |e|
  {
    if |e| > 0 {
      PutHashable(d, e[0].0, e[0].1);
      UpdateHashable(Put(d, e[0].0, e[0].1), e[1..]);
    }
  }

  /** The pairs pass two records, in order: both captures as strings. */
  function Pass2Entries(ms: seq<(nat, Pair)>): (r: Dict<Json, Json>)
    ensures |r| == |ms|
    ensures forall i :: 0 <= i < |ms| ==> r[i] == (JStr(ms[i].1.key), JStr(ms[i].1.translation))
  {
    if |ms| == 0 then [] else [(JStr(ms[0].1.key), JStr(ms[0].1.translation))] + Pass2Entries(ms[1..])
  }

  /** A string both fallback passes may record: a non-empty capture with no double quote. */
  predicate Captured(v: Json) {
    v.JStr? && |v.s| > 0 && QuoteFree(v.s)
  }

  /** Pass two: every key and every translation it records is a non-empty, quote-free capture. */
  function Pass2Results(s: string): (r: Dict<Json, Json>)
    ensures UniqueKeys(r) && HashableKeys(r)
    ensures forall i :: 0 <= i < |r| ==> Captured(r[i].0) && Captured(r[i].1)
    ensures |Pass2All(s)| == 0 ==> r == []
  {
    var entries := Pass2Entries(Pass2All(s));
    Pass2EntriesCaptured(s);
    UpdateHashable([], entries);
    UpdateCaptured([], entries);
    Update([], entries)
  }

  /** Every pair pass two records is made of two captures. */
  lemma Pass2EntriesCaptured(s: string)
    ensures AllCaptured(Pass2Entries(Pass2All(s)))
  {
    var ms := Pass2All(s);
    var entries := Pass2Entries(ms);
    forall i | 0 <= i < |entries| ensures Captured(entries[i].0) && Captured(entries[i].1) {
      assert Pass2At(s, ms[i].0) == Some(ms[i].1);
    }
  }

  predicate AllCaptured(d: Dict<Json, Json>) {
    forall i :: 0 <= i < |d| ==> Captured(d[i].0) && Captured(d[i].1)
  }

  lemma {:induction false} UpdateCaptured(d: Dict<Json, Json>, e: Dict<Json, Json>)
    requires AllCaptured(d) && AllCaptured(e)
    ensures AllCaptured(Update(d, e))
    decreases |e|
  {
    if |e| > 0 {
      var d' := Put(d, e[0].0, e[0].1);
      forall i | 0 <= i < |d'| ensures Captured(d'[i].0) && Captured(d'[i].1) {
        PutCaptured(d, e[0].0, e[0].1, i);
      }
      UpdateCaptured(d', e[1..]);
    }
  }

  lemma {:induction false} PutCaptured(d: Dict<Json, Json>, k: Json, v: Json, i: nat)
    requires AllCaptured(d) && Captured(k) && Captured(v)
    requires i < |Put(d, k, v)|
    ensures Captured(Put(d, k, v)[i].0) && Captured(Put(d, k, v)[i].1)
    decreases |d|
  {
    if |d| > 0 && d[0].0 != k && i > 0 {
      PutCaptured(d[1..], k, v, i - 1);
    }
  }

  // ------------------------------------------------------------- the parsers

  /** The text the decoder sees: the reply unfenced and repaired. */
  function Prepared(reply: string): string {
    Normalise(StripFences(reply))
  }

  /** The fallback used when the prepared text does not decode: pass one, or pass two if pass one found nothing. */
  function Fallback(s: string, decode: string -> Decoded): (r: Dict<Json, Json>)
    ensures UniqueKeys(r) && HashableKeys(r)
    ensures |Pass1All(s)| == 0 ==> r == Pass2Results(s)
  {
    var first := Pass1Results(s, decode);
    if |first| > 0 then first else Pass2Results(s)
  }

  /**
    The service's parser: every exception raised while reading the decoded
    value is caught and gives an empty result, so it never raises.
   */
  function ParseService(reply: string, decode: string -> Decoded): (r: Dict<Json, Json>)
    ensures UniqueKeys(r) && HashableKeys(r)
  {
    var s := Prepared(reply);
    match decode(s)
    case Decoded(v) => ExtractMeaning(v); (match Extract(v) case Extracted(d) => d case Raised => [])
    case DecodeError => Fallback(s, decode)
  }

  /**
    The single-file app's parser: only the decode error is caught, so an
    exception while reading a list item escapes to the caller.
   */
  function ParseApp(reply: string, decode: string -> Decoded): (r: Extraction)
    ensures r.Extracted? ==> UniqueKeys(r.found) && HashableKeys(r.found)
  {
    var s := Prepared(reply);
    match decode(s)
    case Decoded(v) => ExtractMeaning(v); Extract(v)
    case DecodeError => Extracted(Fallback(s, decode))
  }

  /** The two parsers agree except where the app's raises and the service's returns an empty result. */
  lemma ParsersAgree(reply: string, decode: string -> Decoded)
    ensures ParseApp(reply, decode).Extracted? ==> ParseService(reply, decode) == ParseApp(reply, decode).found
    ensures ParseApp(reply, decode).Raised? ==> ParseService(reply, decode) == []
    ensures ParseApp(reply, decode).Raised? <==>
      (match decode(Prepared(reply))
       case Decoded(v) => v.JArr? && exists i :: 0 <= i < |v.items| && BadItem(v.items[i])
       case DecodeError => false)
  {
  }

  /** A reply that decodes to a number, string, boolean or null yields nothing. */
  lemma ScalarYieldsNothing(reply: string, decode: string -> Decoded)
    requires decode(Prepared(reply)).Decoded?
    requires !decode(Prepared(reply)).value.JArr? && !decode(Prepared(reply)).value.JObj?
    ensures ParseService(reply, decode) == []
    ensures ParseApp(reply, decode) == Extracted([])
  {
  }

  /** A list holding a non-dict item raises in the app's parser and yields nothing from the service's. */
  lemma NonDictItemRaises(reply: string, decode: string -> Decoded, i: nat)
    requires decode(Prepared(reply)).Decoded? && decode(Prepared(reply)).value.JArr?
    requires i < |decode(Prepared(reply)).value.items| && !decode(Prepared(reply)).value.items[i].JObj?
    ensures ParseApp(reply, decode) == Raised
    ensures ParseService(reply, decode) == []
  {
    assert BadItem(decode(Prepared(reply)).value.items[i]);
  }

  /**
    Plain words with no JSON in them: nothing to unfence or repair, no brace
    for pass one and no quote for pass two, so the result is empty.
   */
  lemma PlainTextYieldsNothing(reply: string, decode: string -> Decoded)
    requires forall i :: 0 <= i < |reply| ==> IsWordChar(reply[i]) || reply[i] == ' '
    requires decode(reply) == DecodeError
    ensures ParseService(reply, decode) == []
    ensures ParseApp(reply, decode) == Extracted([])
  {
    PlainTextFallback(reply, decode);
    ParsersOnDecodeError(reply, decode);
  }

  /** Plain words are left as they are, and neither fallback pass finds anything in them. */
  lemma PlainTextFallback(t: string, decode: string -> Decoded)
    requires forall i :: 0 <= i < |t| ==> IsWordChar(t[i]) || t[i] == ' '
    ensures Prepared(t) == t
    ensures Fallback(t, decode) == []
  {
    PlainTextUnchanged(t);
    forall i | 0 <= i < |t| ensures t[i] != '{' && t[i] != '"' {
      assert IsWordChar(t[i]) || t[i] == ' ';
    }
    NoBraceNoPass1(t);
    NoQuoteNoPass2(t);
    FallbackNothing(t, decode);
  }

  /** When the prepared text does not decode, both parsers give the fallback's result. */
  lemma ParsersOnDecodeError(reply: string, decode: string -> Decoded)
    requires decode(Prepared(reply)) == DecodeError
    ensures ParseService(reply, decode) == Fallback(Prepared(reply), decode)
    ensures ParseApp(reply, decode) == Extracted(Fallback(Prepared(reply), decode))
  {
  }

  /** With neither pass matching, the fallback is empty. */
  lemma FallbackNothing(s: string, decode: string -> Decoded)
    requires |Pass1All(s)| == 0 && |Pass2All(s)| == 0
    ensures Fallback(s, decode) == []
  {
    assert Pass1Results(s, decode) == [];
    assert Pass2Results(s) == [];
  }

  /** The repairs leave plain words alone. */
  lemma PlainTextUnchanged(t: string)
    requires forall i :: 0 <= i < |t| ==> IsWordChar(t[i]) || t[i] == ' '
    ensures Prepared(t) == t
  {
    forall i | 0 <= i <= |t| ensures !StartsAt(t, i, Fence) {
      if i + |Fence| <= |t| {
        assert t[i..i + |Fence|][0] == t[i];
      }
    }
    assert !Contains(t, Fence);
    assert NoPair(t, '/', '/');
    assert NoPair(t, '/', '*');
    assert ',' !in t && '{' !in t && '}' !in t;
    SeparateObjectsNoClose(t);
  }

  /** Pass one needs an opening brace. */
  lemma NoBraceNoPass1(s: string)
    requires forall i :: 0 <= i < |s| ==> s[i] != '{'
    ensures |Pass1All(s)| == 0
  {
    var ms := Pass1All(s);
    forall i: nat ensures Pass1At(s, i).None? {
      assert i < |s| ==> s[i] != '{';
    }
    assert |ms| == 0 || Pass1At(s, ms[0].0).Some?;
  }

  /** Pass two needs a double quote. */
  lemma NoQuoteNoPass2(s: string)
    requires forall i :: 0 <= i < |s| ==> s[i] != '"'
    ensures |Pass2All(s)| == 0
  {
    var ms := Pass2All(s);
    forall p: nat ensures Pass2At(s, p).None? {
      var q := "\"" + KeyName + "\"";
      if p + |q| <= |s| {
        assert s[p..p + |q|][0] == s[p];
      }
    }
    assert |ms| == 0 || Pass2At(s, ms[0].0).Some?;
  }

  /** The prose reply "not json at all" parses to nothing. */
  lemma NotJsonAtAll(decode: string -> Decoded)
    requires decode("not json at all") == DecodeError
    ensures ParseService("not json at all", decode) == []
  {
    PlainTextYieldsNothing("not json at all", decode);
  }
}
