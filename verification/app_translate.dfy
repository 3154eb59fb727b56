/**
  The single-file app's translation driver. It differs from the service's:
  the single call is skipped only above ten million estimated tokens; any
  exception in it, like a reply that parses to nothing, goes to batch mode;
  a batch gets one call, and a batch whose reply parses to nothing is
  translated one string at a time, each string falling back to its source
  text. An exception anywhere in batch mode discards everything, earlier
  batches included, and the result is empty.
 */
module AppTranslate {
  import opened Wrappers
  import opened Text
  import opened Dicts
  import opened Json
  import opened Reconcile
  import opened Batching
  import ServiceTranslate

  /** The estimated-token limit for one call; the estimate is a quarter of the payload's length. */
  const TokenLimit: nat := 10000000

  predicate TooLarge(payloadLen: nat) {
    payloadLen > 4 * TokenLimit
  }

  predicate IsQuote(c: char) {
    c == '"' || c == '\''
  }

  /**
    The clean-up of a single translation: the reply is stripped, anything up
    to the first colon is dropped as a label, and surrounding quotes go.
   */
  function PostProcess(t: string): (r: string)
    ensures |r| <= |t|
    ensures |r| > 0 ==> !IsQuote(r[0]) && !IsQuote(r[|r| - 1])
  {
    var a := Trim(t);
    var b := if Contains(a, ":") then Trim(After(a, ":")) else a;
    Strip(b, IsQuote)
  }

  /** A reply that is already a bare translation comes through unchanged. */
  lemma PostProcessClean(t: string)
    requires ':' !in t
    requires |t| > 0 ==> !IsSpace(t[0]) && !IsSpace(t[|t| - 1]) && !IsQuote(t[0]) && !IsQuote(t[|t| - 1])
    ensures PostProcess(t) == t
  {
    NoColon(t);
  }

  lemma NoColon(t: string)
    requires ':' !in t
    ensures !Contains(t, ":")
  {
    forall i | 0 <= i <= |t| ensures !StartsAt(t, i, ":") {
      if i + 1 <= |t| {
        assert t[i..i + 1][0] == t[i];
      }
    }
  }

  /** A reply of the form `label: text` keeps only the text after the first colon. */
  lemma PostProcessDropsLabel(tag: string, text: string)
    requires ':' !in tag && |tag| > 0 && !IsSpace(tag[0])
    requires |text| > 0 && !IsSpace(text[|text| - 1])
    ensures PostProcess(tag + ":" + text) == Strip(Trim(text), IsQuote)
  {
    var t := tag + ":" + text;
    assert t[0] == tag[0] && t[|t| - 1] == text[|text| - 1];
    assert Trim(t) == t;
    forall i | 0 <= i < |tag| ensures !StartsAt(t, i, ":") {
      assert t[i..i + 1][0] == t[i] == tag[i];
    }
    assert StartsAt(t, |tag|, ":");
    assert Find(t, ":", 0) == Some(|tag|);
    assert t[|tag| + 1..] == text;
  }

  /** `translate_text`: the cleaned-up reply, or `None` when the call raises. */
  function TranslateText(reply: Reply): (r: Option<string>)
    ensures r.None? <==> reply == Raise
  {
    match reply
    case Raise => None
    case Answer(t) => Some(PostProcess(t))
  }

  /** What one string gets when translated on its own: a non-empty translation, else its source text. */
  function OwnTranslation(reply: Reply, text: string): (r: string)
    ensures |r| > 0 || r == text
    ensures reply == Raise ==> r == text
  {
    match TranslateText(reply)
    case Some(tr) => if |tr| > 0 then tr else text
    case None => text
  }

  /**
    The per-string fallback for a batch: each key not yet present is
    translated with its own call. Returns the results and the next call's
    number.
   */
  function Individually(batch: Dict<string, string>, acc: Dict<Json, Json>, replies: nat -> Reply, call: nat): (r: (Dict<Json, Json>, nat))
    ensures forall x :: HasKey(r.0, x) <==> HasKey(acc, x) || (x.JStr? && HasKey(batch, x.s))
    ensures UniqueKeys(acc) ==> UniqueKeys(r.0)
    ensures call <= r.1 <= call + |batch|
    decreases |batch|
  {
    if |batch| == 0 then (acc, call)
    else
      var (key, text) := batch[0];
      assert forall k :: HasKey(batch, k) <==> k == key || HasKey(batch[1..], k);
      if HasKey(acc, JStr(key)) then Individually(batch[1..], acc, replies, call)
      else Individually(batch[1..], Put(acc, JStr(key), JStr(OwnTranslation(replies(call), text))), replies, call + 1)
  }

  /**
    Translations already present are kept, and a new key gets a non-empty
    string unless its source text is empty.
   */
  lemma IndividuallyValues(batch: Dict<string, string>, acc: Dict<Json, Json>, replies: nat -> Reply, call: nat)
    requires UniqueKeys(acc) && UniqueKeys(batch)
    ensures forall x :: HasKey(acc, x) ==> ToMap(Individually(batch, acc, replies, call).0)[x] == ToMap(acc)[x]
    ensures forall k :: HasKey(batch, k) && !HasKey(acc, JStr(k)) ==>
      var v := ToMap(Individually(batch, acc, replies, call).0)[JStr(k)];
      v.JStr? && (|v.s| > 0 || v.s == ToMap(batch)[k])
  {
    forall x | HasKey(acc, x) ensures ToMap(Individually(batch, acc, replies, call).0)[x] == ToMap(acc)[x] {
      IndividuallyKeeps(batch, acc, replies, call, x);
    }
    forall k | HasKey(batch, k) && !HasKey(acc, JStr(k))
      ensures var v := ToMap(Individually(batch, acc, replies, call).0)[JStr(k)];
        v.JStr? && (|v.s| > 0 || v.s == ToMap(batch)[k])
    {
      IndividuallyFills(batch, acc, replies, call, k);
    }
  }

  /** A translation already present is kept. */
  lemma {:induction false} IndividuallyKeeps(batch: Dict<string, string>, acc: Dict<Json, Json>, replies: nat -> Reply, call: nat, x: Json)
    requires UniqueKeys(acc) && HasKey(acc, x)
    ensures ToMap(Individually(batch, acc, replies, call).0)[x] == ToMap(acc)[x]
    decreases |batch|
  {
    if |batch| > 0 {
      var (key, text) := batch[0];
      if HasKey(acc, JStr(key)) {
        IndividuallyKeeps(batch[1..], acc, replies, call, x);
      } else {
        IndividuallyKeeps(batch[1..], Put(acc, JStr(key), JStr(OwnTranslation(replies(call), text))), replies, call + 1, x);
      }
    }
  }

  /** A key of the batch that was missing gets a non-empty string or its source text. */
  lemma {:induction false} IndividuallyFills(batch: Dict<string, string>, acc: Dict<Json, Json>, replies: nat -> Reply, call: nat, k: string)
    requires UniqueKeys(acc) && UniqueKeys(batch)
    requires HasKey(batch, k) && !HasKey(acc, JStr(k))
    ensures var v := ToMap(Individually(batch, acc, replies, call).0)[JStr(k)];
      v.JStr? && (|v.s| > 0 || v.s == ToMap(batch)[k])
    decreases |batch|
  {
    var (key, text) := batch[0];
    var acc' := Put(acc, JStr(key), JStr(OwnTranslation(replies(call), text)));
    if k == key {
      IndividuallyKeeps(batch[1..], acc', replies, call + 1, JStr(k));
    } else {
      assert HasKey(batch[1..], k);
      if HasKey(acc, JStr(key)) {
        IndividuallyFills(batch[1..], acc, replies, call, k);
      } else {
        IndividuallyFills(batch[1..], acc', replies, call + 1, k);
      }
    }
  }

  /**
    When every call raises, the per-string fallback is the service's
    fallback: each missing key gets its source text.
   */
  lemma {:induction false} IndividuallyAllRaise(batch: Dict<string, string>, acc: Dict<Json, Json>, replies: nat -> Reply, call: nat)
    requires forall n :: replies(n) == Raise
    ensures Individually(batch, acc, replies, call).0 == ServiceTranslate.AddOriginals(acc, batch)
    decreases |batch|
  {
    if |batch| > 0 {
      var (key, text) := batch[0];
      var acc' := ServiceTranslate.FillOne(acc, batch[0]);
      ServiceTranslate.AddOriginalsStep(acc, batch);
      if HasKey(acc, JStr(key)) {
        IndividuallyAllRaise(batch[1..], acc, replies, call);
      } else {
        assert OwnTranslation(replies(call), text) == text;
        IndividuallyAllRaise(batch[1..], acc', replies, call + 1);
      }
    }
  }

  /** The app's parser applied to a reply's stripped text, as batch mode is given it. */
  function AppParser(decode: string -> Decoded): string -> Extraction {
    (t: string) => ParseApp(Trim(t), decode)
  }

  /**
    One batch: a single call. An exception, raised by the call or escaping
    the app's parser, gives `None`; otherwise the results and the next
    call's number.
   */
  function AppBatch(batch: Dict<string, string>, acc: Dict<Json, Json>, replies: nat -> Reply, parse: string -> Extraction, call: nat): (r: Option<(Dict<Json, Json>, nat)>)
    ensures r.None? <==> replies(call) == Raise || parse(replies(call).text).Raised?
    ensures r.Some? ==> forall x :: HasKey(acc, x) ==> HasKey(r.value.0, x)
    ensures r.Some? && UniqueKeys(acc) ==> UniqueKeys(r.value.0)
    ensures r.Some? ==> call < r.value.1
  {
    match replies(call)
    case Raise => None
    case Answer(t) =>
      match parse(t)
      case Raised => None
      case Extracted(found) =>
        if |found| > 0 then Some((Update(acc, found), call + 1))
        else Some(Individually(batch, acc, replies, call + 1))
  }

  function AppBatchLoop(bs: seq<Dict<string, string>>, acc: Dict<Json, Json>, replies: nat -> Reply, parse: string -> Extraction, call: nat): (r: Option<(Dict<Json, Json>, nat)>)
    ensures r.Some? ==> forall x :: HasKey(acc, x) ==> HasKey(r.value.0, x)
    ensures r.Some? && UniqueKeys(acc) ==> UniqueKeys(r.value.0)
    decreases |bs|
  {
    if |bs| == 0 then Some((acc, call))
    else
      match AppBatch(bs[0], acc, replies, parse, call)
      case None => None
      case Some((acc', call')) => AppBatchLoop(bs[1..], acc', replies, parse, call')
  }

  /** `batch_translate_texts`: any exception gives the empty result. */
  function BatchTranslate(items: Dict<string, string>, replies: nat -> Reply, parse: string -> Extraction, call: nat): (r: Dict<Json, Json>)
    ensures UniqueKeys(r)
  {
    match AppBatchLoop(Batches(items), [], replies, parse, call)
    case None => []
    case Some((r, _)) => r
  }

  /** `translate_all_strings`: it never raises; every failure of the single call goes to batch mode. */
  function TranslateAllStrings(texts: Dict<string, Json>, payloadLen: nat, replies: nat -> Reply, decode: string -> Decoded): (r: Dict<Json, Json>)
    ensures UniqueKeys(r)
  {
    var items := StringContents(texts);
    if TooLarge(payloadLen) then BatchTranslate(items, replies, AppParser(decode), 0)
    else
      match replies(0)
      case Raise => BatchTranslate(items, replies, AppParser(decode), 1)
      case Answer(t) =>
        match ParseApp(Trim(t), decode)
        case Raised => BatchTranslate(items, replies, AppParser(decode), 1)
        case Extracted(found) => if |found| > 0 then found else BatchTranslate(items, replies, AppParser(decode), 1)
  }

  /** Where the app tries batch mode the service re-raises: both start with a call that raises. */
  lemma FirstCallRaises(texts: Dict<string, Json>, payloadLen: nat, replies: nat -> Reply, decode: string -> Decoded)
    requires replies(0) == Raise && !ServiceTranslate.TooLarge(payloadLen)
    ensures ServiceTranslate.TranslateStrings(texts, payloadLen, replies, decode).Failed?
    ensures !TooLarge(payloadLen) && TranslateAllStrings(texts, payloadLen, replies, decode) == BatchTranslate(StringContents(texts), replies, AppParser(decode), 1)
  {
  }

  /** When the single call yields translations in both programs, they return the same ones. */
  lemma SingleCallAgrees(texts: Dict<string, Json>, payloadLen: nat, replies: nat -> Reply, decode: string -> Decoded)
    requires !ServiceTranslate.TooLarge(payloadLen) && replies(0).Answer?
    requires ParseApp(Trim(replies(0).text), decode).Extracted? && |ParseApp(Trim(replies(0).text), decode).found| > 0
    ensures ServiceTranslate.TranslateStrings(texts, payloadLen, replies, decode)
      == ServiceTranslate.Translated(TranslateAllStrings(texts, payloadLen, replies, decode))
  {
    var found := ParseApp(Trim(replies(0).text), decode).found;
    ParsersAgree(Trim(replies(0).text), decode);
    assert ServiceTranslate.Parsed(replies(0).text, decode) == found;
    ServiceTranslate.SingleCall(texts, payloadLen, replies, decode);
    assert TranslateAllStrings(texts, payloadLen, replies, decode) == found;
  }

  /**
    An exception in a later batch throws away the translations of the
    earlier ones: with more than one batch, a first batch that succeeds
    and a second whose call raises give the empty result.
   */
  lemma LaterRaiseDiscardsEarlier(items: Dict<string, string>, replies: nat -> Reply, parse: string -> Extraction, call: nat)
    requires |items| > BatchSize
    requires replies(call).Answer?
    requires parse(replies(call).text).Extracted? && |parse(replies(call).text).found| > 0
    requires replies(call + 1) == Raise
    ensures BatchTranslate(items, replies, parse, call) == []
  {
    var bs := Batches(items);
    assert |bs| >= 2;
    var first := AppBatch(bs[0], [], replies, parse, call);
    assert first.Some? && first.value.1 == call + 1;
    assert AppBatchLoop(bs[1..], first.value.0, replies, parse, call + 1).None?;
  }

  /** When every reply parses to nothing, each batch is translated string by string, so every key comes back. */
  lemma {:induction false} AllEmptyLoop(bs: seq<Dict<string, string>>, acc: Dict<Json, Json>, replies: nat -> Reply, parse: string -> Extraction, call: nat)
    requires forall n :: replies(n).Answer? && parse(replies(n).text) == Extracted([])
    ensures AppBatchLoop(bs, acc, replies, parse, call).Some?
    ensures forall x :: HasKey(AppBatchLoop(bs, acc, replies, parse, call).value.0, x) <==>
      HasKey(acc, x) || (x.JStr? && HasKey(Concat(bs), x.s))
    decreases |bs|
  {
    if |bs| > 0 {
      assert replies(call).Answer? && parse(replies(call).text) == Extracted([]);
      var (acc', call') := Individually(bs[0], acc, replies, call + 1);
      assert AppBatch(bs[0], acc, replies, parse, call) == Some((acc', call'));
      AllEmptyLoop(bs[1..], acc', replies, parse, call');
      forall k ensures HasKey(Concat(bs), k) <==> HasKey(bs[0], k) || HasKey(Concat(bs[1..]), k) {
        HasKeyConcat(bs[0], Concat(bs[1..]), k);
      }
    }
  }

  /** The app's batch mode is complete when the model's replies never parse: every input key gets a value. */
  lemma AllEmptyCoversEveryKey(items: Dict<string, string>, replies: nat -> Reply, parse: string -> Extraction, call: nat)
    requires forall n :: replies(n).Answer? && parse(replies(n).text) == Extracted([])
    ensures forall x :: HasKey(BatchTranslate(items, replies, parse, call), x) <==> x.JStr? && HasKey(items, x.s)
  {
    AllEmptyLoop(Batches(items), [], replies, parse, call);
  }
}
