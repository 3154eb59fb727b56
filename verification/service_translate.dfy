/**
  The service's translation driver. A request is first tried as one call to
  the model; a payload estimated above 30000 tokens, or a reply that parses
  to nothing, goes to batch mode, where each batch of fifty strings gets up
  to three attempts. An exception on the third attempt fills the batch's
  missing keys with their source texts; three replies that parse to
  nothing leave them missing.

  The estimate is a quarter of the serialized payload's length, so the
  single call is skipped exactly when that length exceeds 120000; the
  serialization itself is not modelled and its length is a parameter.
 */
module ServiceTranslate {
  import opened Wrappers
  import opened Text
  import opened Dicts
  import opened Json
  import opened Reconcile
  import opened Batching

  /** The estimated-token limit for one call; the estimate is a quarter of the payload's length. */
  const TokenLimit: nat := 30000

  /** Attempts per batch. */
  const MaxRetries: nat := 3

  /** `estimated_tokens > 30000` with `estimated_tokens = len(input_text) / 4`. */
  predicate TooLarge(payloadLen: nat) {
    payloadLen > 4 * TokenLimit
  }

  /** The service parser applied to a reply's stripped text. */
  function Parsed(reply: string, decode: string -> Decoded): Dict<Json, Json> {
    ParseService(Trim(reply), decode)
  }

  /** `Parsed` as the reply parser batch mode is given; batch mode does not depend on how it parses. */
  function ServiceParser(decode: string -> Decoded): string -> Dict<Json, Json> {
    (t: string) => Parsed(t, decode)
  }

  /** The fallback after the last attempt raised: every batch key not yet present gets its source text. */
  function AddOriginals(acc: Dict<Json, Json>, batch: Dict<string, string>): (r: Dict<Json, Json>)
    ensures forall x :: HasKey(r, x) <==> HasKey(acc, x) || (x.JStr? && HasKey(batch, x.s))
    ensures UniqueKeys(acc) ==> UniqueKeys(r)
    decreases |batch|
  {
    if |batch| == 0 then acc
    else
      assert forall k :: HasKey(batch, k) <==> k == batch[0].0 || HasKey(batch[1..], k);
      AddOriginals(FillOne(acc, batch[0]), batch[1..])
  }

  /** One key of the fallback: its source text, unless a translation is already there. */
  function FillOne(acc: Dict<Json, Json>, entry: (string, string)): Dict<Json, Json> {
    if HasKey(acc, JStr(entry.0)) then acc else Put(acc, JStr(entry.0), JStr(entry.1))
  }

  /** The fallback never overwrites a translation already present, and gives each new key its own source text. */
  lemma AddOriginalsValues(acc: Dict<Json, Json>, batch: Dict<string, string>)
    requires UniqueKeys(acc) && UniqueKeys(batch)
    ensures forall x :: HasKey(acc, x) ==> ToMap(AddOriginals(acc, batch))[x] == ToMap(acc)[x]
    ensures forall k :: HasKey(batch, k) && !HasKey(acc, JStr(k)) ==>
      ToMap(AddOriginals(acc, batch))[JStr(k)] == JStr(ToMap(batch)[k])
  {
    forall x | HasKey(acc, x) ensures ToMap(AddOriginals(acc, batch))[x] == ToMap(acc)[x] {
      AddOriginalsAt(acc, batch, x);
    }
    forall k | HasKey(batch, k) && !HasKey(acc, JStr(k))
      ensures ToMap(AddOriginals(acc, batch))[JStr(k)] == JStr(ToMap(batch)[k])
    {
      AddOriginalsAt(acc, batch, JStr(k));
    }
  }

  /** `AddOriginalsValues` at one key. */
  lemma {:induction false} AddOriginalsAt(acc: Dict<Json, Json>, batch: Dict<string, string>, x: Json)
    requires UniqueKeys(acc) && UniqueKeys(batch)
    ensures HasKey(acc, x) ==> ToMap(AddOriginals(acc, batch))[x] == ToMap(acc)[x]
    ensures x.JStr? && HasKey(batch, x.s) && !HasKey(acc, x) ==>
      ToMap(AddOriginals(acc, batch))[x] == JStr(ToMap(batch)[x.s])
    decreases |batch|
  {
    if |batch| > 0 {
      AddOriginalsAt(FillOne(acc, batch[0]), batch[1..], x);
      if x.JStr? {
        assert HasKey(batch, x.s) <==> x.s == batch[0].0 || HasKey(batch[1..], x.s);
      }
    }
  }

  /** Filling in two pieces one after the other is filling in their concatenation. */
  lemma {:induction false} AddOriginalsConcat(acc: Dict<Json, Json>, a: Dict<string, string>, b: Dict<string, string>)
    ensures AddOriginals(AddOriginals(acc, a), b) == AddOriginals(acc, a + b)
    decreases |a|
  {
    var ab := a + b;
    if |a| > 0 {
      var acc' := FillOne(acc, a[0]);
      assert ab[0] == a[0];
      assert ab[1..] == a[1..] + b;
      calc {
        AddOriginals(AddOriginals(acc, a), b);
        { AddOriginalsStep(acc, a); }
        AddOriginals(AddOriginals(acc', a[1..]), b);
        { AddOriginalsConcat(acc', a[1..], b); }
        AddOriginals(acc', a[1..] + b);
        { AddOriginalsStep(acc, ab); }
        AddOriginals(acc, ab);
      }
    } else {
      assert ab == b;
    }
  }

  lemma AddOriginalsStep(acc: Dict<Json, Json>, a: Dict<string, string>)
    requires |a| > 0
    ensures AddOriginals(acc, a) == AddOriginals(FillOne(acc, a[0]), a[1..])
  {
  }

  /**
    The retry loop for one batch, from attempt `retry` with the next call
    numbered `call`: the first reply that parses to something is merged in
    and ends the loop. Returns the results and the next call's number.
   */
  function Attempts(batch: Dict<string, string>, acc: Dict<Json, Json>, replies: nat -> Reply, parse: string -> Dict<Json, Json>,
                    call: nat, retry: nat): (r: (Dict<Json, Json>, nat))
    requires retry < MaxRetries
    ensures call < r.1 <= call + MaxRetries - retry
    ensures forall x :: HasKey(acc, x) ==> HasKey(r.0, x)
    ensures UniqueKeys(acc) ==> UniqueKeys(r.0)
    decreases MaxRetries - retry
  {
    match replies(call)
    case Raise =>
      if retry == MaxRetries - 1 then (AddOriginals(acc, batch), call + 1)
      else Attempts(batch, acc, replies, parse, call + 1, retry + 1)
    case Answer(t) =>
      var found := parse(t);
      if |found| > 0 then (Update(acc, found), call + 1)
      else if retry == MaxRetries - 1 then (acc, call + 1)
      else Attempts(batch, acc, replies, parse, call + 1, retry + 1)
  }

  /** The batches in order, each starting where the previous one's calls ended. */
  function BatchLoop(bs: seq<Dict<string, string>>, acc: Dict<Json, Json>, replies: nat -> Reply, parse: string -> Dict<Json, Json>,
                     call: nat): (r: (Dict<Json, Json>, nat))
    ensures call + |bs| <= r.1 <= call + MaxRetries * |bs|
    ensures forall x :: HasKey(acc, x) ==> HasKey(r.0, x)
    ensures UniqueKeys(acc) ==> UniqueKeys(r.0)
    decreases |bs|
  {
    if |bs| == 0 then (acc, call)
    else
      var (acc', call') := Attempts(bs[0], acc, replies, parse, call, 0);
      BatchLoop(bs[1..], acc', replies, parse, call')
  }

  /** Call `n` is answered with a reply that parses to something: the attempt that ends a batch. */
  predicate Decisive(replies: nat -> Reply, parse: string -> Dict<Json, Json>, n: nat) {
    replies(n).Answer? && |parse(replies(n).text)| > 0
  }

  /**
    What a batch's attempts from `retry` on produce, for any replies: the
    first call among the remaining ones whose reply parses to something has
    that parse `update`d into the results and ends the batch.
   */
  lemma {:induction false} FirstDecisiveMerged(batch: Dict<string, string>, acc: Dict<Json, Json>, replies: nat -> Reply, parse: string -> Dict<Json, Json>,
                                               call: nat, retry: nat, j: nat)
    requires retry < MaxRetries && call <= j <= call + MaxRetries - 1 - retry
    requires Decisive(replies, parse, j) && forall i :: call <= i < j ==> !Decisive(replies, parse, i)
    ensures Attempts(batch, acc, replies, parse, call, retry) == (Update(acc, parse(replies(j).text)), j + 1)
    decreases MaxRetries - retry
  {
    if j > call {
      assert !Decisive(replies, parse, call);
      FirstDecisiveMerged(batch, acc, replies, parse, call + 1, retry + 1, j);
    }
  }

  /**
    When no remaining call's reply parses to something, the last call
    decides: an exception adds the batch's source texts for the keys still
    missing, and a reply that parses to nothing adds nothing.
   */
  lemma {:induction false} NoDecisiveLastDecides(batch: Dict<string, string>, acc: Dict<Json, Json>, replies: nat -> Reply, parse: string -> Dict<Json, Json>,
                                                 call: nat, retry: nat)
    requires retry < MaxRetries
    requires forall i :: call <= i <= call + MaxRetries - 1 - retry ==> !Decisive(replies, parse, i)
    ensures var last := call + MaxRetries - 1 - retry;
      Attempts(batch, acc, replies, parse, call, retry) == (if replies(last) == Raise then AddOriginals(acc, batch) else acc, last + 1)
    decreases MaxRetries - retry
  {
    assert !Decisive(replies, parse, call);
    if retry < MaxRetries - 1 {
      NoDecisiveLastDecides(batch, acc, replies, parse, call + 1, retry + 1);
    }
  }

  /** `batch_translate_texts`, with its first call numbered `call`. */
  function BatchTranslate(items: Dict<string, string>, replies: nat -> Reply, parse: string -> Dict<Json, Json>, call: nat): (r: Dict<Json, Json>)
    ensures UniqueKeys(r)
  {
    BatchLoop(Batches(items), [], replies, parse, call).0
  }

  /**
    The batches are handled one after the other: running the loop over two
    runs of batches is running it over the first and then, from where its
    calls ended, over the second.
   */
  lemma {:induction false} BatchLoopConcat(bs: seq<Dict<string, string>>, cs: seq<Dict<string, string>>, acc: Dict<Json, Json>,
                                           replies: nat -> Reply, parse: string -> Dict<Json, Json>, call: nat)
    ensures var (acc', call') := BatchLoop(bs, acc, replies, parse, call);
      BatchLoop(bs + cs, acc, replies, parse, call) == BatchLoop(cs, acc', replies, parse, call')
    decreases |bs|
  {
    if |bs| == 0 {
      assert bs + cs == cs;
    } else {
      var (a1, c1) := Attempts(bs[0], acc, replies, parse, call, 0);
      assert (bs + cs)[0] == bs[0];
      assert (bs + cs)[1..] == bs[1..] + cs;
      BatchLoopConcat(bs[1..], cs, a1, replies, parse, c1);
    }
  }

  /** One batch on its own is its attempts from the first. */
  lemma BatchLoopOne(b: Dict<string, string>, acc: Dict<Json, Json>, replies: nat -> Reply, parse: string -> Dict<Json, Json>, call: nat)
    ensures BatchLoop([b], acc, replies, parse, call) == Attempts(b, acc, replies, parse, call, 0)
  {
    assert [b][1..] == [];
  }

  /** The outcome of a request: the translations, or the exception the service re-raises. */
  datatype Outcome = Translated(result: Dict<Json, Json>) | Failed

  /** `translate_strings`: one call for a small payload, batch mode otherwise or when that call yields nothing. */
  function TranslateStrings(strings: Dict<string, Json>, payloadLen: nat, replies: nat -> Reply, decode: string -> Decoded): (r: Outcome)
    ensures r.Failed? <==> !TooLarge(payloadLen) && replies(0) == Raise
    ensures r.Translated? ==> UniqueKeys(r.result)
  {
    var items := StringContents(strings);
    if TooLarge(payloadLen) then Translated(BatchTranslate(items, replies, ServiceParser(decode), 0))
    else
      match replies(0)
      case Raise => Failed
      case Answer(t) =>
        var found := Parsed(t, decode);
        if |found| > 0 then Translated(found) else Translated(BatchTranslate(items, replies, ServiceParser(decode), 1))
  }

  /** A single call whose reply parses to something is the whole answer; one that parses to nothing hands over to batch mode. */
  lemma SingleCall(strings: Dict<string, Json>, payloadLen: nat, replies: nat -> Reply, decode: string -> Decoded)
    requires !TooLarge(payloadLen) && replies(0).Answer?
    ensures |Parsed(replies(0).text, decode)| > 0 ==>
      TranslateStrings(strings, payloadLen, replies, decode) == Translated(Parsed(replies(0).text, decode))
    ensures |Parsed(replies(0).text, decode)| == 0 ==>
      TranslateStrings(strings, payloadLen, replies, decode) == Translated(BatchTranslate(StringContents(strings), replies, ServiceParser(decode), 1))
  {
  }

  // ----------------------------------------------------- two extreme oracles

  /** When every call raises, each batch ends by filling in its source texts. */
  lemma {:induction false} AllRaiseLoop(bs: seq<Dict<string, string>>, acc: Dict<Json, Json>, replies: nat -> Reply, parse: string -> Dict<Json, Json>, call: nat)
    requires forall n :: replies(n) == Raise
    ensures BatchLoop(bs, acc, replies, parse, call).0 == AddOriginals(acc, Concat(bs))
    decreases |bs|
  {
    if |bs| > 0 {
      AllRaiseAttempts(bs[0], acc, replies, parse, call, 0);
      AllRaiseLoop(bs[1..], AddOriginals(acc, bs[0]), replies, parse, call + 3);
      AddOriginalsConcat(acc, bs[0], Concat(bs[1..]));
    }
  }

  lemma {:induction false} AllRaiseAttempts(batch: Dict<string, string>, acc: Dict<Json, Json>, replies: nat -> Reply, parse: string -> Dict<Json, Json>,
                                            call: nat, retry: nat)
    requires retry < MaxRetries
    requires forall n :: replies(n) == Raise
    ensures Attempts(batch, acc, replies, parse, call, retry) == (AddOriginals(acc, batch), call + MaxRetries - retry)
    decreases MaxRetries - retry
  {
    assert replies(call) == Raise;
    if retry < MaxRetries - 1 {
      AllRaiseAttempts(batch, acc, replies, parse, call + 1, retry + 1);
    }
  }

  /**
    A model that always raises leaves every string untranslated: batch mode
    returns exactly the input's strings, each under its own key.
   */
  lemma AllRaiseKeepsSources(items: Dict<string, string>, replies: nat -> Reply, parse: string -> Dict<Json, Json>, call: nat)
    requires UniqueKeys(items)
    requires forall n :: replies(n) == Raise
    ensures forall x :: HasKey(BatchTranslate(items, replies, parse, call), x) <==> x.JStr? && HasKey(items, x.s)
    ensures forall k :: HasKey(items, k) ==> ToMap(BatchTranslate(items, replies, parse, call))[JStr(k)] == JStr(ToMap(items)[k])
  {
    AllRaiseLoop(Batches(items), [], replies, parse, call);
    AddOriginalsValues([], items);
  }

  /** Every reply is an answer that parses to nothing. */
  ghost predicate AlwaysEmpty(replies: nat -> Reply, parse: string -> Dict<Json, Json>) {
    forall n :: replies(n).Answer? && |parse(replies(n).text)| == 0
  }

  /** When every reply parses to nothing, no batch records anything. */
  lemma {:induction false} AllEmptyLoop(bs: seq<Dict<string, string>>, replies: nat -> Reply, parse: string -> Dict<Json, Json>, call: nat)
    requires AlwaysEmpty(replies, parse)
    ensures BatchLoop(bs, [], replies, parse, call).0 == []
    decreases |bs|
  {
    if |bs| > 0 {
      AllEmptyAttempts(bs[0], [], replies, parse, call, 0);
      AllEmptyLoop(bs[1..], replies, parse, call + 3);
    }
  }

  lemma {:induction false} AllEmptyAttempts(batch: Dict<string, string>, acc: Dict<Json, Json>, replies: nat -> Reply, parse: string -> Dict<Json, Json>,
                                            call: nat, retry: nat)
    requires retry < MaxRetries
    requires AlwaysEmpty(replies, parse)
    ensures Attempts(batch, acc, replies, parse, call, retry) == (acc, call + MaxRetries - retry)
    decreases MaxRetries - retry
  {
    EmptyAttempt(batch, acc, replies, parse, call, retry);
    if retry < MaxRetries - 1 {
      AllEmptyAttempts(batch, acc, replies, parse, call + 1, retry + 1);
    }
  }

  /** An attempt whose reply parses to nothing ends the loop on the last try and otherwise moves on. */
  lemma EmptyAttempt(batch: Dict<string, string>, acc: Dict<Json, Json>, replies: nat -> Reply, parse: string -> Dict<Json, Json>,
                     call: nat, retry: nat)
    requires retry < MaxRetries
    requires replies(call).Answer? && |parse(replies(call).text)| == 0
    ensures Attempts(batch, acc, replies, parse, call, retry)
      == if retry == MaxRetries - 1 then (acc, call + 1) else Attempts(batch, acc, replies, parse, call + 1, retry + 1)
  {
  }

  /**
    A model whose replies never parse loses every string: unlike an
    exception, three empty answers add no fallback, so the request succeeds
    with an empty result.
   */
  lemma AllEmptyLosesEverything(strings: Dict<string, Json>, payloadLen: nat, replies: nat -> Reply, decode: string -> Decoded)
    requires AlwaysEmpty(replies, ServiceParser(decode))
    ensures TranslateStrings(strings, payloadLen, replies, decode) == Translated([])
  {
    var items := StringContents(strings);
    AllEmptyLoop(Batches(items), replies, ServiceParser(decode), 0);
    AllEmptyLoop(Batches(items), replies, ServiceParser(decode), 1);
  }

  /** A failing first attempt followed by a useful one: the second reply's translations are kept. */
  lemma SecondAttemptCounts(batch: Dict<string, string>, acc: Dict<Json, Json>, replies: nat -> Reply, parse: string -> Dict<Json, Json>, call: nat)
    requires replies(call) == Raise
    requires replies(call + 1).Answer? && |parse(replies(call + 1).text)| > 0
    ensures Attempts(batch, acc, replies, parse, call, 0) == (Update(acc, parse(replies(call + 1).text)), call + 2)
  {
  }
}
