/**
  What the two translation drivers share: the model's replies, the string
  filter applied to the input, and the cutting of the input into batches of
  fifty.

  The language model is an oracle: `replies(n)` is what the `n`-th call
  made by one translation request returns, the text of the reply or an
  exception. Prompts are not modelled; only the order of the calls is.
 */
module Batching {
  import opened Wrappers
  import opened Dicts
  import opened Json

  /** One call to the model: it raises, or it answers with a text. */
  datatype Reply = Raise | Answer(text: string)

  /** The number of strings sent in one batch. */
  const BatchSize: nat := 50

  /** `{k: v for k, v in d.items() if isinstance(v, str)}`: the entries whose value is a string. */
  function StringContents(d: Dict<string, Json>): (r: Dict<string, string>)
    ensures forall k :: HasKey(r, k) ==> HasKey(d, k)
    ensures UniqueKeys(d) ==> UniqueKeys(r)
    ensures UniqueKeys(d) ==> forall k :: HasKey(d, k) && ToMap(d)[k].JStr? ==> HasKey(r, k) && ToMap(r)[k] == ToMap(d)[k].s
    ensures UniqueKeys(d) ==> forall k :: HasKey(r, k) ==> ToMap(d)[k].JStr?
    ensures |r| <= |d|
  {
    if |d| == 0 then []
    else
      var rest := StringContents(d[1..]);
      if d[0].1.JStr? then
        var r := [(d[0].0, d[0].1.s)] + rest;
        assert r[1..] == rest;
        r
      else rest
  }

  /** The concatenation of the batches, in order. */
  function Concat<T>(bs: seq<seq<T>>): seq<T> {
    if |bs| == 0 then [] else bs[0] + Concat(bs[1..])
  }

  /**
    `texts_list[i:i + 50]` for `i` in `range(0, len(texts_list), 50)`:
    consecutive full batches and a shorter last one.
   */
  function Batches<T>(xs: seq<T>): (bs: seq<seq<T>>)
    ensures Concat(bs) == xs
    ensures forall i :: 0 <= i < |bs| ==> 0 < |bs[i]| <= BatchSize
    ensures forall i :: 0 <= i < |bs| - 1 ==> |bs[i]| == BatchSize
    ensures |bs| == (|xs| + BatchSize - 1) / BatchSize
    decreases |xs|
  {
    if |xs| == 0 then []
    else if |xs| <= BatchSize then [xs]
    else
      var rest := Batches(xs[BatchSize..]);
      var bs := [xs[..BatchSize]] + rest;
      assert bs[1..] == rest;
      assert xs == xs[..BatchSize] + xs[BatchSize..];
      bs
  }

  /** A key present in some batch is present in the whole input, and the other way round. */
  lemma {:induction false} BatchKeys<V>(bs: seq<Dict<string, V>>, k: string)
    ensures HasKey(Concat(bs), k) <==> exists i :: 0 <= i < |bs| && HasKey(bs[i], k)
    decreases |bs|
  {
    if |bs| > 0 {
      BatchKeys(bs[1..], k);
      HasKeyConcat(bs[0], Concat(bs[1..]), k);
      assert forall i :: 0 < i < |bs| ==> bs[i] == bs[1..][i - 1];
      if HasKey(bs[0], k) {
        assert exists i :: 0 <= i < |bs| && HasKey(bs[i], k) by {
          assert HasKey(bs[0], k);
        }
      }
    }
  }

  /** The untranslated fallback: each key mapped to its own source text, as JSON strings. */
  function Originals(d: Dict<string, string>): (m: map<Json, Json>)
    ensures forall k :: k in m <==> k.JStr? && HasKey(d, k.s)
  {
    if |d| == 0 then map[] else map[JStr(d[0].0) := JStr(d[0].1)] + Originals(d[1..])
  }
}
