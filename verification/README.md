# String translation pipeline — a Dafny model

This project models the pure core of a localisation tool. The tool reads the
`strings.xml` resources of Android/Compose projects, sends them to a large
language model for translation, reconciles the model's free-text reply into
a key → translation map, and exports the result. The modelled parts are:

- the **reply reconciler** (`parse_translation_response`, in the service and
  in the single-file app). It strips fences, applies five regex repairs, then
  tries a strict JSON decode with list and object shapes. On a decode error
  it falls back to two regex scanning passes. Modules: `Repairs`, `Scanners`,
  `Reconcile`, `Json`.
- **single-call and batch orchestration**. This covers `translate_strings` /
  `batch_translate_texts` in the service, and `translate_all_strings` /
  `batch_translate_texts` / `translate_text` in the app. The language model is
  an oracle `replies: nat -> Reply` indexed by call number. Modules:
  `Batching`, `ServiceTranslate`, `AppTranslate`.
- the **dot-path codec** `flatten_json` / `unflatten_json`. Module: `PathCodec`.
- the app's **Android export** (`strings.xml` writer and its escaping). Module:
  `AndroidExport`.
- the **GitHub scan**: URL and branch extraction, glob-like pattern search and
  the full-tree search. The remote repository is an in-memory tree of
  `Entry` values. Module: `RepoScan`.
- the browser client's **translate page**: file selection, the `<string>`
  extractor, per-file/per-language requests, and the merge into the stored
  translations. Modules: `ResourceRegex`, `ClientMerge`.

Python and JavaScript dicts keep insertion order. They are modelled as
`Dict<K, V> = seq<(K, V)>` with `Put` (assignment) and `Update`
(`dict.update` / object spread); `ToMap` is the order-free view (module
`Dicts`). String helpers (`find`, `split`, `strip`, …) live in `Text`, and
`Option` lives in `Wrappers`.

## Model

| member | source | states |
|---|---|---|
| Dicts.Put | backend/app/services/translation_service.py:242 | assigning a key keeps the key order, appending a new key at the end; as a map it is the old map with that key overridden |
| Dicts.Update | backend/app/services/translation_service.py:186 | `update` keeps keys unique, and as a map it is the old map overridden by the new one; its keys are the union |
| Dicts.GetUpdate | app.py:253-254 | after `update`, a key of the new dict reads the new value, any other key reads the old one |
| Dicts.GetUpdateLast | frontend/src/pages/TranslateProject.js:238-241 | with repeated keys in the overlay, the last occurrence wins |
| Dicts.PutPut | backend/app/services/xml_service.py:92 | assigning a key twice is the same as assigning it once with the second value |
| Dicts.LastOf | frontend/src/pages/TranslateProject.js:157-159 | the value read for a key is the one at its last occurrence, and it exists exactly when the key occurs |
| Text.Find | backend/app/services/translation_service.py:212-215 | `str.find`: the first position at or after `from` where the pattern starts, or none if it starts nowhere |
| Text.Before | backend/app/services/translation_service.py:213 | `split(sep)[0]`: a prefix of the text in which no separator starts; unless it is the whole text, a separator starts right after it |
| Text.Trim | backend/app/services/translation_service.py:213 | `strip()`: the text from its first non-whitespace character with only whitespace removed before and after, no whitespace left at either end; text already trimmed is unchanged |
| Text.StripUnique | backend/app/services/translation_service.py:213 | any piece of the text with only stripped characters around it and kept characters at its two ends is exactly what `strip` returns |
| Text.JoinSplit | backend/app/services/xml_service.py:86 | joining what `split` cut, with the same separator, gives the original string back |
| Text.SplitJoin | backend/app/services/xml_service.py:86 | splitting a join of separator-free parts gives the parts back |
| Repairs.StripFences | backend/app/services/translation_service.py:212-215 | text without a fence is left alone; fenced text comes out trimmed |
| Repairs.JsonFencedBlock | backend/app/services/translation_service.py:212-213 | a "```json" block yields exactly the trimmed body when the text before the fence and the body hold no backtick and the closing fence is not followed by another backtick |
| Repairs.TickAfterFenceLeaks | backend/app/services/translation_service.py:212-213 | that last condition is needed: "```jsonx````json" yields "x`", a backtick of the closing fence kept |
| Repairs.PlainFencedBlock | backend/app/services/translation_service.py:214-215 | a plain ``` block (no "```json" anywhere) yields the trimmed body |
| Repairs.StripLineComments | backend/app/services/translation_service.py:218 | the result holds no `//`; text without `//` is unchanged; the result is never longer |
| Repairs.LineCopyStep | backend/app/services/translation_service.py:218 | where no comment starts, the first character is kept and the rest is processed on |
| Repairs.LineCommentEndsAtNewline | backend/app/services/translation_service.py:218 | a comment is cut only up to its line break: everything from the newline on is processed as if the text started there |
| Repairs.CutAtDoubleSlash | backend/app/services/translation_service.py:218 | a line `a//b` loses the `//` and everything after it to the end of the line |
| Repairs.UrlValueIsCut | backend/app/services/translation_service.py:218 | the repair also cuts inside string values: `"http://x.org"` becomes `"http:` |
| Repairs.StripBlockComments | backend/app/services/translation_service.py:219 | text without `/*` is unchanged, and the result is never longer |
| Repairs.BlockCopyStep | backend/app/services/translation_service.py:219 | where no comment starts, the first character is kept and the rest is processed on |
| Repairs.BlockCommentCut | backend/app/services/translation_service.py:219 | text before the first `/*` is kept, the comment up to the nearest `*/` is deleted, and the rest is processed on |
| Repairs.UnclosedBlockKept | backend/app/services/translation_service.py:219 | with no `*/` anywhere the text is kept whole, an opened comment included |
| Repairs.LeadingBlockComment | backend/app/services/translation_service.py:219 | a comment `/*c*/` is removed up to the first `*/` (non-greedy), and the rest is processed on |
| Repairs.TrailingCommaAtShape | backend/app/services/translation_service.py:221-222 | the pattern matches at the start, ending at `e`, exactly when a comma, then whitespace only, then the closer span the first `e` characters |
| Repairs.DropTrailingCommas | backend/app/services/translation_service.py:221-222 | the rewrite only deletes commas and whitespace: the other characters survive in order, and text without a comma is unchanged |
| Repairs.DropCopies | backend/app/services/translation_service.py:221-222 | text before the first trailing comma is copied unchanged |
| Repairs.DropAtStart | backend/app/services/translation_service.py:221-222 | a trailing comma at the start is replaced, with its whitespace, by the closer alone, and the rest is processed on |
| Repairs.DropTrailingCommasAt | backend/app/services/translation_service.py:221-222 | at the first trailing comma, the text before it is kept, the comma and whitespace go, the closer stays, and the rest is processed on |
| Repairs.DoubledCommaSurvives | backend/app/services/translation_service.py:221 | one pass is not a fixpoint: `,,}` becomes `,}` |
| Repairs.BareKeyAtShape | backend/app/services/translation_service.py:225 | the pattern matches at the start with word `[j, k)` and colon at `m` exactly when `{` or `,`, whitespace, the word, whitespace and the colon lie there |
| Repairs.QuoteBareKeys | backend/app/services/translation_service.py:225 | quoting only inserts `"`: deleting quotes from the result gives the input's quote-free text; text without `{` or `,` is unchanged |
| Repairs.QuoteCopies | backend/app/services/translation_service.py:225 | text before the first bare key is copied unchanged |
| Repairs.QuoteStep | backend/app/services/translation_service.py:225 | the key found at the start is wrapped in double quotes, the whitespace and colon around it stay, and the rest is processed after the colon |
| Repairs.SeparateObjects | backend/app/services/translation_service.py:228 | `}` whitespace `{` rewrites change only commas and whitespace, and keep the first character |
| Repairs.ObjectGapAtShape | backend/app/services/translation_service.py:228 | the pattern matches at the start, ending at `e`, exactly when `}`, whitespace only, then `{` span the first `e` characters |
| Repairs.SeparateCopies | backend/app/services/translation_service.py:228 | text before the first `}` … `{` gap is copied unchanged |
| Repairs.SeparateAtStart | backend/app/services/translation_service.py:228 | a gap at the start becomes `},{` and the rest is processed on |
| Repairs.SeparateObjectsAt | backend/app/services/translation_service.py:228 | at the first gap, the text before it is kept and the gap becomes `},{` |
| Repairs.SeparateObjectsIdempotent | backend/app/services/translation_service.py:228 | applying the `},{` repair twice is the same as applying it once |
| Repairs.Normalise | backend/app/services/translation_service.py:218-228 | after comment removal, the later repairs change only commas, whitespace and quotes |
| Repairs.NormaliseRepairsObject | backend/app/services/translation_service.py:218-228 | `{a:1,}` comes out as `{"a":1}`: the trailing comma goes and the key is quoted |
| Repairs.NormaliseSeparatesObjects | backend/app/services/translation_service.py:218-228 | `{} {}` comes out as `{},{}` |
| Json.PyIn | backend/app/services/translation_service.py:245 | Python `in` is defined on dicts, lists and strings only, and on a dict it tests for the key |
| Json.Field | backend/app/services/translation_service.py:239-240 | `dict.get` yields `None` for a missing key and the stored value otherwise |
| Reconcile.ExtractItems | backend/app/services/translation_service.py:237-242 | the list loop raises exactly when some element is not a dict or records an unhashable key |
| Reconcile.ExtractItemsMap | backend/app/services/translation_service.py:237-242 | the list loop's result as a map is the accumulated records, a later duplicate key winning |
| Reconcile.LastRecordWins | backend/app/services/translation_service.py:241-242 | the value recorded for a key is the one from the last element that records that key |
| Reconcile.NoLaterRecord | backend/app/services/translation_service.py:241 | a key no element records (both fields truthy) is absent |
| Reconcile.ExtractFields | backend/app/services/translation_service.py:243-248 | the object loop keeps every key of the object, wrapped as a string key |
| Reconcile.ExtractFieldsMap | backend/app/services/translation_service.py:243-248 | each key maps to its `translation` field when the value is a dict holding one, else to the raw value |
| Reconcile.Extract | backend/app/services/translation_service.py:237-250 | lists raise exactly on a bad element; objects always succeed and keep their keys; any scalar yields `{}` |
| Reconcile.ExtractMeaning | backend/app/services/translation_service.py:237-250 | the extracted dict has unique hashable keys and is, as a map, the list records or the unwrapped object values |
| Reconcile.ReadFragment | backend/app/services/translation_service.py:262-265 | a fragment object records `obj["key"]` ↦ `obj["translation"]` when both keys are present and the key is hashable; scalars fail |
| Reconcile.Fragments | backend/app/services/translation_service.py:254-260 | the fragments are exactly the matched substrings, in match order |
| Reconcile.Pass1Results | backend/app/services/translation_service.py:252-274 | pass one yields unique hashable keys, and nothing when the pattern never matches |
| Reconcile.Pass2Entries | backend/app/services/translation_service.py:276-285 | pass two records each match's two captures as strings, in match order |
| Reconcile.Pass2Results | backend/app/services/translation_service.py:276-286 | every key and value pass two records is a non-empty quote-free capture, and nothing is recorded without a match |
| Reconcile.Fallback | backend/app/services/translation_service.py:252-286 | without a pass-one match the fallback is exactly pass two |
| Reconcile.FallbackNothing | backend/app/services/translation_service.py:273-286 | when neither pattern matches, the fallback yields `{}` |
| Reconcile.ParseService | backend/app/services/translation_service.py:201-290 | the service parser never raises and always yields unique hashable keys |
| Reconcile.ParseApp | app.py:27-109 | the app parser, when it does not raise, yields unique hashable keys |
| Reconcile.ParsersAgree | app.py:27-109 | the two parsers agree whenever the app's does not raise; it raises exactly on a list with a bad element, where the service's yields `{}` |
| Reconcile.ScalarYieldsNothing | backend/app/services/translation_service.py:237-250 | a reply that decodes to a scalar yields `{}` in both parsers |
| Reconcile.NonDictItemRaises | app.py:59-64 | a decoded list with a non-dict element makes the app parser raise and the service parser yield `{}` |
| Reconcile.ParsersOnDecodeError | backend/app/services/translation_service.py:252-286 | on a decode error both parsers return the fallback passes' result on the prepared text |
| Reconcile.PlainTextYieldsNothing | backend/app/services/translation_service.py:288-290 | a reply of words and spaces that does not decode yields `{}` in both parsers |
| Reconcile.NoBraceNoPass1 | backend/app/services/translation_service.py:254 | text without `{` has no pass-one match |
| Reconcile.NoQuoteNoPass2 | backend/app/services/translation_service.py:277 | text without `"` has no pass-two match |
| Reconcile.NotJsonAtAll | backend/app/services/translation_service.py:288-290 | "not json at all" yields `{}` |
| Scanners.FieldAt | backend/app/services/translation_service.py:254 | a `"name" : "capture"` match ends at a closing quote, and its capture is non-empty and quote-free |
| Scanners.FieldAtWay | backend/app/services/translation_service.py:254 | the field pattern matches exactly when the name, whitespace, a colon, whitespace and a quoted non-empty quote-free value lie there, and the capture is that value |
| Scanners.LastTrue | backend/app/services/translation_service.py:254 | greedy backtracking: the largest position in range that satisfies the test, or none |
| Scanners.KeyHere | backend/app/services/translation_service.py:254 | the chosen translation field is the last one that completes a pass-one match from that key |
| Scanners.BestTranslation | backend/app/services/translation_service.py:277 | the chosen translation field is the last one that completes a pass-two match |
| Scanners.Pass1At | backend/app/services/translation_service.py:254 | a pass-one match at a position is the regex's greedy choice: the last key field, then the last translation field, and none when no way exists |
| Scanners.Pass2At | backend/app/services/translation_service.py:277 | a pass-two match at a position uses the last translation field that completes it, and none when no way exists |
| Scanners.FindAll | backend/app/services/translation_service.py:255 | `finditer`: matches are left to right and do not overlap, none starts before the first one found, and none is skipped between two results or after the last |
| Scanners.Pass1All | backend/app/services/translation_service.py:254-258 | every pass-one match is a greedy match at its start, matches do not overlap, and no position before, between or after them matches |
| Scanners.Pass2All | backend/app/services/translation_service.py:277-281 | every pass-two match is a greedy match at its start, matches do not overlap, and no position before, between or after them matches |
| Scanners.SearchField | backend/app/services/translation_service.py:268-269 | `re.search`: the field match that ends first, or none if there is no match anywhere |
| Batching.StringContents | backend/app/services/translation_service.py:122 | only the string-valued entries survive, with their texts, and no others |
| Batching.Batches | backend/app/services/translation_service.py:127-132 | batches concatenate back to the input, in order; each is non-empty and at most 50 long, all but the last full; there are ceil(n/50) of them |
| Batching.BatchKeys | backend/app/services/translation_service.py:131-132 | a key is in the input exactly when it is in some batch |
| ServiceTranslate.AddOriginals | backend/app/services/translation_service.py:189-194 | the last-retry fallback adds exactly the batch keys, and the keys already present |
| ServiceTranslate.AddOriginalsValues | backend/app/services/translation_service.py:192-194 | keys already present keep their values; new batch keys get their source text |
| ServiceTranslate.Attempts | backend/app/services/translation_service.py:176-194 | a batch spends between one and three calls, and never loses a key |
| ServiceTranslate.BatchLoop | backend/app/services/translation_service.py:125-196 | the batch loop spends between one and three calls per batch, and never loses a key |
| ServiceTranslate.FirstDecisiveMerged | backend/app/services/translation_service.py:176-187 | for any replies, the first remaining call whose reply parses to something non-empty has that parse `update`d into the results and ends the batch |
| ServiceTranslate.NoDecisiveLastDecides | backend/app/services/translation_service.py:176-194 | when no remaining reply parses to something, the batch adds the source texts if the last call raises and nothing otherwise |
| ServiceTranslate.BatchLoopConcat | backend/app/services/translation_service.py:125-196 | the batch loop over two runs of batches is the loop over the first, continued over the second from where it stopped |
| ServiceTranslate.BatchLoopOne | backend/app/services/translation_service.py:125-196 | the loop over one batch is that batch's attempts, starting at retry 0 |
| ServiceTranslate.SecondAttemptCounts | backend/app/services/translation_service.py:177-187 | after a raising first attempt, a non-empty second reply is merged with `update` and ends the batch |
| ServiceTranslate.EmptyAttempt | backend/app/services/translation_service.py:185-187 | an empty parse counts as a failed attempt without adding anything; the last one ends the batch |
| ServiceTranslate.AllRaiseKeepsSources | backend/app/services/translation_service.py:189-196 | when every call raises, batching returns exactly the source texts under their keys |
| ServiceTranslate.TranslateStrings | backend/app/services/translation_service.py:7-97 | the single call fails exactly when the payload is small enough and the call raises |
| ServiceTranslate.SingleCall | backend/app/services/translation_service.py:84-94 | a non-empty parse is returned as it is; an empty one falls back to batching from the next call |
| ServiceTranslate.AllEmptyLosesEverything | backend/app/services/translation_service.py:185-196 | when every reply parses to nothing, the result is `{}`: keys are not guaranteed |
| AppTranslate.PostProcess | app.py:302-308 | the post-processed text is no longer than the reply and neither starts nor ends with a quote |
| AppTranslate.PostProcessClean | app.py:302-308 | a clean reply (no colon, no outer whitespace or quotes) is kept as it is |
| AppTranslate.PostProcessDropsLabel | app.py:303-304 | a `label: text` reply keeps only the text after the first colon |
| AppTranslate.TranslateText | app.py:278-311 | `translate_text` returns `None` exactly when the call raises |
| AppTranslate.OwnTranslation | app.py:258-265 | a string's individual translation is non-empty, or its source text, and on a raise its source text |
| AppTranslate.Individually | app.py:255-265 | the individual fallback adds exactly the batch keys not yet present, and spends at most one call per key |
| AppTranslate.IndividuallyValues | app.py:255-265 | keys already present keep their values; each new key gets a string, non-empty or its source |
| AppTranslate.AppBatch | app.py:253-265 | a batch fails exactly when its call raises or its parse raises; otherwise it keeps every earlier key |
| AppTranslate.AllEmptyCoversEveryKey | app.py:253-265 | when every parse comes back empty, the result covers exactly the input keys |
| AppTranslate.LaterRaiseDiscardsEarlier | app.py:274-276 | a raise in the second batch discards the first batch's translations and returns `{}` |
| AppTranslate.FirstCallRaises | app.py:178-182 | a raising single call makes the service variant fail and the app variant fall back to batching |
| AppTranslate.SingleCallAgrees | app.py:164-172 | when the single call parses to something non-empty, service and app return the same map |
| PathCodec.Flatten | backend/app/services/xml_service.py:55-72 | flattened keys are unique, all start with the prefix, and no value is a dict |
| PathCodec.EmptyObjectVanishes | backend/app/services/xml_service.py:67-69 | an empty nested dict contributes no entry |
| PathCodec.FlattenJoined | backend/app/services/xml_service.py:66-72 | flattening a plain tree gives, in order, each leaf's path joined with `.` and its value |
| PathCodec.SetPathAt | backend/app/services/xml_service.py:86-92 | after a successful insertion the value sits at its path |
| PathCodec.SetPathTwice | backend/app/services/xml_service.py:91-92 | inserting the same path twice leaves only the later value |
| PathCodec.UnflattenJoined | backend/app/services/xml_service.py:84-92 | unflattening joined keys inserts each leaf at its split path |
| PathCodec.InsertLeaves | backend/app/services/xml_service.py:84-92 | inserting a plain tree's leaves in order rebuilds the tree |
| PathCodec.RoundTrip | backend/app/services/xml_service.py:55-93 | `unflatten(flatten(t)) == t` for trees with dot-free keys and no empty sub-objects |
| PathCodec.SetPathSucceeds | backend/app/services/xml_service.py:88-92 | the inner walk succeeds whenever no step before the last reaches a value that is not a dict |
| PathCodec.SetPathAtOther | backend/app/services/xml_service.py:88-92 | a path that neither leads to nor through the inserted one keeps its value |
| PathCodec.SetPathAtAbove | backend/app/services/xml_service.py:88-91 | every step on the way to the inserted path holds a dict afterwards |
| PathCodec.SetPathAtBelow | backend/app/services/xml_service.py:92 | nothing lies below a path once a non-dict value is stored there |
| PathCodec.SetPathPlain | backend/app/services/xml_service.py:88-92 | inserting a non-dict value at a dot-free path keeps keys unique and dot-free and nested dicts non-empty |
| PathCodec.SetPathLeaves | backend/app/services/xml_service.py:88-92 | inserting at a path that no leaf leads to or through adds exactly that leaf and keeps every other leaf |
| PathCodec.LeavesAt | backend/app/services/xml_service.py:66-72 | the leaves `flatten` visits are exactly the paths that reach a non-dict value |
| PathCodec.InsertLeavesAre | backend/app/services/xml_service.py:84-93 | on a table whose split keys do not lead to or through one another, every insertion succeeds and the leaves of the result are exactly the split keys with their values |
| PathCodec.SplitPrefix | backend/app/services/xml_service.py:86 | when one key's split parts start another's, the keys are equal or the second is the first followed by `.` |
| PathCodec.ConverseRoundTrip | backend/app/services/xml_service.py:55-93 | `flatten(unflatten(m))` has the same key-value pairs as `m` when keys are unique, no value is a dict and no key is another key followed by `.` |
| PathCodec.ConflictRaises | backend/app/services/xml_service.py:86-92 | stepping into a non-dict value (`a` then `a.b`) raises |
| PathCodec.EmptyObjectLost | backend/app/services/xml_service.py:67-69 | an empty sub-object does not survive the round trip |
| PathCodec.DottedKeyNests | backend/app/services/xml_service.py:86 | a dotted key comes back as a nested path |
| AndroidExport.ResourceName | app.py:557 | every `.` of the key becomes `_`, and nothing else changes |
| AndroidExport.NamesCollide | app.py:557 | `a.b` and `a_b` get the same resource name |
| AndroidExport.EscapeIsEach | app.py:560-564 | the four chained replacements escape each character on its own (`&` first, so nothing is escaped twice) |
| AndroidExport.NoRawAngles | app.py:560-564 | an escaped value holds no `<` or `>` |
| AndroidExport.AmpersandsBeginEntities | app.py:560-564 | every `&` in an escaped value begins `&amp;`, `&lt;` or `&gt;` |
| AndroidExport.UnescapeEscape | app.py:560-564 | escaping loses nothing: the independent unescaper gives the value back |
| AndroidExport.ExportReadsBack | app.py:551-568 | the export, read line by line, gives every entry in insertion order with its resource name and value, when no key holds `"` |
| AndroidExport.QuoteInKeyMisreads | app.py:566 | keys are not escaped: a `"` in a key breaks the line for any reader |
| AndroidExport.PyStr | app.py:560 | `str()` leaves a string as it is; other values are rendered by the `show` parameter |
| AndroidExport.ExportTranslations | app.py:551-568 | over the session's translations, whose keys are any decoded JSON value, the export raises `AttributeError` exactly when some key is not a string |
| AndroidExport.ExportTranslationsReadsBack | app.py:551-568 | with string keys free of `"`, the exported file reads back as each renamed key with the `str()` of its value, in order |
| AndroidExport.IntegerKeyRaises | app.py:557 | a reply decoded to `[{"key": 5, "translation": "x"}]` leaves the key 5, and `key.replace` raises |
| RepoScan.SearchByPatternMeaning | backend/app/services/github_service.py:94-153 | the pattern search records exactly the file paths that match the pattern from the given depth, each with its decoded content |
| RepoScan.MatchesUnder | backend/app/services/github_service.py:117-137 | a name matches the component or `*`/`**`; `**` descends at both the next and the same depth |
| RepoScan.PatternSearchMeaning | backend/app/services/github_service.py:63-84 | the union over the common patterns holds exactly the paths some pattern hits |
| RepoScan.SearchFilesInRepo | backend/app/services/github_service.py:155-194 | the full search fails only on an unreadable root, and returns exactly the reachable decodable files with that name |
| RepoScan.Scan | backend/app/services/github_service.py:63-88 | the pattern results when some pattern hits, otherwise the full search for `strings.xml` |
| RepoScan.OwnerAndName | backend/app/services/github_service.py:37-39 | owner and repository are found exactly when the slash-stripped URL holds a `/`, and neither holds a `/` |
| RepoScan.OwnerAndNameAreLastFields | backend/app/services/github_service.py:37-39 | owner and repository are the last two `/`-fields of the slash-stripped URL |
| RepoScan.ParseTreeUrl | backend/app/services/github_service.py:28-39 | without a branch, `base/tree/b…` reads as the repository of `base` on branch `b`, when `base` holds no `/tree/` and `b` no `/` |
| RepoScan.ExplicitBranchMisparses | backend/app/services/github_service.py:28-39 | with an explicit branch, `base/tree/b` reads as owner `tree`, repository `b` |
| RepoScan.ParseRepoUrlFixed | backend/app/services/github_service.py:28-39 | the corrected parser keeps an explicit branch, and reports none for a plain URL |
| RepoScan.FixedReadsUrlRepo | backend/app/services/github_service.py:28-39 | the corrected parser reads owner and repository as the branch-free parse does, taking an explicit branch over the URL's |
| RepoScan.FixedAgreesWithoutBranch | backend/app/services/github_service.py:28-34 | without an explicit branch the corrected parser is the original one |
| RepoScan.ScanRepository | backend/app/services/github_service.py:8-92 | with the corrected URL parse: no result without a parsed URL or a reachable repository; otherwise the scan's outcome |
| RepoScan.ScanRepositoryAsWritten | backend/app/services/github_service.py:8-92 | the same, with the URL parse as written |
| ResourceRegex.TailAt | frontend/src/pages/TranslateProject.js:155 | a name, the rest of the tag and the body up to the first `</string>` are read exactly when the regex tail matches |
| ResourceRegex.ElementAt | frontend/src/pages/TranslateProject.js:155 | an element match at a position is the regex's backtracking choice, and stays in the text |
| ResourceRegex.ElementsMeaning | frontend/src/pages/TranslateProject.js:157-159 | the `exec` loop finds matches left to right, without overlap, and skips none before, between or after them |
| ResourceRegex.Assignments | frontend/src/pages/TranslateProject.js:158 | each match assigns its name the trimmed body |
| ResourceRegex.GetStrings | frontend/src/pages/TranslateProject.js:150-161 | the extracted object has unique names, and each name reads the value of its last assignment |
| ResourceRegex.GetStringsLastWins | frontend/src/pages/TranslateProject.js:150-161 | a name is extracted exactly when some element carries it, and its value is the last such element's trimmed body |
| ResourceRegex.ReadRendered | frontend/src/pages/TranslateProject.js:150-161 | one rendered `<string name="k">v</string>` reads back as `k` ↦ trimmed `v` |
| ResourceRegex.QuoteInValueMisreads | frontend/src/pages/TranslateProject.js:155 | a `"` in the value can move the name: `<string name="name=">x" >y</string>` reads as `>x` ↦ `y`, so `ReadRendered` needs its `"`-free value |
| ClientMerge.Without | frontend/src/pages/TranslateProject.js:125 | the filter removes exactly the path and keeps the others, without duplicates |
| ClientMerge.Toggle | frontend/src/pages/TranslateProject.js:122-131 | the path is selected afterwards exactly when it was not before; other paths are untouched; no duplicates appear |
| ClientMerge.ToggleTwice | frontend/src/pages/TranslateProject.js:122-131 | toggling an unselected path twice restores the selection; a selected one moves to the end |
| ClientMerge.Upload | frontend/src/pages/TranslateProject.js:133-137 | the selection is exactly the uploaded file names |
| ClientMerge.ContentOf | frontend/src/pages/TranslateProject.js:176-184 | project files take precedence over uploads, and only non-empty content is read |
| ClientMerge.PickContexts | frontend/src/pages/TranslateProject.js:197-204 | contexts sent are exactly this file's keys that have a non-empty context, with that context |
| ClientMerge.FileContexts | frontend/src/pages/TranslateProject.js:197-204 | without `addContexts` no context is sent |
| ClientMerge.KeyOfValue | frontend/src/pages/TranslateProject.js:209 | `find` returns the first language name whose code matches, or nothing |
| ClientMerge.Target | frontend/src/pages/TranslateProject.js:209 | the target is that name, or the code itself when no name matches |
| ClientMerge.RequestFor | frontend/src/pages/TranslateProject.js:207-211 | the request carries the file's strings and only contexts for those strings |
| ClientMerge.TranslateLangs | frontend/src/pages/TranslateProject.js:193-218 | the language loop fails exactly when a non-`en` request throws; otherwise each such language holds its reply and others keep theirs |
| ClientMerge.CollectFilesMeaning | frontend/src/pages/TranslateProject.js:172-220 | the file loop fails exactly on a throwing request; otherwise files with strings get their replies and `en` strings, and others nothing |
| ClientMerge.MergeLangsMeaning | frontend/src/pages/TranslateProject.js:236-241 | each language of the new table is overlaid on the stored one; other languages keep theirs |
| ClientMerge.MergeFilesMeaning | frontend/src/pages/TranslateProject.js:231-242 | each file and language carried by the new translations is overlaid on what is stored; untouched files and languages are unchanged |
| ClientMerge.HandleTranslateMeaning | frontend/src/pages/TranslateProject.js:163-252 | the button fails exactly when a request throws; otherwise each (file, language) holds the stored table overlaid by the fresh one |

## Left out

- The language model calls (`genai.GenerativeModel(...).generate_content`)
  are the `replies` oracle: `Raise` or a reply text, indexed by call number.
  The prompts are not modelled.
- `json.loads` is the `decode` oracle (`Decoded(value)` or `DecodeError`).
  `json.dumps` appears only through the payload length `payloadLen`.
- Floating point: the token estimate `len(text) / 4 > limit` is the integer
  test `len > 4 * limit`. JSON numbers are integers.
- The Streamlit user interface, progress bars, `time.sleep`, and the
  warnings and errors it prints.
- The iOS export branch, which the format selector never offers.
- `configure_genai`.
- ElementTree parsing and serialising of XML files.
- The FastAPI routers, request models and dependencies.
- The PyGithub client, authentication and base64 decoding. The repository is
  an in-memory tree, and a file's content is `None` when it cannot be decoded.
- `async`/`await` is treated as sequential code.
- In the client, the translation endpoint is a function of the request
  content. Two identical requests therefore get the same reply.
- JavaScript's integer-like keys, which `Object.keys` lists first, and the
  `__proto__` key.
- The shallow copy `{ ...project }` shares `file_translations` with the old
  project. That mutation of the old state is not modelled.
- React rendering, navigation, and the other frontend files.
- AndroidExport.ExportReadsBack: it is stated over string pairs and assumes
  keys without `"` (see AndroidExport.QuoteInKeyMisreads for why).
  AndroidExport.ExportTranslations covers keys and values of any JSON type.
- AndroidExport.ExportTranslations: Python's `str()` of a value that is not
  a string is the `show` parameter, because number and container rendering
  is not modelled. A key that is not a string is modelled: it raises.
- PathCodec.ConverseRoundTrip: the converse round trip is stated up to the
  order of the pairs. `unflatten` groups keys that share a first part, so
  `flatten` may list them in a different order than the input.
- PathCodec.Flatten: a flattened key is stored with `flattened[prefix + key] = value`
  in a fresh dict, so duplicate joined keys (possible only with dotted
  input keys) collapse. The model keeps this behaviour but proves the
  ordering fact only for dot-free trees (FlattenJoined).
- StripLineComments: its own contract states only what survives in outline
  (no `//` left, text without `//` unchanged). The rewrite itself is stated by
  LineCopyStep and LineCommentEndsAtNewline.
- StripBlockComments: its own contract states only the identity on text
  without `/*` and a length bound. The rewrite itself is stated by
  BlockCopyStep, BlockCommentCut and UnclosedBlockKept.
- DropTrailingCommas: its own contract states only that other characters
  survive. The removal is stated by TrailingCommaAtShape, DropCopies,
  DropAtStart and DropTrailingCommasAt.
- QuoteBareKeys: its own contract states only that quotes are inserted. Where
  they go is stated by BareKeyAtShape, QuoteCopies and QuoteStep. No single
  lemma composes the two for a key in the middle of the text.
- SeparateObjects: its own contract states only what survives. The rewrite is
  stated by ObjectGapAtShape, SeparateCopies, SeparateAtStart and
  SeparateObjectsAt.
- Normalise: its own contract states only that the later repairs change
  commas, whitespace and quotes. The stages are stated by the lemmas above,
  and NormaliseRepairsObject and NormaliseSeparatesObjects work two inputs
  through all of them.
- Attempts: its own contract states the call count and key preservation. Which
  reply is merged, and when the source texts are added, is stated by
  FirstDecisiveMerged and NoDecisiveLastDecides.
- BatchLoop: its own contract states the call count and key preservation. The
  per-batch outcome is stated through BatchLoopConcat, BatchLoopOne and the
  two Attempts lemmas.
- Reconcile.Step and Reconcile.ReadFragment: JSON values are compared
  structurally, so `1` and `true` are different keys. Python compares dict
  keys with `==`, where `1 == True`, so a reply that records
  both keeps one entry in the source and two in the model.
- Json.Field: `Get` reads the first entry for a key, while `json.loads` keeps
  the last of duplicate keys. The model assumes that the decoder yields
  objects with unique keys, where the two readings agree.
- ServiceTranslate.TranslateStrings: the wrapped re-raise of an error
  during batching is not modelled, since the modelled batching never raises.

## Findings

| source | as written | input that shows it | evidently intended | confidence | as-written member | corrected member |
|---|---|---|---|---|---|---|
| backend/app/services/github_service.py:28-39 | the URL is cut at `/tree/` only when no branch is passed | URL `o/r/tree/b` with branch `x` gives owner `tree` and repository `b` | owner `o`, repository `r`, branch `x` (RepoScan.FixedReadsUrlRepo) | not executed | RepoScan.ExplicitBranchMisparses | RepoScan.ParseRepoUrlFixed |

`RepoScan.ScanRepository` uses the corrected parser; `RepoScan.ScanRepositoryAsWritten` uses the parser as written.
