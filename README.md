# ddddocr_web captcha recogniser, modelled in Dafny

The user script `captcha.user.js` recognises captcha images in the browser.
Its `WebOCR` class does the work:

- `preprocessImage` scales the image to a height of 64 and turns it into a grayscale `float32` tensor.
- `classify` makes sure an ONNX session is loaded, runs it on that tensor and hands the output to `decodeOutput`.
- `decodeOutput` is a beam search in the style of Connectionist Temporal Classification (CTC). Its `CHARSET` table maps output classes to glyphs.

Around this core, the `CaptchaWrite` class has three helpers that are modelled here:

- the `sessionStorage` cache with expiry times;
- the attribute-based CSS selector builders;
- the base64 clean-up that `Identify` applies to an inline image before recognition.

Modules:

| file | module | models |
|---|---|---|
| `wrappers.dfy` | `Wrappers` | `Option` and `Result` |
| `charset.dfy` | `Charset` | the `CHARSET` table and `CHARSET[index] \|\| ''` |
| `stable_sort.dfy` | `StableSort` | the stable descending `Array.prototype.sort` and `slice(0, k)` |
| `decoder.dfy` | `Decoder` | `decodeOutput`: the specification functions, and the method with its nested loops |
| `decode_laws.dfy` | `DecodeLaws` | what the beam search guarantees |
| `preprocess.dfy` | `Preprocess` | the tensor layout of `preprocessImage` |
| `web_ocr.dfy` | `WebOcr` | `loadModel`, the wait loop and `classify` on the `WebOCR` class |
| `ttl_cache.dfy` | `TtlCache` | `setCapFoowwLocalStorage`, `getCapFoowwLocalStorage` and `delCapFoowwLocalStorage` |
| `js_string.dfy` | `JsString` | `indexOf`, `replace` with a string, `toLowerCase` and `trim` |
| `selectors.dfy` | `Selectors` | `getElementId`, `getDataV`, `getPlaceholder`, `getAlt`, `getSrc` and `getOnClick` |
| `identify.dfy` | `Payload` | the `"\n"` / `"%0D%0A"` removal loops and the payload check of `Identify` |

Scores are integers.
The script scores a class at a timestep by `Math.log(prob + 1e-12)`, which is strictly increasing in `prob`.
The decoder's input is therefore the matrix of these step scores: sorting by probability and sorting by step score give the same order.
A path's score is the sum of its step scores.
`Decoder.DecodeOutput` computes the expansion of each timestep with the method `Decoder.ExpandPaths`, which holds the two inner loops.

The output tensor is read the way typed arrays are sliced: row `t` is `data.slice(t * C, (t + 1) * C)`, clamped to the data.
No relation between the data length and the dimensions is assumed.

## Model

| member | source | states |
|---|---|---|
| Charset.Lookup | captcha.user.js:31-95 | defines the `CHARSET` table, one case per entry, and no glyph for any other index |
| Charset.Glyph | captcha.user.js:176 | `CHARSET[index] \|\| ''` is one character exactly when the index is in the table, and that character is the table's entry; otherwise it is empty |
| Charset.TableFacts | captcha.user.js:31-95 | the blank class 0 has no glyph; classes 1150 and 1151 both read `c`; every glyph in the table is a letter or a digit |
| StableSort.Insert | captcha.user.js:168 | inserting into the sorted prefix adds exactly one element |
| StableSort.InsertPermutes | captcha.user.js:168 | insertion adds exactly the new element to the multiset |
| StableSort.ConsKeepsOrder | captcha.user.js:168 | an element with a key at least that of every element can go in front of a descending sequence and keeps it descending |
| StableSort.InsertKeepsOrder | captcha.user.js:168 | insertion into a descending sequence keeps it descending |
| StableSort.SortDesc | captcha.user.js:168 | the sort keeps the length |
| StableSort.SortDescPermutes | captcha.user.js:168 | the sort returns a permutation of its input |
| StableSort.SortDescOrders | captcha.user.js:168 | the sort's output is in descending key order |
| StableSort.SortDescOrder | captcha.user.js:168 | the sort is a permutation of positions under which keys descend and equal keys keep their input order |
| StableSort.InsertKeepsTies | captcha.user.js:168 | inserting an element that came first keeps equal keys in their original order |
| StableSort.ConsKeepsTies | captcha.user.js:168 | an element ahead of every element of a key-then-position ordered sequence can be put in front of it and keeps the order |
| StableSort.BehindHead | captcha.user.js:168 | when the inserted element goes past the head, everything after the head still comes after it in the order |
| StableSort.SortDescIsStable | captcha.user.js:168 | elements with equal keys keep their input order, so the sort is stable |
| StableSort.Take | captcha.user.js:169 | `slice(0, k)` keeps the first `min(k, length)` elements, unchanged |
| StableSort.FirstMax | captcha.user.js:194 | the first position holding a largest key: no key is larger, and every earlier key is smaller |
| StableSort.HeadIsFirstMax | captcha.user.js:194-199 | the head of the stable descending sort is the first element with the largest key |
| Decoder.Slice | captcha.user.js:162 | a slice inside the data is the subsequence, and it is never longer than the data |
| Decoder.Offset | captcha.user.js:162 | defines where row `t` starts: after `t` rows of `numClasses` entries |
| Decoder.OffsetIsProduct | captcha.user.js:162 | the row offset is `t * numClasses` |
| Decoder.Row | captcha.user.js:162 | defines row `t` as `outputData.slice(t * numClasses, (t + 1) * numClasses)` |
| Decoder.Indexed | captcha.user.js:163-167 | pairing each probability with its index keeps the length |
| Decoder.IndexedAt | captcha.user.js:163-167 | entry `i` of the pairing is row entry `i` with index `i` |
| Decoder.Candidates | captcha.user.js:163-169 | defines the candidates of a row: the first `beamWidth` entries of the stable descending sort of the indexed row |
| Decoder.Extend | captcha.user.js:176-188 | defines one pushed path: the glyph is appended only for a class that is neither the blank nor `prev`, the step score is added, and `prev` becomes the class |
| Decoder.ExtendAll | captcha.user.js:171-189 | a path gets one extension per candidate, the `j`-th being the path extended by the `j`-th candidate |
| Decoder.Expand | captcha.user.js:159-190 | defines `nextPaths`: the extensions of every live path, path by path |
| Decoder.Prune | captcha.user.js:193-195 | defines the pruning: the first `beamWidth` of the stable descending sort by score |
| Decoder.Beam | captcha.user.js:152-196 | defines the beam after `t` timesteps, starting from the single empty path with score 0 and `prev` -1 |
| Decoder.Decode | captcha.user.js:146-200 | defines the answer: the text of the first path of the final beam, or `''` when the beam is empty |
| Decoder.ExtendAllPrefix | captcha.user.js:171-189 | the inner loop pushes the extensions in candidate order |
| Decoder.PushExtension | captcha.user.js:171-189 | one more push of the inner loop extends the pushed prefix of the extensions by the next candidate |
| Decoder.PushExtensions | captcha.user.js:171-189 | the loop over a path's candidates appends exactly that path's extensions, in candidate order, to `nextPaths` |
| Decoder.ExpandPrefix | captcha.user.js:161-190 | the loop over live paths appends each path's extensions in path order |
| Decoder.ExpandPaths | captcha.user.js:159-190 | the nested loops build `nextPaths` equal to the expansion of every live path by the candidates of the row |
| Decoder.DecodeOutput | captcha.user.js:146-200 | the method, with its loops over timesteps, returns the text of the specification `Decode` |
| DecodeLaws.Dedup | captcha.user.js:180 | merging repeats never lengthens the sequence, and it keeps the last class |
| DecodeLaws.RemoveBlanks | captcha.user.js:180 | dropping blanks never lengthens the sequence |
| DecodeLaws.Collapse | captcha.user.js:180 | defines the CTC collapse: merge repeated classes, then drop blanks |
| DecodeLaws.Render | captcha.user.js:176-181 | the glyphs of a class sequence are at most one character per class |
| DecodeLaws.RemoveBlanksSnoc | captcha.user.js:180 | appending a blank drops it; appending any other class keeps it |
| DecodeLaws.RenderSnoc | captcha.user.js:181 | appending a class appends its glyph |
| DecodeLaws.RepeatsMerge | captcha.user.js:180 | an immediate repeat of a class is merged into it |
| DecodeLaws.BlankSeparates | captcha.user.js:180 | a blank between two copies of a class keeps both copies |
| DecodeLaws.SingleCollapse | captcha.user.js:180 | a single class other than the blank collapses to itself |
| DecodeLaws.PairCollapse | captcha.user.js:180 | a class read twice in a row collapses as if read once |
| DecodeLaws.RepeatExample | captcha.user.js:180 | `[k]` and `[k, k, k]` both collapse to `[k]` |
| DecodeLaws.BlankExample | captcha.user.js:180 | `[k, 0, k]` collapses to `[k, k]` |
| DecodeLaws.RunExample | captcha.user.js:180 | classes 5461, 5461, 1204 collapse to 5461, 1204 |
| DecodeLaws.GlyphExample | captcha.user.js:31-95 | classes 5461, 1204 read `AB` |
| DecodeLaws.EmissionRule | captcha.user.js:176-188 | an extension appends the glyph exactly when the class is not the blank, differs from `prev` and is in the table; otherwise the text is unchanged; `prev` becomes the class, even for the blank; the score grows by the step score |
| DecodeLaws.Follow | captcha.user.js:176-188 | defines the path reached from the start path by extending it with a sequence of candidates, one per timestep |
| DecodeLaws.Classes | captcha.user.js:187 | the classes a path chose, one per timestep, in order |
| DecodeLaws.Sum | captcha.user.js:184-188 | defines the sum of the step scores of a sequence of candidates |
| DecodeLaws.ClassesSnoc | captcha.user.js:187 | one more candidate adds its class at the end |
| DecodeLaws.ClassesLast | captcha.user.js:187 | the last chosen class is that of the last candidate, or -1 before any |
| DecodeLaws.CollapseLast | captcha.user.js:180-181 | the last class adds nothing after the same class; otherwise it adds itself unless it is the blank |
| DecodeLaws.ExtendText | captcha.user.js:176-188 | a path whose text is the glyphs of the collapse of its classes and whose `prev` is the last class keeps that text after one more extension |
| DecodeLaws.TextSnoc | captcha.user.js:176-188 | following one more candidate keeps the text equal to the glyphs of the collapse of the classes |
| DecodeLaws.ScoreSnoc | captcha.user.js:184-188 | following one more candidate keeps the score the sum of the step scores and makes its class the `prev` |
| DecodeLaws.FollowMeaning | captcha.user.js:176-188 | a path's text is the glyphs of the CTC collapse of its classes; its score is the sum of their step scores; its `prev` is its last class, or -1 for the start path |
| DecodeLaws.SortedRowMembers | captcha.user.js:163-168 | the sorted row holds exactly the row's classes, each with its own probability |
| DecodeLaws.SortedRowOrder | captcha.user.js:163-168 | the sorted row is ordered by probability, with ties going to the lower class |
| DecodeLaws.CandidatesAreTopK | captcha.user.js:162-169 | a path is extended by the first `min(beamWidth, numClasses)` classes of the row: the most probable ones, with ties going to the lower index; every class left out comes after every class taken |
| DecodeLaws.ExtendAllMembers | captcha.user.js:171-189 | each pushed extension is the path extended by one of its candidates |
| DecodeLaws.ExpandMembers | captcha.user.js:161-190 | each entry of `nextPaths` is a live path extended by one of the row's candidates |
| DecodeLaws.BeamBounded | captcha.user.js:193-195 | after every timestep the beam holds at most `beamWidth` paths, best score first |
| DecodeLaws.PruneIsTopK | captcha.user.js:193-195 | pruning keeps the first `min(beamWidth, nextPaths.length)` entries of the stable descending order of `nextPaths` by score: each kept path is one of the expansions, and every dropped expansion scores less than every kept one or, scoring the same, was generated after it |
| DecodeLaws.ExpandSize | captcha.user.js:159-190 | `nextPaths` holds one extension per live path and candidate |
| DecodeLaws.CandidateCount | captcha.user.js:162-169 | a row offers `min(beamWidth, numClasses)` candidates |
| DecodeLaws.BeamSize | captcha.user.js:193-195 | after a timestep the beam holds exactly `min(beamWidth, paths.length * min(beamWidth, numClasses))` paths |
| DecodeLaws.DegenerateInputs | captcha.user.js:158-199 | no timesteps decode to `''`; beam width 0 empties the beam after the first timestep, so the result is `''` |
| DecodeLaws.FollowSnoc | captcha.user.js:184-188 | following one more candidate extends the path by it |
| DecodeLaws.ReadsSnoc | captcha.user.js:162-167 | reading a class of the next row extends a reading |
| DecodeLaws.CandidateOfRow | captcha.user.js:162-169 | a candidate is a class of the row with its own probability |
| DecodeLaws.PrunedIsExpansion | captcha.user.js:193-195 | pruning only keeps expansions |
| DecodeLaws.StepOrigin | captcha.user.js:158-195 | a path kept after a timestep is some live path extended by one of the row's candidates |
| DecodeLaws.BeamOrigin | captcha.user.js:152-196 | a path of the beam after `s + 1` timesteps is a path of the beam after `s` extended by a class of row `s` with its own score |
| DecodeLaws.ReadOneMore | captcha.user.js:162-188 | a reading of the first rows extended by a class of the next row is a reading one row longer, followed to the extended path |
| DecodeLaws.BeamPathReading | captcha.user.js:152-196 | every path in the beam after `t` timesteps is obtained by choosing one class from each of the first `t` rows |
| DecodeLaws.DecodeIsACollapse | captcha.user.js:146-200 | the decoded text is the CTC collapse of some choice of one class per timestep, so it has at most `sequenceLength` characters |
| DecodeLaws.DecodePicksFirstBestPath | captcha.user.js:193-199 | the text returned is that of the first expansion of the last timestep with the highest score, or `''` when there is none |
| DecodeLaws.OffsetGrows | captcha.user.js:162 | later rows start no earlier |
| DecodeLaws.RowIsWhole | captcha.user.js:162 | in a whole tensor every row has `numClasses` entries |
| DecodeLaws.GreedyPath | captcha.user.js:163-169 | the first arg-max class of each of the first `t` rows has at most `t` entries |
| DecodeLaws.TopOfRow | captcha.user.js:163-169 | at beam width 1 the only candidate is the first arg-max class of the row |
| DecodeLaws.WidthOneStep | captcha.user.js:158-195 | at beam width 1 a timestep extends the single path by the row's first arg-max class |
| DecodeLaws.GreedyStep | captcha.user.js:163-169 | in a whole tensor row `t - 1` has `numClasses` entries and the greedy path grows by its first arg-max class |
| DecodeLaws.GreedyPathIsWhole | captcha.user.js:163-169 | in a whole tensor the greedy path has one class per timestep |
| DecodeLaws.GreedyLink | captcha.user.js:158-195 | a single-path beam that follows a choice of classes, advanced at width 1, is the single path of that choice and the row's first arg-max class |
| DecodeLaws.GreedyBeamFirst | captcha.user.js:158-196 | after the first timestep at beam width 1 the beam is the single path of the first row's first arg-max class |
| DecodeLaws.GreedyBeamStep | captcha.user.js:158-196 | one more timestep at beam width 1 keeps the beam the single path of the greedy classes |
| DecodeLaws.GreedyBeam | captcha.user.js:158-196 | at beam width 1 the beam after `t` timesteps is a single path, the one that follows the greedy classes of the first `t` rows |
| DecodeLaws.GreedyAtWidthOne | captcha.user.js:146-200 | at beam width 1 the decoder is greedy: the text is the collapse of the first arg-max class of every timestep |
| DecodeLaws.ExtendAllHead | captcha.user.js:171-189 | the first extension pushed for a path is by its first candidate |
| DecodeLaws.ExpandHead | captcha.user.js:159-190 | the first entry of `nextPaths` is the first live path extended by the row's first candidate |
| DecodeLaws.ExpandNothing | captcha.user.js:159-190 | a row without candidates leaves `nextPaths` empty |
| DecodeLaws.LeadingCandidate | captcha.user.js:162-169 | at every `beamWidth >= 1` a row has candidates exactly when it is not empty, and the first candidate is the same as at width 1 |
| DecodeLaws.PruneKeepsLeader | captcha.user.js:193-195 | a list whose first entry has a largest score keeps that entry first after the stable sort and the slice |
| DecodeLaws.StepLeader | captcha.user.js:158-195 | a timestep from a best-first beam gives an empty beam exactly when the beam or the row is empty; otherwise its head is the old head extended by the row's first arg-max class, whatever `beamWidth >= 1` is |
| DecodeLaws.BeamDescending | captcha.user.js:152-196 | the beam is best-first after every timestep, the start included |
| DecodeLaws.WidthStep | captcha.user.js:158-195 | two best-first beams that are empty together and share their head stay so after one timestep at widths `k` and 1 |
| DecodeLaws.LeaderIsGreedy | captcha.user.js:152-196 | after every timestep the beam at any width `k >= 1` is empty exactly when the width-1 beam is, and both have the same head |
| DecodeLaws.DecodeIsGreedyAtAnyWidth | captcha.user.js:146-200 | `decodeOutput` returns the same text at every `beamWidth >= 1` as at width 1 |
| DecodeLaws.GreedyAtAnyWidth | captcha.user.js:146-200 | on a whole tensor the text at every `beamWidth >= 1`, the default 3 included, is the collapse of the first arg-max class of every timestep |
| DecodeLaws.TwoStepClasses | captcha.user.js:163-169 | two rows whose first arg-max classes are 5461 and 1204 give the greedy classes 5461, 1204 |
| DecodeLaws.DistinctPairCollapse | captcha.user.js:180 | two different classes, neither the blank, survive the collapse |
| DecodeLaws.TwoStepExample | captcha.user.js:146-200 | two timesteps whose first arg-max classes are those of `A` and `B` decode to `AB` at every `beamWidth >= 1` |
| Preprocess.TargetWidth | captcha.user.js:121-124 | the target width is the floor of `W * 64 / H` |
| Preprocess.Gray | captcha.user.js:139-140 | the grayscale of a pixel lies between 0 and 1 |
| Preprocess.Pixels | captcha.user.js:136-141 | one value per four canvas bytes |
| Preprocess.PixelsAt | captcha.user.js:136-141 | value `k` is the grayscale of bytes `4k`, `4k + 1` and `4k + 2` |
| Preprocess.PixelsAre | captcha.user.js:135-141 | a buffer holding the gray of every four canvas bytes is the pixels of the canvas |
| Preprocess.AlphaNeverRead | captcha.user.js:136-141 | canvases that differ only in alpha bytes give the same values |
| Preprocess.PixelsInRange | captcha.user.js:136-141 | every tensor value lies between 0 and 1 |
| Preprocess.Preprocessed | captcha.user.js:143 | defines the tensor: the pixels, with dims `[1, 1, 64, targetWidth]` |
| Preprocess.GrayBuffer | captcha.user.js:133-141 | the conversion loop fills a buffer of one entry per four canvas bytes with exactly the pixels: entry `k` is the gray of bytes `4k` to `4k + 2` |
| Preprocess.PreprocessImage | captcha.user.js:117-144 | a target width of 0 fails with `IndexSizeError`, as `getImageData` throws, and only then; otherwise the tensor is `Preprocessed`: dims `[1, 1, 64, targetWidth]`, `targetWidth * 64` entries, entry `k` the grayscale of bytes `4k` to `4k + 2` |
| WebOcr.Valid | captcha.user.js:101-115 | defines the invariant: a load in progress has not produced a session yet |
| WebOcr.Load | captcha.user.js:101-115 | `loadModel` does nothing when a session exists or a load is in flight; otherwise afterwards the flag is clear and the session is the created one, which stays `null` on failure; the invariant "loading implies no session" is kept |
| WebOcr.Apply | captcha.user.js:101-115 | one event of another task during a sleep (a load starting, or a load ending with a session or with none) keeps the invariant and never touches a loaded session |
| WebOcr.ApplyAll | captcha.user.js:101-115 | any sequence of such events during one sleep keeps the invariant and never touches a loaded session |
| WebOcr.Wait | captcha.user.js:208-213 | the wait loop, with the events of each sleep applied in order, polls at most 10 times, stops early only with a session, and keeps the invariant |
| WebOcr.NumSteps | captcha.user.js:148 | defines `sequenceLength` as `dims[0]` |
| WebOcr.NumClasses | captcha.user.js:149 | defines `numClasses` as `dims[2]` |
| WebOcr.Classified | captcha.user.js:202-229 | defines the answer of `classify`: a failed load of its own rejects; no session after the wait gives `""`; a target width of 0 rejects with `IndexSizeError`; a rejected `session.run` rejects with its error; otherwise the decoded output of the session run on the preprocessed image |
| WebOcr.WebOCR.constructor | captcha.user.js:96-97 | a new recogniser has no session and is not loading |
| WebOcr.WebOCR.LoadModel | captcha.user.js:101-115 | the fields after `loadModel` are those `Load` gives; it throws exactly when it starts a load and session creation fails |
| WebOcr.WebOCR.WaitForSession | captcha.user.js:208-213 | the loop's final fields and number of polls are those `Wait` gives |
| WebOcr.WebOCR.Classify | captcha.user.js:202-229 | `classify` answers `Classified`: a failed load of its own rejects, no session after the wait gives `""`, a canvas of width 0 rejects with `IndexSizeError`, a rejected `session.run` rejects with its error, and otherwise the result is the decoded output; the fields end as the load and the wait leave them, and the invariant is kept |
| WebOcr.LoadedSessionIsKept | captcha.user.js:203-209 | with a session already loaded, `classify` neither loads nor polls |
| WebOcr.QuietWaitGivesUp | captcha.user.js:208-217 | while nothing happens in any sleep, the wait makes exactly 10 polls and ends with no session, so the answer is `""` |
| WebOcr.WaitSeesLoad | captcha.user.js:208-212 | when earlier sleeps are quiet and the events of sleep `j` produce a session, the wait ends with that state after `j + 1` polls |
| WebOcr.QuickLoadIsSeen | captcha.user.js:208-212 | a load that starts and succeeds within sleep `j` is seen after `j + 1` polls |
| WebOcr.FirstClassify | captcha.user.js:202-229 | the first `classify` on a new recogniser, when creation succeeds and the target width is not 0, answers the decoded output of the session, or the error a rejected `session.run` gives, without polling |
| WebOcr.NarrowImageRejects | captcha.user.js:124-131 | with a session loaded, an image narrower than its height / 64 makes `classify` reject with `IndexSizeError`, because the canvas has width 0 |
| WebOcr.FailedLoadRetries | captcha.user.js:101-115 | a failed load leaves the recogniser as it was, so the next call tries again |
| TtlCache.TimeValue | captcha.user.js:962 | `new Date(ttl).getTime()` is `ttl` when a `Date` can hold it and otherwise `NaN`, which is stored as `null` |
| TtlCache.Expired | captcha.user.js:970 | defines an expired entry: its expiry is not `null` and is before now |
| TtlCache.Stored | captcha.user.js:959-965 | storing puts the value under the key and leaves every other key alone |
| TtlCache.Read | captcha.user.js:967-977 | the answer is the stored value exactly when the key is present and its expiry is `null` or not before now |
| TtlCache.AfterRead | captcha.user.js:967-977 | reading removes the key exactly when its entry has expired |
| TtlCache.SessionCache.constructor | captcha.user.js:959-981 | the storage starts empty |
| TtlCache.SessionCache.Set | captcha.user.js:959-965 | `setCapFoowwLocalStorage` overwrites the entry for the key |
| TtlCache.SessionCache.Get | captcha.user.js:967-977 | `getCapFoowwLocalStorage` answers `Read` and leaves the storage as `AfterRead` |
| TtlCache.SessionCache.Del | captcha.user.js:979-981 | `delCapFoowwLocalStorage` removes the key |
| TtlCache.SetThenGet | captcha.user.js:959-977 | a stored value is read back until its expiry has passed; an expiry a `Date` cannot hold never passes |
| TtlCache.OtherKeysUntouched | captcha.user.js:959-977 | storing or reading a key leaves reads of other keys unchanged |
| TtlCache.ExpiredIsGone | captcha.user.js:967-977 | reading an expired entry answers `null` and removes it, so later reads answer `null` |
| TtlCache.ReadIsIdempotent | captcha.user.js:967-977 | reading twice at the same time is the same as reading once |
| TtlCache.LockHolds | captcha.user.js:578-582 | the cross-origin lock set at `now` is still readable at any time up to `now + 9999999 * 9999999`, so the same source is recognised only once |
| JsString.IndexFrom | captcha.user.js:568 | the search from a position finds the first occurrence at or after it, or -1 |
| JsString.IndexOf | captcha.user.js:568 | `indexOf` is -1 exactly when there is no occurrence; otherwise it is the first occurrence |
| JsString.RemoveFirst | captcha.user.js:569 | `replace(pat, "")` changes nothing without an occurrence, and otherwise removes exactly `pat`'s length |
| JsString.Lower | captcha.user.js:882 | `toLowerCase` maps every character by itself and keeps the length |
| JsString.IsSpace | captcha.user.js:612 | defines the characters `trim` removes: the WhiteSpace and LineTerminator characters of ECMAScript |
| JsString.TrimStart | captcha.user.js:612 | leading white space is removed, and only that |
| JsString.TrimEnd | captcha.user.js:612 | trailing white space is removed, and only that |
| JsString.Trim | captcha.user.js:612 | `trim` never lengthens the string, and its result has no white space at either end |
| JsString.TrimIsSlice | captcha.user.js:612 | `trim` returns a slice of the string with only white space before it and only white space after it |
| Selectors.FirstAttr | captcha.user.js:866-871 | the scan finds the first attribute that matches, or reports that none does |
| Selectors.CutAfter | captcha.user.js:915-918 | defines the cut: `value.substring(0, value.indexOf(mark) + 1)` when the mark occurs, the value otherwise |
| Selectors.GetDataV | captcha.user.js:861-873 | the name of the first attribute containing `data-v-`; `null` exactly when the attributes are `null` or none matches |
| Selectors.GetPlaceholder | captcha.user.js:876-888 | `name='value'` of the first non-empty `placeholder` attribute, in any letter case; `null` exactly when there is none |
| Selectors.GetAlt | captcha.user.js:891-903 | `name='value'` of the first `alt` attribute, in any letter case; `null` exactly when there is none |
| Selectors.GetSrc | captcha.user.js:906-923 | `name^='value'` of the first `src` attribute not starting with `data:image`, its value cut after the first `?`; `null` exactly when there is none |
| Selectors.GetOnClick | captcha.user.js:939-956 | `name^='value'` of the first `onclick` attribute, its value cut after the first `(`; `null` exactly when there is none |
| Selectors.CutAfterKeepsPrefix | captcha.user.js:915-918 | the cut value is a prefix of the value: the whole value without the mark, else ending at the first occurrence of the mark |
| Selectors.GetElementId | captcha.user.js:823-833 | an id is trusted exactly when it is non-empty, does not contain `exifviewer-img-` and is shorter than 40 |
| Selectors.FirstAttrPrefers | captcha.user.js:866-871 | a matching attribute earlier in the list always wins over anything after it |
| Payload.Stripped | captcha.user.js:568-574 | defines the repeated removal of the first occurrence until none is left |
| Payload.RemoveAll | captcha.user.js:568-574 | the `while (indexOf) replace` loop ends with the repeated removal `Stripped` |
| Payload.StrippedIsClean | captcha.user.js:568-574 | after the loop no occurrence is left, and the string is no longer than before |
| Payload.Without | captcha.user.js:568-570 | dropping every copy of a character leaves none |
| Payload.WithoutAppend | captcha.user.js:568-570 | dropping a character distributes over concatenation |
| Payload.WithoutNone | captcha.user.js:568-570 | a string without the character is unchanged |
| Payload.WithoutSkips | captcha.user.js:568-570 | one copy of the character more or less makes no difference once every copy is dropped |
| Payload.OccursChar | captcha.user.js:568 | a one-character pattern occurs exactly where that character is |
| Payload.RemoveFirstCharKeepsWithout | captcha.user.js:569 | removing the first copy does not change what is left once every copy is dropped |
| Payload.StrippedCharIsWithout | captcha.user.js:568-570 | the `"\n"` loop removes every line feed and nothing else |
| Payload.IsLineTerminator | captcha.user.js:612 | defines the characters `.` does not match: line feed, carriage return, U+2028 and U+2029 |
| Payload.LineEnd | captcha.user.js:612 | the end of the current line: the next line terminator or the end of the string |
| Payload.LastComma | captcha.user.js:612 | the last comma of a stretch, or none |
| Payload.SameLine | captcha.user.js:612 | positions on one line share that line's end |
| Payload.IsCommaMatch | captcha.user.js:612 | defines the match of `/.*,/`: it starts at the start of the first line that holds a comma, stays on that line, and ends just after that line's last comma |
| Payload.CommaMatch | captcha.user.js:612 | `/.*,/` matches exactly when the string holds a comma, and the match is the one `IsCommaMatch` describes, on strings with several lines too |
| Payload.StripThroughComma | captcha.user.js:612 | `replace(/.*,/, "")` never lengthens the string, and changes nothing without a comma |
| Payload.CutMeaning | captcha.user.js:612 | with a comma, the cut removes exactly the match of `/.*,/` and keeps what is before and after it |
| Payload.NoCommaUnchanged | captcha.user.js:612 | without a comma the cut changes nothing |
| Payload.SingleLineCut | captcha.user.js:612 | on one line the cut removes everything up to and including the last comma, so no comma remains |
| Payload.PastDate | captcha.user.js:612-615 | the payload is rejected exactly when the trimmed cut has fewer than 255 characters; an accepted payload is the trimmed cut |
| Payload.InlinePayload | captcha.user.js:565-615 | an inline `data:image/` source gives the payload of the source with every `"\n"` and then every `"%0D%0A"` removed |
| Payload.PastDateKeepsAbsent | captcha.user.js:612 | the cut and the trim add no character |
| Payload.StrippedKeepsAbsent | captcha.user.js:568-574 | the removal loops add no character |
| Payload.StripThroughCommaKeepsAbsent | captcha.user.js:612 | the comma cut adds no character |
| Payload.InlinePayloadHasNoLineFeed | captcha.user.js:565-615 | no line feed survives the clean-up of an inline image |

## Left out

- `opt.py` is not part of this model. It quantises the model file with onnxruntime and has no logic of its own.
- `WebOcr.WebOCR.LoadModel`: `ort.InferenceSession.create` is a foreign call. Its outcome is an input, with `None` standing for a thrown error. The error value itself is not modelled.
- `WebOcr.WebOCR.Classify`: `session.run` is a foreign call, modelled as a function parameter that returns the output or the error it rejects with. Its output already holds integer step scores in place of probabilities.
- `WebOcr.WebOCR.Classify`: the first output of `Object.values(results)` is taken to be that output.
- `WebOcr.WebOCR.Classify` requires a canvas byte count of `4 * targetWidth * 64` and `H > 0`, because `drawImage` and `getImageData` are browser rendering and are not modelled. With `H = 0` the script computes `64 / 0 = Infinity`, and no width results.
- `WebOcr.Wait`: the 500 ms `setTimeout` sleeps are counted, not timed. What other tasks do meanwhile is an input: a sequence of events for each sleep. Real concurrency and time are not modelled.
- `Preprocess.TargetWidth` is the exact integer floor of `W * 64 / H`. The script computes `Math.floor(W * (64 / H))` in floating point. In rounding edge cases that can differ by one.
- `Preprocess.Gray` is computed in exact real arithmetic. The script uses IEEE doubles and stores `float32` values, so their rounding is not modelled.
- `Preprocess.PreprocessImage` takes the canvas bytes as input. Scaling the image onto the canvas is not modelled.
- `Decoder.DecodeOutput` takes integer step scores. `Math.log(prob + 1e-12)`, floating-point sums and any rounding ties are not modelled.
- `Decoder.DecodeOutput` skips the class-probability sort and uses the equal order on step scores. Two different probabilities that round to the same logarithm are not modelled.
- `DecodeLaws.GreedyPath` skips rows that hold no class, which happens only when the data is shorter than `sequenceLength * numClasses` or when `numClasses` is 0. `DecodeLaws.GreedyAtWidthOne` requires whole rows.
- `JsString.Lower` lowers ASCII letters only. `toLowerCase` on other scripts is not modelled.
- `JsString` counts characters, not UTF-16 code units. The two differ only for characters outside the Basic Multilingual Plane.
- `TtlCache.TimeValue` takes integer times. A fractional `ttl_ms` is truncated by `Date` and is not modelled.
- `TtlCache`: values are strings. General JSON values and malformed storage contents are not modelled.
- `Payload.SingleLineCut` spells out "no comma is left" for a single line only. On several lines a comma can remain on a later line; there the cut is characterised by `Payload.CommaMatch` and `Payload.CutMeaning`.
- `Identify` outside the inline branch is not modelled:
  - the background-image lookup;
  - the cross-origin download through `GM_xmlhttpRequest` and `FileReader`, except for the lock in `TtlCache.LockHolds`;
  - the canvas conversion `toDataURL`.
- `Climb` and `getElementName` query the live document, so they are left out.
- The rest of `CaptchaWrite` is left out:
  - DOM discovery and CSS paths;
  - hints and sounds;
  - event simulation;
  - settings persistence;
  - rule lookup;
  - the hotkey handler.
