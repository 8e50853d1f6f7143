# Secret Santa assignment engine in Dafny

This project models the assignment engine of a Secret Santa web app. The engine is spread across three serverless handlers:

- **generate-assignments.js** parses the submissions CSV. It then locks every pair whose gift is already bought, refusing a receiver locked twice. Finally it re-draws everyone else and returns the locked pairs followed by the drawn pairs.
- **run-draw.js** does the same draw from JSON submissions, without the conflict check. It then queues one email per assignment whose giver has an address.
- **send-emails.js** checks the request's `assignments` array. It parses the submissions CSV into a giver-to-email map and queues one email per assignment whose giver has an address.

The modules follow the code's structure:

| module | models |
|---|---|
| `Text` | `trim`, `split` on one character, `replace(/"/g, '')` |
| `Csv` | `parseCSV` |
| `Shuffle` | the in-place Fisher–Yates `shuffle` |
| `Locking` | the locking loop (`processAssignment`) and the free pools (`filter`) |
| `Matcher` | the bounded 100-attempt re-draw, with its swap repair |
| `Draw` | the composition: pools, re-draw, `[...lockedPairs, ...newAssignments]` |
| `Emails` | `emailMap`, the email lookup and the email loop |
| `GenerateAssignments`, `RunDraw`, `SendEmails` | the bodies of the three handlers |

Each loop of the source is a Dafny method with loop invariants. The method is proved equal to a specification function, and lemmas state what that function guarantees.

Conventions:

- **Randomness.** `Math.floor(Math.random() * (i + 1))` is an index oracle: a sequence `draws` with `draws[i] <= i`. The re-draw receives one pair of such sequences per attempt. `Shuffle.EveryPermutationReachable` proves this rules out no outcome of the shuffle.
- **`undefined`.** A JavaScript `undefined` is `Option.None`. This covers a missing record field, a missing map entry, and a read of `receivers[i]` past the end of a shorter receiver pool.
- **Receiver array.** The matcher's receiver array is modelled padded with `None` to the givers' length. This reproduces exactly the JavaScript swap that writes one past the end of a shorter array.
- **Errors.** A thrown error is `Result.Err`. `Common.Message` holds each error's text.

The code filters the two sides separately: with A locked to B, the free givers are [B, C, D] and the free receivers are [A, C, D].

## Model

| member | source | states |
|---|---|---|
| Common.Message | netlify/functions/generate-assignments.js:55 | the texts thrown at generate-assignments.js:55, :106 and send-emails.js:40 |
| Text.TrimStart | netlify/functions/generate-assignments.js:6 | the result is the suffix left after removing a maximal run of leading JavaScript whitespace |
| Text.TrimEnd | netlify/functions/generate-assignments.js:6 | the result is the prefix left after removing a maximal run of trailing JavaScript whitespace |
| Text.TrimIgnoresTrailingWhitespace | netlify/functions/generate-assignments.js:6 | a whitespace character added at the end does not change `trim()` |
| Text.Split | netlify/functions/generate-assignments.js:6 | `split` yields at least one piece and no piece contains the separator |
| Text.SplitJoin | netlify/functions/generate-assignments.js:6 | splitting loses nothing: joining the pieces with the separator gives the text back |
| Text.SplitCount | netlify/functions/generate-assignments.js:6 | there is one piece more than there are separators |
| Text.StripQuotes | netlify/functions/generate-assignments.js:7 | the result has no `"`, is shorter by exactly the number of `"` in the text, and holds the same other characters |
| Text.StripQuotesAppend | netlify/functions/generate-assignments.js:7 | removal works piece by piece: it distributes over concatenation, so the other characters keep their order and their number |
| Text.StripQuotesKeepsPlainText | netlify/functions/generate-assignments.js:13 | text without quotes is left unchanged |
| Text.StripQuotesIdempotent | netlify/functions/generate-assignments.js:7 | removing quotes twice equals removing them once |
| Csv.BuildRecord | netlify/functions/generate-assignments.js:12-14 | the object's keys are exactly the headers and no value contains `"` |
| Csv.ParseLine | netlify/functions/generate-assignments.js:10-15 | the inner loop builds the row's record, or fails at the first column with no field |
| Csv.ParseCsv | netlify/functions/generate-assignments.js:5-18 | the nested loops compute the specification function (the same copy is at send-emails.js:6-19) |
| Csv.ExtraFieldsIgnored | netlify/functions/generate-assignments.js:12-14 | fields after the last header's column do not change the record |
| Csv.RecordLookup | netlify/functions/generate-assignments.js:12-14 | a header's value is the quote-free field of the last column with that header |
| Csv.ParseRowsSucceedIff | netlify/functions/generate-assignments.js:9-16 | parsing succeeds if and only if no data line has fewer fields than there are headers |
| Csv.ParseRowsRecords | netlify/functions/generate-assignments.js:9-16 | on success there is one record per data line, built from that line's fields, in order |
| Csv.ParseRowsFirstError | netlify/functions/generate-assignments.js:13 | on failure the error names the first short line and its number of fields |
| Csv.ErrorPersists | netlify/functions/generate-assignments.js:9-16 | once a line fails, later lines do not change the outcome |
| Csv.ParseCsvShape | netlify/functions/generate-assignments.js:6-16 | there is one record per newline of the trimmed text; each record has exactly the header keys and no quotes |
| Csv.TrailingNewlineAddsNoRecord | netlify/functions/generate-assignments.js:6 | a trailing newline changes nothing |
| Shuffle.Swap | netlify/functions/generate-assignments.js:24 | positions i and j are exchanged and every other position is kept |
| Shuffle.SwapPermutes | netlify/functions/generate-assignments.js:24 | a swap keeps the multiset of elements |
| Shuffle.ShuffleDownPermutes | netlify/functions/generate-assignments.js:22-25 | the loop's steps keep the multiset of elements |
| Shuffle.Shuffled | netlify/functions/generate-assignments.js:21-27 | the shuffle is a permutation and leaves arrays of length 0 or 1 unchanged |
| Shuffle.Shuffle | netlify/functions/run-draw.js:15-21 | the in-place loop leaves the array equal to the specification's result |
| Shuffle.ShuffleDownReadsPrefix | netlify/functions/generate-assignments.js:22-25 | step i reads only the draws for positions up to i |
| Shuffle.ReachDown | netlify/functions/generate-assignments.js:22-25 | for any rearrangement of the first i+1 positions there are draws that produce it |
| Shuffle.EveryPermutationReachable | netlify/functions/generate-assignments.js:21-27 | every permutation of the array is the outcome of some draws |
| Locking.Declarations | netlify/functions/generate-assignments.js:64-65 | each submission contributes two declarations |
| Locking.DeclarationsAt | netlify/functions/generate-assignments.js:64-65 | submission k's receiver 1 comes at position 2k and its receiver 2 at 2k+1 |
| Locking.Lock | netlify/functions/generate-assignments.js:44-66 | the loop over submissions and their two `processAssignment` calls computes the locking specification; the conflict check is on here and off for run-draw.js:47-74 |
| Locking.ErrorPersists | netlify/functions/generate-assignments.js:54-55 | once a conflict is thrown, later declarations do not change the outcome |
| Locking.LockAllCharacterized | netlify/functions/generate-assignments.js:48-66 | with the check on, locking throws exactly when two eligible declarations name the same receiver, even with the same giver; otherwise the locked pairs are the eligible declarations in order and the two sets hold their givers and receivers |
| Locking.LockingWithoutCheckNeverFails | netlify/functions/run-draw.js:52-74 | without the check, locking never fails and locks every eligible declaration, so a receiver can be locked twice |
| Locking.Eligible | netlify/functions/generate-assignments.js:53 | every locked pair has both names on the list and a defined receiver |
| Locking.EligibleMembers | netlify/functions/generate-assignments.js:51-53 | a declaration is locked if and only if its receiver is non-empty, its flag is exactly `'true'` and both names are on the list; others are skipped silently |
| Locking.WithoutMembers | netlify/functions/generate-assignments.js:69-70 | a name is in a free pool exactly when it is a participant and not locked on that side |
| Locking.WithoutAppend | netlify/functions/generate-assignments.js:69-70 | the pools keep the participant list's order |
| Locking.WithoutDistinct | netlify/functions/generate-assignments.js:69-70 | a list without repeats gives pools without repeats |
| Locking.WithoutLength | netlify/functions/generate-assignments.js:69-70 | with unique participants, a pool is the list's length minus the number of locked names on that side |
| Locking.WithoutIgnoresAbsent | netlify/functions/generate-assignments.js:69-70 | a locked name that is not on the list does not affect the pool |
| Locking.WithoutShorter | netlify/functions/generate-assignments.js:69-70 | a pool is never longer than the participant list |
| Locking.WithoutCount | netlify/functions/generate-assignments.js:69-70 | a pool drops every occurrence of a locked name and keeps every other one |
| Matcher.Attempt | netlify/functions/generate-assignments.js:79-102 | one attempt (shuffle copies, walk, swap in place, push) computes the attempt specification |
| Matcher.Match | netlify/functions/generate-assignments.js:73-103 | the `while (!success && attempts < 100)` loop computes the retry specification, including the attempt count |
| Matcher.WalkGivers | netlify/functions/generate-assignments.js:84-97 | the walk pushes one pair per giver, in the shuffled givers' order |
| Matcher.WalkReceivers | netlify/functions/generate-assignments.js:84-97 | the receivers pushed are a rearrangement of the receiver array |
| Matcher.WalkNoSelfPairs | netlify/functions/generate-assignments.js:88-95 | when no receiver repeats, the swap repair never pushes a self-pair |
| Matcher.SwapCannotSelfPairNext | netlify/functions/generate-assignments.js:93-94 | with unique givers, the swap at i cannot create a self-pair at i+1 |
| Matcher.AttemptGivers | netlify/functions/generate-assignments.js:79-97 | a successful attempt pairs every free giver exactly once |
| Matcher.AttemptNoSelfPairs | netlify/functions/generate-assignments.js:84-97 | with unique free receivers, a successful attempt has no self-pair |
| Matcher.AttemptReceivers | netlify/functions/generate-assignments.js:84-97 | with equal-size pools, the receivers are a permutation of the free receivers |
| Matcher.AttemptShortPool | netlify/functions/generate-assignments.js:86 | with a shorter receiver pool, some giver's receiver is `undefined` |
| Matcher.SoleSelfPairAlwaysFails | netlify/functions/generate-assignments.js:88-91 | when the only free giver is the only free receiver, every attempt is abandoned |
| Matcher.EmptyPoolsSucceedAtOnce | netlify/functions/generate-assignments.js:77-102 | empty pools succeed at the first attempt with no pairs |
| Matcher.RetryOutcome | netlify/functions/generate-assignments.js:77-103 | the loop stops at the first successful attempt and returns its pairs; otherwise it stops after the last attempt with no pairs |
| Matcher.MatchOutcomeBounds | netlify/functions/generate-assignments.js:77-103 | between 1 and 100 attempts; on success every earlier attempt failed; on failure all 100 failed and there are no new pairs |
| Matcher.SoleSelfPairExhaustsAttempts | netlify/functions/generate-assignments.js:77-107 | a lone giver who is also the lone receiver exhausts all 100 attempts |
| Draw.GiverSetSize | netlify/functions/generate-assignments.js:58 | the locked-givers set has one name per pair exactly when no giver is locked twice |
| Draw.ReceiverSetSize | netlify/functions/generate-assignments.js:59 | the locked-receivers set has one name per pair exactly when no receiver is locked twice |
| Draw.SplitByExclusion | netlify/functions/generate-assignments.js:69-70 | the locked names plus the filtered pool make up the participant list |
| Draw.PoolSizes | netlify/functions/generate-assignments.js:69-70 | pool lengths are the list length minus the locked names on each side |
| Draw.RedrawAttempt | netlify/functions/generate-assignments.js:77-103 | a successful re-draw's pairs come from one successful attempt |
| Draw.AllGiveOnce | netlify/functions/generate-assignments.js:110 | locked givers followed by the drawn givers cover every participant once |
| Draw.AllReceiveOnce | netlify/functions/generate-assignments.js:110 | locked receivers followed by the drawn receivers cover every participant once |
| Draw.UndefinedKept | netlify/functions/generate-assignments.js:110 | an `undefined` receiver among the drawn pairs stays in the final list |
| Draw.PerfectAssignment | netlify/functions/generate-assignments.js:69-110 | with unique names and nobody locked twice, a successful draw makes everyone give once and receive once, with no drawn self-pair |
| Draw.DoubleLockedGiverLeavesReceiverUndefined | netlify/functions/generate-assignments.js:64-96 | a giver locked to two receivers leaves some drawn giver with an `undefined` receiver |
| Emails.BuildEmailMap | netlify/functions/send-emails.js:47-50 | the `forEach` computes the map specification |
| Emails.EmailMapKeys | netlify/functions/run-draw.js:52-54 | every submission's name is a key, even a non-participant's, and there are no other keys |
| Emails.EmailMapLastWins | netlify/functions/send-emails.js:47-50 | a name maps to the email of its last submission |
| Emails.QueueEmails | netlify/functions/send-emails.js:56-76 | the email loop computes the queue specification |
| Emails.QueueAppend | netlify/functions/send-emails.js:56-76 | emails follow the assignments' order |
| Emails.QueueMembers | netlify/functions/send-emails.js:56-76 | an email is queued exactly for each assignment whose giver has a truthy address, and is sent to that address |
| Emails.QueueCount | netlify/functions/send-emails.js:56-84 | the count is at most the number of assignments, and equal exactly when every giver has a truthy address |
| Emails.FirstEmailFinds | netlify/functions/run-draw.js:126 | `find` returns the email of the first submission with that name |
| Emails.FirstEmailAbsent | netlify/functions/run-draw.js:126 | `find` gives `undefined` when no submission has the name |
| Emails.DrawEmailFallsBackToFirst | netlify/functions/run-draw.js:126 | when a giver's last submission has no email, the first submission's email is used |
| GenerateAssignments.Handle | netlify/functions/generate-assignments.js:41-110 | the handler's body computes `Run` |
| GenerateAssignments.ExtraClauseRedundant | netlify/functions/generate-assignments.js:105 | `newAssignments.length !== availableGivers.length` holds whenever `!success`, so the clause adds nothing |
| GenerateAssignments.RunOutcome | netlify/functions/generate-assignments.js:41-110 | the result is a parse error, a Conflict if two eligible declarations share a receiver, a failed re-draw, or else the eligible pairs followed by the drawn pairs |
| GenerateAssignments.RunValue | netlify/functions/generate-assignments.js:105-110 | a successful run returns the locked pairs followed by the pairs of a successful re-draw, and the locked receivers are distinct |
| GenerateAssignments.EligibleWellLocked | netlify/functions/generate-assignments.js:53 | locked pairs have both names on the list and a defined receiver |
| GenerateAssignments.RunIsPerfect | netlify/functions/generate-assignments.js:41-110 | with unique participants and no double-locked giver, the output starts with the locked pairs, everyone gives and receives exactly once, and no drawn pair is a self-pair |
| GenerateAssignments.DoubleLockedGiverLeavesUndefined | netlify/functions/generate-assignments.js:64-96 | a giver who bought both gifts makes some output pair have an `undefined` receiver |
| RunDraw.Handle | netlify/functions/run-draw.js:43-157 | the handler's body computes `Run` |
| RunDraw.RunOutcome | netlify/functions/run-draw.js:52-157 | fails exactly when the re-draw fails; otherwise returns the eligible pairs then the drawn pairs, with at most one email per assignment |
| RunDraw.DoubleReceiverKept | netlify/functions/run-draw.js:57-73 | two givers who bought for the same receiver leave that receiver twice in the output |
| RunDraw.EmailsMatchAssignments | netlify/functions/run-draw.js:124-149 | an email is queued exactly for each final pair whose giver's address, found as the code finds it, is truthy |
| SendEmails.Handle | netlify/functions/send-emails.js:38-84 | the handler's body computes `Run` |
| SendEmails.InvalidPayloadFirst | netlify/functions/send-emails.js:38-45 | "Invalid or missing assignments payload." is reported if and only if `assignments` is not an array |
| SendEmails.QueuedExactly | netlify/functions/send-emails.js:56-84 | at most one email per assignment, queued exactly for givers whose mapped email is truthy |
| SendEmails.LastRowAddress | netlify/functions/send-emails.js:47-58 | a giver's address comes from the last CSV row with their name |
| SendEmails.UnknownGiverSkipped | netlify/functions/send-emails.js:58-60 | a giver no CSV row names gets no email |

## Left out

- HTTP method checks, environment-variable checks, status codes and JSON response bodies are handler plumbing and are not modelled. The counts in the success messages are the lengths of the modelled results.
- File reads and `JSON.parse` are I/O. The participant list, the CSV text, run-draw.js's parsed submissions and the request's `assignments` are inputs. A malformed JSON file or body is not modelled.
- The Mailgun client, `node-fetch`, `Promise.all` and the email templates are network and foreign code. An email is modelled only as its recipient and the giver and receiver it names. netlify/functions/test-email.js is not part of this model.
- `Math.random` is floating point. The model takes index draws and makes no claim about uniformity.
- `console.warn` and `console.error` are logging and are left out.
- Emails.Lookup: JavaScript object prototype keys such as `constructor` are not modelled. A name never written reads as `undefined`.
- run-draw.js submissions whose JSON values are not strings are not modelled. Submissions are string-valued records, the same as the CSV's.
- send-emails.js assignment entries that are `null`, and givers that are neither strings nor `undefined`, are not modelled. Each entry is a giver and a receiver, each a string or `undefined`.
- Participants are assumed to be strings, as the rest of the code assumes.
- RunDraw.Handle: run-draw.js fills `emailMap` inside the locking `forEach`. The model fills it in a separate loop first. The two orders agree because locking without the conflict check never throws.
- Shuffle.Shuffle: `shuffle` also returns its argument. The model keeps only the in-place update, which the callers see through the same array.
- Common.Message: the text for a short CSV row is the engine's `TypeError` message, which is not part of the source. The model keeps the line and column where the read fails.
