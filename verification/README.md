# Verified models of the meeting and agent services

These Dafny modules model the parts of the repository whose behaviour spans loops, tables or many clients, and prove
what they promise. Imperative code is modelled as methods and classes, each proved equal to a specification function;
the theorems are about those functions.

| component | modules |
|---|---|
| Summary-first materialisation of a meeting (Python) | `Words`, `ChapterBoundary`, `ChapterBuilder`, `ChapterStability`, `ChapterCoverage`, `StateRecords`, `RecordDedupe`, `DedupePartition`, `DedupeComponents`, `Materializer`, `Promotion`, `MentionOrder`, `OpenQuestions` |
| Task-plan executor (TypeScript) | `TaskExecutor`, `ExecutorLaws`, `PlanRefusals`, `PlanFixpoint` |
| SQL migration firewall (TypeScript) | `MigrationLexer`, `MigrationFirewall`, `MigrationCase`, `MigrationEditing` |
| Idempotent command ledger (TypeScript) | `KeyOrder`, `CanonicalJson`, `JsonText`, `CommandLedger` |
| Audio recorder and WAV writer (JavaScript) | `Bytes`, `WavWriter`, `Recorder`, `RecorderRegisters` |
| Token codec, passwords, invitations (Python) | `Base64Url`, `AccessToken`, `Invitations`, `InvitationAnswers` |
| Stable sort with first match, letters up to case, and options | `Sorting`, `LetterCase`, `Options` |

Check everything with `dafny verify dfyconfig.toml`.

## How the sources are represented

- **Meetings.** Timestamps are real numbers. The nominal chapter length `C` is a parameter. A chapter is its index, its
  window, the source of its boundary and the segments it renders; its title, summary and extracted texts are functions
  of those. Extraction is an arbitrary function of the ordered window segments. A text hash is an abstract key, and a
  generated id is the triple of chapter, kind and key that the original concatenates.
- **Executor.** The clock, cancellation and each tool call are oracles indexed by turn and attempt; an attempt answers
  with a result or an error message, and timeout and cancellation are told apart by that message as in the source.
- **Firewall.** A source is a sequence of code points and offsets count code points. The specification is a lexing
  relation that says which text may be a comment, literal, dollar quote, word or other character, and a filter over it.
- **Ledger, invitations.** A run is any interleaving of atomic database steps of any number of clients. A transaction
  is one step that takes effect completely or not at all, under the primary keys, unique indexes, foreign keys and
  checks of the schema. In `Invitations` each request is one check, whose result the client keeps, and later a separate
  transaction; any further step of the client replaces what it had in progress. The source looks up the membership, the
  user and the invitation on a connection each. One check is enough: the random token is drawn before the request that
  carries it, no user loses an organization, invitations only leave the pending status, and time goes on, so lookups
  that let a caller in do so too when made together at the time of the first (`LookupsAreOneCheck`).
- **JSON.** Object keys are sequences of 16-bit code units. Objects enumerate array-index keys first in numeric order,
  then the other keys in insertion order, as JavaScript does; the serialised text is modelled character by character
  and read back by a reader of its own (RFC 8259, sections 3 to 7, without white space between tokens).
- **Recorder.** Every synchronous callback is one step of an `AudioRecorder` object. Samples are reals. Of the audio
  graphs the state keeps whether a ref holds a live worklet, and how many live worklets a later start has overwritten in
  that ref: these go on delivering, and nothing detaches them. The ghost history (accepted samples, runs flushed or
  discarded, deliveries) covers all sessions; every reset begins a session.
- **WAV.** The layout is the PCM form of RIFF/WAVE in the section "Waveform Audio File Format (WAVE)" of Multimedia
  Programming Interface and Data Specifications 1.0. Sizes wrap at 2^32 as `setUint32` does.
- **Tokens.** Unpadded base64url is section 5 of RFC 4648 with the padding of section 3.2, read back by a model of
  Python's lenient decoder. The MAC, the key derivation and the JSON codec are parameters; the theorem about tokens
  assumes only that loading what was dumped gives it back.

## What the proofs found

- Appending transcript keeps all earlier chapters exactly when `C >= 120`; all speech before the stopping point is in
  a chapter exactly when `C <= 420`; chapters not closed by the end of the meeting stay within 45 seconds of `C`
  exactly when `75 <= C <= 465`.
- Finalising a meeting without new transcript can remove its last recorded chapter, and with it the generated records
  that belong to it: a window that ends exactly at the last timestamp is a full window while recording but a partial one
  when the meeting has ended, and partial windows need two segments and six words. `FinalizeKeepsChapters` and
  `FinalizeKeepsRecordsExactlyWhen` give the exact conditions for chapters and for records.
- Merging across chapters compares the absorbed start with the already merged start, so a record changes its id only
  when neither window start is known.
- The merge is a fixed point, and its outputs of equal text are disjoint, exactly when no record bridges two components
  of the records before it. Decisions and action items always meet this. Open questions need not, because a long question
  can be settled in one chapter and open in a later one.
- The firewall keeps the last word across semicolons, comments, literals and dollar quotes. Scanning two statements
  together therefore differs from scanning them apart exactly when the first ends in the word ON or CREATE. Privilege
  lists are open from GRANT to the next semicolon or the next word ALTER.
- An undefined array item has the canonical text of null; up to that, texts are equal exactly for values equal up to key
  order and undefined members.
- A skipped step does not satisfy a dependency on it: a step that depends on a skipped or failed step is never called
  (`BlockedStepsAreNeverCalled`).
- `decode_access_token` raises something other than its authentication error exactly when the signature part does not
  decode, for instance when it is one character, or a correctly signed payload is not an object or has an `exp` that
  `int` refuses.
- The guards against joining a second organization and against expired invitations are outside the accepting transaction.
  A user joins twice exactly when the second request's check came before the first acceptance committed and its
  transaction can still go through; its time does not matter.
- Samples can be lost when a recording is stopped. The reset at the end of stopping discards exactly what was accepted
  meanwhile and neither flushed nor reset since. Without a start in between it never discards any if and only if no two
  starts overlapped before, that is, no graph was started while the last one was neither stopped nor detached by another
  start; otherwise a worklet that no ref holds goes on delivering. A start in between can always lose samples.

## Model

| member | source | states |
|---|---|---|
| Sorting.SortOfAppend | apps/meeting-api/backend/server.py:1962 | Sorting segments commutes with appending segments that start no earlier than all others, so a refresh over more transcript sees the old order as a prefix |
| Sorting.FindOfSorted | services/agent-core/src/index.ts:250-265 | Sorting a copy by order and taking the first match is the match least by (order, original position) |
| Words.WordsAreCounted | apps/meeting-api/backend/workflows/chapter_summary_create.py:12-13 | Whatever the blanks around and between them, a text of n nonempty blank-free words has word count n |
| Words.BlanksAre | apps/meeting-api/backend/workflows/chapter_summary_create.py:12-13 | The blanks are those `str.split` splits at: ten in ASCII and nineteen beyond |
| ChapterBoundary.ResolvedWindowLength | apps/meeting-api/backend/workflows/chapter_summary_create.py:20-57 | While the meeting runs, a resolved window is 120 to 420 seconds long and comes from the nominal end or a candidate at most 45 seconds away |
| ChapterBoundary.NominalCandidateWins | apps/meeting-api/backend/workflows/chapter_summary_create.py:29-57 | After the end of the meeting a candidate at distance zero is the chosen boundary, unclamped |
| ChapterBoundary.LaterBoundariesAreIgnored | apps/meeting-api/backend/services/chapter_summary.py:208-231 | The preference among candidates is unaffected by any further candidates at or after one that is not before the nominal end |
| ChapterBuilder.EndedWindowReachesTheEnd | apps/meeting-api/backend/server.py:1901-1914 | A window closed by the end of the meeting ends exactly at the last timestamp |
| ChapterBuilder.TurnAdvances | apps/meeting-api/backend/server.py:1896-1951 | For every window length and both finalize values, each turn that does not stop advances by at least 120 seconds or to the end, so the loop terminates |
| ChapterBuilder.TurnEmits | apps/meeting-api/backend/server.py:1914-1951 | What one turn emits: the next index, a nonempty window starting at the window start with exactly the overlapping segments, and the end rule of the last chapter |
| ChapterBuilder.KeptExactlyWhen | apps/meeting-api/backend/workflows/chapter_summary_create.py:12-17 | A window at the end of the meeting is kept if and only if it has at least two segments and their texts split into at least six words |
| ChapterBuilder.BuildChapterSummaries | apps/meeting-api/backend/server.py:1881-1953 | The loop, with its appended list, index and final ordering, computes the chapter list the theorems are about |
| ChapterBuilder.ChaptersAreOrdered | apps/meeting-api/backend/repositories/chapters.py:4-13 | Chapters are numbered without gaps in window order, so the repository's final ordering changes nothing |
| ChapterStability.ChaptersSurviveAppends | apps/meeting-api/backend/server.py:1881-1953 | For C >= 120, chapters built while recording are a prefix of those built from any longer transcript, also when that one is finalised |
| ChapterStability.StabilityThreshold | apps/meeting-api/backend/server.py:1881-1953 | Chapters survive every append, also when it is the final one, if and only if C >= 120 |
| ChapterStability.FinalizeKeepsChapters | apps/meeting-api/backend/server.py:1898-1926 | Finalising the same transcript keeps the recorded chapters if and only if the last one does not end at the last timestamp as a full window that, for C <= 420, has fewer than two segments or fewer than six words |
| ChapterStability.FinalizeCanLoseAChapter | apps/meeting-api/backend/server.py:1922-1926 | A transcript with the default window that has a chapter while recording and none when finalised |
| ChapterStability.FinalizeDropsLastChapter | apps/meeting-api/backend/server.py:1922-1926 | For C <= 420, when the last chapter is lost the final chapters are the others |
| ChapterStability.ShortWindowsAreUnstable | apps/meeting-api/backend/workflows/chapter_summary_create.py:20-26 | For each C < 120, a transcript and an append that change an earlier chapter |
| ChapterCoverage.ChaptersTile | apps/meeting-api/backend/server.py:1896-1951 | Chapters are numbered from zero, disjoint, ordered and nonempty, render exactly the segments overlapping them, and one closed by the end of the meeting ends at the last timestamp with length at most C |
| ChapterCoverage.LengthBand | apps/meeting-api/backend/workflows/chapter_summary_create.py:20-57 | All other chapters have length in [C-45, C+45], for every transcript, if and only if 75 <= C <= 465 |
| ChapterCoverage.SkippedWindowIsSilent | apps/meeting-api/backend/server.py:1914-1922 | For C <= 420 no segment speaks in a window the loop jumps over, although it jumps beyond the window's resolved end |
| ChapterCoverage.CoverageThreshold | apps/meeting-api/backend/server.py:1896-1951 | Every moment of speech before the stopping point lies in a chapter rendering its segment, for every transcript, if and only if C <= 420 |
| ChapterCoverage.UncoveredTail | apps/meeting-api/backend/server.py:1896-1926 | What lies behind the stopping point: less than one nominal window while recording, and when finalised nothing or one partial window of fewer than two segments or six words |
| ChapterCoverage.LongWindowsSkipSpeech | apps/meeting-api/backend/server.py:1920-1922 | For each C > 420, a transcript whose only speech is jumped over |
| StateRecords.BuildStateRecords | apps/meeting-api/backend/server.py:1833-1872 | The state-window loop, which terminates for windows of a positive whole number of seconds, computes the records the theorems are about |
| StateRecords.StateWindowsCover | apps/meeting-api/backend/server.py:1842-1848 | Every moment a segment covers before the last timestamp lies in the window of a record that renders the segment |
| StateRecords.StateIdsDiffer | apps/meeting-api/backend/server.py:1854 | The ids of state records are pairwise different |
| StateRecords.StateRecordsSurviveAppends | apps/meeting-api/backend/server.py:1842-1870 | After an append, records of complete windows are unchanged and the incomplete one keeps its start and segments; all of them are kept if and only if none was incomplete |
| RecordDedupe.Retained.TakeIn | apps/meeting-api/backend/services/chapter_summary.py:179-197 | The in-place merge of a record into a retained one, field by field, including the id switch across chapters |
| RecordDedupe.FindMatch | apps/meeting-api/backend/services/chapter_summary.py:163-174 | The first retained record with the same text key and a shared reference or an overlapping window |
| RecordDedupe.DedupeInPlace | apps/meeting-api/backend/services/chapter_summary.py:159-199 | The fold over fresh copies that it changes in place computes the value-level fold, and its results are distinct objects |
| RecordDedupe.AbsorbKeepsIdentity | apps/meeting-api/backend/services/chapter_summary.py:192-197 | A merge changes the retained id if and only if both window starts are missing and the chapters differ |
| DedupePartition.DedupePartitions | apps/meeting-api/backend/services/chapter_summary.py:124-199 | For any input order the absorbed positions partition the input; each output has the union of its members' references, their maximal confidence, the hull of their windows, is promoted iff a member was, takes owner and promotion from the first member that has one, and keeps the first member's id when its start is known |
| DedupePartition.DedupeKeepsIdsDistinct | apps/meeting-api/backend/services/chapter_summary.py:159-199 | Distinct input ids give distinct output ids |
| DedupePartition.DedupeGrows | apps/meeting-api/backend/services/chapter_summary.py:159-199 | More input never removes, reorders or renames a retained record, nor takes back its promotion |
| DedupeComponents.SecondRunExactlyWhenBridgeless | apps/meeting-api/backend/services/chapter_summary.py:149-199 | On records with windows that share references only if they overlap, in any order: the outputs' groups are the connected components of overlap, and a second run of the fold changes nothing, if and only if no record links two components of the records before it |
| DedupeComponents.RerunExactlyWhenApart | apps/meeting-api/backend/services/chapter_summary.py:159-199 | For any input at all, a run of the fold changes nothing if and only if no record matches another |
| DedupeComponents.RetainedAreDisjoint | apps/meeting-api/backend/services/chapter_summary.py:149-199 | Outputs of equal text have disjoint windows and references, if and only if no record links two components of the records before it |
| DedupeComponents.SecondDedupeChangesNothing | apps/meeting-api/backend/services/chapter_summary.py:159-199 | On chronological input the groups are the connected components and a second run of the fold returns its input |
| DedupeComponents.RetainedCovers | apps/meeting-api/backend/services/chapter_summary.py:149-199 | An output overlaps, and shares references with, exactly what the records of its group do: hulls of matched records leave no gaps |
| Materializer.BuildGeneratedRecords | apps/meeting-api/backend/server.py:1956-1983 | The materialiser's loop over chapters, with drafting, the merge within a chapter and the merge across chapters, computes the records the theorems are about |
| Materializer.RefreshKeepsRecords | apps/meeting-api/backend/server.py:1956-1989 | Rebuilding from a longer or finalised transcript keeps every generated record of each kind in place with its id, chapter and promotion; finalising without new transcript is the next row |
| Materializer.FinalizeKeepsRecordsExactlyWhen | apps/meeting-api/backend/server.py:1956-1989 | Finalising without new transcript, for C <= 420: every generated record keeps its id if and only if the last chapter is not lost or no record belongs to it |
| Materializer.FinalizeCanLoseARecord | apps/meeting-api/backend/server.py:1922-1926 | One five-minute segment in which something was decided gives a record while recording and none when finalised, with an extraction of the segments that say so |
| Materializer.GeneratedIdsAreUnique | apps/meeting-api/backend/server.py:1963-1983 | The generated ids of one kind are pairwise distinct |
| Materializer.ChapterRecordSpans | apps/meeting-api/backend/services/chapter_summary.py:104-146 | Each record of a chapter carries the chapter's id for its text, references only from items of that text, and a window that is exactly their hull |
| Promotion.ChapterRecordCarries | apps/meeting-api/backend/services/chapter_summary.py:104-146 | Its text and owner are those of an item behind it, with an owner if any has one; it has their largest confidence and all their references |
| Promotion.ChapterPromotedExactlyWhen | apps/meeting-api/backend/services/chapter_summary.py:70-93 | A record of a chapter is promoted if and only if an item behind it qualifies: a decision by restatement or by proposal and agreement, an action item by owner or commitment, an open question never; with the reason of its kind |
| Promotion.EveryItemHasARecord | apps/meeting-api/backend/services/chapter_summary.py:96-146 | Every item has a record of its text in its chapter, save an open question that is rhetorical, resolved or answered |
| Promotion.MeetingPromotedExactlyWhen | apps/meeting-api/backend/server.py:1956-1983 | A record of the meeting is promoted if and only if one of the items that went into it, in any chapter, qualifies; with the reason of its kind |
| MentionOrder.EarlierChapterStartsFirst | apps/meeting-api/backend/server.py:1965-1980 | Of two records of equal text, the one of the earlier chapter starts no later |
| MentionOrder.DisjointExactlyWhenBridgeless | apps/meeting-api/backend/server.py:1956-1983 | For every kind: generated records of equal text are disjoint, and merging again changes nothing, if and only if no chapter's record links two components of the records before it |
| MentionOrder.StreamIsChronological | apps/meeting-api/backend/server.py:1735-1989 | Kinds extracted segment by segment (decisions, action items) always meet this: they reach the merge in chronological order |
| OpenQuestions.QuestionsDisjointExactlyWhen | apps/meeting-api/backend/server.py:1802-1821 | The same exact condition for open questions, which are settled by what is said later in the same chapter |
| OpenQuestions.QuestionsNeedAnotherRun | apps/meeting-api/backend/server.py:1802-1821 | A meeting whose generated open questions of one text overlap and are merged further by a second run |
| TaskExecutor.ExecuteStepWithRetry | services/agent-core/src/index.ts:285-334 | The retry loop: the first attempt that returns, is cancelled or times out is the last one and decides; without one there are retryLimit + 1 calls and the last error counts; a negative limit makes no call |
| TaskExecutor.ExecuteTaskPlan | services/agent-core/src/index.ts:83-219 | The executor's loop over current plan, results and errors computes the run the theorems are about |
| TaskExecutor.TurnUsesAPendingStep | services/agent-core/src/index.ts:115-204 | Every turn leaves fewer pending steps, so the loop terminates |
| ExecutorLaws.TurnChanges | services/agent-core/src/index.ts:127-199 | A turn makes as many calls as its attempts ask for and changes exactly one step, the ready one least by (order, position): its status, result and error, the results, the reported error and the plan's status are as its attempts decide |
| ExecutorLaws.RunEnds | services/agent-core/src/index.ts:115-134 | How a run ends at the head of a turn: cancelled, failed with the timeout message, or with nothing ready, completed if and only if every step is completed or skipped; nothing else changes |
| PlanRefusals.RefusedExactlyWhen | services/agent-core/src/index.ts:87-98 | A plan is refused if and only if two steps share an id or a dependency is no step's id; then nothing is called, and the only error is the duplicate or else the first such dependency in plan order |
| ExecutorLaws.ExecutorAccounting | services/agent-core/src/index.ts:83-334 | At most retryLimit + 1 calls per pending step; settled steps, ids and dependencies never change; results are exactly those of the newly completed steps; at most one error; nothing left running; success only for a finished plan without errors |
| PlanRefusals.ExecutorCounts | services/agent-core/src/index.ts:206-218 | The answer counts all steps and the completed ones, and there are at most retryLimit + 1 calls for each step that was pending |
| ExecutorLaws.DispatchSequence | services/agent-core/src/index.ts:136-156 | At each tool call its step alone is running with all dependencies completed, it is the least ready step, and completed means completed at the start or called earlier |
| ExecutorLaws.BlockedStepsAreNeverCalled | services/agent-core/src/index.ts:250-265 | No run calls a tool for a step that depends on a skipped or failed step |
| PlanFixpoint.CompletesTheLeastFixpoint | services/agent-core/src/index.ts:115-134 | A valid run not cut short completes exactly the least set containing the initially completed steps and closed under pending steps whose dependencies are in it |
| PlanFixpoint.AttemptsSucceedExactlyWhen | services/agent-core/src/index.ts:298-334 | A step succeeds if and only if some attempt up to the limit returns and none before it is cancelled or times out |
| PlanFixpoint.FavourableRunsToTheEnd | services/agent-core/src/index.ts:115-204 | Without cancellation and timeout, and with every tool returning within its retries, no run is cut short |
| PlanFixpoint.FreshPlanCompletesUnlessCyclic | services/agent-core/src/index.ts:127-134 | An all-pending valid plan completes exactly the steps neither on nor behind a dependency cycle; it ends completed if and only if the graph is acyclic, else failed |
| PlanFixpoint.LeastClosedAvoidsCycles | services/agent-core/src/index.ts:250-283 | The least closed set of an all-pending plan is the set of steps from which no cycle can be reached |
| MigrationLexer.CharactersAre | packages/db/src/catalog-contract.ts:304-352 | Identifiers begin with an ASCII letter or underscore and go on with digits too, words also with dollar signs; both quotes open literals |
| MigrationLexer.WhitespaceIs | packages/db/src/catalog-contract.ts:379 | White space is what `\s` matches: the ASCII blanks, both no-break spaces, the line separators and the Unicode space separators |
| MigrationLexer.FirstIsTheLexeme | packages/db/src/catalog-contract.ts:317-380 | What the scanner consumes in one turn is the only lexeme that may stand there |
| MigrationLexer.LexIsTheLexing | packages/db/src/catalog-contract.ts:304-380 | Every source has exactly one lexing and it is the scanner's |
| MigrationFirewall.SkipLiteral | packages/db/src/catalog-contract.ts:330-345 | The inner loop ends behind the first closing quote that is not doubled, or at the end of the source |
| MigrationFirewall.ScanMigrationSql | packages/db/src/catalog-contract.ts:310-384 | The scanner's loop over index, previous token and statement mode terminates and computes the scan the theorems are about |
| MigrationFirewall.RegistersMean | packages/db/src/catalog-contract.ts:314-379 | The statement mode is GRANT iff a GRANT precedes with no semicolon or ALTER between, and the previous token is the nearest word with only blanks, semicolons, comments and literals between |
| MigrationFirewall.ScannerRefinesFilter | packages/db/src/catalog-contract.ts:310-384 | Findings are exactly the words the filter reports over the lexing, at their offsets, strictly increasing; none lies in a comment, literal or dollar quote |
| MigrationFirewall.ForbiddenWordIsFound | packages/db/src/catalog-contract.ts:354-371 | Each of the seven words, in any case, is found in capitals wherever it is a word of the lexing, no GRANT is open and it is not the DELETE or UPDATE behind an ON |
| MigrationCase.CaseDoesNotMatter | packages/db/src/catalog-contract.ts:354-379 | Two sources equal up to the case of letters, and with the same dollar tags, have the same findings |
| MigrationEditing.RewritingMaskedTextKeepsFindings | packages/db/src/catalog-contract.ts:320-351 | Replacing a comment, literal or dollar quote by one of equal length closing in the same place leaves all findings as they are |
| MigrationEditing.ScansCompose | packages/db/src/catalog-contract.ts:314-381 | After a text that ends in a semicolon, perhaps followed by white space and closed comments, scanning a and any b together is scanning them apart, if and only if the last word of a is neither ON nor CREATE |
| MigrationEditing.FirstIsLocal | packages/db/src/catalog-contract.ts:317-380 | A lexeme depends only on the text up to the character behind it |
| KeyOrder.IndexOrderIsNumeric | packages/db/src/command-persistence.ts:46-51 | The order in which objects enumerate array-index keys is that of their numbers |
| KeyOrder.ArrayIndexExactlyWhen | packages/db/src/command-persistence.ts:46-51 | The keys an object enumerates first are the decimals of the whole numbers below 2^32 - 1 |
| CanonicalJson.RebuiltIsSorted | packages/db/src/command-persistence.ts:45-51 | An object rebuilt from entries sorted as text has the same members in enumeration order |
| CanonicalJson.StableDecidesEquivalence | packages/db/src/command-persistence.ts:43-54 | Two values have the same stable value if and only if they are equal up to key order and undefined members at every depth |
| CanonicalJson.StableIsIdempotent | packages/db/src/command-persistence.ts:43-54 | stableValue of a stable value is that value |
| JsonText.EscapeReadsBack | packages/db/src/command-persistence.ts:56-58 | A serialised string reads back to the string and what follows it |
| JsonText.EscapeLength | packages/db/src/command-persistence.ts:56-58 | Quotes, backslashes and the control characters with a letter take two units, other control characters and lone surrogates six, everything else one |
| JsonText.NumbersAreTokens | packages/db/src/command-persistence.ts:56-58 | What counts as a JSON number covers every number RFC 8259 can write |
| JsonText.CanonicalTextReadsBack | packages/db/src/command-persistence.ts:43-58 | The canonical text of a JSON value, read as JSON, is its stable value, and has no lone surrogate |
| JsonText.CanonicalTextDecidesEquivalence | packages/db/src/command-persistence.ts:43-58 | Two JSON values have the same canonical text if and only if they are equal up to key order and undefined members |
| JsonText.TextDecidesUpToNullItems | packages/db/src/command-persistence.ts:43-58 | For every value that has a text, undefined array items included: equal canonical texts if and only if the values are equivalent once those items are null |
| JsonText.PrintedTextReadsBack | packages/db/src/command-persistence.ts:43-58 | The same for every value that has a text, with null for the undefined array items |
| JsonText.UndefinedItemPrintsAsNull | packages/db/src/command-persistence.ts:56-58 | A pair of different values of one text |
| CommandLedger.CommandStore.FindCommandReplay | packages/db/src/command-persistence.ts:60-80 | The lookup by scope: nothing, the stored response, or a conflict |
| CommandLedger.CommandStore.CommitCommandTransaction | packages/db/src/command-persistence.ts:82-141 | Domain queries, ledger row and audit row, written one after the other, take effect together or not at all |
| CommandLedger.ExactlyOnce | packages/db/src/command-persistence.ts:82-141 | Under any interleaving the tables hold exactly the rows and writes of the successful commits, no two of which share a scope; ledger row i and audit row i carry request i's own values field by field, and each of its domain writes its own text |
| CommandLedger.CommitsExactlyWhen | packages/db/src/command-persistence.ts:82-141 | A commit goes through if and only if its request is acceptable and no earlier success shares its scope, its tenant and request id, or a row id |
| CommandLedger.OnlyIssuedRequestsSucceed | packages/db/src/command-persistence.ts:82-89 | A successful commit was issued by a client with at least one domain query, all accepted |
| CommandLedger.OneRequestPerScope | packages/db/src/schema.ts:553-560 | All domain writes applied under one scope belong to one request |
| CommandLedger.FindTellsWhatCommitted | packages/db/src/command-persistence.ts:60-80 | A find answers nothing iff no commit of the scope succeeded, the stored response on its request hash, and a conflict on any other |
| CommandLedger.AnswersAreStable | packages/db/src/command-persistence.ts:60-80 | An answer other than nothing never changes again |
| CommandLedger.ReplayDecidesSameRequest | packages/db/src/command-persistence.ts:56-80 | Equivalent requests get the stored response, others a conflict unless the digest collides |
| WavWriter.CreateWavBlob | apps/meeting-web/src/hooks/useAudioRecorder.js:5-48 | The nested loops write every byte of a 44 + 2n buffer exactly once, in order; no blob iff there are no samples |
| WavWriter.WriteHeader | apps/meeting-web/src/hooks/useAudioRecorder.js:24-36 | The thirteen header writes at fixed offsets fill bytes 0 to 43, each once |
| WavWriter.HeaderReadsBack | apps/meeting-web/src/hooks/useAudioRecorder.js:11-36 | The header decodes to mono 16-bit PCM with the sample rate and data size modulo 2^32; the RIFF size is right if and only if 36 + 2n < 2^32 |
| WavWriter.SampleReadsBack | apps/meeting-web/src/hooks/useAudioRecorder.js:38-45 | The two bytes at 44 + 2i decode to the quantised sample i |
| WavWriter.QuantisedExactly | apps/meeting-web/src/hooks/useAudioRecorder.js:41-42 | A sample within full scale is stored as the integer next to it towards zero, on 32767 steps up and 32768 down |
| WavWriter.QuantiseIsMonotone | apps/meeting-web/src/hooks/useAudioRecorder.js:41-42 | Quantisation keeps the order of samples, across the change of scale at zero |
| WavWriter.QuantisationError | apps/meeting-web/src/hooks/useAudioRecorder.js:41-42 | A stored sample differs from the clamped original by less than 1/32767 |
| Recorder.AudioRecorder.Flush | apps/meeting-web/src/hooks/useAudioRecorder.js:217-233 | Flushing the mutable buffer is the flush step: the buffer is emptied and one chunk is delivered or dropped |
| Recorder.AudioRecorder.OnWorkletMessage | apps/meeting-web/src/hooks/useAudioRecorder.js:294-307 | Samples are buffered and counted unless the recorder is paused or no worklet is live |
| Recorder.AudioRecorder.OnPaused | apps/meeting-web/src/hooks/useAudioRecorder.js:347-352 | Pausing marks the recorder paused and then flushes |
| Recorder.AudioRecorder.ResetRecorderState | apps/meeting-web/src/hooks/useAudioRecorder.js:168-182 | The end of stopping clears the refs, begins a new session and discards what is buffered |
| Recorder.AudioRecorder.OnStarted | apps/meeting-web/src/hooks/useAudioRecorder.js:313-330 | A new graph starts a fresh session with its sample rate and is the tracked one; one that was tracked stays live without a ref |
| Recorder.StepKeepsInv | apps/meeting-web/src/hooks/useAudioRecorder.js:156-384 | Every callback keeps count, history and chunk numbering consistent |
| Recorder.RecorderConserves | apps/meeting-web/src/hooks/useAudioRecorder.js:156-384 | Over every run and all its sessions, accepted samples are in order those flushed or discarded and then those buffered; deliveries are exactly the WAV files of the flushed runs over 478 samples, numbered 0, 1, 2 in each session; accepted = delivered + dropped + discarded + buffered with at most 478 dropped per flush; elapsed snapshots never decrease within a session |
| RecorderRegisters.RegistersHold | apps/meeting-web/src/hooks/useAudioRecorder.js:156-384 | After any run: paused if and only if the last step about that paused it, the rate of the last started graph, and the ticks of the session |
| RecorderRegisters.DroppedAtMost | apps/meeting-web/src/hooks/useAudioRecorder.js:217-233 | Beyond what is delivered, discarded and buffered, at most 478 accepted samples are dropped for each flush |
| RecorderRegisters.DeliveryTells | apps/meeting-web/src/hooks/useAudioRecorder.js:217-240 | A delivery comes from a flush of more than 478 samples; its duration is their length but at least a second, and its elapsed time the ticks of the session or the rounded total of its flushes, whichever is more |
| Recorder.StoppingDiscardsExactlyWhen | apps/meeting-web/src/hooks/useAudioRecorder.js:372-384 | Whatever happens between the beginning and the end of stopping, the final reset discards samples if and only if some were accepted in between and nothing flushed or reset the buffer since |
| Recorder.LiveExactlyWhen | apps/meeting-web/src/hooks/useAudioRecorder.js:184-330 | A ref holds a live worklet if and only if the last graph started was not detached; one without a ref is live if and only if two graphs were started without a detach between them |
| Recorder.StoppingLosesNothing | apps/meeting-web/src/hooks/useAudioRecorder.js:184-384 | After any history: without a new start in between the final reset discards nothing, whatever else happens, if and only if no two graphs were started without a detach between them |
| Recorder.RestartCanLoseSamples | apps/meeting-web/src/hooks/useAudioRecorder.js:265-384 | After any history, a start between the beginning and the end of stopping can lose samples |
| Recorder.RestartLosesSamples | apps/meeting-web/src/hooks/useAudioRecorder.js:265-384 | A run in which a recording started before the last one was stopped loses its samples |
| Recorder.DoubleStartLosesSamples | apps/meeting-web/src/hooks/useAudioRecorder.js:265-384 | A run in which two starts detach before either has its graph, and stopping loses the samples of the first, although nothing starts while stopping |
| Base64Url.RoundTrip | apps/meeting-api/backend/security.py:102-109 | Decoding an encoded byte string gives it back, and the text uses only url-safe characters without padding, dot or dollar |
| Base64Url.UndecodableExactlyWhen | apps/meeting-api/backend/security.py:107-109 | Any text fails to decode if and only if it is not ASCII, or the padded text fills no group with padding and its alphabet characters do not make whole groups of four |
| Base64Url.AlphabetFailsExactlyWhen | apps/meeting-api/backend/security.py:107-109 | A text of alphabet characters fails if and only if its length leaves one over |
| Base64Url.EncodeIsInjective | apps/meeting-api/backend/security.py:102-104 | Different byte strings have different texts |
| Base64Url.EncodesBits | apps/meeting-api/backend/security.py:102-104 | The text is the bits of the bytes, six to a character of the url-safe alphabet of RFC 4648, as many characters as that takes |
| Base64Url.ValuesAre | apps/meeting-api/backend/security.py:107-109 | A character of the alphabet is read as its place there; beyond it only `+` and `/` are read |
| AccessToken.TokenRoundTrip | apps/meeting-api/backend/security.py:138-190 | A created token decodes to exactly its payload - subject, time of issue, expiry, each unless an extra claim replaces it - iff that expiry has not passed; with a secret of different MAC it is refused |
| AccessToken.AnswerForEveryToken | apps/meeting-api/backend/security.py:164-190 | For every token, whoever built it: an exception other than the authentication error escapes if and only if the signature part does not decode, or the token is correctly signed and its payload is not an object or has an expiry that `int` refuses; a payload is returned if and only if the token is correctly signed and not expired; another algorithm than HS256 is refused by another exception |
| AccessToken.LoneCharacterIsUnhandled | apps/meeting-api/backend/security.py:178 | Any front part followed by a dot and one character lets the decoding error escape |
| AccessToken.TextExpiryIsUnhandled | apps/meeting-api/backend/security.py:187 | So does a correctly signed token whose expiry is a text that `int` refuses |
| AccessToken.PasswordRoundTrip | apps/meeting-api/backend/security.py:113-134 | A password verifies against a stored hash iff it derives the same key under the stored salt and iterations |
| AccessToken.VerifiesExactlyWhen | apps/meeting-api/backend/security.py:119-134 | For every stored hash: a password verifies if and only if the hash has the known scheme, a numeral and two parts that decode, and the password derives the stored key |
| Invitations.InvitationStore.AcceptInvitation | apps/meeting-api/backend/server.py:2705-2723 | The user upsert, the claim of the invitation and the membership upsert take effect together or not at all, with the status of the first failing one |
| Invitations.InvitationStore.UpsertHostedUser | apps/meeting-api/backend/server.py:511-556 | Inserts or updates the user row with the address chosen from token, row or id, unless another user has that address |
| Invitations.InvitationStore.MarkAccepted | apps/meeting-api/backend/server.py:771-792 | Claims an invitation exactly if it is pending and changes nothing otherwise |
| Invitations.InvitationStore.UpsertMembership | apps/meeting-api/backend/server.py:639-681 | The membership becomes active with the role, keeping a known inviter when no new one is given |
| Invitations.InvitationStore.CreateInvitation | apps/meeting-api/backend/server.py:688-738 | Inserts a pending row unless its id, its token hash or its pending (tenant, address) pair exists |
| Invitations.RunsAreSound | apps/meeting-api/backend/alembic/versions/0004_auth_provider_redesign.py:43-60 | Under any interleaving there is at most one pending invitation per organization and address, and every accepted invitation is backed by an active membership of its user |
| Invitations.RefusedChangesNothing | apps/meeting-api/backend/server.py:2704-2753 | A step that is not a successful creation or acceptance leaves users, invitations and memberships unchanged |
| Invitations.JoinWrites | apps/meeting-api/backend/server.py:2705-2723 | A successful acceptance moves the user into the inviting organization with the invited role and inviter, claims the pending invitation, and changes no other row |
| InvitationAnswers.AcceptanceTells | apps/meeting-api/backend/server.py:2705-2723 | In any run, an acceptance writes the user's new address and organization, the accepted status, and an active membership with the invited role and inviter, from the invitation as it then is, and nothing else |
| InvitationAnswers.JoinAnswers | apps/meeting-api/backend/server.py:2704-2746 | The accepting transaction answers 502 for a taken address, else 409 unless the invitation is pending, else 502 for an unknown role, else it goes through |
| InvitationAnswers.CheckAnswers | apps/meeting-api/backend/server.py:2684-2695 | The check answers 409 for a caller with an organization, else 404 without a pending unexpired invitation for the token, else 403 for another address, else it lets the caller in |
| InvitationAnswers.AddressedExactlyWhen | apps/meeting-api/backend/server.py:2692-2695 | An invitation is for a caller if and only if it has no address or the addresses agree up to the blanks around them and the case of letters |
| InvitationAnswers.CreationTells | apps/meeting-api/backend/server.py:2632-2661 | In any run, an invitation is only created for a client whose last check found an active administrator of the organization; the row carries the organization, normalised address, role, inviter, token hash and expiry of that request |
| InvitationAnswers.CreatesExactlyWhen | apps/meeting-api/backend/server.py:688-738 | It is created if and only if its id, its token hash and its pending (organization, address) pair are free; else the answer is 409 |
| Invitations.JoinedOnce | apps/meeting-api/backend/server.py:771-792 | No invitation is accepted twice in a run |
| Invitations.AcceptedIffJoined | apps/meeting-api/backend/server.py:2705-2723 | An invitation ends up accepted by a user if and only if it was at the start or one acceptance of the run by that user did it |
| Invitations.JoinWasAdmitted | apps/meeting-api/backend/server.py:2685-2695 | Every acceptance was let in by its own client's earlier check: right token, pending, unexpired, addressed to the caller, who had no organization |
| Invitations.LookupsAreOneCheck | apps/meeting-api/backend/server.py:1083-1094 | Lookups of membership, user and invitation at three times that let a caller in open the session that one check at the first time opens |
| Invitations.AcceptanceIsFinal | apps/meeting-api/backend/server.py:2705-2723 | Once accepted, an invitation stays accepted by that user, who is an active member of the inviting organization and the one it was addressed to |
| Invitations.JoinsExactlyWhenReady | apps/meeting-api/backend/server.py:2680-2723 | A transaction accepts an invitation if and only if the client's last step was a check that let it in and, now, the invitation is pending, the address free and the role canonical |
| Invitations.JoinsLateExactlyWhen | apps/meeting-api/backend/server.py:756-762 | It accepts an expired invitation if and only if, besides, the invitation expired between the check and the transaction |
| Invitations.SecondJoinRaced | apps/meeting-api/backend/server.py:2684-2723 | A user who has joined joins again if and only if the second request was let in before the first acceptance committed and its transaction can go through |
| Invitations.RacingUserJoinsTwice | apps/meeting-api/backend/server.py:2684-2723 | A run after which one user has joined two organizations, with both invitations accepted after their expiry |
| Invitations.OffersAreInvited | apps/meeting-api/backend/server.py:2632-2661 | The invitations of that run are what the checks and inserts of two administrators' requests write |

## Left out

- Timestamps that are null, negative or not a number; segments are taken with known start and end, and the theorems about speech need start before end.
- Which of a segment's two texts the server takes: a segment's text is the one taken.
- Titles, labels, rendered summaries, topics and confidences of chapters and state records, and `created_at`: functions of the segments a record renders.
- The regular expressions of the extraction: any function of the ordered window segments, with the window of each item's own segment; for open questions, any reading of which texts ask and which later words settle.
- A state window of zero or fewer seconds, for which the state-record loop does not end.
- The database writes of a refresh, the triggers that decide when to refresh, and the promotions table.
- Real time, promises and abort signals of the executor, its progress callbacks, delays, and step parameters and descriptions.
- Retry limits are integers; with a negative one the executor makes no call and the step fails, as in the source.
- UTF-16 offsets of firewall findings: a character outside the basic plane counts once.
- `assertMigrationSqlSafe`, which only raises on the first finding.
- How numbers are printed: a JSON number is its text; two numbers are equal when their texts are.
- SHA-256: request hashes and token hashes are values, and digests a function.
- Storing a response as `jsonb` and reading it back: the response of a replay is the stored text.
- The rows a domain query changes: a query is accepted or rejected, and applying it is recorded.
- The recorder's timers as on or off: they may fire at any time, which allows more runs than the source. Samples that are not numbers, a device that refuses, and permission errors.
- AccessToken.TokenRoundTrip: assumes that `json.loads` inverts `json.dumps` and that dumping, UTF-8 and the MAC are functions.
- AccessToken.VerifiesExactlyWhen: `int` of an iteration count accepts decimal digits only, not signs, blanks or underscores.
- Invitations.RunsAreSound: addresses are compared after ASCII white space removal and lower case; users, memberships and organizations are never deleted, and the creation of organizations and the claims contract of the caller's token are not part of this model.
- Checking an invitation takes any active membership of the inviter in the organization, where the source takes the most recently updated one; this allows more runs.
- Ids of organizations, users and invitations are taken as nonempty and without surrounding blanks, as generated, so the answers for incomplete rows and missing organizations do not occur.
- User interfaces, routes, SQL text, connection pools, storage adapters, model calls and the catalogue builders: only easy or single-branch facts.
