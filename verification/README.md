# A verified model of the data and ingestion cores

The program is a web application around Postgres. This project models the parts of it that are
algorithms or protocols, one Dafny module each, and proves what they promise. Tables are maps or
sequences; a class that updates its fields in the program is a class here; an exported function that
awaits in the middle is split into two steps where another call can come in between. Every method is
proved against functions on values, and the properties of whole runs are lemmas about those functions.

- `RateLimiter`, `EmbeddingQueries`: the sliding-window limiter, and the query that checks it, awaits
  its audit write and only then records. Every window holds at most `maxRequests - 1 + c` queries of a
  tenant when at most `c` overlap, and that bound is attained, so the configured limit itself is kept
  exactly when a tenant's queries do not overlap.
- `Lex`, `CanonicalJson`, `JsonReader`, `AuditHash`, `AuditChain`, `AuditWriter`: the canonical printer at
  the level of UTF-16 code units and escapes, and the hash chain over it. The printer is injective up to key
  order, and a reader of RFC 8259 text reads back what was printed; the chain is tamper evident, and it stays
  verifiable exactly when commits come in (ts, id) order, unless hashes collide.
- `Text`, `Sentences`, `Chunker`: the sentence packer. Its sentences are those that the words of the text
  determine; it keeps every word, and among all divisions that respect its rules none has fewer chunks.
- `SqlSplitter`: the `$$`-aware statement splitter and its round trips with joining.
- `PiiSpans`, `PiiTokeniser`: span detection after pattern matching, back-to-front replacement, restoring
  the text from the returned string and map, and the identity store.
- `LegalHolds`, `Retention`, `RetentionRuns`: the four-eyes hold protocol, the retention check and the
  scheduler, and all interleavings of them.
- `Approvals`: M-of-N approval.
- `MarketEvents`: the dedup gate and the status machine. `KnowledgeStore`: append-only facts with
  supersession links.
- `Encryption`, `EntityTable`, `BackfillPasses`, `KmsBackfill`: field encryption, and the resumable backfill
  of plaintext rows.
- `ImapWorker`: fetching mail behind a UID checkpoint. `ColdArchive`: moving alerts to cold storage with a
  failure possible after any write. `AuthLockout`, `LockoutRuns`: the progressive lockout, and
  what it still guarantees when attempts overlap at any of its statements.

## What the proofs take for granted

- One clock that does not run backwards. Times are whole milliseconds.
- The functions that take a row lock, and the check and delete of one retention deletion, are single
  steps. Read as two steps, a vote or a removal could slip in between: a row lock taken outside a
  transaction ends with its statement.
- Each SQL statement of the lockout is one step: the check, the count, the deadline, the reset.
- Row ids are fresh and non-empty.
- Cryptography is a parameter. The chain theorem does not assume that the hash is injective: it says that
  two chains agree or show a collision or a preimage of the genesis hash, and the theorems about the writer
  say the same. Decryption inverts encryption, base64 text and hexadecimal digests contain no colon.

## Where the code and its documentation differ

The model follows the code in each case.

- The limiter's configured maximum is exceeded when a tenant's queries overlap (`BoundIsReached`). After
  that, the retry time it reports may be too early (`RetryMayFail`); it is right exactly when the entries
  in excess have left the window by then (`RetryIsAdmitted`).
- The chain links to the row with the greatest ts, while commits can come in another order; then the
  verification endpoint reports a break (`LogVerifiesExactly`, `OutOfOrderBreaks`).
- The endpoint reads its genesis hash from the environment while the writer starts from a constant. With
  another value in the environment it rejects every non-empty log that is valid (`OtherGenesisRejects`).
- The span detector is documented as letting the longest match win. It takes the leftmost: in
  `Virginia Bob@example.com` the name is kept and the longer e-mail address is not replaced
  (`LongestMayLose`). The longest wins exactly when no candidate is shorter than one it overlaps that
  starts later (`LongestWinsExactly`). A match such as `The The The` is shortened to a place where
  the text does not read like that (`RepeatedWordIsMisplaced`).
- The returned string and map do not determine the text. Two spellings of one value share a token, and
  the second spelling is lost (`SecondSpellingIsLost`); a text that already holds a token reads like one
  where it was put in (`OneOutputTwoTexts`). `TokensRestoreExactly` says when the text comes back.
- A tenant that asks for a token with a colon can be given another tenant's value (`ColonAliases`);
  `KeysAliasExactly` says whose. Tokens of this program have none (`DerivedTokenHasNoColon`).
- Field decryption drops a leading byte order mark of the plaintext (`BomIsLost`), so the backfill is
  visible to readers of a row with such a field that it writes, and of no other (`RunIsInvisible`).
- The usage example of the mail worker saves `highestUid` as it is. An empty fetch reports 0, and saving
  that starts the mailbox over (`DirectSaveDeliversTwice`); the run theorem has the caller keep the maximum.
- The hold check is skipped for the empty tenant id (`EmptyTenantEscapesHold`), and for no other
  (`NamedTenantIsHeld`).
- An insert that names a superseded fact does not look at that fact's tenant, subject or attribute, so a
  fact can disappear from its list without a replacement there (`ReplacementIsLost`). Replacements are
  listed exactly when every call that supersedes a fact carries its key (`ReplacementsAreListed`).
- With at most `c` attempts of a user at once, none of which stops halfway through a record, the documented
  wait after each failed sign-in is kept by all runs exactly when `c` is 1 (`SpacedExactlyOneAtATime`). A
  failure is counted by one statement and its deadline stored by another, which replaces what is there, so of
  two attempts at once the earlier failure can erase the lock of the later (`LockIsErased`: seven failures in
  11 seconds). If deadlines are stored in the order of their counts, each failure waits for the one `c` before
  it (`FailuresAreSpaced`) and no longer (`FastestRun`). In any order the lock is lost a bounded number of
  times (`LockStillHolds`). A call that stops between the two statements imposes no wait
  (`CutOffImposesNothing`).

## Model

| member | source | states |
|---|---|---|
| RateLimiter.PrunedReports | packages/db/corpus-chunk-store.ts:117-130 | the answer computed from the pruned list is right about the full history: the same number of entries in the window, and the retry time is the least whole second at which the window holds fewer |
| RateLimiter.AdmittedExactly | packages/db/corpus-chunk-store.ts:117-130 | left alone, a key has room at a second if and only if the entry that makes the maximum full has left by then |
| RateLimiter.RetryIsAdmitted | packages/db/corpus-chunk-store.ts:117-130 | a refused caller is admitted at the reported retry time if and only if the entries in excess of the maximum have left by then, and always when there are none |
| RateLimiter.RetryMayFail | packages/db/corpus-chunk-store.ts:117-130 | a history with two entries in excess whose retry time is refused |
| RateLimiter.RecordKeepsAgreement | packages/db/corpus-chunk-store.ts:132-139 | recording and pruning keep every key's list in agreement with its unpruned history from any later window start on |
| RateLimiter.EmbeddingRateLimiter.Check | packages/db/corpus-chunk-store.ts:117-130 | reports about the full history although only the pruned list is stored, and changes nothing |
| RateLimiter.EmbeddingRateLimiter.Consume | packages/db/corpus-chunk-store.ts:132-139 | adds one entry to the key's history and leaves the other keys alone |
| EmbeddingQueries.QueryByEmbedding.BeginQuery | packages/db/corpus-chunk-store.ts:374-381 | the part before the await: refused exactly when the limiter has no room, else in flight |
| EmbeddingQueries.QueryByEmbedding.FinishQuery | packages/db/corpus-chunk-store.ts:383-397 | the part after the await: the tenant's history grows by this query if the audit write succeeded; if it threw the history stays as it was |
| EmbeddingQueries.HistoryIsExact | packages/db/corpus-chunk-store.ts:374-397 | in every run a tenant's history is exactly the times of the successful audit writes of the queries begun for it, in order |
| EmbeddingQueries.EveryWindowIsBounded | packages/db/corpus-chunk-store.ts:117-138 | in every run with at most c of a tenant's queries in flight at once, any window of the limiter's length holds at most maxRequests - 1 + c recorded queries of the tenant |
| EmbeddingQueries.BoundIsReached | packages/db/corpus-chunk-store.ts:374-397 | for every limit and every degree of overlap some run attains that bound |
| CanonicalJson.QuoteInjective | packages/core/audit.ts:39-51 | two strings print alike only if they are equal, escapes and lone surrogates included |
| CanonicalJson.PrintPrefixFree | packages/core/audit.ts:39-51 | two printed values with anything that can follow a value behind them are equal texts only if the values are the same and so is what follows |
| CanonicalJson.SamePrintsAlike | packages/core/audit.ts:39-51 | key order at any depth does not show in the printed text |
| CanonicalJson.PrintIsCanonical | packages/core/audit.ts:39-51 | two values print alike if and only if they are equal with objects read as finite maps and non-finite numbers as null |
| CanonicalJson.NonFinitePrintsAsNull | packages/core/audit.ts:39-51 | the one identification beyond key order that the printer makes |
| JsonReader.QuoteReadsBack | packages/core/audit.ts:39-41 | a reader with the escapes of section 7 of RFC 8259 reads a printed string back, whatever follows it |
| JsonReader.PrintReadsBack | packages/core/audit.ts:39-51 | reading a printed value with anything that can follow a value behind it gives the same value, with the keys of every object in ascending order, and leaves what follows |
| Lex.LessExactly | packages/core/audit.ts:46-49 | keys are ordered by their first different code unit, a proper prefix first |
| AuditHash.HashInputInjective | packages/core/audit.ts:60-78 | the hashed text determines the previous hash and all seven fields, up to key order |
| AuditHash.HashInputReads | packages/core/audit.ts:60-78 | behind the previous hash the hashed text reads as one JSON object with exactly the seven named fields, in that order, holding the payload's values |
| AuditChain.ChainIsTamperEvident | packages/core/audit.ts:60-78 | two verifying chains with equal last hash agree on all seven fields of every row and in length, or exhibit a collision or a genesis preimage |
| AuditChain.ChainSurvivesKeyOrder | packages/db/corpus-chunk-store.ts:257-278 | storing objects with reordered keys leaves a chain verifiable |
| AuditChain.VerifyRows | apps/server/src/api/audit.ts:54-85 | the endpoint's loop finds no invalid row exactly for one chain from the genesis hash it reads, and otherwise gives the id of the first row that breaks it |
| AuditChain.OtherGenesisRejects | apps/server/src/api/audit.ts:17-21 | a log that verifies from one genesis value verifies from no other |
| AuditWriter.AuditLog.WriteAuditEvent | packages/db/corpus-chunk-store.ts:285-344 | a write adds one row linked to the last by ts and id, a failed one adds none |
| AuditWriter.PayloadNames | packages/db/corpus-chunk-store.ts:285-344 | the payload names the event's actor, its tenant as the entity, the count asked for, and its time |
| AuditWriter.PayloadsAgreeExactly | packages/db/corpus-chunk-store.ts:285-344 | two events have the same payload if and only if actor, tenant, count and time agree |
| AuditWriter.WriteKeepsChain | packages/db/corpus-chunk-store.ts:285-344 | a write leaves the chain verifiable if and only if it was and the new row is last by ts and id, unless the table shows a collision or a genesis preimage |
| AuditWriter.LogVerifiesExactly | packages/db/corpus-chunk-store.ts:285-344 | a whole log verifies if and only if every commit came in (ts, id) order, unless the table shows a collision or a genesis preimage |
| AuditWriter.OutOfOrderBreaks | packages/db/corpus-chunk-store.ts:285-344 | two writes, the second with the earlier timestamp, do not verify unless the first row hashes to the genesis value |
| AuditWriter.IncreasingTsBuildsChain | packages/db/corpus-chunk-store.ts:285-344 | strictly increasing timestamps give one chain that holds every event in order |
| Text.WordsJoin | packages/core/chunker.ts:186-189 | joining words with single spaces and extracting words undo each other |
| Text.SplitTrimmedIsWords | packages/core/chunker.ts:85-89 | splitting a trimmed text on whitespace gives exactly its words |
| Text.SplitKeepsWords | packages/core/chunker.ts:108-113 | splitting on whitespace runs loses no word, whatever the look-behind condition |
| Chunker.CountTokensCountsWords | packages/core/chunker.ts:85-89 | the token count of a text is its number of words |
| Sentences.SentenceSplitDeletesGaps | packages/core/chunker.ts:108-113 | sentence splitting removes the whitespace between sentences and nothing else, one cut per run |
| Sentences.SentencesKeepWords | packages/core/chunker.ts:108-113 | the sentences hold exactly the words of the text, in order |
| Sentences.InGapExactly | packages/core/chunker.ts:94-113 | a position separates two sentences if and only if it is whitespace and before it stand one of `.` `!` `?` and then only quotation marks, closing brackets and whitespace |
| Sentences.SplitterFindsSentences | packages/core/chunker.ts:94-113 | read as words: the sentences hold the words of the text in order, each but the last ends with a terminator and closers, and nowhere inside one do the words up to there end so |
| Sentences.SentencesAreUnique | packages/core/chunker.ts:94-113 | no other division of the words is like that |
| Chunker.FlushKeepsLead | packages/core/chunker.ts:152-156 | flushing because a sentence does not fit leaves no other chunking ahead |
| Chunker.SliceKeepsLead | packages/core/chunker.ts:158-170 | cutting an oversized sentence into full slices leaves no other chunking ahead |
| Chunker.PackedIsBest | packages/core/chunker.ts:144-180 | what the loop ends with is a chunking and no chunking has fewer parts |
| Chunker.ChunkText | packages/core/chunker.ts:130-183 | fails exactly for a ceiling below 1; otherwise conserves the words, keeps every chunk between one word and the ceiling with a right count and single spaces, respects the sentences as the words determine them, and has the fewest chunks possible |
| SqlSplitter.SplitSqlStatements | packages/db/index.ts:149-184 | the scanning loop computes the statements the lemmas are about |
| SqlSplitter.DollarRun | packages/db/index.ts:155-161 | a run of k dollar signs opens and closes a block k / 2 times in turn, rounded down |
| SqlSplitter.OtherCharacter | packages/db/index.ts:163-175 | any other character leaves the block as it is, and cuts only if it is a semicolon outside of one |
| SqlSplitter.SplitOfJoin | packages/db/index.ts:149-184 | splitting a join of closed pieces gives the pieces trimmed, blanks dropped |
| SqlSplitter.EveryScriptIsAJoin | packages/db/index.ts:149-184 | every script is such a join, so the previous line covers every input |
| SqlSplitter.SplitUndoesJoin | packages/db/index.ts:149-184 | split(join(x)) = x if and only if x is a list of trimmed non-empty statements without top-level semicolon, all but the last balanced |
| SqlSplitter.SplitIsStable | packages/db/index.ts:149-184 | split(join(split(x))) = split(x) for every script |
| PiiSpans.TrimCommonWords | packages/core/pii-tokeniser.ts:416-440 | the loop that splices the list it walks terminates and equals a filter followed by the leftovers |
| PiiSpans.ShortenedIsExact | packages/core/pii-tokeniser.ts:427-431 | a shortened candidate covers the text it carries if and only if the remainder does not occur earlier in the match |
| PiiSpans.RepeatedWordIsMisplaced | packages/core/pii-tokeniser.ts:427-431 | a concrete match for which it does not |
| PiiSpans.ResolveOverlaps | packages/core/pii-tokeniser.ts:442-451 | the greedy loop over the sorted candidates |
| PiiSpans.ResolutionIsMaximal | packages/core/pii-tokeniser.ts:442-451 | the result is ordered, disjoint, made of candidates, and every dropped candidate overlaps a kept one that does not come after it |
| PiiSpans.KeptIsLongestAtStart | packages/core/pii-tokeniser.ts:442-451 | a kept span is the longest of the candidates at its start |
| PiiSpans.FirstFoundWins | packages/core/pii-tokeniser.ts:442-451 | of candidates at one place the first found is kept |
| PiiSpans.LongestMayLose | packages/core/pii-tokeniser.ts:442-451 | with the program's common words, an e-mail address overlapped from the left by a shorter name is dropped |
| PiiSpans.LongestWinsIfEarlierLonger | packages/core/pii-tokeniser.ts:442-451 | when of two overlapping candidates the earlier is never shorter, every dropped candidate overlaps a kept one at least as long |
| PiiSpans.LongestWinsExactly | packages/core/pii-tokeniser.ts:442-451 | that condition holds if and only if the longest wins among every part of the candidates |
| PiiSpans.DetectPiiSpans | packages/core/pii-tokeniser.ts:320-452 | from exact matches the result is ordered and disjoint, and it is exact if and only if the matches that come back shortened and are kept end in the only occurrence of their remainder |
| PiiSpans.DetectionIsExact | packages/core/pii-tokeniser.ts:320-452 | the same for any set of common words |
| PiiSpans.RestsLastIsEnough | packages/core/pii-tokeniser.ts:427-431 | from exact matches the result is exact if every match that comes back has its remainder only at its end |
| PiiTokeniser.DerivedTokenHasNoColon | packages/core/pii-tokeniser.ts:263-272 | no token contains a colon |
| PiiTokeniser.TokenSharedExactly | packages/core/pii-tokeniser.ts:263-272 | two values share a token if and only if their types and the first eight digits of their digests agree |
| PiiTokeniser.SpellingsAreOne | packages/core/pii-tokeniser.ts:464-466 | spellings that agree in lower case up to whitespace around them share a token |
| PiiTokeniser.TokeniseSpans | packages/core/pii-tokeniser.ts:223-237 | back-to-front splicing equals copying the gaps and substituting from left to right |
| PiiTokeniser.TokensRestoreExactly | packages/core/pii-tokeniser.ts:223-243 | substituting the returned map in the returned string restores the text if no token stands for two values and none occurs between the spans; and only if, when values are not beginnings of each other or of their tokens |
| PiiTokeniser.UnderscoreFreeTextComesBack | packages/core/pii-tokeniser.ts:223-243 | no underscore between the spans and no shared token is enough |
| PiiTokeniser.OneOutputTwoTexts | packages/core/pii-tokeniser.ts:223-243 | two texts for which the same string and map are returned, so nothing restores both |
| PiiTokeniser.OneEmailTwoTexts | packages/core/pii-tokeniser.ts:223-243 | the instance of an e-mail address given twice |
| PiiTokeniser.RestoredByChance | packages/core/pii-tokeniser.ts:223-243 | why the converse needs its condition: a value that is its own token |
| PiiTokeniser.SecondSpellingIsLost | packages/core/pii-tokeniser.ts:464-466 | of two spellings of one value both places read like the first when put back |
| PiiTokeniser.SpellingsShareToken | packages/core/pii-tokeniser.ts:464-466 | a text with two spellings of one canonical value, neither the beginning of the other, is never restored |
| PiiTokeniser.KeysDoNotAlias | packages/core/pii-tokeniser.ts:148-159 | store keys are equal only for equal tenant and token |
| PiiTokeniser.ColonAliases | packages/core/pii-tokeniser.ts:148-149 | with a colon in a token they need not be |
| PiiTokeniser.KeysAliasExactly | packages/core/pii-tokeniser.ts:148-149 | two pairs share a store key if and only if they are the same pair once the colons of the token are moved to the tenant |
| PiiTokeniser.InMemoryIdentityStore.Register | packages/core/pii-tokeniser.ts:148-155 | for any token: fails exactly when the owner of the key has the token with another value, else adds that one entry |
| PiiTokeniser.InMemoryIdentityStore.Lookup | packages/core/pii-tokeniser.ts:157-159 | for any token: returns what the owner of the key registered, and nothing for any other; for a token without colon the owner is the caller |
| PiiTokeniser.Tokeniser.Tokenise | packages/core/pii-tokeniser.ts:223-243 | fails exactly when a token of the text is registered with another value; else gives the rewrite and leaves all its tokens registered; only adds to the store |
| LegalHolds.LegalHoldStore.PlaceLegalHold | packages/db/legal-hold.ts:154-184 | refused without the role; else the tenant is held from then on |
| LegalHolds.LegalHoldStore.RequestHoldRemoval | packages/db/legal-hold.ts:307-363 | errors in the order of the checks; else the hold waits for removal, with one new pending request |
| LegalHolds.LegalHoldStore.ApproveHoldRemoval | packages/db/legal-hold.ts:386-444 | refused to the requester; else request approved and hold removed together |
| LegalHolds.LegalHoldStore.RejectHoldRemoval | packages/db/legal-hold.ts:466-520 | request rejected and hold active again |
| LegalHolds.HoldsOverRuns | packages/db/legal-hold.ts:307-520 | after any calls: pending removal if and only if exactly one request is pending; removed if and only if a request was co-approved by a second actor; blocking its tenant until then |
| LegalHolds.OnlyOfficersAct | packages/db/legal-hold.ts:154-520 | after any calls every hold, request, approval and rejection in the tables comes from a call of a superuser or compliance officer, who is the one named in it |
| LegalHolds.RemovedStaysRemoved | packages/db/legal-hold.ts:307-542 | a removed hold stays removed whatever is called later, and no hold changes its tenant |
| Retention.DeleteExactly | packages/db/retention-engine.ts:380-470 | a deletion is refused exactly by a hold on the tenant or by a floor still ahead |
| Retention.EmptyTenantEscapesHold | packages/db/retention-engine.ts:398-405 | an active hold on the empty tenant id does not stop the deletion of an entity whose floor has passed |
| Retention.NamedTenantIsHeld | packages/db/retention-engine.ts:398-405 | under any other tenant id it does |
| Retention.ComplianceDb.CheckFloor | packages/db/retention-engine.ts:380-427 | the hold flag says whether the tenant is held, in which case the entity is blocked at all times; otherwise it is blocked exactly before the eligible time, which is there exactly with a policy and is its floor after creation |
| Retention.ComplianceDb.DeleteEntityPastRetention | packages/db/retention-engine.ts:444-470 | one deletion; it succeeds if and only if the entity is not there afterwards, and an entity already gone is no error |
| Retention.ComplianceDb.SelectEligible | packages/db/retention-scheduler.ts:182-198 | the oldest eligible rows, at most a batch |
| Retention.ComplianceDb.DeleteEach | packages/db/retention-scheduler.ts:200-249 | one result per row in order, saying deleted if and only if that row is gone afterwards; a row that cannot be deleted does not stop the others, and no other row changes |
| Retention.ComplianceDb.RunRetentionScheduler | packages/db/retention-scheduler.ts:145-266 | every result is true of its row, the deleted count is the number of entities that disappeared, deleted + skipped = scanned, and a scan below its batch size leaves no row that was past its floor and unheld |
| RetentionRuns.EveryDeletionIsSafe | packages/db/retention-scheduler.ts:182-249 | in every interleaving, a deleted row's floor had passed and every hold placed on its tenant before had since been asked to be removed by one actor and co-approved by another |
| RetentionRuns.SnapshotRowIsDeletedExactly | packages/db/retention-engine.ts:444-470 | a row of however old a snapshot is deleted if and only if no hold is on its tenant then |
| RetentionRuns.SchedulerIsARun | packages/db/retention-scheduler.ts:145-266 | a scheduler call is one of the runs the theorem is about |
| Approvals.ApprovalStore.CreateApprovalRequest | packages/db/approvals.ts:105-153 | refuses unknown operations and bad counts, else one pending request with the operation, requester and count that were given |
| Approvals.ApprovalStore.CastVote | packages/db/approvals.ts:187-286 | errors in order of the checks; else one vote and the status it leads to |
| Approvals.ApprovalStore.MarkExecuted | packages/db/approvals.ts:298-346 | only an approved request, and only once |
| Approvals.ApprovalStore.AssertApproved | packages/db/approvals.ts:467-491 | passes for an approved request only |
| Approvals.QuorumOverRuns | packages/db/approvals.ts:187-286 | after any calls, with M as the one call that created the request asked and the votes as the calls cast them: pending has fewer than M approvals and no rejection, approved and executed have exactly M from different approvers and none, rejected has exactly one, cast last |
| Approvals.RequestIsAsAsked | packages/db/approvals.ts:105-153 | every stored request carries the operation type, requester and required count of the one call that created it |
| Approvals.VotesAreCasts | packages/db/approvals.ts:187-286 | the votes on a request are exactly the calls on it that returned a vote, in order |
| Approvals.QuorumIsReachedOnce | packages/db/approvals.ts:237-286 | one vote of each approved request reports the quorum, none of any other; executed at most once and only after it |
| Approvals.ResolvedIsFinal | packages/db/approvals.ts:298-346 | a resolved request never changes again, except from approved to executed |
| MarketEvents.DedupFindsBestMatch | packages/db/mkt-market-event-store.ts:454-479 | nothing is returned if and only if nothing matches; else the match closest in date, oldest on a tie |
| MarketEvents.MarketEventStore.InsertMarketEvent | packages/db/mkt-market-event-store.ts:347-383 | a second event for one filing is not inserted |
| MarketEvents.MarketEventStore.IngestMarketEvent | packages/db/mkt-market-event-store.ts:454-479 | a match is returned and nothing is inserted |
| MarketEvents.MarketEventStore.TransitionMarketEventStatus | packages/db/mkt-market-event-store.ts:535-556 | a forbidden transition fails; else a compare-and-set |
| MarketEvents.SpacingNeedsNoReopening | packages/db/mkt-market-event-store.ts:498-509 | open events of one subject and type stay more than the window apart in every run if and only if the table never leads back to an open status |
| MarketEvents.ShippedTableKeepsSpacing | packages/db/mkt-market-event-store.ts:498-509 | the program's table is such a table |
| MarketEvents.OneEventPerFiling | packages/db/mkt-market-event-store.ts:347-383 | after any calls no two events are from one filing |
| KnowledgeStore.ConfirmedFactStore.InsertConfirmedFact | packages/db/mkt-knowledge-store.ts:248-292 | one new row, and the target's link if it is there and not yet set |
| KnowledgeStore.RunIsForest | packages/db/mkt-knowledge-store.ts:252-291 | after any inserts every link points to a later row that names the pointing row back |
| KnowledgeStore.LinksAreInjective | packages/db/mkt-knowledge-store.ts:280-288 | no fact succeeds two facts |
| KnowledgeStore.SelfTargetBreaksForest | packages/db/mkt-knowledge-store.ts:252-291 | why the drawn id must be new to the caller |
| KnowledgeStore.ExactlyOneCurrent | packages/db/mkt-knowledge-store.ts:314-330 | from any fact the links end at exactly one current fact |
| KnowledgeStore.InsertCountsCurrent | packages/db/mkt-knowledge-store.ts:280-288 | an insert adds one current fact and retires one exactly when its target is there and current |
| KnowledgeStore.RowsAreImmutable | packages/db/mkt-knowledge-store.ts:434-455 | rows are never deleted, moved or changed except for a missing link, set once |
| KnowledgeStore.RowsAreCalls | packages/db/mkt-knowledge-store.ts:248-292 | the rows are, in order, those of the calls that came first with their id, with all the content given |
| KnowledgeStore.ListDescends | packages/db/mkt-knowledge-store.ts:314-330 | what is listed later was inserted earlier, so nothing is listed twice |
| KnowledgeStore.ReplacementsAreListed | packages/db/mkt-knowledge-store.ts:248-330 | after any inserts every replacement is listed under the replaced fact's key if and only if every call that superseded a fact carried that fact's tenant, subject and attribute |
| KnowledgeStore.LinksComeFromCalls | packages/db/mkt-knowledge-store.ts:280-288 | the links keep the key if and only if the calls did |
| KnowledgeStore.ReplacementIsLost | packages/db/mkt-knowledge-store.ts:280-330 | two calls after which nothing is listed under the first fact's key |
| Encryption.SomeCipherIsLawful | packages/core/encryption.ts:172-223 | what is assumed of the cipher can be met |
| Encryption.ShippedRegistryIsDistinct | packages/core/encryption.ts:78-104 | the registry lists no field twice |
| Encryption.FieldRoundTrip | packages/core/encryption.ts:172-223 | with encryption on, decrypting an encrypted field gives the plaintext if and only if it has no leading byte order mark |
| Encryption.DisabledPassesThrough | packages/core/encryption.ts:172-223 | with encryption off both directions are the identity, on every text |
| Encryption.BomIsLost | packages/core/encryption.ts:198-223 | a concrete text that is not read back |
| Encryption.EncryptProperties | packages/core/encryption.ts:231-247 | the field loop encrypts each sensitive string once and leaves the rest |
| Encryption.DecryptProperties | packages/core/encryption.ts:256-272 | the field loop fails if and only if some sensitive string does not open |
| Encryption.RecordRoundTrip | packages/core/encryption.ts:231-272 | a record reads back as written if and only if no sensitive string has a leading byte order mark |
| KmsBackfill.NeedsBackfill | packages/db/kms-backfill.ts:135-144 | true exactly when some sensitive field holds a string without the prefix |
| KmsBackfill.EncryptPlaintextFields | packages/db/kms-backfill.ts:153-166 | encrypts those fields and no other |
| KmsBackfill.UpgradeSettles | packages/db/kms-backfill.ts:135-166 | the result needs no backfill; with encryption off it is the record itself |
| KmsBackfill.UpgradeIsInvisible | packages/db/kms-backfill.ts:153-166 | readers decrypt the same before and after if and only if no byte order mark is lost |
| EntityTable.CursorMoves | packages/db/kms-backfill.ts:205-223 | behind the id of any row of the type come exactly the rows after it |
| BackfillPasses.NextBatch | packages/db/kms-backfill.ts:208-223 | in a table already partly rewritten the next SELECT gives the next unvisited rows, and none only at the end |
| KmsBackfill.Entities.BackfillRow | packages/db/kms-backfill.ts:225-254 | one row is skipped, updated or counted as an error, and no other row changes |
| KmsBackfill.Entities.BackfillType | packages/db/kms-backfill.ts:202-264 | the cursor loop terminates, visits every row of the type exactly once for any batch size from 1, and nothing for 0 |
| KmsBackfill.Entities.BackfillEntities | packages/db/kms-backfill.ts:184-271 | table and report after all types, with faults at any row |
| BackfillPasses.ProcessedOnce | packages/db/kms-backfill.ts:202-264 | for distinct types a row is processed once if its type is listed and else not at all |
| BackfillPasses.ScannedIsEligible | packages/db/kms-backfill.ts:222-223 | for distinct types the scanned count is the number of eligible rows |
| BackfillPasses.CountersAddUp | packages/db/kms-backfill.ts:223-254 | scanned = updated + skipped + errors |
| KmsBackfill.RunIsInvisible | packages/db/kms-backfill.ts:184-271 | over a whole run with faults, a row reads the same before and after if and only if encryption is off, no pass over its type writes it, it does not decrypt, or it has no byte order mark to lose |
| KmsBackfill.RerunUpdatesNothing | packages/db/kms-backfill.ts:184-271 | after a run without errors and with encryption on, another run over any of its types updates nothing |
| KmsBackfill.OffRunChangesNothing | packages/db/kms-backfill.ts:184-271 | with encryption off no run changes a row |
| KmsBackfill.OffRunRepeats | packages/db/kms-backfill.ts:184-271 | so a second run gives the same report |
| KmsBackfill.UpdatedIsChanged | packages/db/kms-backfill.ts:225-254 | with encryption on and writing, updated is the number of rows the run changed, unless updates were applied that reported an error; then it is between that and the sum with errors |
| KmsBackfill.DryRunForetells | packages/db/kms-backfill.ts:232-246 | over distinct types and successful writes a dry run changes nothing and reports what the run would |
| ImapWorker.LandMessages | packages/core/imap-etl-worker.ts:238-253 | lands the first new messages with source, up to the batch size and at least one |
| ImapWorker.FreshOfResponse | packages/core/imap-etl-worker.ts:228-248 | the guards undo a range the server reads backwards |
| ImapWorker.FetchNewMessages | packages/core/imap-etl-worker.ts:390-414 | for any response: parsed and failed UIDs in order, and the highest UID or 0 |
| ImapWorker.HighestIsMaximum | packages/core/imap-etl-worker.ts:402-405 | that UID is the maximum of those landed |
| ImapWorker.BatchEndsHighest | packages/core/imap-etl-worker.ts:402-405 | in a mailbox it is the last one landed, which is why the checkpoint passes nothing that was not |
| ImapWorker.UidsPartition | packages/core/imap-etl-worker.ts:399-414 | every landed message is in exactly one of the two lists by whether it parses |
| ImapWorker.PartitionIsDisjoint | packages/core/imap-etl-worker.ts:399-414 | no UID is in both |
| ImapWorker.DeliveredExactlyOnce | packages/core/imap-etl-worker.ts:226-257 | over any run of polls and arrivals the delivered messages are exactly those with source up to the checkpoint, none twice |
| ImapWorker.PollDelivers | packages/core/imap-etl-worker.ts:238-253 | each poll delivers as many as its batch size, one for a batch size of 0, or all that remain |
| ImapWorker.PollsDrain | packages/core/imap-etl-worker.ts:238-253 | enough polls deliver everything while no mail arrives |
| ImapWorker.DirectSaveIsPoll | packages/core/imap-etl-worker.ts:121-139 | saving the highest UID as it is keeps exactly-once if and only if something remains or nothing was delivered |
| ImapWorker.DirectSaveDeliversTwice | packages/core/imap-etl-worker.ts:394-396 | otherwise the next fetch starts with a message already delivered |
| ColdArchive.KeyInjective | packages/db/mkt-trade-replay.ts:678-679 | different alerts have different object keys |
| ColdArchive.StepKeepsInv | packages/db/mkt-trade-replay.ts:677-704 | each write, stop, edit or scan by any worker keeps: cold implies recorded, recorded implies uploaded, no alert recorded twice |
| ColdArchive.RunsAreSafe | packages/db/mkt-trade-replay.ts:657-709 | so does every run of any number of workers stopping anywhere, and manifest rows with their retention dates never change |
| ColdArchive.RowsAreAsRecorded | packages/db/mkt-trade-replay.ts:684-692 | every manifest row carries the key and the two dates of the step that recorded its alert first |
| ColdArchive.ObjectIsScannedAlert | packages/db/mkt-trade-replay.ts:665-704 | after any run an alert's object is the alert as it was read by the scan whose upload came last, and agrees with its row unless the alert was edited since |
| ColdArchive.EditIsLost | packages/db/mkt-trade-replay.ts:665-704 | if something edited archived alerts, an edit between scan and mark would be lost; the condition of the line above is needed |
| ColdArchive.ProcessIsRun | packages/db/mkt-trade-replay.ts:677-704 | one iteration, with a fault before or after any write, is a run of one worker |
| ColdArchive.RunMarksExactly | packages/db/mkt-trade-replay.ts:694-700 | the alerts that become cold are exactly those of the snapshot whose update took effect, even if it reported an error |
| ColdArchive.FaultFreeRunArchivesAll | packages/db/mkt-trade-replay.ts:665-708 | a run without faults leaves no alert hot that was eligible at its scan |
| ColdArchive.ColdStore.ArchiveOne | packages/db/mkt-trade-replay.ts:677-704 | the three writes in order up to the first error |
| ColdArchive.ColdStore.ArchiveColdAlerts | packages/db/mkt-trade-replay.ts:657-709 | a completed run counts every eligible alert once as archived or skipped; every run, crashed or not, keeps the stores safe |
| AuthLockout.LockoutStore.CheckLockout | packages/db/auth-lockout.ts:50-83 | when blocked, the retry time is the least whole number of seconds that unblocks |
| AuthLockout.LockoutStore.CountFailure | packages/db/auth-lockout.ts:89-100 | the first statement: one more failure, the deadline left as it is, a second for a new row |
| AuthLockout.LockoutStore.StoreDeadline | packages/db/auth-lockout.ts:102-132 | the rest: the deadline of the count it is given replaces the one that is there |
| AuthLockout.LockoutStore.RecordFailedAttempt | packages/db/auth-lockout.ts:89-133 | undisturbed, a call counts one failure and leaves the user free exactly from the end of that failure's wait, with no other row changed |
| AuthLockout.LockoutStore.ResetLockout | packages/db/auth-lockout.ts:138-148 | forgets the user's failures and no other's |
| LockoutRuns.RunKeepsInv | packages/db/auth-lockout.ts:89-133 | in every run of attempts that overlap at any statement: the row counts the failures and covers the wait of the failure at the mark, later failures have yet to store theirs, and each failure comes after the wait of the one c before it unless a wait was lost in between |
| LockoutRuns.FailuresAreSpaced | apps/server/src/api/passkey.ts:530-586 | with at most c attempts in flight whose deadlines are stored in the order of their counts, each failure comes after the whole wait imposed by the failure c before it |
| LockoutRuns.OneAtATimeIsInOrder | apps/server/src/api/passkey.ts:530-586 | attempts one after another store in that order |
| LockoutRuns.SpacedExactlyOneAtATime | packages/db/auth-lockout.ts:4-16 | with no record cut off, that spacing holds in every run with at most c attempts in flight if and only if c is 1 |
| LockoutRuns.LockIsErased | packages/db/auth-lockout.ts:102-126 | a run of two attempts at once with seven failures in 11 seconds |
| LockoutRuns.CutOffImposesNothing | packages/db/auth-lockout.ts:89-126 | a run of single attempts in which a record stops before its deadline is stored and the next failure comes at once |
| LockoutRuns.RunKeepsFewSlips | packages/db/auth-lockout.ts:102-126 | since the last success a wait was lost at most once for each of the first four failures, each record left over from before (fewer than c) and each one cut off |
| LockoutRuns.LockStillHolds | packages/db/auth-lockout.ts:102-126 | in whatever order deadlines are stored, from the fifth failure on every c failures cost 900 seconds, except as often as the line above allows |
| LockoutRuns.LockoutSlowsGuessing | apps/server/src/api/passkey.ts:530-586 | stored in order and without a success in between, the n-th failure comes at least LeastSpan(n, c) seconds after the first |
| LockoutRuns.SpanOneAtATime | packages/db/auth-lockout.ts:22-35 | for c = 1 that is 2^(n-1) - 1 seconds for n up to 5 and 15 + 900 (n - 5) from then on |
| LockoutRuns.SpanOverlapping | packages/db/auth-lockout.ts:22-35 | for any c, from the fifth failure on every further c failures add 900 seconds to it |
| LockoutRuns.FastestRun | apps/server/src/api/passkey.ts:530-586 | for every n and c some run that stores in order attains the bound |

## Left out

- SQL text, row-level security, connection pools, migrations, network calls, logging, tracing and configuration.
- The internals of SHA-256, HMAC, HKDF, AES-GCM and the key service. Each entity type has one key; data keys of a remote key service that do not survive a restart are not modelled.
- UTF-8 encoding of what is hashed or encrypted. Outside the JSON printer strings are sequences of Unicode scalar values, so a lone surrogate, which encoding replaces, does not occur.
- Numbers in JSON are identified by the text JavaScript prints for them, so 0 and -0 are one value. `undefined`, functions, dates and big integers do not occur in printed values.
- Options that are not whole numbers, such as NaN.
- `EmbeddingRateLimiter.reset` and the construction of limiters from the environment.
- Matching by the PII patterns: the matches are an input. Calling `tokenise` twice at once for one store.
- The audit writers that callers inject around hold, approval and retention calls, and their failures.
- Chains that several audit writers share.
- The per-type retention override, which the retention check never reads, and the entity's own hold flag after the scan, which the deletion does not read again.
- A retention policy assigned to a tenant or an entity changed between scan and deletion.
- Approvals.QuorumOverRuns: two votes interleaving inside `castVote` are not modelled; its row lock is read as covering the whole call.
- RetentionRuns.EveryDeletionIsSafe: a hold placed between the check and the DELETE of one deletion is not modelled; the two are one step.
- MarketEvents.SpacingNeedsNoReopening: an event inserted between another caller's dedup query and its insert is not modelled; the gate and the insert are one step.
- Calling the approval guard and then acting on its answer as two separate steps.
- KmsBackfill.RunIsInvisible: concurrent writers of a row, whose update the backfill would overwrite, are not modelled; nor is a failing SELECT, which ends the run.
- ImapWorker.DeliveredExactlyOnce: messages that disappear from the mailbox and a change of UID validity are not modelled. It counts messages with source; one without source that a poll has passed is never delivered.
- An editor of archived alerts: the archive runs allow one as a hypothesis; this program has none.
- Calendar arithmetic of retention dates in the archive: the date is an input, and the first one recorded stays.
- The removal of objects or manifest rows after retention.
- `pollLiveJournal`, trader analytics, export bundles, schema drift detection, feature flags, label clearance, tenant policies, cost summaries and the other transition tables: lookups and appends without a further property.
