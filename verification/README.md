# Flashcards backend: verified models

This project models the hand-written algorithms and protocols behind a spaced-repetition service and proves what they promise. Every `.dfy` file is one component; `dafny verify dfyconfig.toml` checks all of them.

**Cards query** (`CardsSql`, `CardsQuery`, `CardsQueryLaws`, `CardsSqlText`, `CardsPageWalk`, `CardsRowOrder`). A card query is compiled into SQL clauses with numbered placeholders, kept as syntax trees and evaluated in three-valued logic with NULLs. The generated WHERE is proved to be the request; the keyset cursor clause is proved to be "strictly after" in the generated ORDER BY; and fetching page after page from the null cursor returns every matching card once, in order, in `max(1, ceil(n/limit))` pages. Cursors carry ISO timestamps, which hold milliseconds, while the columns hold microseconds, so these laws are not unconditional: the exact condition is proved for the clause (the timestamps sorted by are whole milliseconds) and for the walk (cutting a page's last row down to milliseconds moves it past no matching card), with two cards a microsecond apart as the failing input. `CardsSqlText` writes the clauses as words with the service's own parentheses and proves that reading them back by SQL precedence gives the same meaning.

**Admin SQL** (`AdminLexer`, `AdminStatements`, `AdminStatementLaws`, `AdminValues`). Two separately written scanners, one stripping comments and literals and one splitting statements, are proved to be in the same lexical state at every index, both following one step function. From that come losslessness, commutation of splitting with stripping, and splitting as the inverse of joining. The last two are not unconditional: a blank beyond ASCII directly before a dollar sign counts as an identifier character, which keeps a dollar quote from opening, and trimming a statement removes that blank. A segment without such a margin "trims cleanly"; the laws are proved segment by segment under that condition, which is exactly the condition for a statement to be lexed alone as it was in the batch, and failing inputs are given for each law. The result serialiser walks an object graph with a mutable set of active objects; it is proved to succeed exactly on values from which neither a cycle nor an unsupported value can be reached. An own member named `__proto__` is silently dropped, because the code assigns it to an object literal; the lemmas say exactly when.

**Card store** (`Lww`, `CardModel`, `CardUpdateSql`, `CardStore`, `CardMutationLaws`, `CardStoreLaws`, `CardMergeLaws`). Create, update, delete, the last-writer-wins upsert and the bulk forms with rollback act on a mutable store and are proved to be steps of a state machine, for which every run keeps the change log, the rows and the creation facts consistent. The upsert converges under every delivery order and duplication, but only under a condition, which is proved exact: a snapshot that omits its card type or metadata keeps what earlier deliveries left. The condition is given both for a new card and for deliveries onto a stored one.

**Attachment checks** (`Bytes`, `Png`, `Zip`, `Base64`). The byte walks are proved against independently written formats: PNG chunks (sections 5.2 and 5.3 of the W3C PNG Specification), ZIP local entries and the end record (sections 4.3.7 and 4.3.16 of PKWARE APPNOTE.TXT), and canonical base64 (sections 3.5 and 4 of RFC 4648). The ZIP walk gives up at an entry with an empty name; the lemmas say exactly what is then seen.

**Accounts** (`IdentityProtocol`, `IdentityRuns`, `IdentityProgress`, `IdentityAgreement`, `MergeHistory`, `AccountErasure`). Provisioning, deletion, the two halves of a guest upgrade (binding a guest account to a new subject, merging a guest away into an existing account) and authentication are processes that take one database step at a time, with failures, rollbacks and lost replies between any two; the safety results hold over every interleaving and from every resting state. That provisioning and authentication agree on a subject's user id is not one of them. An upgrade, of either kind, does not ask whether the guest it takes is already somebody's account, and a bound upgrade leaves the guest session live. So two subjects can come to share a guest account, and deleting one changes who the other is; and a subject can lose its account to a merge that another subject completes with the old guest session. Agreement is proved for all runs whose upgrades take only guests that are nobody's; every upgrade that does otherwise is shown to be able to break it; and the starting states from which no run can break it are characterised exactly, with and without upgrades. The recursive merge-history query is a worklist evaluated round by round, proved to end on cyclic histories and to return exactly the ids that lead to the account. The erasing transaction is a class over its tables.

**Reports and credentials** (`Calendar`, `Credentials`). UTC calendar dates (section 21.4.1 of ECMA-262), report ranges, agent API keys and the bearer-token dispatcher.

Where a law speaks through a definition, such as the column a sort key reads, the order of two stamps or the length of a month, a further lemma says what that definition comes to in the terms of the stored fields, characters or bytes themselves.

`Text` holds strings, trimming, joining and the option and result types.

## Model
| member | source | states |
|---|---|---|
| CardsQuery.NormalizeCardsQuerySorts | apps/backend/src/cards/queries.ts:170-185 | accepts exactly lists of at most three sorts with distinct keys, unchanged; otherwise names a key that really repeats |
| CardsQuery.BuildEffectiveCardsQuerySorts | apps/backend/src/cards/queries.ts:187-212 | the requested sorts come first and unchanged, createdAt is always present (descending when added), the last key is cardId ascending, and no key repeats if none did |
| CardsQuery.BuildCardsQueryCursorWhereClause | apps/backend/src/cards/queries.ts:248-286 | the growing arrays yield, for every width-matching cursor, the groups whose meaning CardsQueryLaws.CursorSelectsStrictlyAfter gives; a cursor of another width is refused |
| CardsQueryLaws.WhereMeans | apps/backend/src/cards/queries.ts:288-347 | the generated WHERE with its generated parameters is TRUE of exactly the live cards of the workspace that share a tag with the filter and contain every search token |
| CardsQueryLaws.CursorSelectsStrictlyAfter | apps/backend/src/cards/queries.ts:225-286 | for every sort list and every row, the clause for that row's cursor is TRUE of exactly the rows strictly after the row, cut to whole milliseconds, in the generated ORDER BY, NULL due dates in both directions included |
| CardsQueryLaws.CursorIsExactWhenPrecise | apps/backend/src/cards/shared.ts:53-59 | the clause means strictly after the row itself if and only if the timestamps the row is sorted by are whole milliseconds |
| CardsQueryLaws.OrderIsStrictTotal | apps/backend/src/cards/queries.ts:187-223 | the generated order is irreflexive and transitive, and total on distinct card ids |
| CardsQueryLaws.EveryPlaceholderIsBoundAndUsed | apps/backend/src/cards/queries.ts:408-465 | for every combination of optional clauses the statement mentions exactly the placeholders from $1 to the number of parameters |
| CardsSqlText.TextMeansClause | apps/backend/src/cards/queries.ts:225-347 | the words the clauses are written as, read with AND binding tighter than OR, have the value of the clauses for every row and all parameters |
| CardsQuery.QueryCardsPage | apps/backend/src/cards/queries.ts:396-481 | refuses exactly empty searches, bad limits, too many or repeated sorts and cursors of the wrong width, the first of these naming the error; otherwise returns the page whose content CardsPageWalk.PageIsASlice describes |
| CardsPageWalk.AllMatchingMeans | apps/backend/src/cards/queries.ts:413-424 | the full result holds exactly the matching cards in order, and the count query counts them |
| CardsRowOrder.MatchingCardsStandInOrder | apps/backend/src/cards/queries.ts:187-223 | any two matching cards stand in the order of the requested fields of the cards themselves, ties broken by the later creation time and then by the smaller card id |
| CardsRowOrder.FirstSortDecides | apps/backend/src/cards/queries.ts:214-223 | key by key and direction by direction, what the first requested sort says of two cards, on their fields: cards without due date first ascending and last descending, texts and joined tags lower-cased |
| CardsRowOrder.NewestFirstByDefault | apps/backend/src/cards/queries.ts:187-212 | without a requested sort the newest card comes first, and of cards created together the one with the smaller id |
| CardsRowOrder.MatchesReadsFields | apps/backend/src/cards/queries.ts:44-47 | a query matches a card exactly when its fields say so: live, in the workspace, one tag in common with the filter, every token in the lower-cased texts or in a lower-cased tag |
| CardsPageWalk.PageIsASlice | apps/backend/src/cards/queries.ts:433-480 | behind a clean cut, a page is the next `limit` cards behind its cursor, with a next cursor exactly when more remain |
| CardsPageWalk.WalkIsExact | apps/backend/src/cards/queries.ts:396-481 | if every page boundary is a clean cut, pages fetched from the null cursor number at most max(1, ceil(n/limit)), end exactly there, and together are every matching card once in ORDER BY order |
| CardsPageWalk.WalkContinues | apps/backend/src/cards/queries.ts:396-481 | if every page boundary is a clean cut, the cursor of a page that is not the last is accepted for the next page |
| CardsPageWalk.PagingIsExactWhenCutsAreClean | apps/backend/src/cards/queries.ts:396-481 | some walk ends having returned every matching card once and in order if and only if every page boundary is a clean cut |
| CardsPageWalk.PreciseTimestampsSuffice | apps/backend/src/cards/shared.ts:53-59 | whole milliseconds in the sorted timestamp columns make every boundary a clean cut |
| CardsPageWalk.MicrosecondsBreakPaging | apps/backend/src/cards/shared.ts:53-59 | two cards created one microsecond apart, paged by one oldest first, are never returned exactly once each |
| AdminLexer.GetDollarQuoteDelimiter | apps/backend/src/admin/query.ts:78-110 | the scan loop finds the delimiter that AdminLexer.DelimiterFoundExactly characterises |
| AdminLexer.DelimiterFoundExactly | apps/backend/src/admin/query.ts:78-110 | a delimiter is found at an index if and only if `$$` or `$identifier$` is written there and the character before allows an opening |
| AdminLexer.DollarQuoteCharacters | apps/backend/src/admin/query.ts:53-110 | by character codes: what a tag may start and go on with, and behind what nothing opens |
| Text.TrimmedCharacters | apps/backend/src/admin/query.ts:208-216 | by character codes: what trimming takes off |
| AdminStatements.StripSqlCommentsAndLiterals | apps/backend/src/admin/query.ts:112-206 | the flag-driven loop keeps what the lexer keeps, and the state it has at every index is the lexer's |
| AdminStatements.SplitAdminQueryStatements | apps/backend/src/admin/query.ts:208-340 | the second loop has the same state at every index of the trimmed text and collects the trimmed segments between separators, refusing blank ones before the last |
| AdminLexer.CutLaw | apps/backend/src/admin/query.ts:112-206 | lexing a text cut at a clean place is lexing the left part and then the right part from the state reached |
| AdminLexer.CutLawForSegments | apps/backend/src/admin/query.ts:208-340 | the statements of such a text are those of its two parts glued at the cut |
| AdminLexer.FirstRawStatement | apps/backend/src/admin/query.ts:208-340 | the first statement, cut out, is one whole statement by itself, and the text behind its separator splits into the others |
| AdminStatementLaws.SplitIsLossless | apps/backend/src/admin/query.ts:208-340 | the raw segments joined by semicolons are the trimmed batch; refused exactly when a segment before the last is blank |
| AdminStatementLaws.StrippedPieces | apps/backend/src/admin/query.ts:112-340 | for every text, the semicolon-separated pieces of the stripped whole are the raw segments, each stripped alone |
| AdminStatementLaws.SplitCommutesWithStrip | apps/backend/src/admin/query.ts:112-340 | every statement whose segment trims cleanly is, stripped and trimmed, the piece at its place in the stripped batch, trimmed; only a blank last piece has no statement |
| AdminStatementLaws.StripBeforeOrAfterTrim | apps/backend/src/admin/query.ts:112-216 | stripping the batch before or after trimming it gives the same pieces up to margins, if the batch trims cleanly |
| AdminStatementLaws.StatementTakesTheBatchsSteps | apps/backend/src/admin/query.ts:57-340 | a statement lexed alone passes the same positions in the same states as the scanners do over it in the batch if and only if its segment trims cleanly: no blank beyond ASCII directly before an opening dollar quote |
| AdminStatementLaws.AsciiSegmentsTrimCleanly | apps/backend/src/admin/query.ts:208-340 | where all white space is ASCII, the batch and every segment trim cleanly |
| AdminStatementLaws.StatementsAreFixed | apps/backend/src/admin/query.ts:208-340 | splitting a returned statement whose segment trims cleanly yields just that statement |
| AdminStatementLaws.SplitUndoesJoin | apps/backend/src/admin/query.ts:208-340 | if all segments trim cleanly, splitting the statements joined with newline and semicolon gives back the same list, the empty list included |
| AdminStatementLaws.NoBreakSpaceBreaksCommutation | apps/backend/src/admin/query.ts:57-110 | commutation fails for `$$` behind a no-break space: the blank is trimmed away yet blocks a dollar quote, so statement and piece differ |
| AdminStatementLaws.NoBreakSpaceSplitsAStatement | apps/backend/src/admin/query.ts:57-110 | the other two laws fail where such a `$$` stands before a string with a semicolon: the statement splits in two on its own, and so does the joined list |
| AdminStatementLaws.UncleanSegmentMayCommute | apps/backend/src/admin/query.ts:57-206 | a segment can fail to trim cleanly and still commute: `$$--$$$$` behind a no-break space keeps the same text either way |
| AdminValues.SerializeAdminQueryValue | apps/backend/src/admin/query.ts:417-468 | ends on every finite graph; on success returns the visible unfolding and leaves the active set as found; on failure the path names an unsupported value or an object on a cycle |
| AdminValues.SerializeCell | apps/backend/src/admin/query.ts:417-481 | succeeds if and only if no cycle and no unsupported value is reachable, equivalently a finite unfolding exists, and returns it; shared acyclic objects are accepted |
| AdminValues.UnfoldingIsUnique | apps/backend/src/admin/query.ts:417-468 | a value has at most one tree unfolding |
| AdminValues.UnfoldableIsClean | apps/backend/src/admin/query.ts:417-468 | a value with a finite unfolding reaches no cycle and no unsupported value |
| AdminValues.NothingHiddenExactly | apps/backend/src/admin/query.ts:454-464 | the result is the whole unfolding if and only if no object in it has an own `__proto__` member |
| AdminValues.OneMemberIsLost | apps/backend/src/admin/query.ts:454-464 | the lost key is `__proto__`, and any other key stays |
| AdminValues.DateTextMeans | apps/backend/src/admin/query.ts:49-51 | a date of whole seconds loses exactly its `.000`, every other date is written as it is |
| Lww.WinsIsStrictTotal | apps/backend/src/sync/conflicts/lww.ts:16-40 | the timestamp, replica and operation comparison is a strict total order on metadata triples |
| Lww.LaterWins | apps/backend/src/sync/conflicts/lww.ts:16-40 | a write wins if and only if its client time is later, or equal with a greater replica id, or both equal with a greater operation id, where the first differing byte decides and a proper prefix is smaller |
| CardModel.DedupeCardTags | apps/backend/src/cards/mutations.ts:65-79 | the loop keeps the first appearance of every tag |
| CardModel.DedupeHasNoRepeats | apps/backend/src/cards/mutations.ts:65-79 | the result has no repeats, and a list without repeats is unchanged |
| CardMutationLaws.DedupeStoresTags | apps/backend/src/cards/mutations.ts:65-79 | each tag once, in the order of first appearance |
| CardMutationLaws.CreateWrites | apps/backend/src/cards/mutations.ts:390-443 | every column of a created card, the refusals, the log entry and the creation fact |
| CardMutationLaws.UpdateWrites | apps/backend/src/cards/mutations.ts:474-524 | an edit changes exactly the supplied columns, the stamp and updatedAt of one live row of the workspace; the refusals in their order |
| CardMutationLaws.DeleteWrites | apps/backend/src/cards/mutations.ts:559-594 | a deletion marks one live row deleted at the client's time and keeps every other column but stamp and updatedAt |
| CardMutationLaws.UpsertWrites | apps/backend/src/cards/mutations.ts:273-377 | a snapshot creates a card or overwrites a stored one exactly when its stamp is later, column by column; an earlier one changes nothing |
| CardUpdateSql.BuildCardUpdateQueryParts | apps/backend/src/cards/mutations.ts:103-133 | for every combination of supplied fields, running the assignments with their parameters replaces exactly the supplied columns, whatever parameters follow; empty exactly when nothing is supplied |
| CardUpdateSql.BuildUpdateStatement | apps/backend/src/cards/mutations.ts:474-520 | executing the whole statement changes the one live row of that workspace and id, in the supplied columns, the metadata triple and updated_at, and selects no other row |
| CardUpdateSql.StatementIsTheEdit | apps/backend/src/cards/mutations.ts:91-133 | the statement for the normalised input is the edit the card store performs |
| CardStore.HasUniqueCardIds | apps/backend/src/cards/mutations.ts:145-150 | true exactly when no card id occurs twice in the batch |
| CardStore.Store.RecordCardSyncChange | apps/backend/src/cards/shared.ts:235-252 | appends one entry with the row's metadata triple and a fresh change id |
| CardStore.Store.FindLatestSyncChangeId | apps/backend/src/sync/replication/changes.ts:128-147 | the change id of the card's newest log entry, if any |
| CardStore.Store.UpsertCardSnapshotInExecutor | apps/backend/src/cards/mutations.ts:273-377 | insert, win, lose or workspace conflict, as the Upsert step of the state machine, with the whole new state; onto a stored card it is applied exactly when its stamp is later |
| CardStore.Store.CreateCardInExecutor | apps/backend/src/cards/mutations.ts:390-443 | the Create step, normalised tags and default type and metadata included |
| CardStore.Store.UpdateCardInExecutor | apps/backend/src/cards/mutations.ts:474-524 | the Update step; nothing supplied, missing and deleted cards leave the state alone |
| CardStore.Store.DeleteCardInExecutor | apps/backend/src/cards/mutations.ts:559-594 | the Delete step: a soft delete of one live card |
| CardStore.Store.UpsertCardSnapshot | apps/backend/src/cards/mutations.ts:379-388 | the committed or rolled-back upsert, creation facts reported only after commit |
| CardStore.Store.CreateCards | apps/backend/src/cards/mutations.ts:457-472 | all creations or none; empty and over-long batches refused without change |
| CardStore.Store.UpdateCards | apps/backend/src/cards/mutations.ts:539-557 | all updates or none; also refuses repeated ids |
| CardStore.Store.DeleteCards | apps/backend/src/cards/mutations.ts:608-628 | all deletions or none; also refuses repeated ids |
| CardStoreLaws.ApplyKeeps | apps/backend/src/cards/mutations.ts:273-594 | each mutation keeps the invariant; an applied write adds one log entry carrying its stamp, any other outcome changes nothing, and the returned change id is the card's newest |
| CardStoreLaws.EmptyStoreIsConsistent | apps/backend/src/cards/mutations.ts:273-628 | the store every run starts from satisfies the invariant |
| CardStoreLaws.EveryRunIsConsistent | apps/backend/src/cards/mutations.ts:273-628 | over every run of transactions with rollbacks: newest log entry equals the row's triple, entries equal applied writes, rows are never removed or moved, one creation fact per card |
| CardStoreLaws.OrderFreeOutcome | apps/backend/src/cards/mutations.ts:273-377 | when order cannot matter the card ends with the newest snapshot's columns, and with createdAt of the first delivery |
| CardStoreLaws.ConvergesExactlyWhenOrderFree | apps/backend/src/cards/mutations.ts:273-377 | every order and duplication of the snapshots leaves the same card, createdAt aside, if and only if the newest states its type and metadata or all creations would agree on them |
| CardStoreLaws.ReplayIsNoOp | apps/backend/src/cards/mutations.ts:273-377 | replaying any snapshot delivered to a new card changes nothing and reports that it was not applied |
| CardMergeLaws.OntoOutcome | apps/backend/src/cards/mutations.ts:273-377 | delivered onto a stored card, an order-free set of snapshots ends with the newest one's columns over the stored row, creation time kept, or with the stored row where nothing beats it |
| CardMergeLaws.ConvergesOntoExactlyWhenOrderFree | apps/backend/src/cards/mutations.ts:273-377 | onto a stored card every order and duplication leaves the same card if and only if nothing beats the stored row, or the newest states its type and metadata, or what the winning snapshots state is what is stored |
| CardMergeLaws.ReplayOntoIsNoOp | apps/backend/src/cards/mutations.ts:273-377 | replaying a snapshot delivered onto a stored card changes nothing |
| Png.HasPngStructure | apps/backend/src/chat/attachmentPolicy.ts:228-260 | true if and only if the bytes are the signature and a list of chunks whose first is IHDR of length 13 and whose only IEND is last, empty and ends the data |
| Png.PngFrame | apps/backend/src/chat/attachmentPolicy.ts:188-260 | the accepted bytes begin with the signature, a length of 13 and IHDR and end with a length of 0, IEND and a checksum, byte by byte |
| Png.SmallestPng | apps/backend/src/chat/attachmentPolicy.ts:228-260 | signature, header chunk and end chunk written out as bytes are accepted, whatever the high bits of their letters |
| Png.WalkStep | apps/backend/src/chat/attachmentPolicy.ts:233-259 | one turn of the walk decides, for any remaining bytes, whether they are a proper chunk list or what must follow for them to be one |
| Png.EncodeIsPrefixFree | apps/backend/src/chat/attachmentPolicy.ts:236-243 | a written chunk followed by anything reads back as that chunk and that rest |
| Zip.HasZipEndOfCentralDirectory | apps/backend/src/chat/attachmentPolicy.ts:294-298 | true if and only if an end-record signature lies in the last 65557 bytes |
| Zip.EndRecordSignature | apps/backend/src/chat/attachmentPolicy.ts:60-298 | that signature is the bytes 80, 75, 5, 6 |
| Zip.ZipSignatures | apps/backend/src/chat/attachmentPolicy.ts:211-215 | the three signatures a ZIP file may begin with, byte by byte |
| Zip.ReadZipLocalFileNames | apps/backend/src/chat/attachmentPolicy.ts:300-338 | the walk ends on all bytes and collects the names that Zip.WalkReadsEntries relates to written archives |
| Zip.HasOpenXmlPackageStructure | apps/backend/src/chat/attachmentPolicy.ts:340-347 | true exactly with a ZIP signature, an end record in the tail, and both names among those walked |
| Zip.WalkReadsEntries | apps/backend/src/chat/attachmentPolicy.ts:300-338 | from the first of any written entries the walk reads exactly the names before the first unnamed entry and, only if there is none, goes on behind them |
| Zip.DescribedEntryIsWalked | apps/backend/src/chat/attachmentPolicy.ts:311-334 | at an entry with a data descriptor the walk reads the name and goes on right behind the extra field, whatever size the header states |
| Zip.WalkIsCompleteWhenAllAreNamed | apps/backend/src/chat/attachmentPolicy.ts:323-331 | the walk over a written archive returns every entry's name if and only if no name is empty |
| Zip.ArchiveIsAccepted | apps/backend/src/chat/attachmentPolicy.ts:294-347 | an archive with a comment of at most 65535 bytes is accepted when both required names come before any unnamed entry; with an unnamed entry, only then |
| Base64.DecodeStrictStandardBase64 | apps/backend/src/chat/attachmentPolicy.ts:150-169 | accepts exactly text that, trimmed, is the canonical encoding of a nonempty byte string, and returns that byte string |
| Base64.EncodeDecodes | apps/backend/src/chat/attachmentPolicy.ts:57 | every encoding matches the pattern and decodes to what was encoded |
| Base64.Alphabet | apps/backend/src/chat/attachmentPolicy.ts:57 | the 64 symbols in the order of RFC 4648 |
| Base64.DataUrlNeverMatchesPattern | apps/backend/src/chat/attachmentPolicy.ts:145-154 | the data-URL check rejects nothing the pattern accepts |
| Base64.PaddingBitsMustBeZero | apps/backend/src/chat/attachmentPolicy.ts:160-163 | of the texts matching the pattern and decoding to one byte, only the one with zero padding bits re-encodes to itself |
| IdentityProtocol.RunKeepsSafe | apps/backend/src/auth/accountDeletion.ts:315-346 | every interleaving, from every state in which nothing runs, keeps locks matched to open transactions, and keeps true what each transaction has learnt about the tombstone |
| IdentityProtocol.StepIsSafe | apps/backend/src/auth/deletedSubjects.ts:16-59 | one action: tombstones only grow, Cognito users only go, only authentication still names a tombstoned subject, and a subject is tombstoned exactly by a real deletion of its data |
| IdentityProtocol.TombstonedSubjectsStayGone | apps/backend/src/auth/ensureUser.ts:100-118 | after the tombstone no process, even one already started, provisions or links the subject or deletes its data |
| IdentityProtocol.OneRealDeletion | apps/backend/src/auth/accountDeletion.ts:276-346 | under any retries and races a run deletes a subject's data by exactly one real deletion if it is what gave the subject its tombstone, and by none otherwise |
| IdentityProtocol.ReturnedDeletionIsComplete | apps/backend/src/auth/accountDeletion.ts:299-346 | a real deletion that returned normally, lost replies and retries included, left the tombstone set and the Cognito user absent |
| IdentityProgress.RetriedDeletionEnds | apps/backend/src/auth/accountDeletion.ts:315-346 | a deletion retried after the data is gone returns with the Cognito user gone and everything else unchanged; without a username it fails and changes nothing |
| IdentityProgress.FirstDeletionEnds | apps/backend/src/auth/accountDeletion.ts:276-346 | a first deletion run to its end leaves the resolved user, its mappings and sessions gone, the tombstone set, the Cognito user gone, and returns; without a username the call fails behind the erased data |
| IdentityProgress.DemoDeletionEnds | apps/backend/src/auth/accountDeletion.ts:292-343 | a demo deletion erases the user and returns, without tombstone and with the Cognito user kept |
| IdentityProgress.ProvisioningEnds | apps/backend/src/auth/ensureUser.ts:100-118 | a provisioning run to its end leaves the profile there and the subject mapped, to itself if it had no mapping |
| IdentityProgress.TombstonedRequestsEnd | apps/backend/src/auth/deletedSubjects.ts:28-36 | for a tombstoned subject a demo deletion returns and provisioning and upgrades fail, all without touching the database |
| IdentityProgress.UpgradeEnds | apps/backend/src/guestAuth/upgrade/index.ts:356-398 | a binding upgrade run to its end: whom it maps the subject to, when it fails, and that nothing else changes |
| IdentityProgress.MergeEnds | apps/backend/src/guestAuth/upgrade/index.ts:416-640 | a merging upgrade run to its end: when it fails, when it changes nothing, and what goes with the guest otherwise |
| IdentityProgress.GuestDropEnds | apps/backend/src/guestAuth/delete/index.ts:62-80 | a guest is dropped exactly if its session is live and no identity is mapped to it |
| IdentityProgress.OtherActionsMean | apps/backend/src/auth/index.ts:352-406 | a failure rolls back and frees the lock, a lost reply removes at most the Cognito user, and authentication names the mapped user or the subject itself |
| IdentityAgreement.OneUserBetweenDeletions | apps/backend/src/auth/index.ts:352-406 | from a state where nobody shares an account, in every run whose upgrades, binding or merging, take only guests that are nobody's, all events of a subject between its deletions and guest takeovers, the closing deletion included, name one user id, and nobody comes to share an account |
| IdentityAgreement.ResolutionChangesAtBoundaries | apps/backend/src/auth/userIdentities.ts:62-114 | under that guard only a subject's own deletion or guest takeover changes whom it resolves to |
| IdentityAgreement.FirstBreachBreaksAgreement | apps/backend/src/guestAuth/upgrade/index.ts:356-640 | every upgrade that breaches the guard, whichever run leads to it, is part of a run in which agreement fails |
| IdentityAgreement.MergeBreaksAgreement | apps/backend/src/guestAuth/upgrade/index.ts:416-640 | completing an upgrade with the live session of a guest that another subject has taken over deletes that guest and with it the other subject's mapping: it is authenticated as somebody else, though neither deleted nor sharing an account |
| IdentityAgreement.AgreementWithoutUpgrades | apps/backend/src/auth/ensureUser.ts:100-118 | without guest upgrades, every run from a fresh state agrees on user ids if and only if no two subjects share an account there |
| IdentityAgreement.AgreementWithUpgrades | apps/backend/src/guestAuth/upgrade/index.ts:356-640 | with guest upgrades, every run from a fresh state agrees on user ids if and only if no two subjects share an account and no guest session is live there |
| IdentityAgreement.SharedAccountBreaksAgreement | apps/backend/src/auth/userIdentities.ts:52-114 | whichever two subjects share an account, deleting one after the other's provisioning has read its mapping provisions the other for an account it is at once no longer authenticated as |
| IdentityAgreement.TwoUpgradesBreakAgreement | apps/backend/src/guestAuth/upgrade/index.ts:356-398 | wherever a guest has a live session, two new subjects can both take it over, and agreement then fails |
| IdentityAgreement.TombstonedStayUnmapped | apps/backend/src/auth/accountDeletion.ts:276-346 | in every run, whoever shares an account with whom, a tombstoned subject has no mapping |
| MergeHistory.LoadAnalyticsUserIdsForPerson | apps/backend/src/auth/accountDeletion.ts:107-133 | ends on every history, cyclic ones included, and returns exactly the ids from which some merge chain leads to the account |
| MergeHistory.SimplePathFits | apps/backend/src/auth/accountDeletion.ts:100-125 | a walk without repeats is no longer than the number of ids, which bounds the recursion |
| MergeHistory.Shorten | apps/backend/src/auth/accountDeletion.ts:107-125 | every merge chain can be walked without visiting an id twice, so skipping visited ids loses nothing |
| AccountErasure.AccountDb.AnonymizeProductAnalytics | apps/backend/src/auth/accountDeletion.ts:148-202 | in exactly the person's events both ids become the pseudonym, all six trace columns NULL and the state "anonymized", properties kept; every other event is untouched, and exactly the person's links go |
| AccountErasure.AccountDb.SoleMemberWorkspaces | apps/backend/src/auth/accountDeletion.ts:211-250 | the counting loop finds exactly the workspaces whose only member is the user |
| AccountErasure.CountOneIsSole | apps/backend/src/auth/accountDeletion.ts:238-250 | for a member's workspace, a count of one is sole membership |
| AccountErasure.AccountDb.DeleteAccountData | apps/backend/src/auth/accountDeletion.ts:204-274 | the whole effect of the transaction on settings, workspaces, memberships, events, links and history; the person's events keep no trace, column by column, and no event or link is left keyed by the person |
| AccountErasure.NoEventNamesThePerson | apps/backend/src/auth/accountDeletion.ts:148-202 | after the rewrite no event and no link is keyed by any id that leads to the account; and no event has one as its subject if and only if every event that did was keyed by one |
| AccountErasure.RemainingLinks | apps/backend/src/auth/accountDeletion.ts:177-201 | each of the person's links is gone and each other link remains as often as before |
| AccountErasure.OthersKeepTheirWorkspaces | apps/backend/src/auth/accountDeletion.ts:238-257 | no other member loses a membership or its workspace |
| Calendar.ParseAcceptsExactly | apps/admin/src/reports/reportValues.ts:7-28 | accepts exactly written Gregorian dates of the years 100 to 9999, with their day number |
| Calendar.ParseAcceptsByNumbers | apps/admin/src/reports/reportValues.ts:7-28 | acceptance by the written numbers alone: day 31 only in the seven long months, day 30 in all but February, 29 February only in leap years, no year before 100 |
| Calendar.ParseNeedsThePattern | apps/admin/src/reports/reportValues.ts:8-11 | ten characters: digits, and hyphens in the fifth and eighth place |
| Calendar.DayTable | apps/admin/src/reports/reportValues.ts:13-16 | the days before each month, as in the table of ECMA-262, section 21.4.1 |
| Calendar.EpochIsDayZero | apps/admin/src/reports/reportValues.ts:16 | days are counted from 1970-01-01 |
| Calendar.FormatInvertsParse | apps/admin/src/reports/reportValues.ts:30-35 | formatting a parsed date gives back the text if and only if its year is at least 1000 |
| Calendar.ParseInvertsFormat | apps/admin/src/reports/reportValues.ts:7-35 | parsing a formatted day of the years 1000 to 9999 gives back the day |
| Calendar.BuildRequestedDateRange | apps/admin/src/reports/reportValues.ts:60-79 | lists each day from first to last, in order, all entries different, dayNumber(to) - dayNumber(from) + 1 of them; refuses exactly invalid dates and reversed ranges |
| Calendar.BuildDefaultReportRange | apps/admin/src/reports/reportValues.ts:42-58 | thirty days back from the last available day, clamped; never outside a non-empty available range |
| Calendar.RangeHasNoRepeats | apps/admin/src/reports/reportValues.ts:30-35 | different days are written differently, in every year from 0 to 9999 |
| Calendar.CivilOfDayNumber | apps/admin/src/reports/reportValues.ts:16-23 | a valid date read back from its day number is the same date |
| Calendar.SetUtcDateShifts | apps/admin/src/reports/reportValues.ts:49-50 | moving the day of the month by k moves the date by k days across months and years |
| Credentials.CreateCrockfordToken | apps/backend/src/agent/crockford.ts:10-20 | the token has the requested length, symbol k chosen by random byte k modulo 32 |
| Credentials.CrockfordSymbols | apps/backend/src/agent/crockford.ts:3-4 | a symbol is valid if and only if it is a digit or a capital letter other than I, L, O and U |
| Credentials.CrockfordOrder | apps/backend/src/agent/crockford.ts:3 | the 32 symbols of the alphabet in order, by their codes |
| Credentials.NormalizedCharacters | apps/backend/src/agent/crockford.ts:26-32 | by character codes: blanks and hyphens go, small letters become capital |
| Credentials.ParseExactly | apps/backend/src/agent/apiKeys.ts:120-149 | accepted if and only if the normal form is FCA_, eight Crockford symbols, _, twenty-six Crockford symbols, which are the result |
| Credentials.IssuedKeyParses | apps/backend/src/agent/apiKeys.ts:120-149 | an issued key in any ASCII case, with white space and hyphens inserted anywhere, parses to its own id and secret |
| Credentials.RouteExactly | apps/backend/src/auth/mcpTokens.ts:164-179 | the dispatcher decides by the normal form alone; no text takes both branches |
| Credentials.IssuedKeyIsRoutedToItsParser | apps/backend/src/auth/mcpTokens.ts:164-179 | an issued key in any disguise reaches the key parser with its own id and secret |
| Credentials.IssuedTokenIsRoutedToItsLookup | apps/backend/src/auth/mcpTokens.ts:47-64 | an issued access token in any disguise reaches the lookup with its own secret |

## Left out
- AdminStatementLaws.SplitCommutesWithStrip: claims nothing for a segment in which trimming brings a dollar quote to the front that a blank beyond ASCII kept shut. The law can fail there (AdminStatementLaws.NoBreakSpaceBreaksCommutation); what fails for every such segment is that the statement takes the batch's steps.
- AdminStatementLaws.StatementsAreFixed: the same, with AdminStatementLaws.NoBreakSpaceSplitsAStatement as the failing input.
- AdminStatementLaws.SplitUndoesJoin: the same, with AdminStatementLaws.NoBreakSpaceSplitsAStatement as the failing input.
- IdentityAgreement.OneUserBetweenDeletions: assumes a guard the code lacks, that an upgrade takes only a guest that is nobody's account. Neither preparing nor completing an upgrade asks, and a bound upgrade leaves the guest session live. IdentityAgreement.FirstBreachBreaksAgreement shows that no upgrade may be let off.
- Settings-row locks (`SELECT ... FOR UPDATE` on org.user_settings) are not part of the identity model, so it allows some interleavings the database would delay. The safety results hold with them all the more; the failing runs spelled out here take no step that such a lock would block.
- The creation of guest accounts and sessions, and what a merge moves besides the guest's identity, are not part of the identity model; completing an upgrade again after its session is gone changes no identity and counts as a failed attempt.
- AccountErasure.NoEventNamesThePerson: takes the pseudonym to be none of the person's ids, since it is freshly drawn.
- Zip.ArchiveIsAccepted: does not cover entries with data descriptors, whose sizes the walk does not know; Zip.DescribedEntryIsWalked says what it does there.
- Credentials.IssuedKeyParses: upper-casing beyond ASCII is a parameter with stated assumptions.
- Base64.DataUrlNeverMatchesPattern: lower-casing beyond ASCII is a parameter with stated assumptions.
- Strings are sequences of Unicode scalar values, not of UTF-16 code units.
- Collation, LIKE and case folding of the database are parameters; collation is assumed to be a strict total order.
- Type errors that the database raises for forged cursors count as unknown; the base64url and JSON encoding of a cursor is not modelled, a cursor is its list of values.
- Search tokenisation and tag-filter normalisation come before the query model, which takes their results.
- Scheduler-state consistency checks, timestamp parsing and managed media of card mutations, and isolation of concurrent transactions below the workspace lock.
- The keyword deny-list of admin SQL, PostgreSQL's own lexing (nested comments, escape strings), sparse arrays and invalid dates among cell values.
- JPEG, GIF, WebP, PDF, OLE and plain-text attachment checks: single comparisons or byte filters; ZIP names stay bytes.
- Cognito usernames are identified with subjects; digests of subjects are injective; workspace locks and `auth.delete_user_auth_artifacts` of the erasing transaction.
- Token digests, key rows and expiry checks: only parsing, printing and dispatch are modelled.
- The lazily created database pools (apps/auth/src/db.ts, apps/backend/src/admin/reportingDb.ts): a short protocol that would only add easy members.
