# Servana operational tooling: verification model

This project models, in Dafny, the operational core of the Servana backend and proves
what that code is relied on for. Verify everything with `dafny verify dfyconfig.toml`.

- **Migrations.** The text scanners that mask and strip a migration's own transaction
  control, measured against a grammar of scripts, what the stripped text means to the
  database, what line endings do to all of that, the runner (`Connection.Migrate`), the runner as a machine of interleaved processes that share one advisory lock and may
  crash at any step, the ledger repair, the baseline "mark as applied" decision, and the
  enumeration of missing relations with the one query text in which it replays a file.
- **Routes and guards.** First-match dispatch, the sample test that looks for shadowed
  routes, the two bracket scanners, permission closures, and the report on incomparable
  guards of money functions.
- **Rewriting in place.** The client-manifest reconciler, which edits lines bottom-up, and
  the renderer of generated regions in hand-written documents.
- **Lifecycle.** Bounded concurrent start-up, bounded sequential drain, signal handling, as
  classes and as an event machine over every schedule.

Each file holds one module. Imperative code of the source is a method or a class whose
`ensures` ties it to a specification function; the laws about those functions are in the
`...Laws`, `...Safety` and `Residue`/`Interleaving` modules. Every lemma switches automatic
induction off, so that each induction is written out where it is used.

## What the proofs found

The code meets most of what its comments promise. Where it does not, the exact condition
or a concrete input is proved:

- One strip can leave transaction control behind (`COMMIT BEGIN; ;`). `ResidueIff` says
  exactly when, `NoResidue` gives the premise under which it cannot, and repeated stripping
  always ends.
- An empty residue is not what makes a file safe. A migration leaves nothing or its whole
  work with its row, whatever fails, if and only if its body is harmless
  (`AtomicIffHarmless`, and `AlwaysWholeIff` with crashes at any step): once the body has
  done some work, no statement of it ends the transaction, and it does not leave its work
  in a transaction of its own. A trailing `BEGIN`, or control in a body without work, is
  harmless. A body that is not harmless is recorded all the same when nothing fails
  (`TornIsRecorded`); one that rolls back is recorded without its work, and no later run
  tries it again (`RollbackIsRecorded`). What the ledger records and the pending list does
  not depend on the bodies at all (`RunRecordsPrefix`, `HoldWithoutSkipping`,
  `PrefixStaysPrefix`), nor do exclusion and the absence of collisions (`SafeOverAllRuns`).
- Any interleaving of any number of runners records what turns of some of them would, taken
  one after the other (`EveryRunIsSerial`). Every step of every interleaving commits nothing
  or a whole file if and only if every file that can be carried out in some order of turns is
  harmless (`EveryStepWholeIff`). For copies of one deployment that is the condition of the
  sequential runner: nothing is carried out because a file drifts, or the pending files
  before the first that must be held are harmless (`OneDeploymentIff`).
- Two kinds of residue-free files are not harmless: one that ends, after some work, in a
  `COMMIT` or the like without a semicolon (`ResidueFreeFileLeaks`), and one with a spelling
  of control that the pattern does not know, such as `END;` (`HiddenEndLeaks`). There is no
  third (`ResidueFreeBody`). Which texts the database reads as control is a parameter,
  `Reading`.
- The runner asks the stripped text whether a migration is destructive. The marker is lost
  if it stands between a control keyword and its semicolon (`MarkerCanBeErased`), and only
  then (`MarkerAfterStrip`).
- Line endings never change a checksum, nor what drifts or is pending. A checkout with
  `\r\n` is also scanned, held, carried out and recorded exactly like one with `\n`
  (`WindowsCheckoutIsTheSame`, `WindowsRunIsTheSame`). With `\r` alone it need not be: a
  line comment of the scanner ends at a line feed only (`CarriageReturnHidesControl`).
  `MacCheckoutIsTheSameIff` gives the exact condition, read off the text with `\n` at the
  first line comment that ends at a newline; without such a comment nothing changes.
- Line endings that hold a carriage return hide every removal marker, in every file
  (`ReturnsProveNothing`). The baseline mark of a `\r\n` checkout and the pending list after
  it equal those of an `\n` checkout if and only if no file that declares itself destructive
  proves its removal with `\n`; such files stay pending, so the mark fails closed
  (`WindowsMarkIff`).
- The ledger repair keeps the pending list exactly when no row of a file records an empty
  checksum, which the runner reads as no record (`RepairKeepsPendingIff`).
- A set of stand-ins is enough for a chain exactly when it contains the needs that nothing
  earlier creates (`EnoughIffFreeNeeds`). The enumeration of missing relations may return
  more (`EnumerationIsNotAlwaysLeast`), but only needs that an earlier file meets
  (`ConvergedIs`); it returns the least set exactly when no round reports one of those
  (`LeastIffEveryRound`), for instance when every file that feeds another needs nothing
  from outside the chain (`EnumerationIsLeast`).
- The sample test for shadowed routes decides inclusion except when an earlier literal
  segment is `7` where the victim has a parameter (`SevenIsAFalseAlarm`).
- One reconciler run is enough exactly when every row in need of a change can be written to,
  and what one run does not settle no number of runs settles (`OneRunOrNone`); a `callers`
  block on one line whose state comes from a spread is such a case
  (`SingleLineSpreadNeverSettles`).
- Several clients with a change in one row are searched for at line numbers taken before
  any insertion. `EditsRead` says what is then read of the block. A state from a spread is
  overridden unless the block is on one line, below which the new line lands; a key that
  counts is rewritten unless the lines inserted before have moved it behind the line that
  was the block's last. The others are reported and lost. One run on all manifests leaves
  nothing demanded if and only if every change takes effect in this sense
  (`OneRunReconcilesAll`).
- The embedded replay sends `BEGIN; ... ; COMMIT;` as one text. A line comment that runs
  to the end of the stripped file swallows the `COMMIT` (`ComposedStatements`). The file
  is then reported as applied with its transaction open (`OpenAfterReplay`), and a next
  file that fails undoes its work, unless it has ended a transaction before
  (`NextFailureUndoes`). For a file without control of its own this comment is exactly
  what decides (`PlainReplayIff`; `ReplayedWholeIff` for any file).
- Region rendering is idempotent on lines exactly when no generated body holds its own END
  marker, and on files exactly when no kept line still ends in a carriage return
  (`DoubledReturnNeedsTwoPasses`).
- If signal handlers were installed before initialisation, a drain could be overtaken by a
  phase that takes traffic again, exactly while initialisation is running
  (`OvertakenIffStillBooting`). In the server's order it cannot (`ServerStaysShutDown`).
- The timers of `withTimeout` do not keep the process alive (`src/lifecycle.ts:92-93`). If
  the last other handle goes while a step hangs, the process ends with code 0 in the middle
  of its drain, and the later steps are never attempted. That can happen exactly as long as
  some step is still open (`DrainLostIffStepOpen`), and to the start-up exactly as long as
  some dependency has no result (`BootLostIffPending`); while a handle stays, it cannot
  (`KeptAlive`, `KeptAliveExits`).
- A comment in `scripts/run-migrations.ts:116-134` says that a surviving `COMMIT` makes the
  runner's own `COMMIT` fail. The model follows PostgreSQL, where `COMMIT` outside a
  transaction is a warning.

## Model

| member | source | states |
|---|---|---|
| Masking.MaskFaithful | scripts/lib/migrationSafety.ts:73-84 | Masking keeps every offset and every newline, replaces characters by spaces only, and masking twice is masking once. |
| Masking.MaskLeavesNothing | scripts/lib/migrationSafety.ts:73-84 | After the four passes, in their order, none of the four patterns matches anywhere: no later pass exposes a match of an earlier one. |
| Masking.Monotone | scripts/lib/migrationSafety.ts:76-83 | Blanking cannot create a match of a masking pattern. |
| Lexical.MaskIsLexical | scripts/lib/migrationSafety.ts:73-84 | A script of code, dollar-quoted bodies, comments and literals is masked to itself with everything but the code blanked, delimiters included; the tag may be empty, bodies may hold any delimiter of a later pass. |
| Lexical.QuotedIsHidden | scripts/lib/migrationSafety.ts:73-106 | Behind any script and before any text, every character of such a body, comment or literal is a blank of the masked text, and no finding begins in it. |
| Lexical.DollarIsHidden | scripts/lib/migrationSafety.ts:77 | Before any text and behind any text without a dollar sign, a dollar-quoted body without one, its tag empty or an identifier, is blanked and hides its control. |
| Lexical.BlockIsHidden | scripts/lib/migrationSafety.ts:79 | The same for a block comment without a dollar sign, behind any text without one and without an opener, before any text. |
| Lexical.LineIsHidden | scripts/lib/migrationSafety.ts:81 | The same for a line comment, behind any text without a dollar sign, an opener or two hyphens. |
| Quoting.DollarIff | scripts/lib/migrationSafety.ts:77 | On any text: a dollar quote is an opening tag and the first closer behind it, the same tag or a bare one. |
| Quoting.BlockIff | scripts/lib/migrationSafety.ts:79 | A block comment is an opener and all up to the first closer; without one there is none. |
| Quoting.LineIff | scripts/lib/migrationSafety.ts:81 | A line comment runs to the line feed or the end of the text. |
| Quoting.QuoteIff | scripts/lib/migrationSafety.ts:83 | A literal is the longest stretch between quotes in which quotes come in pairs. |
| ControlPhrases.FoundIff | scripts/lib/migrationSafety.ts:86-87 | The findings are exactly the stretches of the masked text that are spelled as one of the five phrases in any letter case, with white space before the semicolon, and do not go on a word. |
| ControlPhrases.ReportedIs | scripts/lib/migrationSafety.ts:103 | A finding is reported in capitals, each stretch of white space as one blank. |
| ControlPhrases.StripsThePhrases | scripts/lib/migrationSafety.ts:95-127 | One finding for each such stretch in order, with its line counted from 1; stripping turns these stretches into blanks, newlines kept, and keeps every other character. |
| Stripper.StripTransactionControl | scripts/lib/migrationSafety.ts:118-127 | The loop that edits `out` match by match returns the text in which exactly the characters of control matches are blanked. |
| Stripper.CollectFindings | scripts/lib/migrationSafety.ts:95-106 | The loop over the matches returns the findings: line and reported text of each. |
| Stripper.FindingsAreTheMatches | scripts/lib/migrationSafety.ts:95-127 | The findings list matches, apart from one another and in order, each with the line on which it begins and its text; together they cover exactly the characters that stripping blanks. |
| Stripper.MaskKeepsLineNumbers | scripts/lib/migrationSafety.ts:98-102 | A line number counted in the masked text is the line number in the file, at every offset. |
| StripLaws.PassCommutes | scripts/lib/migrationSafety.ts:73-84 | A masking pass commutes with erasing a region whose edges the rest of the masking leaves solid. |
| StripLaws.MaskCommutesWithStrip | scripts/lib/migrationSafety.ts:118-127 | Masking the stripped text is erasing the same matches from the masked text: stripping damages nothing that masking hides. |
| Residue.ResidueIff | scripts/lib/migrationSafety.ts:516-517 | Stripping leaves a finding if and only if some keyword kept by it reaches a kept semicolon through white space and erased matches. |
| Residue.NoResidue | scripts/lib/migrationSafety.ts:516-517 | If every match begins a statement, nothing is left after one strip. |
| Residue.StripMakesProgress | scripts/lib/migrationSafety.ts:118-127 | A strip of a text with findings loses a semicolon. |
| Residue.StrippingTerminates | scripts/lib/migrationSafety.ts:118-127 | Repeated stripping reaches a text without findings within as many strips as there are semicolons. |
| Residue.MaskedStretchSurvivesOrVanishes | scripts/lib/migrationSafety.ts:118-127 | Every masked stretch survives stripping character for character, or is blanked whole because it lies inside one match. |
| Residue.MarkerAfterStrip | scripts/lib/migrationSafety.ts:190-198 | The destructive marker is in the stripped text exactly when one occurrence keeps all its characters; stripping never creates one. |
| Counterexamples.OneStripIsNotEnough | scripts/lib/migrationSafety.ts:516-517 | A text with two nested keywords that has residue after one strip. |
| Counterexamples.MarkerCanBeErased | scripts/run-migrations.ts:77 | A file that declares itself destructive and whose stripped text, which the runner asks, does not. |
| Counterexamples.CarriageReturnHidesControl | scripts/lib/migrationSafety.ts:81 | Two spellings of one file with the same checksum, of which only one has its COMMIT found. |
| SqlStatements.NoFindingsNoControl | scripts/lib/migrationSafety.ts:86-106 | A text without findings has no terminated statement of the five phrases that the pattern knows. |
| StatementTexts.StatementsAre | scripts/run-migrations.ts:94 | The statements of a text are, in order, what stands between the semicolons of its masked text and is not blank; one that spells a phrase is control, terminated exactly when a semicolon follows, and any other is work with its own text. |
| SqlStatements.StripPreservesMeaning | scripts/lib/migrationSafety.ts:118-127 | If every match begins a statement, the stripped text is the same list of statements, in order and with the same text, without its terminated transaction control. |
| BodySafety.ResidueFreeBody | scripts/lib/migrationSafety.ts:516-517 | Where the database knows no control that the pattern does not, a residue-free text is harmless to the runner's transaction if and only if it does not end, after some work, in an unterminated statement that ends the transaction. |
| BodySafety.StrippedBodyIsHarmless | scripts/run-migrations.ts:134 | The same for the body the runner executes, decided on the raw file, when every match begins a statement. |
| BodySafety.TrailingControlSurvives | scripts/lib/migrationSafety.ts:86-87 | A file whose last COMMIT has no semicolon: no residue, and the COMMIT is executed. |
| BodySafety.HiddenEndIsNotHarmless | scripts/lib/migrationSafety.ts:86-87 | `A;END;B;` has no residue, every match begins a statement, stripping changes nothing, and where the database reads `END` as PostgreSQL does the body is not harmless. |
| Checksum.ChecksumIgnoresLineEndings | scripts/lib/migrationChecksum.ts:44-55 | Rewriting a file in LF, CRLF or CR changes neither its normal form nor its checksum. |
| Checksum.SameChecksumIffSameContent | scripts/lib/migrationChecksum.ts:54-55 | With an injective hash two files have one checksum exactly when their CRLF forms are equal: nothing but line endings is forgotten. |
| WindowsFiles.WindowsCheckoutIsTheSame | scripts/lib/migrationChecksum.ts:23-29 | For every file, the spellings with LF and CRLF have the same findings and residue, declare the same, and ask for the same statements before and after stripping, up to line endings inside the text of work. |
| WindowsRuns.WindowsRunIsTheSame | scripts/run-migrations.ts:41-108 | If the database reads a text alike however its lines end, then from alike databases a run over a directory, any of whose files are checked out with CRLF, reports the same, commits alike transactions, records the same ledger, and meets the same drift; and each file is harmless in the one spelling exactly when it is in the other. |
| MacFiles.MacCheckoutIsTheSameIff | scripts/lib/migrationSafety.ts:73-106 | For every file, the spellings with LF and CR have the same matches if and only if none of either reading ends behind the place where the first comment that ends at a newline makes them part, and the same statements if and only if the statement in progress there runs to the end of both or none begins behind it; always so if no comment ends at a newline. |
| MacFiles.SameMatchesMean | scripts/lib/migrationSafety.ts:95-127 | With the same matches the two spellings are reported alike but for the line, which is always 1 with CR, are stripped alike and declare the same; and the stripped bodies have the same statements if and only if the condition above holds of the stripped masks. |
| MacFiles.StatementsMean | scripts/run-migrations.ts:94 | With statements at the same places the two spellings ask for the same, up to blanks inside the text of work. |
| Pieces.SameMatchesIff | scripts/lib/migrationSafety.ts:95-106 | Two masked texts that part at some offset have the same matches exactly when none of either ends behind it. |
| Pieces.SamePiecesIff | scripts/run-migrations.ts:94 | They have the same statements exactly when the statement in progress at that offset is ended by neither and read alike in both, or none is in progress and neither begins another. |
| Runner.ReadPlan | scripts/run-migrations.ts:41-48 | Either the first drifting file in order is named, or nothing drifts and the pending list is every unrecorded file in order, stripped, with the checksum of its raw text. |
| PlanLaws.PendingInOrder | scripts/run-migrations.ts:42-48 | The pending list is the files without a recorded checksum, each once, in the order of the directory. |
| PlanLaws.PendingIffNoRow | scripts/run-migrations.ts:40-48 | With no empty checksum in the ledger, a file is pending if and only if no row has its name. |
| PlanLaws.DriftsIff | scripts/run-migrations.ts:45-47 | With an injective hash, a file whose row was recorded for some text drifts exactly when it differs from that text in more than line endings. |
| PlanLaws.EditedFileStopsRuns | scripts/run-migrations.ts:47 | After any run, whatever the bodies do and whatever fails, a file that it reports as applied drifts exactly when its text is changed in more than line endings. |
| PlanLaws.PlainTextIsHashed | scripts/lib/migrationChecksum.ts:44-55 | A text without carriage returns is hashed as it is. |
| Runner.Connection.Query | scripts/run-migrations.ts:94 | A body is carried out statement by statement up to the first refusal; what it does outside a block is one implicit transaction, committed at the end of the text and undone by a refusal. |
| Runner.Connection.Insert | scripts/run-migrations.ts:95 | The ledger insert succeeds unless the database refuses it or a row for the name exists, and adds exactly that row. |
| Runner.Connection.Apply | scripts/run-migrations.ts:92-101 | BEGIN, body, insert, COMMIT, with ROLLBACK on any failure. |
| Runner.Connection.ApplyPending | scripts/run-migrations.ts:74-102 | The loop: hold at the first unauthorised destructive migration, stop at the first failure. |
| Runner.Connection.Migrate | scripts/run-migrations.ts:27-113 | A whole apply run from lock to unlock: on drift nothing changes and the first drifting file is named, otherwise the session and report of the loop over the pending list; the lock is released on every way out. |
| Acknowledged.AuthorisedIff | scripts/lib/migrationSafety.ts:372-380 | For any comma join of trimmed names with white space around them, a name is authorised if and only if it is one of them; the empty acknowledgement authorises none. |
| Acknowledged.RunHoldsTheUnnamed | scripts/run-migrations.ts:74-102 | Whatever the bodies do and whatever fails, a run applies and reaches only files that are not destructive or are named; what it holds is the rest of the pending list, which begins with the first destructive file that is not named. |
| Acknowledged.EverythingElseRuns | scripts/run-migrations.ts:74-102 | When nothing fails and nothing is recorded yet, everything before that file is applied. |
| RunLaws.ApplyOneIsAtomic | scripts/run-migrations.ts:92-101 | A harmless body commits all its work together with its ledger row or nothing, wherever the failure strikes. |
| RunLaws.ApplyOneRecords | scripts/run-migrations.ts:92-101 | Whatever its body does to the transaction and whatever fails, a migration adds exactly its row to the ledger if it is reported as applied, and nothing otherwise. |
| Harmless.HarmlessStep | scripts/run-migrations.ts:92-101 | A harmless body goes through each of its statements without committing anything. |
| Harmless.NothingEndsIsHarmless | scripts/run-migrations.ts:130-134 | A body in which nothing ends a transaction is harmless, whatever it begins. |
| Atomicity.AtomicIffHarmless | scripts/run-migrations.ts:92-101 | Under every fault a migration leaves nothing and reports failure, or its whole work with its row and reports success: if and only if its body is harmless. |
| Atomicity.AlwaysWholeIff | scripts/run-migrations.ts:28-102 | In every state of every run of one process on one file, crashes included, nothing or exactly the file with its row is committed: if and only if the file is held or its body is harmless. |
| Atomicity.TornIsRecorded | scripts/run-migrations.ts:92-101 | A body that is not harmless is reported as applied and recorded when nothing fails, and what it committed is not its work. |
| RunLaws.RunRecordsPrefix | scripts/run-migrations.ts:76-102 | Whatever the bodies do, a run records exactly the migrations before its stopping point, in order, and stops only at one that must be held, is refused, or is recorded already. |
| RunLaws.RunAppliesPrefix | scripts/run-migrations.ts:76-102 | If the pending bodies before the first that must be held are harmless, the run commits exactly those migrations, whole and in order. |
| RunLaws.PendingAfter | scripts/run-migrations.ts:42-48 | After the first pending files are applied, the next run's pending list is the others in the same order. |
| RunLaws.AfterRun | scripts/run-migrations.ts:41-102 | What the ledger and the pending list are after any run, whatever the bodies do; and the commits, if no harmful body is reached. |
| RunLaws.HoldWithoutSkipping | scripts/run-migrations.ts:74-108 | Whatever the bodies do, when nothing fails, applied followed by held is the pending list, held begins at the first unauthorised destructive file, and an unchanged later run applies nothing and holds the same list. |
| RunLaws.PrefixStaysPrefix | scripts/run-migrations.ts:42-108 | Whatever the bodies do, a ledger that records an initial part of the files records an initial part after any run, and nothing drifts. |
| RunLaws.PlanIgnoresLineEndings | scripts/run-migrations.ts:43-47 | Rewriting line endings in any convention changes neither which files drift, nor which are pending, nor the rows a run would record. |
| Interleaving.StepKeepsInv | scripts/run-migrations.ts:28-113 | Every step of every process, crash included and whatever the bodies do, keeps lock ownership, plan freshness and distinct ledger names, and adds to the ledger nothing or the row of the file that the acting process is at. |
| Interleaving.StepsKeepInv | scripts/run-migrations.ts:28-113 | The same over every sequence of steps. |
| Interleaving.StepKeepsWhole | scripts/run-migrations.ts:28-113 | If every file that some process can carry out, neither recorded nor held, is harmless, a step commits nothing or the whole work of the file that the acting process is at, with its row. |
| Interleaving.StepsKeepWhole | scripts/run-migrations.ts:28-113 | That premise and whole commits are kept over every sequence of steps. |
| Safety.SafeOverAllRuns | scripts/run-migrations.ts:28-102 | In every reachable state of any number of processes, whatever the bodies do: no name is recorded twice, at most one process is in its critical section, and no ledger insert can collide. If the files that can be carried out are harmless, each commit is one whole file with its row, and commits and ledger rows correspond one to one. |
| Safety.PrefixOverAllRuns | scripts/run-migrations.ts:28-102 | Over every interleaving, whatever the bodies do, the ledger records an initial part of the directory, and that part only grows. |
| Serial.EveryRunIsSerial | scripts/run-migrations.ts:28-102 | For every interleaving of any number of processes there is a plan of turns, none for the same process twice, each of pending files that need not be held, after which the ledger is the same; while a process holds the lock, its own turn is the last. |
| WholeRuns.EveryStepWholeIff | scripts/run-migrations.ts:28-102 | Every step of every interleaving commits nothing, or the whole work of the acting process's file with its row, if and only if every file that can be carried out in some order of turns is harmless. |
| WholeRuns.OneDeploymentIff | scripts/run-migrations.ts:28-102 | For any number of copies of one deployment: if and only if a file drifts or every pending file before the first that must be held is harmless. |
| Atomicity.CommitInBodyLeaks | scripts/run-migrations.ts:92-101 | For every file one of whose statements commits while work is pending, by `COMMIT` or by `END`, there is a run with a crash that commits the work without recording the file. |
| Atomicity.RollbackIsRecorded | scripts/run-migrations.ts:92-101 | For every file that rolls back its pending work at its end, the run on which nothing fails records it without its work, and it is never pending again. |
| Atomicity.ResidueFreeFileLeaks | scripts/run-migrations.ts:130-134 | A file with an empty residue whose work is committed without being recorded. |
| Atomicity.HiddenEndLeaks | scripts/lib/migrationSafety.ts:86-87 | Another, which uses a spelling that the pattern does not know. |
| SoloRun.RunnerIsAMachineRun | scripts/run-migrations.ts:27-113 | Whenever the lock is free, a whole sequential run of a waiting process, with any failures and with drift, is a run of steps of that process alone which ends with the same commits. |
| Repair.LedgerTable.Execute | scripts/repair-migration-ledger.ts:88-95 | One guarded UPDATE rewrites the rows of its name whose checksum differs, and tells whether any row changed. |
| Repair.LedgerTable.RunRepair | scripts/repair-migration-ledger.ts:77-110 | The emitted script applies the updates in file order. |
| Repair.LiteralIsOneLiteral | scripts/repair-migration-ledger.ts:75 | A name written with `sqlLiteral` is one string literal, whatever it contains. |
| Repair.LiteralStandsFor | scripts/repair-migration-ledger.ts:75 | Read back with its doubled quotes taken singly, the literal is the name. |
| Repair.RepairIsSafeAndSufficient | scripts/repair-migration-ledger.ts:65-110 | The repair keeps every row's name, touches no row without a file, leaves nothing that drifts, and a second repair changes no row. |
| Repair.RepairKeepsPendingIff | scripts/repair-migration-ledger.ts:99-101 | The pending list is unchanged if and only if no row of a file records an empty checksum. |
| Bootstrap.ProvesRemoval | scripts/lib/migrationSafety.ts:320-355 | Proven exactly when removals and anchors are declared, all anchors are in the baseline, and every pattern parses and matches nothing; a refusal always carries a reason. |
| RemovalMarkers.MarkerValueIff | scripts/lib/migrationSafety.ts:287-297 | A line declares a value if and only if it is white space, two hyphens, white space, the marker, white space, the trimmed value, and white space, on one line. |
| RemovalMarkers.ProvenIff | scripts/lib/migrationSafety.ts:320-355 | On the text: a file of such lines is proven if and only if it declares a removal and an anchor, every anchor occurs in the baseline, and every pattern parses and matches nothing there. |
| RemovalMarkers.MarkedIff | scripts/lib/schemaBaseline.ts:137-182 | From an empty ledger, a file is marked with the checksum of its text or stays pending: a destructive one by whether its declarations are satisfied, any other by whether everything that it makes is in the catalog. |
| RemovalMarkers.StillThereStaysPending | scripts/lib/migrationSafety.ts:343-352 | A destructive file one of whose patterns does not parse or still matches the baseline, or one of whose anchors is not in it, is absent, and pending after the mark. |
| RemovalMarkers.PlainLineDeclares | scripts/lib/migrationSafety.ts:287-297 | A line `-- MARKER value` declares its value. |
| WindowsMark.ReturnsProveNothing | scripts/lib/migrationSafety.ts:287-355 | No file whose lines end in CRLF or CR proves a removal, whatever it declares and whatever the baseline is. |
| WindowsMark.WindowsVerdict | scripts/lib/schemaBaseline.ts:137-182 | The verdict on a file is the same in LF and CRLF if and only if it is not a destructive file that proves its removal with LF; then the CRLF one is not marked. |
| Bootstrap.CurrentName | scripts/verify-baseline-ledger.ts:103-111 | Following renames terminates on every rename map, on a name of the chain that is un-renamed or lies on a cycle. |
| Bootstrap.CurrentNameIsUnique | scripts/verify-baseline-ledger.ts:103-111 | A chain contains at most one un-renamed name. |
| Bootstrap.CurrentIsTheEnd | scripts/verify-baseline-ledger.ts:103-111 | If the chain of a name ends at all, its current name is that end. |
| Bootstrap.HasFollowsRenames | scripts/verify-baseline-ledger.ts:113-119 | A table counts as present exactly when the catalog has it or has the name at the end of its renames. |
| RemovalMarkers.HasColumnIff | scripts/verify-baseline-ledger.ts:113-119 | A column counts as present exactly when it is in the table, or, where the catalog has no such table, in the one at the end of its renames. |
| Bootstrap.InsertKeeps | scripts/lib/schemaBaseline.ts:137-182 | The mark never changes a row that is there; it adds the missing names. |
| Bootstrap.MarkPartitionsHistory | scripts/lib/schemaBaseline.ts:137-182 | From an empty ledger, after the mark the runner's pending list is exactly the files some of whose effects the catalog lacks under their current names, in order, nothing drifts, no destructive file is marked without a proven removal, and a second mark changes nothing. |
| WindowsMark.WindowsMarkIff | scripts/lib/schemaBaseline.ts:137-182 | For whole directories, any of whose files are checked out with CRLF: the mark is the same, and so is the pending list after it, if and only if no file loses a proof of removal; the files without a record are those without one with LF, and those that lose a proof. |
| MissingRelations.ApplyChain | scripts/lib/embeddedEngine.ts:118-142 | Every file's outcome in order, each file that fails, for a missing relation or otherwise, rolled back; in stop mode the outcomes end with the first failure. |
| ChainOutcomes.OutcomesAre | scripts/lib/embeddedEngine.ts:118-142 | A file succeeds if and only if each of its statements can be carried out with what was there, what files that succeeded before it created, and what it created itself; otherwise the first statement that cannot says which relation is missing, or none. |
| Composed.MaskOfComposed | scripts/lib/embeddedEngine.ts:126 | `BEGIN; ... ; COMMIT;` is masked like its parts, except that a line comment which runs to the end of the text swallows the rest. |
| Composed.ComposedStatements | scripts/lib/embeddedEngine.ts:126 | The composed text asks for `BEGIN`, the statements of the file in order, and `COMMIT`, which is missing if and only if such a comment swallows it. |
| Replay.OpenAfterReplay | scripts/lib/embeddedEngine.ts:124-127 | When nothing fails, every file is reported as applied, and no transaction stays open if and only if no such comment swallows the commit or the file's own control ends the block. |
| Replay.ReplayedWholeIff | scripts/lib/embeddedEngine.ts:124-129 | Under every failure a file leaves its whole work in one transaction and success, or nothing and failure, with nothing open: without such a comment if and only if nothing ends the transaction once work is pending; with one if and only if the file ends the transaction itself, once and in the end. |
| Replay.PlainReplayIff | scripts/lib/embeddedEngine.ts:124-129 | A file without control of its own is a transaction of its own under every failure if and only if no such comment swallows the commit. |
| Replay.NextFailureUndoes | scripts/lib/embeddedEngine.ts:126-129 | A file that leaves work in its open block is reported as applied, and a next file that fails before its own text has ended a transaction takes that work back. |
| Replay.CommentOpenExists | scripts/lib/embeddedEngine.ts:126 | There are such files: `A;--x`. |
| MissingRelations.EnumerateMissingRelations | scripts/lib/embeddedEngine.ts:201-232 | Convergence means that no file misses a relation with stand-ins for the result, a universe smaller than the round limit converges, and rounds exceed the number of relations by at most one. |
| MissingRelations.EnoughIffFreeNeeds | scripts/lib/embeddedEngine.ts:188-200 | For every chain, stand-ins are enough if and only if they include each need that nothing earlier in the chain or the file creates. |
| MissingRelations.ConvergedIs | scripts/lib/embeddedEngine.ts:201-232 | For every chain, a converged enumeration holds all free needs and besides them only needs that an earlier file meets, and is the least sufficient set if and only if it is the set of free needs. |
| MissingRelations.LeastIffEveryRound | scripts/lib/embeddedEngine.ts:201-232 | It is the least if and only if no round reports anything but free needs. |
| MissingRelations.EnumerationIsLeast | scripts/lib/embeddedEngine.ts:201-232 | Files may feed one another: if whatever feeds needs nothing from outside, every round stays within the free needs and convergence is at the least sufficient set. |
| MissingRelations.EnumerationIsNotAlwaysLeast | scripts/lib/embeddedEngine.ts:201-232 | A chain of two files on which more is returned than is needed. |
| Permissions.ClosureOf | scripts/lib/capabilityParity.ts:258-268 | The worklist terminates on every graph, cycles included, and returns the least closed set that holds the inputs. |
| Permissions.ClosureIsReachability | scripts/lib/capabilityParity.ts:257-268 | A permission is in the closure exactly when a chain of requirements leads to it. |
| Permissions.ClosureIsIdempotent | scripts/lib/capabilityParity.ts:258-268 | The closure of a closure is itself. |
| Permissions.ClosureIsMonotone | scripts/lib/capabilityParity.ts:258-268 | More permissions, larger closure. |
| Permissions.ClosureOfUnion | scripts/lib/capabilityParity.ts:258-268 | The closure distributes over union. |
| MoneyGuards.GroupByCapability | scripts/lib/capabilityParity.ts:322-332 | The grouping holds exactly the reached capabilities that begin with one of the three money modules, each with the routes that reach it, in order. |
| MoneyGuards.MoneyIff | scripts/lib/capabilityParity.ts:270-278 | A capability is about money if and only if it is one of the three module names, written out, with anything behind it. |
| MoneyGuards.ReachingIsMembership | scripts/lib/capabilityParity.ts:324-332 | No route is lost or invented by the grouping. |
| MoneyGuards.IncomparableMoneyGuards | scripts/lib/capabilityParity.ts:318-352 | The report lists, capability by capability in the order of their first appearance, each pair of routes neither of whose closures contains the other, in the order of the routes; a pair is listed exactly if it is such. |
| MoneyGuards.CleanReportHasWeakestGuard | scripts/lib/capabilityParity.ts:307-317 | Without pairs, some route to each money capability demands no more than any other. |
| Brackets.SplitTopLevelArgs | scripts/lib/routeTable.ts:80-102 | The loop over depth, quote and current text computes the split. |
| Brackets.SplitInvertsJoin | scripts/lib/routeTable.ts:79-102 | Splitting the `", "` join of balanced, trimmed arguments without a top-level comma returns them. |
| Brackets.MatchingBracket | scripts/lib/adminSurface.ts:203-228 | The loop computes the scan; anything but an opener is refused. |
| Brackets.MatchingBracketIsGrammar | scripts/lib/adminSurface.ts:203-228 | On every bracketed group with nested groups, strings and escapes the scan ends at the group's own closer, and reports it exactly when the two are `()`, `[]` or `{}`. |
| Brackets.UnclosedIsNotFound | scripts/lib/adminSurface.ts:227 | A group that never closes is not found. |
| Paths.MatchIffPartsMatch | scripts/lib/routeTable.ts:352-362 | On a path made of parts the regular expression compares segment by segment. |
| Paths.MatchedIsRendered | scripts/lib/routeTable.ts:352-362 | Whatever the regular expression accepts is made of such parts. |
| Paths.SampleDecidesInclusion | scripts/lib/routeTable.ts:343-362 | The earlier route matches all that the victim matches if and only if it matches the victim's sample and has no literal `7` against a parameter. |
| Paths.FullPathKeepsSegments | scripts/lib/routeTable.ts:330-336 | Joining and tidying a mounted path changes no segment. |
| FullPaths.FullPathIs | scripts/lib/routeTable.ts:330-336 | A mounted path that begins with a slash is its segments, one slash before each and none behind the last, or a lone slash; one stays at the end only behind a line terminator. |
| FullPaths.SameSpellingIff | scripts/lib/routeTable.ts:330-336 | So two mounted paths are spelled alike exactly when their segments are the same. |
| Routes.FindShadowedRoutes | scripts/lib/routeTable.ts:377-396 | The report holds, in the order of the victims and once each, exactly the routes from which an earlier one takes their verb and their path or sample, with the first such route; it says duplicate exactly when the two paths are spelled alike. |
| Routes.ReportIs | scripts/lib/routeTable.ts:377-396 | The same of the specification, for the first routes. |
| Routes.CleanReportServesSamples | scripts/lib/routeTable.ts:370-396 | An empty report means every non-root route with a verb of its own answers its own sample request. |
| Routes.UnservedIff | scripts/lib/routeTable.ts:370-396 | No request reaches a route if and only if some single earlier route covers its verb and includes its path. |
| Routes.ReportIsExact | scripts/lib/routeTable.ts:377-396 | Without a literal `7` a route is reported exactly when no request can reach it. |
| Routes.SevenIsAFalseAlarm | scripts/lib/routeTable.ts:349 | With one, a route is reported and still served. |
| Reconcile.ReadContractRows | scripts/reconcile-client-manifests.ts:134-176 | The reading loop returns the rows of the specification, spreads first and explicit keys over them. |
| ReconcileSpec.StateIs | scripts/reconcile-client-manifests.ts:149-170 | The state read for a client is that of the last pair that names it, or else of the last spread whose defaults have it, and then it is implied; otherwise none is. |
| ReconcileSpec.ClosingIs | scripts/reconcile-client-manifests.ts:111-124 | A block closes in the first line in which a closing brace balances its braces. |
| Reconcile.DeriveChanges | scripts/reconcile-client-manifests.ts:267-284 | For one manifest: refused exactly when a row states nothing for the client; otherwise the changes, last row first. |
| Reconcile.WriteBack | scripts/reconcile-client-manifests.ts:324-334 | The splicing and overwriting loop computes the successive changes. |
| ReconcileSpec.WriteIs | scripts/reconcile-client-manifests.ts:330-333 | The first pair whose key ends with the client's name gets the new value, and nothing else of the line changes. |
| ReconcileSpec.OrphanIff | scripts/reconcile-client-manifests.ts:286 | A call is an orphan exactly when no row has its key. |
| ReconcileGuard.GuardIsCoverage | scripts/reconcile-client-manifests.ts:193-231 | With distinct, non-empty ids the guard passes if and only if every entry is followed, before the next one, by a `callers` block that closes. |
| ReconcileGuard.MissedAre | scripts/reconcile-client-manifests.ts:193-231 | A refusal names exactly the declared entries that were not read, in their order. |
| ReconcileLaws.ReadIsDoc | scripts/reconcile-client-manifests.ts:134-176 | Reading a file of entries and blocks yields one row per block, at its place and with its entry's id, method and path. |
| ReconcileLaws.ChangesDescend | scripts/reconcile-client-manifests.ts:321-324 | Changes are written in strictly descending order of line, and within the file. |
| ReconcileLaws.ApplyIsRewrite | scripts/reconcile-client-manifests.ts:312-334 | With line numbers taken before any change, writing back rewrites each block where it stands and nothing outside. |
| ReconcileLaws.OneRunReconciles | scripts/reconcile-client-manifests.ts:259-335 | After one run the same entries are read. Each row that could be written to reads `migrated` if it is called, `legacy` if it was migrated and is not, and what it read before otherwise; every other client's state stays. Nothing more is demanded, that is, each row is migrated if and only if it is called, exactly when every row in need could be written to; then another run changes nothing. |
| ReconcileLaws.DemandsNothingIff | scripts/reconcile-client-manifests.ts:279-284 | A manifest demands nothing exactly when each row is `migrated` if and only if it is called. |
| ReconcileLaws.ReconcileContract | scripts/reconcile-client-manifests.ts:233-335 | On one manifest the run ends in the first of these that applies: entries that were not read, a row that states nothing, calls to no contract row, or the file of that run written. |
| ReconcileLaws.OneRunOrNone | scripts/reconcile-client-manifests.ts:259-335 | After any number of runs the manifest demands nothing more if and only if it demands nothing more after one. |
| ReconcileLaws.SingleLineSpreadNeverSettles | scripts/reconcile-client-manifests.ts:325-329 | In every file with a one-line block whose state comes from a spread and must change, something is still demanded after any number of runs. |
| ReconcileLaws.SingleLineSpreadExists | scripts/reconcile-client-manifests.ts:325-329 | There are such files. |
| ReconcileClients.InsideIsBlock | scripts/reconcile-client-manifests.ts:134-176 | Whatever several clients' changes do to a block, the lines that are read of it are a block again; what lands below a block on one line is not among them. |
| ReconcileClients.EditsRead | scripts/reconcile-client-manifests.ts:312-334 | When several clients have a change in one row, the state that is read of each afterwards is the new one if and only if its change takes effect: a state from a spread, unless the block is on one line; a key, if it is the one that counts and has not moved behind the line that was the last. No other state changes. |
| ReconcileMany.ByLineIsStable | scripts/reconcile-client-manifests.ts:324 | The sort by descending line is stable: changes to one row keep the order in which they were found. |
| ReconcileMany.SortedByRow | scripts/reconcile-client-manifests.ts:262-324 | Sorted, the changes of all manifests are those of the last row, then of the one before, each in the order of the manifests. |
| ReconcileMany.ApplyAllIsRewrite | scripts/reconcile-client-manifests.ts:312-334 | With line numbers taken before any change, writing back all changes of all manifests edits each block where it stands and nothing outside. |
| ReconcileAll.OneRunReconcilesAll | scripts/reconcile-client-manifests.ts:259-335 | After one run on all manifests the same entries are read; where a client's change takes effect its row reads `migrated` if called and `legacy` if migrated before and not called, and everywhere else what it read before; nothing is demanded any more, that is, each client's row is migrated if and only if that client calls it, exactly when every change took effect. |
| ReconcileAll.ReconcileAllManifests | scripts/reconcile-client-manifests.ts:233-335 | The whole run, with or without `--check`: unread entries, no manifests, the first manifest that has a row without a state or a call without a row, agreement exactly when nothing is demanded, or the file of that run written. |
| Regions.RenderRegions | scripts/generate-api-docs.ts:608-641 | The index loop computes the rendering, or the first error. |
| RegionMarkers.OpensIff | scripts/generate-api-docs.ts:614-622 | A line opens a region exactly when it is the written-out marker around a name of letters, digits, colons, underscores and hyphens, with white space around it; `v1-moves:providerWeb` is such a name. |
| RegionMarkers.OneRegionRenders | scripts/generate-api-docs.ts:589-641 | A document with one region keeps everything around it; the two markers are written out anew around the block. |
| RegionLaws.RendersExactlyDocuments | scripts/generate-api-docs.ts:608-641 | A file renders exactly when it is prose and known, closed regions; each region becomes its generated block and every other line stays, in order. |
| RegionLaws.RefusedForAMarker | scripts/generate-api-docs.ts:618-634 | A file is refused if and only if a marker that is reached, outside skipped bodies, is malformed, unknown or unclosed. |
| RegionLaws.IdempotentIffStable | scripts/generate-api-docs.ts:601-641 | Rendering twice is rendering once, on all files, if and only if no generated body holds its own END marker. |
| RegionFiles.UnixByLine | scripts/generate-api-docs.ts:610-611 | Normalising a file takes one carriage return off every line but the last. |
| RegionFiles.WrittenFileIsFixedIff | scripts/generate-api-docs.ts:608-641 | The written file renders again, to itself if and only if no kept line, the last excepted, still ends in a carriage return. |
| RegionFiles.DoubledReturnNeedsTwoPasses | scripts/generate-api-docs.ts:610 | A file that two renderings change twice. |
| Lifecycle.Lifecycle.InitializeDependencies | src/lifecycle.ts:110-160 | One result per dependency, in order, by how and when its own promise settles, all within the longest limit; ready exactly when every required promise resolves within its limit; exit 1 only when asked for. |
| Lifecycle.Lifecycle.Shutdown | src/lifecycle.ts:210-233 | The phase changes first; every step is attempted in order whatever the others did, closed exactly when its promise resolves within its limit and failed exactly when it rejects within it; within the sum of the limits. |
| Lifecycle.SignalHandlers.Handle | src/lifecycle.ts:243-267 | The first signal drains and exits, with 0 exactly when every closing promise resolves within its limit; any later one changes nothing. |
| Lifecycle.ResultOf | src/lifecycle.ts:114-142 | A dependency is ready, failed or timed out by how and when its promise settles against its limit, and its duration is that time or the limit. |
| Lifecycle.OutcomeOf | src/lifecycle.ts:210-233 | The same for a step: closed, failed or timed out. |
| Lifecycle.BudgetIsTight | src/lifecycle.ts:210-233 | When nothing closes, the drain takes the whole sum of the limits. |
| Lifecycle.EndsIffSomeWork | src/lifecycle.ts:85-101 | The ends that the event machine allows a step are exactly those that some promise brings about under `withTimeout`. |
| Lifecycle.ReportsIffSomeWork | src/lifecycle.ts:114-142 | The same for a dependency. |
| LifecycleMachine.StepKeepsInv | src/lifecycle.ts:85-278 | Every event keeps the invariant of start-up, drain and phase. |
| LifecycleWorks.RunsFollowTheirPromises | src/lifecycle.ts:85-267 | Over every schedule in which the promises settle as given, results, readiness, outcomes and exit code are those of the promises: each result and outcome by its own, ready and exit 0 exactly when all that count resolve within their limits. |
| LifecycleSafety.SafetyOverAllRuns | src/lifecycle.ts:85-267 | Over every schedule: start-up ends within the longest limit with one result each, ready exactly when every required dependency is, at most one drain, every step in order within the summed limits, exit 0 exactly when all closed or the event loop ran empty. |
| LifecycleSafety.ServerStaysShutDown | src/app.ts:538-590 | In the server's order nothing leaves the shutting-down phase. |
| LifecycleSafety.OvertakenIffStillBooting | src/lifecycle.ts:144-146 | While the loop is kept alive, a drain can be overtaken by another phase if and only if initialisation is still running. |
| LifecycleSafety.HandlersFirstCanServeWhileDraining | src/lifecycle.ts:144-146 | With the handlers installed first, whatever the dependencies and steps, there is a run that is ready while it drains. |
| LifecycleSafety.NeverStuck | src/lifecycle.ts:85-101 | A process that has not ended can always go on without a signal, whatever hangs, and while a handle is live without losing it. |
| LifecycleSafety.DrainEndsSoon | src/lifecycle.ts:210-233 | A drain is over within as many events as it has milliseconds and steps left, and one. |
| LifecycleSafety.KeptAlive | src/lifecycle.ts:92-93 | While nothing takes the last handle away, the event loop does not run empty. |
| LifecycleSafety.KeptAliveExits | src/lifecycle.ts:210-267 | Over a run that keeps its handles, code 0 means that every step was attempted and closed. |
| LifecycleSafety.DrainLostIffStepOpen | src/lifecycle.ts:85-101 | A drain can end with code 0 and steps that were never attempted if and only if some step is still open. |
| LifecycleSafety.BootLostIffPending | src/lifecycle.ts:85-101 | The server can end with code 0 before it is up if and only if some dependency has no result yet. |

## Left out

- Text is a sequence of characters; the source counts UTF-16 code units.
- SHA-256 is a parameter `hash`; where the source relies on its result not being empty, that is a premise.
- The directory listing with its filter and sort, the remote acknowledgement, plan mode, configuration and console output of the runner.
- PostgreSQL's own lexer: statements are cut at the semicolons of the masked text. Which texts control the transaction is a parameter, but savepoints, `COMMIT AND CHAIN` and statements that refuse to run inside a transaction are not modelled.
- SqlStatements.NoFindingsNoControl: speaks of the five phrases of the pattern only; what other spellings do is the subject of `Harmless` and `Atomicity`.
- The SQL text of the repair script and of the baseline mark: their effect on ledger rows is modelled, the comments and the empty `VALUES` list when no file is reflected are not.
- `effectsOf`, `renameChain` and the schema replay: a catalog, a rename map and a file's effects are inputs (so `Bootstrap.MarkPartitionsHistory` does not read effects from a text, and `WindowsMark` supposes that they do not depend on line endings). The regular-expression engine of the removal patterns is a parameter.
- The order of the enumerated relations, which the source sorts; a migration is the needs and creations its statements have, and a statement that fails for any other reason. Such a statement fails in every round: failures that depend on the columns of a stand-in are not modelled.
- Route and mount parsing, Express features the code does not model; routes with the verb `all` as victims, whose samples have no verb of their own.
- `matchingParen`, `topLevelKeys`, `findDivergences`, `moneyRoutesWithoutPermission` and the migration scanner's advisory rules: the same scans and set comparisons over again.
- Reconcile.ReadContractRows: a line is its tag and the tokens found in it; the regular expressions that find them are not modelled, nor is a pair split over two lines, nor the parsing of the spread defaults.
- Reconcile.WriteBack: the replacement acts on the tokens of a line, not on its text.
- MissingRelations.ApplyChain: each file is one transaction there; `Replay` says exactly when that is so of the text that is sent.
- ReconcileAll.OneRunReconcilesAll: no client's name ends in another's (true of the five names in `scripts/generate-api-docs.ts:44`), and no key in a block ends in a client's name without being it; `OneRunReconciles` treats such keys for one manifest.
- Region names that JavaScript objects inherit (`constructor`) are unknown names here; reading and writing the files.
- Wall-clock time is counted in whole milliseconds; timers fire in the millisecond they are due, in any order with promises due at the same time. Whether some handle keeps the event loop alive is one bit. Console output and `readinessSnapshot`.
- The database is a list of committed transactions: row contents other than the ledger, isolation levels and the lock's wait queue are not modelled.
