# Verified models of DataQ's alerting core, release tooling and migrations

This project models the parts of the repository whose correctness cannot be read off one function:
the alert decision pipeline, the licence gate, the text transformations of the release tooling and
the webhook, and several stateful algorithms (migrations, incident pairing, the local vault, the
circuit breaker, the SMTP sink). `dafny verify dfyconfig.toml` checks it.

- `alert_pipeline.dfy`, `alert_routing.dfy`, `alert_coverage.dfy`, `alert_history.dfy`: duplicate detection,
  snoozing, routing and the order of the gates, and each decision in terms of results, status and order of
  runs alone; a transition system in which runs are created, start, finish
  and are dispatched in any order; and what a run's history can and cannot change.
- `fan_out.dfy`: one report through all channels, and what the caller is told.
- `license_lexer.dfy`, `license_parser.dfy`, `license_grammar.dfy`, `license_expressions.dfy`,
  `license_reading.dfy`, `license_spellings.dfy`, `license_classifiers.dfy`, `license_acceptance.dfy`:
  from the characters of licence metadata to the gate's answer. The recursive-descent parser with its shared position is a
  class; `EvalOr`, `EvalAnd` and `EvalAtom` specify it, and trees, their printing and their meaning are
  defined without it. The spellings table is a constant, and what the gate makes of malformed strings
  is said as well.
- `dependency_closure.dfy`: the worklist over packages and extras, against the least closed set.
- `changelog.dfy`, `changelog_lines.dfy`: rendering fragments, injecting the unreleased section, assembling a
  release, and the rendered text line by line.
- `webhook_template.dfy`, `webhook_paths.dfy`: the template renderer over JSON trees, its placeholder scanner,
  and what a placeholder stands for.
- `comment_scanner.dfy`: the line scanner against a character-level lexer.
- `number_format.dfy`, `number_notation.dfy`: printed numbers, a reader for what is printed, and the notation.
- `smtp_sink.dfy`, `smtp_commands.dfy`: the SMTP conversation, DATA with dot transparency (section 4.5.2 of
  RFC 5321), the mailbox, the command lines, and a session over TLS.
- `namespace_merge.dfy`, `namespace_uri.dfy`, `row_numbering.dfy`: three migrations over tables, and the
  stripping of a password from the authority of a URI.
- `incident_pairing.dfy`, `vault_tokens.dfy`, `circuit_breaker.dfy`: the algorithms of these names.
- `text.dfy`, `basics.dfy`: string operations and an optional value that several of these share.

Code that updates state is written as methods and classes, each tied to a function of its inputs or
of the old state; the theorems are about those functions. Code made of expressions is written as
functions.

## What turned out not to hold, and when it does

- The scanner's carried flag is not always the lexer's state. On files in which no examined line has
  overlapping delimiters (`/*/` or `*/*`), it is the state at every line end exactly when every skipped
  line leaves the state as it was and no other line ends in a line comment that leaves a block comment
  open (`CommentScanner.FlagIsLexedIffLinesKeepTrack`). A skipped line (a pragma line, the line below one,
  or a line with `console.log(` or `data-testid=`) can open one unseen
  (`CommentScanner.SkippedOpeningIsLost`); the line `///*` opens none, and the scan takes what follows for a
  comment (`CommentScanner.OpeningInALineCommentMisleads`). Overlapping delimiters mislead it in both
  directions (`CommentScanner.OverlapsMislead`).
- The circuit breaker starts with the deadline 0.0, so with a clock below zero it is open before any
  failure; without a trip it is closed exactly when the clock is not negative
  (`CircuitBreaker.UntrippedIsClosedIffClockNotNegative`).
- Injecting twice equals injecting once exactly on pages whose text after the marker is empty or
  begins with a `## ` heading (`Changelog.InjectingTwiceIsInjectingOnce`); on other pages the first
  injection puts the unreleased heading in front of text that the second one drops, such as any note
  right under the marker (`Changelog.NoteUnderTheMarkerIsDropped`).
- With snoozes, a failure can stay unsent: when the snooze ends between two identical failures, the
  second is a duplicate of the first and neither is sent (`AlertCoverage.ExpiredSnoozeIsNeverSent`). A
  failure is sent, by its run or one that covers it, exactly when some covering run passed both gates
  (`AlertCoverage.SentIffACoverPassed`); and as long as no snooze runs out between two runs of a suite,
  exactly when some covering run was dispatched with a failure nobody had snoozed
  (`AlertCoverage.LiveFailuresAreSent`).
- A repetition can be louder than the run it repeats: a failed run with a critical row has the
  signature of a plain failed run, is deduplicated against one, and its critical urgency and channel
  mention are never announced (`AlertCoverage.CriticalRowOfAFailedRunIsQuiet`). Nothing else is lost
  that way: urgency and mention are kept exactly unless the covered run failed as a whole with a critical
  row and the covering one has none (`AlertCoverage.DominatingRunIsAsLoud`).
- The licence gate accepts some malformed expressions. It takes four liberties: the token taken for a
  closing parenthesis is not looked at, so `(MIT(` passes (`LicenseAcceptance.UnclosedGroupPasses`); an
  operand may be missing at the end, so `MIT;` passes (`LicenseAcceptance.MissingOperandPasses`); a closing
  parenthesis or an operator word may stand for a licence, so `MIT OR )` passes
  (`LicenseAcceptance.OddOperandPasses`); and anything may follow WITH, so `MIT WITH (` passes
  (`LicenseAcceptance.OddExceptionPasses`). These are all: on all strings, what is accepted without taking
  one of them is exactly what the grammar grants (`LicenseAcceptance.AllowedIsGrantedOrTakesALiberty`), and
  which liberties a string takes does not depend on the tree read into it
  (`LicenseGrammar.LibertiesAreOfTheSymbols`).
- Greedy pairing is not always maximum when some shown checks have only a name
  (`IncidentPairing.NamesCanCostAPair`); it always reaches half of any pairing
  (`IncidentPairing.GreedyReachesHalf`), and all of it when every shown check has its id.
- The credential migration can abort: on a namespace whose port cannot be read, and when two edges
  (`NamespaceMerge.AlikeEdgesAbort`) or two active incidents become alike. It completes exactly when
  neither is the case (`NamespaceMerge.Connection.Upgrade`).
- Stripping a password keeps user, host and port of every authority whose host is not in brackets
  (`NamespaceUri.UserHostAndPortStay`). The brackets around an IPv6 address are not written again, so that
  address is not read back (`NamespaceUri.BracketedAddressIsLost`); the host is read back exactly when it
  holds no colon and no bracket (`NamespaceUri.StrippedNetlocReads`).
- A vault is lost exactly when a run initializes it and stops before the root token is saved, unless a
  file with that token was there (`VaultTokens.RootIsLostIffStoppedBeforeSaving`,
  `VaultTokens.LostIffSomeRunStopped`); from then on no run completes or changes anything
  (`VaultTokens.StopBeforeSavingIsForGood`).

## Assumptions

- The severity order is warn < fail < critical with ranks 1, 2 and 3; only succeeded runs have their
  results aggregated; a run evaluated a check when one of its results is neither skipped nor an error;
  the default policy is warn and above; a report's worst severity is the worst failing tier among the
  run's results; results do not change once a run is terminal.
- A run has at most one result for a check: results are a map. Ids are numbers, compared as the
  database compares the real ones. A dispatch reads the database at one moment.
- Case folding, word characters and digits are those of ASCII. Characters outside ASCII that
  `isdigit` accepts and `int` refuses would raise in the code.
- `json.dumps`, the search for references in a span, the URL library, the mail library and the search
  for a code in a mail are parameters. The clock readings of the breaker are parameters.
- Two laws are asked of the URL library (`NamespaceUri.LibraryLaws`): the authority's characters stand in the
  URI in their order, and a URI put together has the authority it was given, if it can be split again.
  User, password, host and port are read from the authority as Python's `urllib.parse` reads them.
- Identifiers of written licence expressions hold no blank, parenthesis, quote, semicolon or double
  colon, and more than dots.
- The vault has no other actor, each save is atomic, revoking a live accessor succeeds, and tokens do
  not expire.

## Model

| member | source | states |
|---|---|---|
| `AlertPipeline.LatestExists` | backend/app/alerting/dedup.py:40-49 | among any runs there is a last one by (created_at, id), so the predecessor query is well defined |
| `AlertPipeline.WorstSeverityIsWorst` | backend/app/alerting/builder.py:172 | the report's worst severity is the failing tier that occurs and that no result exceeds, and none exactly when nothing fails |
| `AlertPipeline.RankOfCheck` | backend/app/alerting/dedup.py:17-31 | the failure signature of a succeeded run has exactly its failing checks, each with the rank of its result |
| `AlertRouting.RoutingInPlainTerms` | backend/app/alerting/routing.py:30-58 | a run is sent iff the policy is always, it failed as a whole, or some result is fail or critical, or warn under the warn policy; urgency and mention are critical iff some result is, standard iff not that and some result is fail or the run failed, and quiet otherwise |
| `AlertRouting.ChannelSendsInPlainTerms` | backend/app/alerting/slack.py:189-194 | without settings a channel sends what the warn policy wants, with settings that are on what their policy wants, and with settings that are off nothing |
| `AlertRouting.SignatureInPlainTerms` | backend/app/alerting/dedup.py:17-31 | a signature holds exactly the warn, fail and critical checks of a succeeded run, and the run itself exactly when it failed |
| `AlertRouting.PredecessorInPlainTerms` | backend/app/alerting/dedup.py:34-49 | the predecessor is the run of the suite that failed, or succeeded with a check that passed or failed, before this one by (created_at, id), with no such run after it |
| `AlertRouting.DominatesInPlainTerms` | backend/app/alerting/dedup.py:52-62 | no rank rose iff a failed run stands against a failed one, and each failing check of a succeeded run failed in the other with the same tier or a worse one |
| `AlertRouting.DuplicateInPlainTerms` | backend/app/alerting/dedup.py:52-62 | a run is a duplicate iff it fails and its predecessor failed at least as badly wherever it does |
| `AlertRouting.DecisionInPlainTerms` | backend/app/alerting/dispatch.py:24-45 | each of the four decisions, and exactly when it is taken, in terms of statuses, results, snoozes and the order of runs |
| `AlertCoverage.TerminalRunsAreFrozen` | backend/app/alerting/dispatch.py:19-29 | no step changes a finished run, or the suite and creation time of any run |
| `AlertCoverage.RunsMoveForward` | backend/app/services/run_service.py:406-531 | a run is created queued, starts, and finishes once, with the status and results it is given; steps out of place change nothing |
| `AlertCoverage.ReachableWorldsAreSound` | backend/app/alerting/dispatch.py:24-45 | in every world any order of steps reaches, a dispatch was snoozed iff all failures of its run were, and a deduplicated run repeats an earlier finished run of its suite that failed at least as badly |
| `AlertCoverage.CoversInPlainTerms` | backend/app/alerting/dedup.py:34-62 | a run covers another iff it is that run or an earlier one of its suite, finished, and failed at least as badly wherever the other did, check by check |
| `AlertCoverage.NoFailureGoesUnannounced` | backend/app/alerting/dedup.py:17-62 | whatever the interleaving, once the finished runs of its suite up to a run are dispatched, that run is covered, key by key and rank by rank, by one run at or before it that passed the duplicate gate |
| `AlertCoverage.DominatingRunIsSent` | backend/app/alerting/routing.py:30-58 | a run that fails at least as badly everywhere is sent whenever the other is, under the same threshold |
| `AlertCoverage.DominatingRunIsAsLoud` | backend/app/alerting/routing.py:30-36 | a covering run is announced with at least the urgency and the mention of the covered one, iff not: the covered run failed as a whole with a critical row, and the covering one has none |
| `AlertCoverage.CriticalRowOfAFailedRunIsQuiet` | backend/app/alerting/dedup.py:19-28 | that case is reached: for any suite, check and times, a failed run with a critical row is deduplicated against a plain failed run, which was announced at standard urgency without a mention |
| `AlertCoverage.SentIffACoverPassed` | backend/app/alerting/dispatch.py:30-45 | with any snoozes, and the suite's notifications on under one policy up to a run: what is worth sending by its results, its status and that policy is sent, for it or a run that covers it, iff some covering run was dispatched with a live failure and not deduplicated |
| `AlertCoverage.LiveFailuresAreSent` | backend/app/alerting/dispatch.py:30-45 | when also the suite's runs up to it are dispatched, and what is snoozed at the dispatch of one is still snoozed at those of later ones: it is sent iff some covering run was dispatched with a live failure, so the duplicate gate hides nothing |
| `AlertCoverage.EverySendableFailureIsSent` | backend/app/alerting/dispatch.py:30-45 | without snoozes, with notifications on and one policy for the suite's runs up to it, whatever is worth sending by its results, its status and that policy was sent, for it or for an earlier run that covers it; other suites do not matter |
| `AlertCoverage.ExpiredSnoozeIsNeverSent` | backend/app/alerting/suppression.py:14-36 | for any suite, check and times: a snooze that ends between two equal failures leaves both unsent although the second is live |
| `AlertHistory.SilentRunsAreInvisible` | backend/app/alerting/dedup.py:34-62 | adding any runs of other suites, later runs or unexecuted runs to a history changes neither the predecessor nor the duplicate decision of a run |
| `AlertHistory.RunsThatSayNothing` | backend/app/alerting/dedup.py:37-44 | a run is passed over exactly when it is queued, running, cancelled, or succeeded with only skipped and error results |
| `AlertHistory.DuplicateIffNothingGotWorse` | backend/app/alerting/dedup.py:52-62 | a failing run is a duplicate exactly when it has a predecessor and no key's rank rose, so equal ranks are always deduplicated |
| `AlertHistory.PublishedIff` | backend/app/alerting/dispatch.py:24-45 | all gates together: published iff succeeded or failed, not silenced (failed as a whole, one failure nobody snoozed, or none at all), and not a repetition unless the suite always wants to hear |
| `AlertHistory.AlertRaisesTheSum` | backend/app/alerting/dedup.py:52-62 | in a stretch that never improves, a run that alerts has a larger sum of ranks than the one before |
| `AlertHistory.AlertVolumeIsBounded` | backend/app/alerting/dedup.py:17-62 | a stretch of succeeded runs of n checks that never improves alerts at most 3n times |
| `FanOut.DeliveredFirst` | backend/app/alerting/composite.py:23-55 | every channel is tried once, in order; the result is delivered iff one sent, else the last error, marked, or undeliverable when all skipped; no other error object is marked |
| `FanOut.TruthIsUnique` | backend/app/alerting/composite.py:46-55 | the channels' outcomes determine the result, the error object included |
| `FanOut.Publish` | backend/app/alerting/composite.py:64-74 | a run's report goes to every channel once, in order, and no failure reaches the caller |
| `FanOut.PublishConnectionHealth` | backend/app/alerting/dispatch.py:51-77 | true iff the connection exists and some channel really sent; a deleted connection is not announced |
| `LicenseParser.Parser.ParseOr` | scripts/check-licenses.py:139-145 | the method over the shared position returns and consumes what the specification function says, and terminates on the tokens left |
| `LicenseParser.Parser.ParseAnd` | scripts/check-licenses.py:147-153 | the same for AND |
| `LicenseParser.Parser.ParseAtom` | scripts/check-licenses.py:155-167 | the same for an atom, with the skipped WITH exception and the unchecked closing parenthesis |
| `LicenseParser.CheckAllowed` | scripts/check-licenses.py:134-170 | the gate is the specification on all strings: some token, a positive value, and nothing left over |
| `LicenseParser.LargerAllowSetNeverRefuses` | scripts/check-licenses.py:134-170 | a larger allow-set accepts every expression the smaller one accepts, well-formed or not |
| `LicenseParser.AcceptanceNeedsAGrant` | scripts/check-licenses.py:134-170 | an accepted string, well-formed or not, has a token that names an allowed licence |
| `LicenseGrammar.EvaluatorReadsTrees` | scripts/check-licenses.py:139-167 | the evaluator reads the symbols of any tree of the grammar to their end and returns the tree's value |
| `LicenseGrammar.AcceptsExactlyRelaxedTrees` | scripts/check-licenses.py:139-170 | the converse as well: whatever is accepted is the symbols of a tree with a positive value, where a group closes with any symbol its reading stops at and the last operand may be missing |
| `LicenseGrammar.NoLibertyIsWellFormed` | scripts/check-licenses.py:139-170 | the four liberties are all there are: a tree that is read and takes none is one of the grammar, in which licences and exceptions are names and groups close with a parenthesis |
| `LicenseGrammar.LibertiesAreOfTheSymbols` | scripts/check-licenses.py:139-170 | liberties, value and being well formed are the same for all trees read into the same symbols |
| `LicenseGrammar.AcceptedIsGrantedOrTakesALiberty` | scripts/check-licenses.py:139-170 | accepted symbols are those of an expression of the grammar with a positive value iff no liberty was taken |
| `LicenseExpressions.TreeHasTheTokens` | scripts/check-licenses.py:139-167 | the tokens of a written expression are the leaves of its tree, in order |
| `LicenseExpressions.KindsInPlainTerms` | scripts/check-licenses.py:142-165 | a token is taken for an operator iff it is its word in any case with any blanks around it, and for a parenthesis iff it is one |
| `LicenseExpressions.OperatorIsRead` | scripts/check-licenses.py:142-165 | every way to write an operator between operands is read as that operator |
| `LicenseExpressions.TreeIsRight` | scripts/check-licenses.py:134-170 | the tree of any written expression is read as it stands, obeys the precedence WITH, AND, OR, is one of the grammar iff no identifier is an operator word, and its value is the meaning of the expression |
| `LicenseReading.LexerReadsTrees` | scripts/check-licenses.py:129-131 | the splitter cuts a written expression into exactly its tokens |
| `LicenseReading.SeparatorIs` | scripts/check-licenses.py:130 | the separator at an operator is its word in any case with all the blanks on both sides |
| `LicenseReading.CuttingLosesOnlyBlanks` | scripts/check-licenses.py:125-132 | on all strings, the tokens put together are the string but for blanks |
| `LicenseReading.TokensAreTokens` | scripts/check-licenses.py:129-131 | on all strings, a token is a parenthesis, or holds none and is not blank |
| `LicenseReading.NormTreeIsRight` | scripts/check-licenses.py:119-128 | normalising a whole written expression yields a written expression with the same meaning |
| `LicenseReading.GateOnTexts` | scripts/check-licenses.py:125-170 | a list of texts that each normalise to a written expression is accepted iff one of these means an allowed licence |
| `LicenseReading.GateIsRight` | scripts/check-licenses.py:125-170 | with any table that `TableOk` admits: for every list of expressions written with SPDX precedence, their operators in any case and with any blanks around them, and joined by semicolons, the gate's answer is that one of them means an allowed licence |
| `LicenseReading.OperatorsMayBeWrittenAnyWay` | scripts/check-licenses.py:125-170 | the case of the operators of an expression and the blanks around them do not change the answer |
| `LicenseReading.SemicolonIsOr` | scripts/check-licenses.py:126-128 | a semicolon between two expressions means the same as OR |
| `LicenseSpellings.SpellingsAreOk` | scripts/check-licenses.py:74-112 | no spelling in the table can be taken for a compound expression, and every identifier in it is valid and its own normal form |
| `LicenseSpellings.GateIsRightAsShipped` | scripts/check-licenses.py:74-170 | with its own table the gate accepts a list of written expressions iff one of them means an allowed licence |
| `LicenseClassifiers.ClassifierIsNormalised` | scripts/check-licenses.py:119-122 | a spelling of the table in any case, blanks and parentheses included, with or without the headings of a classifier, normalises to the identifier it stands for |
| `LicenseClassifiers.WrappingIsDropped` | scripts/check-licenses.py:119-122 | blanks, quotes inside them and dots at the end do not change what a licence normalises to |
| `LicenseClassifiers.GateOnLicences` | scripts/check-licenses.py:119-170 | a list of written expressions, spellings and classifiers, with blanks, quotes and final dots around each, is accepted iff one of them means an allowed licence |
| `LicenseClassifiers.NormalisingFirstChangesNothing` | scripts/check-licenses.py:238-240 | joining the pieces after normalising them gives the same answer |
| `LicenseClassifiers.MetadataIsJudgedAsShipped` | scripts/check-licenses.py:74-170 | both with the table of the gate |
| `LicenseClassifiers.MitClassifierIsSayable` | scripts/check-licenses.py:74-75 | the MIT classifier is one of the texts these theorems are about |
| `LicenseAcceptance.AllowedExactly` | scripts/check-licenses.py:125-170 | on all strings: accepted iff some relaxed tree of the string's tokens has a positive value |
| `LicenseAcceptance.AllowedIsGrantedOrTakesALiberty` | scripts/check-licenses.py:125-170 | on all strings: what the grammar grants is exactly what is accepted without a liberty |
| `LicenseAcceptance.UnclosedGroupPasses` | scripts/check-licenses.py:161-164 | any allowed licence between two opening parentheses passes, by the unchecked closing token |
| `LicenseAcceptance.MissingOperandPasses` | scripts/check-licenses.py:142-158 | any allowed licence followed by a semicolon passes, by the missing operand |
| `LicenseAcceptance.OddOperandPasses` | scripts/check-licenses.py:159-167 | any allowed licence, OR and a closing parenthesis pass, by the odd operand |
| `LicenseAcceptance.OddExceptionPasses` | scripts/check-licenses.py:165-166 | any allowed licence, WITH and an opening parenthesis pass, by the odd exception |
| `DependencyClosure.BackendClosure` | scripts/check-licenses.py:273-326 | refused with the names of the installed roots that differ from their pins, iff there are such; otherwise the result is that of the least closed set: its packages, or the names that are not installed |
| `DependencyClosure.Search` | scripts/check-licenses.py:292-326 | the worklist terminates and computes the least set closed under requirements active for the empty extra or a requested one |
| `DependencyClosure.TakeExtras` | scripts/check-licenses.py:312-320 | each (package, extra) is settled once, and what it asks for goes on the list |
| `DependencyClosure.Push` | scripts/check-licenses.py:316-320 | exactly the pairs of the active requirements are added to what is pending |
| `DependencyClosure.LeastClosedIsReachable` | scripts/check-licenses.py:295-320 | the least closed set is what can be reached from the active roots, step by step |
| `DependencyClosure.LeastClosedIsUnique` | scripts/check-licenses.py:273-326 | there is one least closed set, so the specification leaves no choice |
| `DependencyClosure.OrderDoesNotMatter` | scripts/check-licenses.py:273-326 | listing roots or requirements in another order, or twice, changes nothing |
| `DependencyClosure.CanonicalNames` | scripts/check-licenses.py:115-116 | a canonical name is its own canonical form, and any two runs of dashes, dots and underscores name the same package |
| `DependencyClosure.CanonicalSpelling` | scripts/check-licenses.py:115-116 | two names are the same package iff they differ in the case of letters and in runs of marks alone; the canonical name has no capital letter and single dashes, and is the lower-cased name when there is no mark |
| `Changelog.CollectBlocks` | scripts/changelog.py:149-159 | the loop over the sections collects exactly the non-empty blocks, in release order |
| `Changelog.BulletHasNoHeading` | scripts/changelog.py:144-146 | no line of any fragment's bullet begins with a release heading |
| `Changelog.RenderingHasNoHeading` | scripts/changelog.py:149-159 | no line of the rendered sections looks like a release heading, whatever the fragments say |
| `Changelog.SortedIsAPermutation` | scripts/changelog.py:153 | the fragments of a section are ordered by number, newest first, then suffix, and none is lost or doubled |
| `ChangelogLines.NoFragmentIsLost` | scripts/changelog.py:149-159 | every line of every fragment stands in the rendered text, in order, the first behind a dash, the others behind two blanks or empty, and the title above is that of its section |
| `ChangelogLines.BulletByLines` | scripts/changelog.py:144-146 | a bullet has as many lines as its text: a dash and the first, two blanks and each other one, and an empty line for a blank one |
| `ChangelogLines.BulletsStandInOrder` | scripts/changelog.py:149-159 | bullets stand section by section in release order, and in a section newest number first, then by counter |
| `ChangelogLines.RenderedLineCount` | scripts/changelog.py:149-159 | nothing is added: the fragments' lines, a title and an empty line for each section that has one, and an empty line between sections |
| `ChangelogLines.InjectedText` | scripts/changelog.py:162-186 | the injected section holds the rendered fragments, or the note that there are none iff there are none |
| `ChangelogLines.VersionForm` | scripts/changelog.py:192-196 | three numbers with dots between them are a version, with a leading v or without, and both are the same release |
| `ChangelogLines.DateForm` | scripts/changelog.py:194-195 | a date is four, two and two digits with dashes between them |
| `ChangelogLines.SectionIsOfItsVersion` | scripts/changelog.py:201-203 | a release heading is found for its own version and for no other |
| `ChangelogLines.HasSectionSplits` | scripts/changelog.py:202 | a release is looked for line by line |
| `Changelog.InjectingTwiceIsInjectingOnce` | scripts/changelog.py:167-186 | for all fragment lists, injecting again replaces the first injection, iff the text after the marker is empty or begins with a heading |
| `Changelog.NoteUnderTheMarkerIsDropped` | scripts/changelog.py:176-186 | on a page with a note under the marker that is no heading, injecting twice differs from injecting once |
| `Changelog.OlderReleasesAreKept` | scripts/changelog.py:167-186 | the page through the marker and everything from the next release heading on are kept verbatim; only a rendered unreleased block goes |
| `Changelog.TailStartsWithRelease` | scripts/changelog.py:167-180 | the pages on which injecting is idempotent are those whose kept text is empty or begins with a release heading |
| `Changelog.Repository.Assemble` | scripts/changelog.py:189-208 | a release moves every fragment into the page and removes it, or fails and changes nothing |
| `Changelog.AssembledTail` | scripts/changelog.py:196-205 | the new section comes first after the marker, with the older text verbatim behind it |
| `Changelog.PreviewLeavesNoTrace` | scripts/changelog.py:167-208 | assembling a previewed page gives the same as assembling the page |
| `Changelog.AfterARelease` | scripts/changelog.py:200-205 | after a release injecting is idempotent again, and the version cannot be released twice |
| `WebhookTemplate.ResolvePath` | backend/app/alerting/webhook.py:110-127 | the loop over the segments is the lookup of the path, segment by segment |
| `WebhookPaths.PathLeadsTo` | backend/app/alerting/webhook.py:110-127 | a path resolves to a node iff its segments are keys of objects and positions in lists that lead there, whatever their number |
| `WebhookPaths.WrittenPathResolves` | backend/app/alerting/webhook.py:110-127 | keys and positions in digits, written with dots between them, resolve to the node they lead to |
| `WebhookPaths.PlaceholderForm` | backend/app/alerting/webhook.py:107 | a placeholder is two braces, blanks, word characters and dots, blanks and two braces, and nothing else is |
| `WebhookPaths.WholeTextIsAPlaceholder` | backend/app/alerting/webhook.py:131-140 | a text that is one placeholder, blanks aside, becomes the node itself, or null when the path leads nowhere |
| `WebhookPaths.TextAroundAPlaceholder` | backend/app/alerting/webhook.py:142-152 | a placeholder inside a longer text is replaced by a string as it is, by any other value as JSON, and by nothing when its path leads nowhere |
| `WebhookPaths.MembersAreRendered` | backend/app/alerting/webhook.py:153-157 | every member of an object or a list is rendered in its place |
| `WebhookTemplate.RenderingDependsOnlyOnPaths` | backend/app/alerting/webhook.py:130-158 | two payloads that agree on every path the template names render identically |
| `WebhookTemplate.RenderingKeepsTheShape` | backend/app/alerting/webhook.py:130-158 | away from whole-string placeholders, keys, list lengths, other literals and texts without placeholders stay as they are, and text stays text |
| `WebhookTemplate.SegmentsRebuildTheText` | backend/app/alerting/webhook.py:107 | the literal segments and the placeholders, put together, are the template text |
| `WebhookTemplate.TextIsScannedOnce` | backend/app/alerting/webhook.py:142-153 | each placeholder contributes its value as it is: a value with braces in it is never expanded again |
| `WebhookTemplate.IdentityTemplateReproduces` | backend/app/alerting/webhook.py:161-172 | the template that maps each word key to its own placeholder reproduces the payload, values of any type included |
| `CommentScanner.CodeSpans` | scripts/check-frontend-no-ticket-refs.py:118-141 | the index loop returns the spans of the line |
| `CommentScanner.SpansAreOutside` | scripts/check-frontend-no-ticket-refs.py:118-141 | on any line that starts in code, the spans are exactly the characters the lexer finds outside comments |
| `CommentScanner.LineSpansAreOutside` | scripts/check-frontend-no-ticket-refs.py:163-169 | the same on a line that starts inside a block comment |
| `CommentScanner.LineSpansAreTheCode` | scripts/check-frontend-no-ticket-refs.py:118-169 | put together, the spans examined on a line are the line without its comments |
| `CommentScanner.DelimitersAreText` | scripts/check-frontend-no-ticket-refs.py:127-137 | the search for a delimiter is the search for its text |
| `CommentScanner.LastDelimitersTell` | scripts/check-frontend-no-ticket-refs.py:179-182 | on any line without overlapping delimiters, the last delimiters say open iff the lexer ends in a block comment or the line comment leaves one open, and never both |
| `CommentScanner.ScanLine` | scripts/check-frontend-no-ticket-refs.py:158-182 | one line gives the findings of its examined spans, and the flag its last delimiters leave |
| `CommentScanner.Scan` | scripts/check-frontend-no-ticket-refs.py:156-182 | the findings are those of the examined spans, in order, under the carried flag |
| `CommentScanner.SkippedInPlainTerms` | scripts/check-frontend-no-ticket-refs.py:158-161 | a line is passed over iff it or the line above contains the pragma, or it contains a marker |
| `CommentScanner.FindingsInPlainTerms` | scripts/check-frontend-no-ticket-refs.py:156-178 | a finding is a reference in an examined span of a line that is not passed over, with that line's number, counted from one, and all such are findings |
| `CommentScanner.FindingsAreByLine` | scripts/check-frontend-no-ticket-refs.py:156-178 | findings are listed in the order of the lines |
| `CommentScanner.FlagIsLexedIffLinesKeepTrack` | scripts/check-frontend-no-ticket-refs.py:156-182 | when no examined line has overlapping delimiters: the carried flag is the lexer's state at every line end iff every skipped line leaves that state as it was and no other line leaves a block comment open in its line comment |
| `CommentScanner.FindingsAreTheLexers` | scripts/check-frontend-no-ticket-refs.py:156-182 | under both conditions the scan reports what a scan guided by the lexer reports |
| `CommentScanner.SkippedOpeningIsLost` | scripts/check-frontend-no-ticket-refs.py:158-161 | a pragma line that opens a comment makes the scan take the next line for code |
| `CommentScanner.OpeningInALineCommentMisleads` | scripts/check-frontend-no-ticket-refs.py:179-182 | the line `///*`, which has no overlapping delimiters, leaves the flag set and the lexer outside comments |
| `CommentScanner.OverlapsMislead` | scripts/check-frontend-no-ticket-refs.py:179-182 | overlapping delimiters make flag and lexer differ in both directions |
| `NumberFormat.HalfEvenIsNearest` | backend/app/alerting/render.py:50 | rounding gives the nearest integer, and the even one on a tie |
| `NumberFormat.CommasAtThousands` | backend/app/alerting/render.py:50 | counted from the right every fourth character of the whole part is a comma, and no other |
| `NumberFormat.NumberReadsBack` | backend/app/alerting/render.py:39-51 | a number of at least 0.01, or zero, reads back as its rounded hundredths, with at most two decimals and none trailing |
| `NumberFormat.NumberIsNear` | backend/app/alerting/render.py:39-51 | what is read is off by 0.005 at most |
| `NumberFormat.TinyReadsBack` | backend/app/alerting/render.py:48-49 | a smaller number reads back with its sign, at most two significant digits, none trailing, off by a twentieth of itself at most, in plain and in exponent notation |
| `NumberNotation.BooleansAreNamed` | backend/app/alerting/render.py:45-46 | booleans are printed as `True` and `False` |
| `NumberNotation.NumberForm` | backend/app/alerting/render.py:50-51 | a number that is not tiny is printed as its sign, the whole part in groups, and its decimals without final zeros or a bare point |
| `NumberNotation.TinyIsNearest` | backend/app/alerting/render.py:48-49 | a tiny number reads back as the nearest number of two significant digits, and the even one on a tie |
| `NumberNotation.TinyNotation` | backend/app/alerting/render.py:48-49 | it is printed with an exponent of at least two digits iff it reads as less than 0.0001, and written out behind `0.` otherwise |
| `NumberFormat.OnlyZeroReadsAsZero` | backend/app/alerting/render.py:39-51 | no number but zero is printed as zero |
| `NamespaceMerge.Connection.FindTwin` | backend/alembic/versions/c9d0e1f2a3b4_strip_credentials_from_asset_namespace.py:35-38 | returns another asset with the stripped name, iff there is one |
| `NamespaceMerge.Connection.MergeOrRewrite` | backend/alembic/versions/c9d0e1f2a3b4_strip_credentials_from_asset_namespace.py:33-59 | the row is rewritten, or everything points at the twin and the row is gone; it fails only where a unique key is in the way |
| `NamespaceMerge.Connection.Upgrade` | backend/alembic/versions/c9d0e1f2a3b4_strip_credentials_from_asset_namespace.py:62-72 | completes iff every namespace can be stripped and nothing clashes; then names are unique, no password is left, no row is lost and every reference leads to the stripped identity of what it led to; otherwise nothing changes; without passwords nothing changes |
| `NamespaceMerge.NormFacts` | backend/alembic/versions/c9d0e1f2a3b4_strip_credentials_from_asset_namespace.py:62-71 | with a lawful stripping, stripping twice is stripping once, and a namespace the row query passes over is its own stripped form |
| `NamespaceMerge.FoldRow` | backend/alembic/versions/c9d0e1f2a3b4_strip_credentials_from_asset_namespace.py:47-59 | folding an asset keeps names unique and every asset at its stripped identity |
| `NamespaceMerge.FoldKeepsRefs` | backend/alembic/versions/c9d0e1f2a3b4_strip_credentials_from_asset_namespace.py:47-59 | deleting the folded asset takes no row along: every reference followed it first |
| `NamespaceMerge.NothingHadClashed` | backend/alembic/versions/c9d0e1f2a3b4_strip_credentials_from_asset_namespace.py:62-72 | a migration that ran to its end had no clash among the original rows |
| `NamespaceMerge.AlikeEdgesAbort` | backend/alembic/versions/c9d0e1f2a3b4_strip_credentials_from_asset_namespace.py:47-58 | a sound database on which the migration aborts: two assets that become one, each with the same edge to a third |
| `NamespaceUri.StrippedNetlocHasNoPassword` | backend/alembic/versions/c9d0e1f2a3b4_strip_credentials_from_asset_namespace.py:26-29 | the authority that is put together, with user, host and port, has no password, whatever the old one held |
| `NamespaceUri.UriStrippingIsLawful` | backend/alembic/versions/c9d0e1f2a3b4_strip_credentials_from_asset_namespace.py:18-30 | with a library that obeys its two laws: a password shows to the row query, a stripped URI has none, and a URI without one stays as it is |
| `NamespaceUri.UserHostAndPortStay` | backend/alembic/versions/c9d0e1f2a3b4_strip_credentials_from_asset_namespace.py:26-29 | for every authority whose host is not in brackets: host, port and a user that is not empty read as before; a port 0 goes |
| `NamespaceUri.StrippedNetlocReads` | backend/alembic/versions/c9d0e1f2a3b4_strip_credentials_from_asset_namespace.py:26-29 | for every authority: the user stays, and the host reads as before iff it holds no colon and no bracket; the port stays with it |
| `NamespaceUri.BracketedAddressIsLost` | backend/alembic/versions/c9d0e1f2a3b4_strip_credentials_from_asset_namespace.py:26-29 | an IPv6 address loses its brackets and is not read back |
| `NamespaceUri.AuthorityWithPort` | backend/alembic/versions/c9d0e1f2a3b4_strip_credentials_from_asset_namespace.py:26-29 | `user:password@host:port` becomes `user@host:port`, the host in lower case and the port without leading zeros |
| `NamespaceUri.OnlyTheAuthorityChanges` | backend/alembic/versions/c9d0e1f2a3b4_strip_credentials_from_asset_namespace.py:18-30 | scheme, path, query and fragment of a stripped URI read as before, where the library reads what it wrote |
| `NamespaceUri.PlainAuthority` | backend/alembic/versions/c9d0e1f2a3b4_strip_credentials_from_asset_namespace.py:19-29 | `user:password@host` becomes `user@host`, whatever the password holds |
| `NamespaceUri.BareLibraryStrips` | backend/alembic/versions/c9d0e1f2a3b4_strip_credentials_from_asset_namespace.py:18-30 | there is a library that obeys the laws, and with it passwords are stripped |
| `IncidentPairing.PairIncidents` | backend/app/alerting/email.py:76-94 | each check takes the first card that matches it; paired and left-over incidents are together the report's, left-overs keep their order, pairs match by id or name, and no unpaired check has a matching left-over |
| `IncidentPairing.CountIsMultiplicity` | backend/app/alerting/email.py:85-94 | the counting of the conservation law is that of multisets |
| `IncidentPairing.NoPairingBeatsCapacity` | backend/app/alerting/email.py:76-94 | when all shown checks carry ids, no pairing has more pairs than the sum over ids of min(checks, incidents) |
| `IncidentPairing.GreedyReachesCapacity` | backend/app/alerting/email.py:76-94 | the greedy pairing has exactly that many |
| `IncidentPairing.GreedyReachesHalf` | backend/app/alerting/email.py:76-94 | with or without ids, no pairing has more than twice the pairs of one that misses nothing |
| `IncidentPairing.NamesCanCostAPair` | backend/app/alerting/email.py:85-93 | a check without an id takes the only card of another: greedy finds one pair where there are two |
| `RowNumbering.NumbersFollowTheOrder` | backend/alembic/versions/49bd96efd9fc_check_ordinal.py:30-34 | in a partition a smaller row number means an earlier row, and equal numbers the same row |
| `RowNumbering.NumbersCountTheRows` | backend/alembic/versions/49bd96efd9fc_check_ordinal.py:30-34 | in the listing of a partition the row numbers are 1, 2, 3 and so on |
| `RowNumbering.NumbersAreOneToN` | backend/alembic/versions/49bd96efd9fc_check_ordinal.py:30-34 | the row numbers of a partition are exactly 1 to its size |
| `RowNumbering.ChecksTable.Backfill` | backend/alembic/versions/49bd96efd9fc_check_ordinal.py:26-37 | only the ordinals change; in each suite they are exactly 1 to n, in the order of created_at with NULLs last, then id |
| `RowNumbering.SortingByOrdinalChangesNothing` | backend/alembic/versions/49bd96efd9fc_check_ordinal.py:26-37 | a list of a suite's checks is sorted by ordinal iff it is sorted the old way |
| `RowNumbering.RunsTable.Upgrade` | backend/alembic/versions/d4e5f6a7b8c9_add_runs_trigger_dedup_index.py:21-41 | exactly the marked runs with an earlier run of their suite and marker are deleted, no other row changes, and the unique index then builds |
| `RowNumbering.MarkersInPlainTerms` | backend/alembic/versions/d4e5f6a7b8c9_add_runs_trigger_dedup_index.py:22-41 | a run is marked iff what triggered it begins with `adf:` or `airflow:` |
| `RowNumbering.FirstIsNotSuperseded` | backend/alembic/versions/d4e5f6a7b8c9_add_runs_trigger_dedup_index.py:24-36 | a row number above one means an earlier run of the same marker, and nothing else does |
| `RowNumbering.EveryMarkerKeepsItsEarliest` | backend/alembic/versions/d4e5f6a7b8c9_add_runs_trigger_dedup_index.py:22-36 | every marker keeps a run, and it is the earliest |
| `VaultTokens.Stack.Init` | backend/scripts/local_vault.py:123-178 | a run, stopped after any number of calls, leaves the world and the report the specification says |
| `VaultTokens.LiveTokensAreBounded` | backend/scripts/local_vault.py:154-177 | over any runs stopping anywhere, live app tokens are at most one more than the stops between minting and saving |
| `VaultTokens.CompletedRunGrantsItsToken` | backend/scripts/local_vault.py:154-177 | after a run that completes its token is live, and it is the only one unless some run stopped between minting and saving |
| `VaultTokens.EndOfARun` | backend/scripts/local_vault.py:123-178 | how any run ends: file missing, denied, stopped, stopped with the new token unsaved, or completed, the last iff the root is not lost and it makes the calls it needs |
| `VaultTokens.ReportTellsWhatWasDone` | backend/scripts/local_vault.py:129-178 | the report of a completed run says whether it initialized the vault, made the mount and granted the token |
| `VaultTokens.CompletedRunChanges` | backend/scripts/local_vault.py:146-177 | a completed run adds its mount; for a new token it revokes the one on record, mints, and records it, and leaves the others; otherwise no token changes |
| `VaultTokens.RepeatingKeepsEverything` | backend/scripts/local_vault.py:123-178 | repeating a completed run reports everything kept and changes neither the vault nor the file |
| `VaultTokens.CompletedIsKnown` | backend/scripts/local_vault.py:146-177 | after a run that completes the mount is there, the policy and the lease are those of the run, and the token is accepted |
| `VaultTokens.LongRunCompletes` | backend/scripts/local_vault.py:123-178 | unless the root was lost, a run that is not stopped completes, whatever earlier runs left behind |
| `VaultTokens.LostRootIsForGood` | backend/scripts/local_vault.py:137-141 | once the saved root is not the vault's, no run completes or changes anything |
| `VaultTokens.StopBeforeSavingIsForGood` | backend/scripts/local_vault.py:131-141 | after a run that stopped between initializing a new vault and saving its root, no run with however many calls completes, and the world stays as the stop left it |
| `VaultTokens.RootIsLostIffStoppedBeforeSaving` | backend/scripts/local_vault.py:131-136 | a run loses the root iff it initializes the vault and stops before saving, and no file with that root was there |
| `VaultTokens.LostIffSomeRunStopped` | backend/scripts/local_vault.py:131-141 | over any runs of a new vault, it is lost iff one of them stopped there |
| `CircuitBreaker.Breaker.RecordFailure` | backend/app/core/circuit_breaker.py:41-49 | counts, and sets the deadline only when the threshold is met while closed |
| `CircuitBreaker.Breaker.RecordSuccess` | backend/app/core/circuit_breaker.py:51-59 | clears, unless the success arrives while open |
| `CircuitBreaker.Breaker.ResetState` | backend/app/core/circuit_breaker.py:61-64 | drops all state |
| `CircuitBreaker.CounterIsFailuresSinceClear` | backend/app/core/circuit_breaker.py:41-64 | over any run the counter is the number of failures since the last effective success or reset |
| `CircuitBreaker.OpensOnlyAfterEnoughFailures` | backend/app/core/circuit_breaker.py:37-44 | at no time of a non-negative clock is it open without that many failures since the last clear |
| `CircuitBreaker.UntrippedIsClosedIffClockNotNegative` | backend/app/core/circuit_breaker.py:35-39 | an untripped breaker is closed iff the clock is not negative |
| `CircuitBreaker.OpenBreakerKeepsItsDeadline` | backend/app/core/circuit_breaker.py:41-55 | while open, no failure or success moves the deadline |
| `CircuitBreaker.StaysOpenExactly` | backend/app/core/circuit_breaker.py:37-55 | a trip opens it for exactly the open time, whatever stragglers arrive |
| `CircuitBreaker.AfterExpiry` | backend/app/core/circuit_breaker.py:41-59 | after the deadline one failure reopens it and one success clears it |
| `SmtpSink.Handler.ReceiveData` | backend/scripts/e2e_otp_smtp_sink.py:200-211 | the loop reads the text and leaves the stream as the specification says |
| `SmtpSink.TransferReadsBack` | backend/scripts/e2e_otp_smtp_sink.py:200-211 | any lines free of CR and LF, dot-stuffed as RFC 5321 section 4.5.2 asks, read back as they were, and reading stops right after the terminator |
| `SmtpSink.Handler.Handle` | backend/scripts/e2e_otp_smtp_sink.py:152-198 | a conversation adds one message for each DATA, with exactly the RCPT addresses heard since the DATA or RSET before it, and leaves earlier messages alone |
| `SmtpSink.Handler.Converse` | backend/scripts/e2e_otp_smtp_sink.py:157-198 | the same for any reading of command lines |
| `SmtpSink.Handler.Obey` | backend/scripts/e2e_otp_smtp_sink.py:164-198 | what each command does to the recipients, the mailbox and the streams |
| `SmtpCommands.CommandsInPlainTerms` | backend/scripts/e2e_otp_smtp_sink.py:158-198 | a line is STARTTLS, DATA, RSET or QUIT iff it is that word in any case with blanks around it, and names a recipient iff it begins with RCPT TO |
| `SmtpCommands.RecipientIsRead` | backend/scripts/e2e_otp_smtp_sink.py:180-228 | the recipient is what stands behind the first colon, without blanks at its ends and without the angle brackets around it, if there are such |
| `SmtpCommands.DataLineByLine` | backend/scripts/e2e_otp_smtp_sink.py:200-211 | a text ends at a line that is a single dot; one of two leading dots is dropped and a single one is kept |
| `SmtpCommands.DataBreaksOff` | backend/scripts/e2e_otp_smtp_sink.py:200-211 | a text that breaks off without its end is taken as far as it came |
| `SmtpCommands.SecuredSessionIsCaptured` | backend/scripts/e2e_otp_smtp_sink.py:152-225 | greeting, TLS upgrade, login, an envelope that is reset, and any mails: each mail is captured with its recipients and text, and nothing else is |
| `SmtpCommands.SecuredSession` | backend/scripts/e2e_otp_smtp_sink.py:152-225 | the same for such a session word for word |
| `SmtpSink.BracketedAddress` | backend/scripts/e2e_otp_smtp_sink.py:227-228 | the address of a RCPT line is what stands between the angle brackets, whatever it holds |
| `SmtpSink.WordsAreUnderstood` | backend/scripts/e2e_otp_smtp_sink.py:161-196 | DATA, RSET, QUIT and STARTTLS are recognized in any capitalization |
| `SmtpSink.SessionIsCaptured` | backend/scripts/e2e_otp_smtp_sink.py:152-225 | any mails a client sends in one session are captured one for one, each with its recipients in order and its text |
| `SmtpSink.Mailbox.LatestCodeFor` | backend/scripts/e2e_otp_smtp_sink.py:80-87 | the code of the newest message that has one and names the address, or none iff no message does |
| `SmtpCommands.AnswersInAnyCase` | backend/scripts/e2e_otp_smtp_sink.py:80-87 | a message answers for an address in any case and with blanks around it iff it has a code and that address in any case is one of its recipients |

## Left out

- Databases, sessions and additive schema changes: tables are maps, and only the tables a theorem is about.
- An error while a report is built, a worker that dies before dispatch, and the deletion of runs or results: outside the coverage theorem.
- Delivery itself: HTTP, SMTP transport, TLS, signing, secret stores. A channel sends, skips or raises; the wording of messages and logging are not modelled.
- Incident lifecycle, redaction, notification settings and run admission: only the facts under Assumptions are taken from them.
- `DependencyClosure.BackendClosure`: reading metadata and licence texts and the final sorting by name are left out; a requirement's marker and specifier are functions of the extra and the version.
- `LicenseClassifiers.GateOnLicences`: says nothing of a classifier whose name is neither in the table nor a written expression, or holds a quote, a semicolon or a double colon.
- The forbidden-licence patterns, overrides and the frontend half of the licence check.
- `Changelog.Repository.Assemble`: fragments are given; the checks on their names and texts when they are loaded are left out, and a write that fails halfway is not modelled.
- `CommentScanner.Scan`: one file; choosing the files and the search patterns are not part of the model, and string literals are not told from comments, as in the code.
- `NamespaceMerge.Connection.Upgrade`: the second part, which cleans connection configurations with the same stripping, is left out; rows are taken in any order.
- `NumberFormat.NumberReadsBack`: inputs are exact decimals, which every finite float is; infinities, not-a-number and negative zero are left out.
- `SmtpSink.Handler.Handle`: characters stand for bytes, the replies and the address list of the EHLO are left out, and other connections do not add to the mailbox in between.
- `VaultTokens.Stack.Init`: the waiting loop and the report of failed calls are stops; whether a stopped call took effect is decided by where the run stops.
- `prepare` of the local vault, the HTTP side of the sink, and the rest of `render.py` and `email.py`.
