# Cowork decision and record keeping: a verified model

Cowork lets several agents (a lead, builders, reviewers) work on one repository. This project
models the layer that decides and keeps records, and proves what it promises over whole runs.

- **The authority chain** (`Chain*.dfy` with `RecordExact.dfy`, `FoldExact.dfy`, `CommitExact.dfy`) is an append-only
  file of hash-linked records. One walker decides which record may follow; append, read and fold
  all use it. A commit reads, replays by operation key, checks the head, writes by atomic
  replacement, reads back, rolls back.
- **The gate** (`Gate.dfy`, `GateExact.dfy`, `GateOnChain.dfy`) decides from the folded chain
  whether work is blocked and whether a finding may be closed.
- **The turn protocol** (`TurnProtocol.dfy`) keeps the output of abandoned turns out of later
  ones; **usage** (`Usage.dfy`) splits a growing counter into the shares of turns.
- **The shell policy** (`ShellNormal.dfy`, `ShellSplit*.dfy`, `BashAction.dfy`, `Ownership*.dfy`)
  normalizes and splits a command, classifies it, and decides whose root allows it.
- **Capacity** (`Calendar*.dfy`, `Leases.dfy`): RFC 3339 time, and pause leases whose failed wake
  attempts are bounded across replacement, expiry and new episodes.
- **Smaller cores**: dispatch allocations (`Allocation*.dfy`), the witness screen (`Witness*.dfy`),
  manifest staleness (`Manifest.dfy`), the phase reducer (`Control*.dfy`).

The digest is a function and nothing more is assumed of it: where the design relies on there
being no collision, the theorem ends in "or a record of one chain and a record of the other
collide". The text form of a record is an encode/decode pair that is assumed only to be faithful.
Files are cells that change by atomic replacement, and each step of a commit may fail. Code that
updates fields or runs a loop is a class or a method proved against a function; the theorems are
about those functions. What a function decides is also told without it, on the records, rows,
characters or paths themselves: `ChainLegal.dfy`, `CalendarText.dfy` and the modules ending in
`Exact` hold an if-and-only-if for each of these decisions, and `ChainReasons.dfy` and the lemmas
named `RefusalTellsTruth` say that the reason given for a refusal holds.

## Where the code and its documentation part

For each of these there is a theorem that says exactly when the promise holds, for all inputs or
runs, and a lemma with a concrete case in which it does not.

| the promise fails because | exactly when | a case |
|---|---|---|
| a turn denied for an ungoverned child does not count its unread result, so a later turn answers with old output | `TurnProvenance` | `DenialLeaksOldOutput` |
| a usage field left out of one reading is counted twice later | `ConservedExactly` | `DroppedFieldCountsTwice` |
| the wake-attempt ceiling of a binding is lost when a superseded expired lease is replaced, or a new episode is checked against a stale view | `ExhaustionEndsExactly`, `ExhaustionIsKept` | `ReplacingASupersededLeaseResets`, `StaleEpisodeResets` |
| a reclaim that read the lease before it was claimed expires the claimed lease | `ReclaimExactly`, `ReclaimRaceExactly` | `StaleReclaimTakesAClaim` |
| a manifest binding that changes True into 1 is not reported stale | `StaleExactly` | `TruthAndOneAreNotTold` |
| the days-from-civil branch for negative years is one day short in most of them; the timestamp grammar reaches none of those | `DaysFromCivilCounts` | `YearMinusTwoIsShort` |
| stripping comes before quotes and escapes are read, so whitespace that ends a command is lost though it is escaped or inside an open quote | `KeptTextExactly`, `GuardedTextExactly` | `EscapedBlankAtTheEndIsStripped`, `QuotedBlankAtTheEndIsStripped` |
| the phase reducer raises on a list or object where a name is looked up in a closed set | `RaisesExactly` | `ListOutcomeRaises` |
| the phase reducer takes a wake failure before any wake, so capacity is awaited that nobody reserved | `UnreservedExactly` | `CapacityWithoutReservation` |
| a digest pattern that ends in `$` lets one trailing newline pass | `DigestAsDocumented` | `NewlineDigestCompletes` |
| the printed form of an allocation with a bound of more than seven digits does not parse back | `RoundTripExactly` | `EightDigitsDoNotReadBack` |

The same `$` stands in the timestamp pattern, the signature pattern and the object-identifier
pattern; the model accepts the newline in each.

## Model

| member | source | states |
|---|---|---|
| Candidate.SameIsValidIdentity | scripts/cowork_authority_candidate.py:67-97 | two candidates compare equal exactly when they are one valid object: the compared digests leave nothing out |
| Candidate.CompareSymmetric | scripts/cowork_authority_candidate.py:83-93 | the reason two candidates differ does not depend on their order |
| Candidate.ComparedExactly | scripts/cowork_authority_candidate.py:61-97 | a candidate is one of two written-out objects over 64-digit hex strings and nothing else; and when two are equal, of different kinds, changed, or one is no candidate |
| ChainRecord.RecordIdFixesSeq | scripts/cowork_authority_chain.py:240-241 | an identifier fixes the sequence number it was minted for, across all kinds |
| RecordExact.WellFormedExactly | scripts/cowork_authority_chain.py:344-637 | a body or stored record passes the field table, the kind rules and the candidate rule exactly when it meets one written-out condition for its kind |
| ChainWalker.Walker.constructor | scripts/cowork_authority_chain.py:660-678 | a new walker holds the empty chain |
| ChainWalker.Walker.Feed | scripts/cowork_authority_chain.py:681-715 | a refused record changes no field; an accepted one moves every field as the specification says |
| ChainWalker.Walker.Note | scripts/cowork_authority_chain.py:708-715 | the bookkeeping of an accepted record: head, session, index and operation keys, and nothing else |
| ChainWalker.Walker.Do | scripts/cowork_authority_chain.py:681-715 | the per-kind effect, or its refusal with the folded state unchanged |
| ChainWalker.Walker.DoFinding | scripts/cowork_authority_chain.py:777-788 | opening a finding adds its row, its place in the order and its event |
| ChainWalker.Walker.DoShift | scripts/cowork_authority_chain.py:809-886 | close, retract and reopen: only from the right state, a close only with a sufficient basis |
| ChainWalker.Walker.DoRound | scripts/cowork_authority_chain.py:763-775 | a round is numbered by its phase and seat and kept under its identifier |
| ChainWalker.Walker.DoRow | scripts/cowork_authority_chain.py:790-920 | the kinds that only add rows add exactly their own |
| ChainWalker.Fold | scripts/cowork_authority_chain.py:1019-1026 | folding a chain is walking it from the start, stopping at the first refusal |
| ChainWalker.WalkIsReaches | scripts/cowork_authority_chain.py:681-715 | walking returns a state exactly when a trace of accepted steps ends in it |
| ChainWalker.RefusalIsFinal | scripts/cowork_authority_chain.py:995-1026 | once a prefix is refused no continuation is accepted, and the reason stands |
| ChainHistory.ReachesIndexed | scripts/cowork_authority_chain.py:681-715 | in every accepted chain records are numbered from one and named after their number, the index holds exactly them, and the head is the last digest |
| ChainHistory.HeadFixesHistory | scripts/cowork_authority_chain.py:681-715 | two accepted chains with one head are the same records, or a record of one and a record of the other differ in content and agree in digest |
| ChainHistory.PrefixAccepted | scripts/cowork_authority_chain.py:681-715 | every record-boundary prefix of an accepted chain is accepted |
| ChainHistory.ShorterChainHasAnotherHead | scripts/cowork_authority_chain.py:1215-1222 | a proper prefix never shows the head of the whole, unless two records of the chain collide |
| ChainHistory.FindingLifecycle | scripts/cowork_authority_chain.py:745-886 | every finding is opened once, then closed and reopened in strict alternation, with withdrawn and duplicate final; its folded state and last transition are those of its last move, and its folded events are its moves in order |
| ChainHistory.EventsAreMoves | scripts/cowork_authority_chain.py:751-886 | the folded events of an accepted chain are exactly those of its records that move a finding, in order |
| ChainHistory.CloseCitesEarlierRecords | scripts/cowork_authority_chain.py:809-870 | every close cites only earlier records: a closing decision with a candidate, or a proposal on the resolution's candidate with a closed recommendation |
| FoldExact.FoldIsRows | scripts/cowork_authority_chain.py:763-937 | every folded list of an accepted chain, grants included, is exactly its records' rows in order, field by field |
| FoldExact.FindingsAreOpened | scripts/cowork_authority_chain.py:777-788 | every folded finding repeats the record that opened it but for its state and last transition, and every finding record is folded |
| FoldExact.RoundsAreNumbered | scripts/cowork_authority_chain.py:718-775 | in every accepted chain a round's number is one more than how many rounds its seat had in its phase before |
| ChainLegal.StepExactly | scripts/cowork_authority_chain.py:681-886 | on a chain it has accepted the walker accepts a record exactly when it may follow, told on the records alone: link, form, round, key, standing of its finding, and basis |
| ChainLegal.AcceptedExactly | scripts/cowork_authority_chain.py:681-1026 | a chain is accepted exactly when each of its records may follow those before it |
| ChainReasons.RefusalTellsTruth | scripts/cowork_authority_chain.py:681-886 | every refused record is refused for a reason that holds of it, told on the record and those before it |
| ChainLegal.MintedExactly | scripts/cowork_authority_chain.py:1239-1274 | the record the store makes of a body: sequence number, identifier, link, digest, and for a round its number |
| ChainLegal.RoundsAreCommittable | scripts/cowork_authority_chain.py:1239-1274 | every well-formed round of the chain's session, under no key or a fresh one, is accepted as it is minted |
| ChainBytes.ParseRender | scripts/cowork_authority_chain.py:971-992 | reading back what was written gives the records |
| ChainBytes.RenderParse | scripts/cowork_authority_chain.py:971-992 | only the written text of some records reads back at all |
| ChainBytes.ParseChain | scripts/cowork_authority_chain.py:971-992 | the line loop, stopping at the first torn or malformed line |
| ChainBytes.LoadIsHolds | scripts/cowork_authority_chain.py:995-1001 | loading succeeds with a state exactly when the bytes are the accepted chain of that state |
| ChainCommit.PrepareMeans | scripts/cowork_authority_chain.py:1161-1183 | preparation passes exactly for a nonempty batch of well-formed bodies without a repeated operation key |
| ChainCommit.ReplaysMeans | scripts/cowork_authority_chain.py:1193-1212 | which bodies of a batch are already committed, and when a key stands for another body |
| ChainCommit.ReplayExact | scripts/cowork_authority_chain.py:1193-1212 | replay neither conflicts nor is partial exactly when the chain holds all of the batch or none of it |
| ChainRuns.KeysCommittedOnce | scripts/cowork_authority_chain.py:681-715 | no operation key is committed twice in an accepted chain, and the key index finds exactly the keyed records |
| ChainRuns.MintAllAdds | scripts/cowork_authority_chain.py:1239-1274 | minting adds one record for each body, in order, and each reads back as its body |
| ChainRuns.WriteEffect | scripts/cowork_authority_chain.py:1108-1154 | whatever fails: success means exactly the new bytes, a write error exactly the old ones, and nothing else is ever on disk but bytes a replacement put down unasked |
| ChainRuns.WriteExactly | scripts/cowork_authority_chain.py:1108-1154 | which failures make a write an error, which leave it uncertain, and when it commits |
| ChainRuns.CommitOutcome | scripts/cowork_authority_chain.py:1239-1293 | a normal return means the old chain plus exactly the batch, or a batch already there; an error means the old file, uncertainty one of the two if replacements are exact; readers see only the old chain, the whole new one, or bytes a replacement put down unasked |
| ChainRuns.UnreadableIsUntouched | scripts/cowork_authority_chain.py:1239-1274 | a file the walker does not accept is never written |
| ChainRuns.EveryReadIsAChain | scripts/cowork_authority_chain.py:1029-1154 | in every run with failures at any step, every content a reader can see is an accepted chain that extends the first, or bytes a replacement put down unasked; provided no commit both put down such bytes and reported uncertainty |
| ChainRuns.BatchStaysWhole | scripts/cowork_authority_chain.py:1193-1274 | through every run in which only one batch uses its keys, the chain holds all of it or none of it; under the same proviso |
| ChainRuns.RetryExactlyOnce | scripts/cowork_authority_chain.py:1193-1274 | retrying a keyed batch after such a run never duplicates it, never meets a partial batch, and answers from the chain when it is there; under the same proviso |
| ChainRuns.CutChainRefusesAppend | scripts/cowork_authority_chain.py:1215-1222 | an append that expects the head of the whole chain is refused on every shorter prefix, unless two of its records collide |
| ChainFile.PrepareBatch | scripts/cowork_authority_chain.py:1161-1183 | the preparation loop finds the first bad body or repeated key |
| ChainFile.ReplayBatch | scripts/cowork_authority_chain.py:1193-1212 | the replay loop returns the committed records, nothing, or the conflict |
| ChainFile.CheckBatchCandidates | scripts/cowork_authority_chain.py:1225-1236 | the rounds, findings and recommendations of a batch name one candidate |
| ChainFile.LoadWalker | scripts/cowork_authority_chain.py:995-1001 | loading leaves a walker in the state of the bytes |
| ChainFile.MintBatch | scripts/cowork_authority_chain.py:1239-1274 | the commit loop mints and feeds each body, and renders the new lines |
| ChainFile.ChainFile.RollBack | scripts/cowork_authority_chain.py:1108-1131 | rollback restores the old content and proves it by reading, or reports uncertainty |
| ChainFile.ChainFile.WriteFile | scripts/cowork_authority_chain.py:1134-1154 | the atomic write changes the file and shows readers exactly what the specification says |
| ChainFile.ChainFile.Append | scripts/cowork_authority_chain.py:1239-1293 | the whole append leaves the file, its visible history and the outcome the specification gives |
| CommitExact.CandidatesExactly | scripts/cowork_authority_chain.py:1225-1236 | a batch passes the candidate check exactly when all its rounds, findings and recommendations name one valid candidate |
| CommitExact.MintAllExactly | scripts/cowork_authority_chain.py:1239-1274 | minting a batch succeeds exactly when there are records, each made from its body after those before it, that may follow one another; and adds just those |
| CommitExact.AppendExactly | scripts/cowork_authority_chain.py:1161-1293 | what an append without faults answers, told on the records of the file: refused, answered from the chain, a head conflict, or committed with just the records the batch becomes |
| ChainReasons.AppendTellsTruth | scripts/cowork_authority_chain.py:1161-1274 | an append without faults is refused for a reason that holds: of the batch alone, of its keys, of its candidates, or of the record that the first body that cannot follow becomes |
| Gate.ValidateProposal | scripts/cowork_authority_gate.py:134-190 | the validation loop collects the reasons of the specification, each cited identifier once |
| Gate.NoCitedErrors | scripts/cowork_authority_gate.py:176-190 | no cited identifier is at fault exactly when each names a known finding, open or closed, of the session and phase |
| Gate.FindingsLoop | scripts/cowork_authority_gate.py:209-263 | one group of reasons for each gating finding, in order of opening |
| Gate.ProposalsLoop | scripts/cowork_authority_gate.py:193-263 | reasons for the proposals that cite a gating finding, in order |
| Gate.Block | scripts/cowork_authority_gate.py:209-263 | the blocking decision with all its reasons |
| Gate.BlockedExactly | scripts/cowork_authority_gate.py:125-131 | the gate is open exactly when the read is good, head and session match, the candidate is valid and no blocking finding is open; so a bad proposal alone never blocks |
| Gate.CurrentRoundRecommendsClosed | scripts/cowork_authority_gate.py:299-322 | the latest round of the phase is on the gate candidate, recommends the close and nothing else |
| Gate.AdjudicationClose | scripts/cowork_authority_gate.py:325-346 | the ruling loops keep the last ruling that counts |
| Gate.LastRulingExactly | scripts/cowork_authority_gate.py:325-346 | the ruling kept is the last word: of the latest counting decision that rules on the finding, its last ruling on it |
| GateExact.FitsExactly | scripts/cowork_authority_gate.py:134-190 | a proposal is valid for a finding exactly when it changes the gate candidate and cites only known open or closed findings of the session, all of one phase |
| GateExact.RecommendedExactly | scripts/cowork_authority_gate.py:299-322 | the current round recommends a close exactly when the last round of the phase reviewed the gate candidate, some recommendation made in it says closed, and none says still open, withdrawn or duplicate |
| GateExact.AdjudicatedExactly | scripts/cowork_authority_gate.py:325-346 | the decisions close a finding exactly when the newest ruling on it that is heeded is a close |
| GateExact.ClosesExactly | scripts/cowork_authority_gate.py:266-410 | exactly when the gate closes a finding, told on the folded rows and the caller's screens, coverage and consumed answers |
| GateExact.RefusesUnclosable | scripts/cowork_authority_gate.py:367-392 | the one reason given for a finding that is unknown, not open, foreign, or met by an invalid candidate |
| GateExact.RefusesClosable | scripts/cowork_authority_gate.py:393-410 | the reasons given for any other refusal, and the capability named |
| GateExact.BlocksExactly | scripts/cowork_authority_gate.py:193-263 | a reason is among those that block exactly when it holds: which code each gating finding gets, and whom a bad proposal blames |
| GateOnChain.FoldIsTold | scripts/cowork_authority_chain.py:763-937 | every folded proposal, decision, recommendation and finding of an accepted chain repeats the record it stands for |
| GateOnChain.OpenGateMeansSettled | scripts/cowork_authority_gate.py:209-263 | on the fold of an accepted chain the gate is open exactly when, besides the chain-level conditions, the last event of each blocking finding closed, withdrew or duplicated it |
| GateOnChain.CloseHasBasis | scripts/cowork_authority_gate.py:299-410 | whenever the gate closes, there is a decision or a proposal and recommendation to cite |
| GateOnChain.GateBasisPasses | scripts/cowork_authority_chain.py:818-870 | every basis the gate finds passes the walker's own basis check |
| GateOnChain.GateBasisCloses | scripts/cowork_authority_chain.py:809-870 | a resolution citing such a basis is accepted, closes that finding and moves no other |
| GateOnChain.CloseIsCommittable | scripts/cowork_authority_gate.py:367-410 | whatever the gate agrees to close on the fold of an accepted chain, the walker accepts as a resolution in the finding's phase and opening round on the gate candidate |
| GateOnChain.CloseCommits | scripts/cowork_authority_chain.py:1239-1293 | and appending that resolution succeeds when nothing fails, with or without the current head named |
| TurnProtocol.DebtIsExact | scripts/cowork_bridge.py:2448-2491 | after every run, results read plus results owed are the turns sent, less the denied ones and those that met the end of the stream; until everything is read the counter is exactly the unread results of earlier turns, less the denied |
| TurnProtocol.TurnProvenance | scripts/cowork_bridge.py:2521-2583 | every line a turn takes is its own exactly when no earlier turn was denied |
| TurnProtocol.TimesOutExactly | scripts/cowork_bridge.py:2448-2583 | a turn times out exactly when what the drain leaves to discard uses up the time for its first token; otherwise it starts at its own first line and is decided by the first result, ungoverned child or end of the stream from there |
| TurnProtocol.MeetsTheEndExactly | scripts/cowork_bridge.py:2470-2583 | a turn that has no line of its own in the stream is told its end exactly when the stream closes, the drain leaves the end unread and time is left to reach it; otherwise it times out, even on a closed stream |
| TurnProtocol.DenialLeaksOldOutput | scripts/cowork_bridge.py:2634-2650 | a denied turn leaves its result unread and uncounted, and the next turn answers with it |
| TurnProtocol.ClaudeSession.DrainAbandoned | scripts/cowork_bridge.py:2448-2491 | the drain discards until nothing is owed, the deadline passes or the stream ends |
| TurnProtocol.ClaudeSession.SendTurn | scripts/cowork_bridge.py:2448-2650 | one send: the outcome, the lines taken, the position and the debt left |
| Usage.ShareExactly | scripts/cowork_bridge.py:2920-2955 | what every reading gives, with a baseline and without one, and the meter after it |
| Usage.SharesAddUp | scripts/cowork_bridge.py:2920-2955 | between incomparable turns the shares of a field add up to last level minus baseline plus what dropped readings count again |
| Usage.ConservedExactly | scripts/cowork_bridge.py:2920-2955 | for non-negative counters the shares sum to the growth exactly when no reading drops a field that stood above zero |
| Usage.DroppedFieldCountsTwice | scripts/cowork_bridge.py:2920-2955 | 5, then absent, then 7 reports 12 |
| Usage.CodexMeter.constructor | scripts/cowork_bridge.py:2898-2904 | the baseline of a fresh, seeded and unseeded session |
| Usage.CodexMeter.TurnUsage | scripts/cowork_bridge.py:2920-2955 | the share of one turn and the meter after it, for any order of the fields |
| ShellNormal.NormalizeIdempotent | scripts/cowork_action_policy.py:247-287 | normalizing a normal form changes nothing |
| ShellNormal.NormalFormsAgreeExactly | scripts/cowork_action_policy.py:247-287 | two commands have one normal form exactly when, stripped, they agree character by character up to the length and kind of unquoted runs of blanks |
| ShellNormal.BlankRunsDoNotMatter | scripts/cowork_action_policy.py:247-287 | an unquoted run of blanks anywhere in a command may be replaced by any other without changing the normal form |
| ShellNormal.EdgesDoNotMatter | scripts/cowork_action_policy.py:247-287 | whitespace around a command does not change its normal form |
| ShellNormal.KeptTextUnchanged | scripts/cowork_action_policy.py:247-287 | of a stripped command, all text that is escaped, quoted or not a blank reads the same in the normal form |
| ShellNormal.KeptTextExactly | scripts/cowork_action_policy.py:247-287 | a command keeps all its text but blanks exactly when the whitespace cut off its end is empty, or is blank and begins outside quotes and escapes |
| ShellNormal.GuardedTextExactly | scripts/cowork_action_policy.py:247-287 | a raw command keeps all its quoted and escaped text exactly when nothing is cut off its end, or it is cut outside quotes and escapes |
| ShellNormal.LexSqueezed | scripts/cowork_action_policy.py:247-287 | the collapsed text lexes back into the collapsed tokens, so the normal form keeps the quoting |
| ShellNormal.EscapedBlankAtTheEndIsStripped | scripts/cowork_action_policy.py:247-287 | an escaped blank at the very end is lost |
| ShellNormal.QuotedBlankAtTheEndIsStripped | scripts/cowork_action_policy.py:247-287 | so is a blank at the end of an open quote |
| ShellNormal.NormalizeCommand | scripts/cowork_action_policy.py:247-287 | strip, refuse a blank command, scan |
| ShellNormal.ScanCommand | scripts/cowork_action_policy.py:247-287 | the index loop with quote state and collapse flag emits the squeezed tokens |
| ShellSplit.JudgeExactly | scripts/cowork_action_policy.py:729-760 | a split stands exactly when no stage has a fault |
| ShellSplit.ScanLossless | scripts/cowork_action_policy.py:675-728 | interleaving stages and operators rebuilds the command, for every scan |
| ShellSplit.SplitLosslessAndStable | scripts/cowork_action_policy.py:665-760 | a successful split rebuilds the command, uses only supported operators, and leaves stages free of operators and open quotes that split to themselves |
| ShellSplitExact.SplitsExactly | scripts/cowork_action_policy.py:665-760 | a command splits into given stages and operators exactly when they rebuild it, each operator is supported and stands outside quotes, escapes and redirections, and no stage has an operator, expansion or control character or is blank |
| ShellSplitExact.RefusalTellsTruth | scripts/cowork_action_policy.py:729-760 | a refusal points to the first stage that is wrong; what it names is there, and the operator told with it is the one of that place |
| ShellSplit.SplitCommand | scripts/cowork_action_policy.py:665-760 | the scanning and judging loops |
| ShellSplit.NextStep | scripts/cowork_action_policy.py:675-728 | one turn of the scanning loop: what it takes or where it cuts |
| ShellSplit.JudgeStages | scripts/cowork_action_policy.py:731-760 | the first faulty stage decides, with its operator |
| BashAction.ClassifyCommand | scripts/cowork_action_policy.py:907-944 | a command is split, each stage classified, the first stage that does not read ends a compound one |
| BashAction.StagesExactly | scripts/cowork_action_policy.py:928-944 | a compound command reads exactly when all of its stages do, and then everything they read is collected in order; otherwise the first stage that does not is told, with its number and the operator before it |
| BashAction.ResolvesExactly | scripts/cowork_action_policy.py:907-944 | a command resolves exactly when it splits and is one proved stage or several that all read; and then asks for just what they ask for |
| BashAction.OnlyWholeCommandsMutate | scripts/cowork_action_policy.py:907-1105 | a granted write or delete is a whole command that splits to itself, with an authority justified for each target |
| BashAction.CompoundReadsExactly | scripts/cowork_action_policy.py:907-1105 | a command of several stages is let through exactly when each is proved to read and nothing read is protected |
| Ownership.AuthorityIsFirst | scripts/cowork_action_policy.py:380-395 | the authority named has a containing root, and no kind before it has one |
| Ownership.OwnsIsAuthority | scripts/cowork_action_policy.py:359-395 | a path is owned exactly when an authority is found, so the denial for an owned path without one is dead |
| Ownership.SiblingIsAncestor | scripts/cowork_action_policy.py:1063-1079 | an allowed target inside a registered sibling lies in a repository root strictly below that sibling |
| Ownership.JudgeTargetsExactly | scripts/cowork_action_policy.py:1058-1105 | all targets are granted or the whole action is denied, with one authority for each target |
| Ownership.AllowedIsJustified | scripts/cowork_action_policy.py:1004-1105 | every allowed write or delete has for each target the first owning root that contains it, and each delete a role-temp or an index-HEAD-worktree proof |
| OwnershipExact.AllowsExactly | scripts/cowork_action_policy.py:1041-1105 | a write or delete is allowed exactly when it is resolved and no target is denied, told on the scope's roots, session assets, siblings and the Git facts; and which authority is recorded |
| OwnershipExact.DeniesExactly | scripts/cowork_action_policy.py:1041-1105 | every other answer and its reason |
| OwnershipExact.AuthorityExactly | scripts/cowork_action_policy.py:380-395 | the authority is the first containing root of the first kind that has one |
| OwnershipExact.ProofExactly | scripts/cowork_action_policy.py:1004-1038 | a delete is proved recoverable exactly when every Git clause holds |
| Ownership.DecideAction | scripts/cowork_action_policy.py:1041-1105 | the decision loop |
| Calendar.DayNumberOfDateAt | scripts/cowork_capacity.py:131-160 | the closed formula numbers the days of a day-by-day count from 1970-01-01, in both directions |
| Calendar.DaysFromCivilCounts | scripts/cowork_capacity.py:151-160 | for every date, the source's formula agrees with the day-by-day count exactly when the March-based year is non-negative or 399 modulo 400; always from year 0 on |
| Calendar.YearMinusTwoIsShort | scripts/cowork_capacity.py:151-160 | a date it gets wrong |
| Calendar.FormulaOrShort | scripts/cowork_capacity.py:151-160 | elsewhere it is exactly one day short |
| Calendar.DayNumberGrows | scripts/cowork_capacity.py:151-160 | later dates have larger numbers |
| Calendar.EpochSecondsGrow | scripts/cowork_capacity.py:163-197 | at one offset and outside leap seconds, epoch seconds strictly increase with date and time |
| Calendar.LeapSecondIsNextMidnight | scripts/cowork_capacity.py:163-197 | a leap second is the instant of the next midnight, so the order is not strict there |
| Calendar.ReadIsValid | scripts/cowork_capacity.py:163-197 | a text that is read as seconds is a valid timestamp of a year the formula counts |
| CalendarText.ZuluReads | scripts/cowork_capacity.py:131-197 | the plain form in UTC reads exactly when it names a day and a time of day, and as the seconds since the epoch with days counted one by one |
| CalendarText.ReadsExactly | scripts/cowork_capacity.py:131-197 | a fraction adds its part of a second, a zone takes off how far it is ahead, a final newline changes nothing |
| CalendarText.OnlyTimestampsRead | scripts/cowork_capacity.py:131-197 | nothing that is not of this form reads |
| CalendarText.OffsetShifts | scripts/cowork_capacity.py:190-197 | for every text in front, `+hh:mm` reads that much earlier than `Z` and `-hh:mm` that much later, and all three are read or refused together |
| Calendar.ReadKeepsOrder | scripts/cowork_capacity.py:163-197 | two texts at one offset compare as their dates and times do |
| Calendar.SpellingsAgree | scripts/cowork_capacity.py:163-197 | `Z` with a fraction and `+00:00` with a trailing zero are one instant |
| Leases.ClockIsClamped | scripts/cowork_capacity_scheduler.py:192-230 | the effective clock stays within the allowed skew of the reference, and equals the reading exactly when no skew is found |
| Leases.ClockExactly | scripts/cowork_capacity_scheduler.py:192-230 | the reading up to the allowed skew, and the nearer bound beyond it |
| Leases.ResolveCurrentLease | scripts/cowork_capacity_scheduler.py:319-365 | the hop loop follows replacements up to 64 records |
| Leases.StepKeepsStore | scripts/cowork_state.py:6261-6740 | every call keeps the store well formed and takes back no lease, claimant or attempt |
| Leases.ClaimIsRecorded | scripts/cowork_capacity_scheduler.py:373-447 | a successful claim leaves its claimant on the lease, takes an unclaimed one, and on the ordinary path not before its time |
| Leases.ClaimExactly | scripts/cowork_capacity_scheduler.py:373-447 | exactly when an ordinary claim wins a lease or finds it its own, and the store after it |
| Leases.OverrideExactly | scripts/cowork_capacity_scheduler.py:578-687 | an override succeeds only with verified evidence; exactly when it wins or finds the lease its own |
| Leases.InPlaceExactly | scripts/cowork_state.py:6424-6540 | cancel, consume and a failed wake: exactly when they act, and the store after them |
| Leases.ReplaceExactly | scripts/cowork_state.py:6594-6740 | exactly when a lease is replaced, and the new lease, the link and the index after it |
| Leases.NewEpisodeExactly | scripts/cowork_capacity_scheduler.py:771-804 | exactly when a new episode starts, and the store after it |
| Leases.RefusalTellsTruth | scripts/cowork_capacity_scheduler.py:373-878 | every refusal is for a reason that holds, and changes nothing |
| Leases.OneClaimantPerLease | scripts/cowork_capacity_scheduler.py:298-447 | in every run with any races, all successful claims of a lease are by one claimant, and at most one call wins it |
| Leases.ExhaustionEndsExactly | scripts/cowork_capacity.py:556-604 | a call takes an exhausted binding out of exhaustion exactly when it completes the replacement of a live or expired lease of the binding that has attempts left, or a new episode after the current lease ended whose view does not show it ended exhausted |
| Leases.CurrentViewNeverResets | scripts/cowork_capacity_scheduler.py:741-804 | a new episode that has seen the current lease, or a replacement that names it, never resets an exhausted binding |
| Leases.ExhaustionIsKept | scripts/cowork_capacity_scheduler.py:741-878 | an exhausted binding stays so through a whole run exactly when no call of the run resets it |
| Leases.CurrentViewsStayExhausted | scripts/cowork_capacity_scheduler.py:741-878 | in every run in which each new episode has seen the lease current at its start and each replacement replaces it, an exhausted binding stays exhausted |
| Leases.ReplacingASupersededLeaseResets | scripts/cowork_state.py:6594-6740 | a run from the empty store ends in a replacement that gives an exhausted binding a lease with no attempts |
| Leases.StaleEpisodeResets | scripts/cowork_capacity_scheduler.py:771-804 | a run from the empty store ends in a new episode that is checked against a view one call old and does the same |
| Leases.ReclaimExactly | scripts/cowork_capacity_scheduler.py:814-878 | whatever the view, a reclaim expires a lease exactly when it saw it unclaimed and due and it is still unclaimed or claimed; it takes a claimed lease exactly when that lease is claimed by then |
| Leases.ReclaimRaceExactly | scripts/cowork_state.py:6557-6591 | in every run a reclaim takes a claimed lease exactly when the lease it saw was due and a claim won it between that read and the write, and still stands |
| Leases.StaleReclaimTakesAClaim | scripts/cowork_state.py:6557-6591 | a run from the empty store in which a view one call old does so |
| Allocation.ParseSpec | scripts/cowork_allocation.py:119-168 | the grammar loop with its refusals in order |
| Allocation.AcceptedExactly | scripts/cowork_allocation.py:119-168 | a text parses to limits exactly when its entries are well formed, set no slot twice even through aliases, and set just those limits, in any order |
| AllocationExact.EntryExactly | scripts/cowork_allocation.py:119-168 | a text sets a bound to a number exactly when it is a name of the bound in any case, one equals sign and the printed number below ten million, with whitespace only around the three |
| AllocationExact.EntryRefusedExactly | scripts/cowork_allocation.py:143-161 | which reason a bad entry is refused for |
| AllocationExact.RefusedExactly | scripts/cowork_allocation.py:119-168 | a text is refused for being blank, or for the first entry that is bad or sets what is set already |
| Allocation.ParsedIsBounded | scripts/cowork_allocation.py:119-168 | whatever parses sets some bound, and none beyond seven digits |
| Allocation.ValidateLimits | scripts/cowork_allocation.py:171-220 | the readback gate over a stored record, phase by phase |
| Allocation.ReadbackExactly | scripts/cowork_allocation.py:171-220 | limits survive their own storage exactly when they set a bound |
| AllocationExact.ValidatesExactly | scripts/cowork_allocation.py:171-220 | any stored record, whoever wrote it, is read back exactly when it has known phases and fields, null or a non-negative number in each, and some bound; and as just the numbers it gives |
| AllocationExact.ReadbackRefusal | scripts/cowork_allocation.py:171-220 | a stored record is refused for a reason that holds of it |
| Allocation.Print | scripts/cowork_allocation.py:284-295 | the printing loop over the phases |
| Allocation.RoundTripExactly | scripts/cowork_allocation.py:119-295 | printing and parsing give the limits back exactly when a bound is set and none has more than seven digits |
| Allocation.EightDigitsDoNotReadBack | scripts/cowork_allocation.py:119-295 | eight digits print, and do not parse |
| Allocation.SpellingsHaveANormalForm | scripts/cowork_allocation.py:119-295 | any accepted spelling, printed and parsed again, gives the same limits |
| Allocation.BudgetIsExact | scripts/cowork_allocation.py:230-281 | however often a phase is tried, it is charged every try up to its budget and never more; the budget is the dispatch bound or one initial dispatch more than the corrections |
| AllocationExact.DecisionExactly | scripts/cowork_allocation.py:230-281 | number and kind of each dispatch, and exactly when it is refused as a dispatch or as a correction |
| Witness.AcceptedIsExecuted | scripts/cowork_claim_witness.py:259-331 | a row is accepted as an executed probe exactly when it names the class, exactly the gate candidate, a seat other than the builder's, and evidence that still has its hash |
| WitnessExact.ShapedExactly | scripts/cowork_claim_witness.py:259-287 | which rows have the required shape, key by key |
| WitnessExact.CodedExactly | scripts/cowork_claim_witness.py:297-331 | which code each row gets and for which classes it counts, in the order of the checks |
| Witness.DecideMeans | scripts/cowork_claim_witness.py:379-399 | a pair's status depends only on which rows it has; codes are given exactly unless it is approved |
| WitnessExact.CodesExactly | scripts/cowork_claim_witness.py:379-399 | which codes a pair is given, and when it calls for a revision |
| WitnessExact.ClaimFaultExactly | scripts/cowork_claim_witness.py:334-351 | which fault a marked claim has after those before it |
| WitnessExact.FaultsExactly | scripts/cowork_claim_witness.py:354-376 | which faults a question has, each with its code |
| Witness.DecidePair | scripts/cowork_claim_witness.py:379-399 | the loop over the rejected rows keeps each code once, in row order |
| Witness.FindFaults | scripts/cowork_claim_witness.py:354-376 | the faults of claims, candidate, seat, reader and rows, in order |
| Witness.FaultlessExactly | scripts/cowork_claim_witness.py:334-376 | no fault is found exactly when the claims have distinct identifiers and nonempty lists of distinct known classes, every row can be given to a claim, and candidate, seat and reader are usable |
| Witness.ScreenWitnesses | scripts/cowork_claim_witness.py:421-457 | the rows are grouped by claim and the pairs decided one after another |
| Witness.ApprovesExactly | scripts/cowork_claim_witness.py:402-457 | the screen approves exactly when the claims, rows, candidate, seat and reader are well posed and every pair has an executed probe that found no bypass and none that did |
| Witness.InsufficientExactly | scripts/cowork_claim_witness.py:402-457 | when the verdict is insufficient evidence |
| Witness.OrderNeverMatters | scripts/cowork_claim_witness.py:402-457 | the verdict depends on which rows there are, not on their order or number |
| Witness.OneMoreRow | scripts/cowork_claim_witness.py:379-457 | one more row undoes an approval exactly when it cannot be attributed or is an executed probe that found a bypass |
| Witness.ReasonsExplain | scripts/cowork_claim_witness.py:172-183 | the reasons of a refusal are, each once, the codes of the pairs not approved, and an approval gives none |
| PythonEquality.EqualUpToNumbers | scripts/cowork_dispatch_manifest.py:157-158 | Python's equality of JSON values is identity up to writing truth values as numbers |
| Manifest.DifferencePaths | scripts/cowork_dispatch_manifest.py:146-158 | the recursive walk appends exactly the specified paths |
| Manifest.FindStaleReasons | scripts/cowork_dispatch_manifest.py:127-143 | a missing manifest, a binding that is no object, or the paths |
| Manifest.SortedMeans | scripts/cowork_dispatch_manifest.py:150-150 | keys are visited once each, in code-point order |
| Manifest.SilentExactly | scripts/cowork_dispatch_manifest.py:146-158 | over bindings nested to any depth, nothing is reported exactly when they are equal |
| Manifest.ReportedExactly | scripts/cowork_dispatch_manifest.py:146-158 | the reported paths are exactly those of the places where the bindings differ |
| Manifest.StaleExactly | scripts/cowork_dispatch_manifest.py:127-163 | a manifest is not stale exactly when it holds the new binding, up to truth values written as numbers |
| Manifest.ToldExactly | scripts/cowork_dispatch_manifest.py:127-158 | what a stale check tells: no manifest, no binding, or the places where the bindings differ, each written as its keys with dots between |
| Manifest.TruthAndOneAreNotTold | scripts/cowork_dispatch_manifest.py:157-158 | True changed into 1 is not reported |
| ControlPlane.MovesFollowTheTable | scripts/cowork_control_plane.py:162-207 | an event that takes effect follows the table, changes the state, and never leaves a terminal one |
| ControlPlane.TerminalForever | scripts/cowork_control_plane.py:162-207 | terminal states never change in any run |
| ControlPlane.OneTurn | scripts/cowork_control_plane.py:162-207 | at most one turn completes in any run |
| ControlPlane.WakeNeedsPreflight | scripts/cowork_control_plane.py:162-207 | after a capacity wake no turn completes without a new passed preflight |
| ControlPlane.CompletesExactly | scripts/cowork_control_plane.py:212-264 | a unit is completed exactly by passing gate evidence, taken while awaiting the gate, that names the expected candidate when one is given |
| ControlPlane.CompletedHistory | scripts/cowork_control_plane.py:591-708 | a completed unit passed a preflight, completed its one turn and passed its gate in that order, and nothing took effect after |
| ControlPlane.RaisesExactly | scripts/cowork_control_plane.py:459-588 | exactly when a well-formed call raises |
| ControlPlane.ListOutcomeRaises | scripts/cowork_control_plane.py:459-511 | a list for the controller outcome raises |
| ControlPlane.DigestAsDocumented | scripts/cowork_control_plane.py:209-209 | a digest the pattern accepts is 64 hex characters exactly when it does not end in a newline |
| ControlPlane.NewlineDigestCompletes | scripts/cowork_control_plane.py:209-242 | gate evidence whose digest ends in a newline completes a unit |
| ControlPlane.UnreservedExactly | scripts/cowork_control_plane.py:119-207 | in every run capacity is awaited without having been reserved exactly when a wake failure is taken before any wake is claimed |
| ControlPlane.CapacityWithoutReservation | scripts/cowork_control_plane.py:162-207 | a unit can await capacity that was never reserved |
| ControlPlane.CheckpointCompletesExactly | scripts/cowork_control_plane.py:772-822 | a checkpoint receipt completes a unit exactly when it is terminal, accepted and names the expected candidate, and then its checkpoint does not block |
| ControlExact.ReservedExactly | scripts/cowork_control_plane.py:376-511 | exactly when a capacity reservation is taken, field by field, and which refusal every other one meets |
| ControlExact.WokenExactly | scripts/cowork_control_plane.py:514-564 | exactly when a capacity wake is taken: a consumed lease whose time has come, or a journalled and signed signal, bound to the expected candidate |
| ControlExact.WakeFailedExactly | scripts/cowork_control_plane.py:567-588 | exactly when a failed wake is taken, and which refusal every other one meets |
| ControlExact.GatedExactly | scripts/cowork_control_plane.py:212-274 | exactly when gate evidence completes a unit, is missing, or is about another candidate |
| ControlExact.CompletableExactly | scripts/cowork_control_plane.py:162-207 | after any run, a unit can be completed within so many further calls exactly when it is not in a state without a way back and no farther off; a unit that needs authority never can |
| ControlExact.StateTellsLastEffect | scripts/cowork_control_plane.py:162-207 | in every run the state tells which event last took effect and from where |

## Left out

- ChainWalker.Walker.Feed: records are typed, so dictionaries with missing or unknown keys or values of a wrong JSON type appear only as lines the decoder refuses.
- SHA-256 and JSON text syntax: a digest function and a faithful encode/decode pair stand for them.
- `flock`: commits are serialized by the lock; the lock's own mutual exclusion is assumed, and only readers go without it.
- ChainRuns.EveryReadIsAChain: says nothing after a replacement that put down bytes nobody asked for and whose commit then reported uncertainty; no later call repairs such a file.
- Temporary file names and the internals of `fsync`: a write fails before or at the replacement, or is synced, or not.
- The guards of the gate against malformed folded state: the gate is modelled on the state the fold produces.
- TurnProtocol.ClaudeSession.SendTurn: deadlines are counts of the lines that arrive before them; interrupts, tracing, and lines of JSON that are no object are not modelled.
- The staleness of a recorded usage baseline and every token price.
- BashAction.ClassifyCommand: how one stage is classified (`shlex`, the verb and flag tables, redirect targets) is a parameter, so nothing is said of it.
- ShellNormal.NormalizeCommand: the hash of the normal form in the command identity.
- Ownership.DecideAction: `realpath` and what Git reports are given; root digests in the answer are the roots themselves.
- `OwnedScope` normalization on construction, child identity policies and sanitized messages.
- Calendar.ReadKeepsOrder: fractions of a second are exact reals, not floats, and digits outside ASCII are not read as digits.
- Leases.StepKeepsStore: schema validation of lease records, the manual-signal journal and its signatures (one boolean), jitter, and corrupt lease files.
- Allocation.ParseSpec: error messages; only the reason codes are modelled.
- Allocation.BudgetIsExact: the durable ledger that makes evaluation and charge one transaction.
- Witness.ScreenWitnesses: the reader is a function, so a file that changes between two reads of one row is not modelled; the lexical scan for unmarked claims and the claim markers are left out.
- Manifest.DifferencePaths: numbers are integers; compiling, persisting and proving manifests are left out.
- ControlPlane.CompletesExactly: unknown states and events are excluded by their types; the causal fingerprint is left out.
- Sandboxing, processes, sockets, agent files, delta reports, context and correction schemas, and command-line assembly.
