# Verification of the decision platform's core

A Dafny project that models the parts of this repository where correctness is hard to see and proves what they
promise. `dafny verify dfyconfig.toml` checks all of it.

**Tetris integration.** `TetrisBoard` and `TetrisGame` are the engine: pure functions over boards and games, the class
that updates its fields in place and is proved against them, and the invariant that every run keeps. `PieceBag` is the
shuffled piece source. `TetrisPlanner` is the breadth-first search over placements and the order in which it lists
them, `PlannerAgreement` its agreement with the engine in both directions, `GreedyChoice` the scoring, the choice of
one best placement, and the argument that re-planning after every command follows the first plan, `GreedyPlayer` the
paced player. `DropInterval` is the pruned rolling window against its full history. `Experience` cuts play into
reporting windows and balances the books. `Session` is the policy protocol as atomic steps on values (commands,
refreshes, answers, aborts, cancellation, closing) and what every run of it keeps; `SessionEngine` is the session
object, proved to do exactly those steps. `VirtualEpisode` is the autonomous loop on a virtual clock, told moment by
moment: options, pieces and answers determine all of it.

**Runtime authority.** `AuthorityStores` gives each transaction of the contract store and the executable store as one
function on the stored tables. `RuntimeAuthority` interleaves any number of deployments, submissions, manual
activations, worker passes and catalog reads over them, one store call at a time, with the in-process lock and a crash
of a task or of the process possible between any two calls, and follows each kind of task left to itself to its end.
There is one service process; its lock does not outlive it.

**Sealed proposals.** `AnalysisWorkspace` gives the operations on a cycle's files, each told how many of its atomic
writes it gets to make, and shows that recovery completes what was stopped after any of them. `SealedProposal`
interleaves the coordinator, the agent's tool calls, recovery, failures and crashes with a service whose other clients
act at will, and uses the executable store's own admission transaction. `Recovery` follows an attempt to its end: a
first one, a report, a poll, the recovery of a sealed cycle, and the cycles that no recovery ends.

**Encodings.** `Varint` is the protobuf varint writer, reader and scanner; `CanonicalEncoding` the tagged JSON of
nested attribute values and the framing of identity hashes; `CatalogOrder` the catalog that one service validates and
sorts by UTF-16 units, and the other validates again and requires in strict UTF-8 order (RFC 3629 section 3 and RFC
2781 section 2.1 give the encodings).

Findings worth knowing, each with its exact condition:

- Basic activation does not look at the state of what it activates, so the store alone would bring a retired
  executable back, even over an active one (`AuthorityStores.BasicActivationRevives`, `RetiredComesBackOverActive`).
  The service never does: `RuntimeAuthority.RetiredStaysRetired`.
- Reporting windows stay in order, disjoint and no fuller than their span on every outcome of `observe`, but not
  always exact. It checks the interval before it closes the window of a stopped session, so on a mismatch such a
  window stays open exactly if the exposure is unchanged; play booked later into a window that was left behind makes
  it inexact, and nothing else does (`Experience.TetrisExperience.Observe`). `Experience.LeaveWindowOpen` is a run
  that leaves one, and `PublishTooLittlePlay` goes on to publish three seconds with two seconds of play.
- An `observe` that fails does not forget old evidence, and the next decision's play time is then too small by the
  time since each segment that ended before the window, and may be negative (`TetrisExperience.RuntimeInput`,
  `Experience.OverrunIsNothingExactlyIf`; `Experience.NegativePlay` is a run).
- An autonomous episode fails exactly when the provider answers a refresh that is due with an interval out of bounds
  (`VirtualEpisode.RunAutonomousTetrisSession`, `Session.RefusedExactlyIf`).
- A queued local selection comes into force with the interval of the level before the lock that admits it, and lags
  behind exactly if that lock changes the local interval (`Session.QueuedLocalLags`, `LocalPolicyFollowsLevel`).
- The contract service lets a part of an authority end in a line feed, and the materializer does not. A published
  catalog is always in the order demanded (`CatalogOrder.PublishedIsStrictlyOrdered`), and it compiles exactly if no
  authority in it ends so and no count overflows (`PublishedIsAcceptedExactlyIf`); one such contract makes it reject
  the whole catalog (`LineFeedIsPublishedAndRejected`).
- A sealed cycle whose rules compile to an executable that is stored and no longer waiting, and which has no
  admission, is never decided: every recovery gives up, and the cycle stays current for as long as its contract does
  (`Recovery.RecoveryDecidesExactlyIf`, `StuckForGood`; `ActiveExecutableIsStuck` is such a state).
- A process killed inside a write leaves a temporary file that the manifest counts. After the seal the cycle can only
  be resumed: no proposal, no outcome and no other contract gets past it (`AnalysisWorkspace.ChangedSealIsFinal`).
- If a proposal is sealed but its first attempt stopped before sealing the manifest, a retry succeeds exactly over
  unchanged files (`AnalysisWorkspace.SealedProposalIsFoundExactlyIf`, `ChangedFilesLoseTheProposal`), and nothing
  else is ever submitted for the cycle.
- A retried submission is answered with `created` false. If another call has recorded the first answer in between, the
  second one is accepted exactly if the flags agree, so it is refused
  (`SealedProposal.LaterAnswerIsAcceptedExactlyIf`, `SecondAnswerIsRefused`).

## Model

| member | source | states |
|---|---|---|
| TetrisBoard.CellsDiffer | examples/tetris-integration/src/game.ts:85-131 | Every pose of every kind has four different cells, for all seven kinds and four rotations of the table. |
| TetrisBoard.RotationTurnsShape | examples/tetris-integration/src/game.ts:85-131 | Each rotation in the table is the one before it turned clockwise within its box; the square stays as it is. |
| TetrisBoard.FreeExactlyIf | examples/tetris-integration/src/game.ts:188-198 | A piece collides with nothing exactly where all its cells are between the walls and above the floor, and those on the board are over empty squares. |
| TetrisBoard.FirstFreeIsFree | examples/tetris-integration/src/game.ts:206-216 | A rotation that succeeds gives a pose that collides with nothing, of the same kind and row. |
| TetrisBoard.RotationTakesFirstFreeKick | examples/tetris-integration/src/game.ts:206-216 | A rotation takes the first of the five kicks that is free, in place if that is free, and fails exactly if all five collide. |
| TetrisBoard.LandingRests | examples/tetris-integration/src/game.ts:354-366 | A straight drop from a free pose stops, in a free pose straight below from which the next row down collides. |
| TetrisBoard.StampCounts | examples/tetris-integration/src/game.ts:442-455 | Writing a fitting piece into the board adds exactly four occupied cells and at most four full rows. |
| TetrisBoard.StampFillsExactly | examples/tetris-integration/src/game.ts:442-455 | Exactly the four squares are written, with the piece's kind; every other square stays. |
| TetrisBoard.ClearingConserves | examples/tetris-integration/src/game.ts:218-228 | Clearing removes exactly the full rows: ten occupied cells a row, nothing full is left, and the count of cleared rows is the number of full ones. |
| TetrisBoard.RowsFall | examples/tetris-integration/src/game.ts:218-228 | Every row that is not full falls by as many rows as were full below it, and as many empty rows as were full come in at the top. |
| TetrisGame.LockingFacts | examples/tetris-integration/src/game.ts:439-456 | A piece that fits locks only into writable squares and completes at most four rows, so the row index of the score table is always defined. |
| TetrisGame.LockedKeepsLegal | examples/tetris-integration/src/game.ts:439-475 | Locking keeps the board invariant, counts one piece and its cleared lines, scores 0, 100, 300, 500 or 800 times one more than the level reached, notes the placement, puts the new piece at the top, and ends the game exactly when that collides. |
| TetrisGame.StepKeepsLegal | examples/tetris-integration/src/game.ts:323-377 | Every one of the six commands keeps the invariant of the engine and reports exactly what changed; a refused command changes only the failure counter. |
| TetrisGame.OnlyLocksClear | examples/tetris-integration/src/game.ts:323-377 | Only a lock changes the board and the lines. |
| TetrisGame.NewGameIsLegal | examples/tetris-integration/src/game.ts:288-297 | A new game of any kind satisfies the invariant and is live. |
| TetrisGame.UpdatesAccountForRun | examples/tetris-integration/src/game.ts:439-475 | Over any run, the reported locks and cleared lines are exactly the growth of the piece sequence and of the line count. |
| TetrisGame.EveryRunIsLegal | examples/tetris-integration/src/game.ts:354-366 | In every run the live piece is inside the board and overlaps nothing, no row is full, and occupied cells are four a piece less ten a cleared line. |
| TetrisGame.TetrisGame.constructor | examples/tetris-integration/src/game.ts:288-297 | The constructed engine is the specified new game. |
| TetrisGame.TetrisGame.SetPaused | examples/tetris-integration/src/game.ts:319-321 | Pausing changes the paused flag, and nothing once the game is over. |
| TetrisGame.TetrisGame.MoveLeft | examples/tetris-integration/src/game.ts:323-325 | State and update are those of the specified step. |
| TetrisGame.TetrisGame.MoveRight | examples/tetris-integration/src/game.ts:327-329 | State and update are those of the specified step. |
| TetrisGame.TetrisGame.RotateClockwise | examples/tetris-integration/src/game.ts:331-340 | State and update are those of the specified step, including the first free kick. |
| TetrisGame.TetrisGame.SoftDrop | examples/tetris-integration/src/game.ts:342-352 | One row down with one point, or a lock, as specified. |
| TetrisGame.TetrisGame.HardDrop | examples/tetris-integration/src/game.ts:354-366 | The in-place drop loop ends at the landing pose, scores two points a row and locks there. |
| TetrisGame.TetrisGame.Tick | examples/tetris-integration/src/game.ts:368-377 | One row down without points, or a lock, as specified. |
| TetrisGame.TetrisGame.Move | examples/tetris-integration/src/game.ts:424-437 | A move is taken exactly when the pose is free; otherwise one recovery failure is counted. |
| TetrisGame.TetrisGame.Lock | examples/tetris-integration/src/game.ts:439-475 | The cell-by-cell stamping loop, clearing and spawning give exactly the specified locked game. |
| TetrisGame.TetrisGame.WriteCells | examples/tetris-integration/src/game.ts:442-454 | The cells are written one by one up to the first one above the board, and the answer says whether there is one. |
| TetrisGame.TetrisGame.Settle | examples/tetris-integration/src/game.ts:455-475 | Scoring, placement evidence, spawning and the end of the game are the specified ones. |
| TetrisGame.TetrisGame.ClearLines | examples/tetris-integration/src/game.ts:477-482 | Board and line count change exactly by the cleared rows. |
| PieceBag.SevenBagPieceSource.Next | examples/tetris-integration/src/game.ts:140-143 | A piece is dealt from the end of the bag, which is shuffled first if it is empty, unless a random value is out of range then; in that case nothing is dealt and a whole bag remains. |
| PieceBag.SevenBagPieceSource.Refill | examples/tetris-integration/src/game.ts:145-162 | The in-place exchange loop gives exactly the shuffle of the drawn choices, and keeps a whole bag even when it stops early. |
| PieceBag.EveryDealtBlockIsABag | examples/tetris-integration/src/game.ts:135-163 | In every block of seven pieces dealt each kind occurs exactly once. |
| PieceBag.ShufflingPermutes | examples/tetris-integration/src/game.ts:147-161 | The shuffle is a permutation for all choices. |
| PieceBag.EveryOrderIsPossible | examples/tetris-integration/src/game.ts:147-161 | For every order of the bag there are choices under which the shuffle produces it. |
| PieceBag.EveryChoiceCanBeDrawn | examples/tetris-integration/src/game.ts:156-156 | Every exchange position up to the index is drawn by some random value in range. |
| TetrisPlanner.EnumeratePlacements | examples/tetris-integration/src/game.ts:230-270 | The breadth-first search terminates; from an on-board pose it never fails; if the pose is free the list is determined: one placement for every pose that shifts can reach, with the first of all command lists to it, in the order of these lists (shorter first, then left before right before rotating). |
| TetrisPlanner.Plan | examples/tetris-integration/src/game.ts:244-258 | A queue entry gives the placement of its walk and drop; it fails only for poses above the board. |
| TetrisPlanner.Project | examples/tetris-integration/src/game.ts:244-252 | The projected board is the stamped landing. |
| TetrisPlanner.Enqueue | examples/tetris-integration/src/game.ts:259-267 | Exactly the successors that are free are appended, in order. |
| TetrisPlanner.SuccessorsAscend | examples/tetris-integration/src/game.ts:259-267 | Successors are queued left first, then right, then rotated, so their command lists are in order. |
| TetrisPlanner.QueueComesBefore | examples/tetris-integration/src/game.ts:239-267 | Successors of the entry that is taken come after all that is waiting: the queue stays in order. |
| TetrisPlanner.NoWalkIsSooner | examples/tetris-integration/src/game.ts:239-243 | No walk to a pose comes before the one that the search recorded for it. |
| TetrisPlanner.OfferedIsLeast | examples/tetris-integration/src/game.ts:239-258 | Every placement on the list drops after the first of all walks to its pose. |
| TetrisPlanner.SearchIsComplete | examples/tetris-integration/src/game.ts:230-270 | An emptied queue has offered every landing that any walk reaches, with commands that come no later, in order. |
| PlannerAgreement.ShiftIsStep | examples/tetris-integration/src/game.ts:424-437 | The engine takes a shift exactly when the planner does, and to the same pose. |
| PlannerAgreement.PlacementIsReplayed | examples/tetris-integration/src/game.ts:230-270 | Replaying any planned placement on the engine gives exactly its board and its cleared lines. |
| PlannerAgreement.EveryDropIsOffered | examples/tetris-integration/src/game.ts:230-270 | Every board that shifts and one hard drop can produce on the engine is among the placements, with commands that come no later. |
| PlannerAgreement.ShiftingIsWalk | examples/tetris-integration/src/game.ts:331-340 | Any shift commands, refused ones included, lead where some effective walk leads that comes no later. |
| GreedyChoice.PlacementScore | examples/tetris-integration/src/greedy-player.ts:35-60 | The nested loops compute the score defined by column heights, holes and unevenness. |
| GreedyChoice.MeasureColumns | examples/tetris-integration/src/greedy-player.ts:38-52 | One scan of each column from the top finds its height and counts the empty squares below an occupied one. |
| GreedyChoice.ChooseGreedyPlacement | examples/tetris-integration/src/greedy-player.ts:16-33 | Nothing that the engine can do with shifts and a drop has a better score, or the same score with commands that come earlier; there is a choice exactly when the piece is free. |
| GreedyChoice.BestIsUnique | examples/tetris-integration/src/greedy-player.ts:16-33 | There is only one such placement: its commands and its board are determined. |
| GreedyChoice.NextIsCompared | examples/tetris-integration/src/greedy-player.ts:22-30 | Going through the list in order, only a better score displaces the best so far. |
| GreedyChoice.BestOfList | examples/tetris-integration/src/greedy-player.ts:20-30 | The first best of the enumerated list is the first best among all reachable placements. |
| GreedyChoice.ReplanningProgresses | examples/tetris-integration/src/greedy-player.ts:101-108 | After the first command of the best plan, the best plan is the rest of it. |
| GreedyChoice.PlansShrink | examples/tetris-integration/src/greedy-player.ts:101-108 | Without gravity in between, the plan before command i is what is left of the first plan after i commands, and only the pose has changed. |
| GreedyChoice.PlayerReachesItsPlan | examples/tetris-integration/src/greedy-player.ts:101-108 | Planning afresh before every command, the player gives exactly the commands of its first plan, and leaves exactly its board and its cleared lines. |
| GreedyPlayer.GreedyTetrisPlayer.constructor | examples/tetris-integration/src/greedy-player.ts:67-77 | A player has no piece and no plan at first. |
| GreedyPlayer.GreedyTetrisPlayer.Reset | examples/tetris-integration/src/greedy-player.ts:79-82 | Piece and plan are forgotten. |
| GreedyPlayer.GreedyTetrisPlayer.NextActionAt | examples/tetris-integration/src/greedy-player.ts:84-99 | A time before the last one is refused; a new piece is left alone for the reaction delay and never acted on earlier than planned; a known piece keeps its time. |
| GreedyPlayer.GreedyTetrisPlayer.NextCommand | examples/tetris-integration/src/greedy-player.ts:101-108 | A command is given exactly when due, and is the first command of the one best plan; it always exists for a live piece; the next one is a command interval later. |
| DropInterval.LocalIntervalIsValid | examples/tetris-integration/src/drop-interval.ts:206-211 | The local interval starts at 800, falls by 50 a level down to 200, and satisfies the bounds at every level. |
| DropInterval.ValidIntervals | examples/tetris-integration/src/drop-interval.ts:225-231 | Valid intervals are exactly the multiples of fifty from 200 to 1500. |
| DropInterval.RollingDropIntervalContext.constructor | examples/tetris-integration/src/drop-interval.ts:62-78 | The recording starts with one bounded pressure. |
| DropInterval.RollingDropIntervalContext.CheckObservation | examples/tetris-integration/src/drop-interval.ts:147-158 | An observation is refused exactly for another session or an earlier time. |
| DropInterval.RollingDropIntervalContext.Record | examples/tetris-integration/src/drop-interval.ts:80-110 | The pruned window goes on agreeing with the full recording, to which exactly this observation is added. |
| DropInterval.RollingDropIntervalContext.AddPressure | examples/tetris-integration/src/drop-interval.ts:86-97 | Repeating, overwriting or appending a change agrees with the full recording from the window's start on. |
| DropInterval.RollingDropIntervalContext.Prune | examples/tetris-integration/src/drop-interval.ts:160-174 | What is dropped does not matter to any time in the window; placements kept are those in the window. |
| DropInterval.RollingDropIntervalContext.Snapshot | examples/tetris-integration/src/drop-interval.ts:112-145 | Mean, maximum and placement sums equal those of the complete last-write-wins recording over the window, and mean <= maximum <= 1. |
| DropInterval.RollingDropIntervalContext.SummarizePressure | examples/tetris-integration/src/drop-interval.ts:176-203 | The one-pass loop computes the time-weighted mean and the maximum of the step function over the window. |
| DropInterval.RecentAreExactly | examples/tetris-integration/src/drop-interval.ts:122-124 | The placements summarized are exactly those not before the window's start, each as often as it was recorded. |
| DropInterval.TotalsAdd | examples/tetris-integration/src/drop-interval.ts:125-132 | Placement times and failures are summed over the placements. |
| DropInterval.OverwriteAgrees | examples/tetris-integration/src/drop-interval.ts:88-93 | Overwriting the last change at its own time is the same step function as recording both. |
| DropInterval.RepeatAgrees | examples/tetris-integration/src/drop-interval.ts:87-88 | Recording an unchanged pressure again does not change the step function. |
| DropInterval.ForgettingAgrees | examples/tetris-integration/src/drop-interval.ts:165-170 | Dropping the oldest change is invisible once the next one is in force at the window's start. |
| DropInterval.MeanIsBounded | examples/tetris-integration/src/drop-interval.ts:197-202 | The mean of a bounded recording lies between zero and its maximum, also at a single instant. |
| Experience.PublishingKeepsBooks | examples/tetris-integration/src/experience.ts:267-289 | Publishing a window moves its play, balance, lines and game overs to the reported side, keeps the windows in order and disjoint, and leaves them exact exactly if they were. |
| Experience.TetrisExperience.constructor | examples/tetris-integration/src/experience.ts:98-101 | A new tracker has recorded nothing. |
| Experience.TetrisExperience.NewIsBooked | examples/tetris-integration/src/experience.ts:98-101 | A new tracker's books balance, and its windows tile. |
| Experience.TetrisExperience.EnsureWindow | examples/tetris-integration/src/experience.ts:235-246 | Opening an empty window changes no total, keeps the order of the windows, and makes none exact or inexact. |
| Experience.TetrisExperience.FinishWindow | examples/tetris-integration/src/experience.ts:267-289 | Closing keeps every total, order and exactness, and publishes the open window exactly unless it holds nothing and the episode goes on. |
| Experience.TetrisExperience.Accumulate | examples/tetris-integration/src/experience.ts:248-265 | The slicing loop terminates and attributes exactly the duration in windows of at most five seconds that stay in order and disjoint; one becomes inexact exactly if the play goes into a window that was left behind before it; play that fits extends the open window alone. |
| Experience.TetrisExperience.TakeSlice | examples/tetris-integration/src/experience.ts:252-263 | The open window takes on as much play as it has room for, and stays exact exactly if it was and ended where the play begins. |
| Experience.TetrisExperience.Elapse | examples/tetris-integration/src/experience.ts:114-126 | Elapsed play is booked once, under the exposure applied before; windows stay in order, and become inexact exactly if it goes into a window left behind. |
| Experience.TetrisExperience.CountEvents | examples/tetris-integration/src/experience.ts:128-141 | A locking command's lines and a lost game are booked under the exposure applied before. |
| Experience.TetrisExperience.Credit | examples/tetris-integration/src/experience.ts:132-140 | Lines and game overs go to totals and to the open window, or to the unattributed side when no exposure is applied. |
| Experience.TetrisExperience.Observe | examples/tetris-integration/src/experience.ts:103-175 | On every outcome totals equal reported plus open plus unattributed, and windows stay in order, disjoint, and with no more play than their span or five seconds; they become inexact exactly when play is booked into a window that ends before the previous observation; every failure's condition is exact, and so is when one leaves the window of a stopped session open; for an observation without events whose play fits the window, what is open and what is handed out is given. |
| Experience.TetrisExperience.Accrue | examples/tetris-integration/src/experience.ts:113-141 | Play, lines and lost games since the previous observation are booked and kept as evidence under the exposure applied then; it is exact when a window is open afterwards and when one becomes inexact. |
| Experience.AccruedInFull | examples/tetris-integration/src/experience.ts:117-141 | What one observation books: the time since the previous one if the session was played then, balanced exactly if its pressure was from 0.15 to 0.45, the lines of a lock, and a game over that was not there before. |
| Experience.EvidenceInFull | examples/tetris-integration/src/experience.ts:117-141 | The segment, lock and game over that are kept of it, and when evidence is cleared. |
| Experience.LeaveWindowOpen | examples/tetris-integration/src/experience.ts:143-155 | A run whose last observation, of a paused session with another interval, leaves the window open and exact. |
| Experience.PublishTooLittlePlay | examples/tetris-integration/src/experience.ts:143-155 | The same run continued: three seconds are published with two seconds of play. |
| Experience.TetrisExperience.Conclude | examples/tetris-integration/src/experience.ts:143-175 | Switching, checking, closing and forgetting keep the books, the order and the exactness of the windows; both failures' conditions are exact, and so is which window is closed, handed out or left open. |
| Experience.TetrisExperience.Switch | examples/tetris-integration/src/experience.ts:143-150 | A new exposure closes the window of the old one and applies its registration; the same exposure changes nothing. |
| Experience.TetrisExperience.CloseFinished | examples/tetris-integration/src/experience.ts:154-155 | The window of a stopped session and a full window are closed; what stays open is shorter than a window and played. |
| Experience.TetrisExperience.Forget | examples/tetris-integration/src/experience.ts:157-174 | What is kept is exactly the play that ends in the last five seconds and the locks and lost games at most that old, since the evidence was cleared, and the registrations still referred to. |
| Experience.SegmentsKeptExactly | examples/tetris-integration/src/experience.ts:167-167 | Exactly the segments that end after the cutoff are kept. |
| Experience.LocksKeptExactly | examples/tetris-integration/src/experience.ts:168-168 | Exactly the locks not before the cutoff are kept. |
| Experience.TimesKeptExactly | examples/tetris-integration/src/experience.ts:169-169 | Exactly the lost games not before the cutoff are kept. |
| Experience.TetrisExperience.RuntimeInput | examples/tetris-integration/src/experience.ts:177-205 | After an observation that succeeded, play, balance, locks, hard drops, lines and lost games are exactly those of the last five seconds, within bounds; after one that failed, each segment that ended too long ago is subtracted. |
| Experience.LockSumsAdd | examples/tetris-integration/src/experience.ts:190-199 | Lines and hard drops are sums over the locks. |
| Experience.TetrisExperience.KeptPlayIsEnough | examples/tetris-integration/src/experience.ts:182-189 | What was forgotten does not matter to the last five seconds, and after pruning the play of these is exact and within bounds. |
| Experience.TetrisExperience.SumSegments | examples/tetris-integration/src/experience.ts:185-189 | The loop sums the play after the cutoff, less the time since the segments that ended before it. |
| Experience.OverrunIsNothingExactlyIf | examples/tetris-integration/src/experience.ts:185-189 | What is subtracted is nothing exactly if no kept segment ended before the window. |
| Experience.RecentPlayIsExact | examples/tetris-integration/src/experience.ts:182-189 | Over evidence that has been pruned the sum is exact, fits the window, and its balance is a share. |
| Experience.NegativePlay | examples/tetris-integration/src/experience.ts:145-149 | A run after which the play reported for the last five seconds is minus fourteen seconds. |
| Experience.TetrisExperience.RegisterDecision | examples/tetris-integration/src/experience.ts:207-219 | A decision is registered exactly when it is for this session, has a nonempty new exposure and a bounded interval. |
| Experience.TetrisExperience.CompleteEpisode | examples/tetris-integration/src/experience.ts:221-229 | An episode completes exactly after closing with an applied decision; the first completion publishes one final window, keeps the books, and keeps the windows in order and as exact as they were. |
| Experience.ForgottenPlayIsOver | examples/tetris-integration/src/experience.ts:166-167 | Dropping segments that ended before a cutoff changes no later sum. |
| Experience.PlayFitsWindow | examples/tetris-integration/src/experience.ts:182-189 | Consecutive segments cannot hold more play than the window is long, nor more balanced play than play. |
| Experience.ReportedTimeIsCovered | examples/tetris-integration/src/experience.ts:275-288 | Reported play is at most the time the windows cover, and equal to it exactly if every window is exact; no moment is covered twice. |
| Session.NewSessionKeeps | examples/tetris-integration/src/session.ts:114-139 | A new session with a valid configuration satisfies the protocol's invariant. |
| Session.LocalIntervalIsBounded | examples/tetris-integration/src/session.ts:504-506 | The local interval satisfies the bounds under any valid configuration. |
| Session.RestartStartsOver | examples/tetris-integration/src/session.ts:389-402 | An accepted restart leaves nothing but the configuration: a new game under the local policy of its first level, nothing queued or live, a fresh piece; one that is too early or after closing changes nothing. |
| Session.LocalPolicyFollowsLevel | examples/tetris-integration/src/session.ts:317-335 | In every run a local selection in force has the local interval of the level as it is now, unless selections may be queued; a queued local one has it in any case. |
| Session.QueuedLocalLags | examples/tetris-integration/src/session.ts:324-335 | A queued local selection comes into force with the interval of the level before the lock that admits it, which is out of date exactly if that lock changes the local interval. |
| Session.CancelQuiets | examples/tetris-integration/src/session.ts:264-271 | Cancelling leaves nothing queued and no live refresh. |
| Session.EveryStepKeeps | examples/tetris-integration/src/session.ts:158-430 | Every command, refresh, answer, abort, settlement, cancellation and close keeps the invariant. |
| Session.DeadStaysDead | examples/tetris-integration/src/session.ts:175-262 | A refresh that was aborted or answered never becomes live again. |
| Session.InterruptKills | examples/tetris-integration/src/session.ts:264-295 | Pause, restart, close, a lost game, cancellation and abort leave the refresh dead. |
| Session.StaleAnswerIsIgnored | examples/tetris-integration/src/session.ts:197-262 | In every run an answer to a refresh that was interrupted since it began changes neither the selection in force nor the queued one nor the revision. |
| Session.UntrackedIsAborted | examples/tetris-integration/src/session.ts:250-271 | Whatever is in flight but no longer tracked has an aborted signal. |
| Session.LiveAnswerCounts | examples/tetris-integration/src/session.ts:219-248 | Every live answer is in force at once or queued behind the piece in play, exactly unless it is empty or out of bounds: local answers take the local interval, fallbacks and errors keep what the decision service decided before. |
| Session.RefusedExactlyIf | examples/tetris-integration/src/session.ts:404-416 | A refresh fails exactly when its answer would be applied and comes from the decision service with an interval out of bounds; then nothing but its arrival is noted. |
| Session.StepHoldsSelection | examples/tetris-integration/src/session.ts:313-343 | In piece-boundary mode no step but a lock or a restart changes the selection of a piece in play. |
| Session.EffectiveCommandUsesPiece | examples/tetris-integration/src/session.ts:314-316 | The first effective command on a piece makes it no longer fresh. |
| Session.SelectionIsHeld | examples/tetris-integration/src/session.ts:313-343 | In every run the selection is constant from a piece's first effective command to the step that ends it. |
| Session.QueuedSelectionWaitsForLock | examples/tetris-integration/src/session.ts:331-336 | A queued selection comes into force exactly with the lock that brings the next piece; a lock that ends the game drops it. |
| Session.EveryRunIsBounded | examples/tetris-integration/src/session.ts:404-430 | In every run the interval in force satisfies the bounds, a selection is queued only behind a played piece in that mode, and only the tracked refresh is live. |
| SessionEngine.BoardPressure | examples/tetris-integration/src/game.ts:497-506 | The scan finds the topmost occupied row; pressure is the share of the height in use. |
| SessionEngine.EvidenceIsSinceLastBegin | examples/tetris-integration/src/session.ts:297-402 | In every run the evidence begins at the last start, accepted restart or effective resume, ends with the board as it is now, and holds one placement for every piece locked since. |
| SessionEngine.PlacementsCountLocks | examples/tetris-integration/src/session.ts:297-310 | Only a game command that locks counts a piece, and it counts one; nothing else does but a new game. |
| SessionEngine.TetrisSession.constructor | examples/tetris-integration/src/session.ts:114-139 | The object is the specified new session with its own game and a window of five seconds that starts now with the pressure of now. |
| SessionEngine.TetrisSession.CancelPolicyRefresh | examples/tetris-integration/src/session.ts:264-271 | The fields change exactly as the specified cancellation; the answer says whether there was anything to cancel. |
| SessionEngine.TetrisSession.Dispatch | examples/tetris-integration/src/session.ts:158-174 | A command changes the object and the evidence exactly as the specified step and returns the engine's update. |
| SessionEngine.TetrisSession.ApplyGameCommand | examples/tetris-integration/src/session.ts:297-343 | Game, evidence and policy change as specified; the evidence gains exactly this moment's pressure, and the placement if the piece locked. |
| SessionEngine.TetrisSession.GameStep | examples/tetris-integration/src/session.ts:345-366 | Each command reaches the engine operation it names. |
| SessionEngine.TetrisSession.GameObservation | examples/tetris-integration/src/game.ts:379-410 | The observation is the game's pressure, level and last placement. |
| SessionEngine.TetrisSession.RecordGame | examples/tetris-integration/src/session.ts:306-310 | The session's own window never refuses an observation and records the game's pressure and placement. |
| SessionEngine.TetrisSession.ReactToUpdate | examples/tetris-integration/src/session.ts:313-342 | The policy reacts to an update exactly as specified. |
| SessionEngine.TetrisSession.ReselectOnLock | examples/tetris-integration/src/session.ts:317-335 | A lock re-reads the local interval and lets a queued selection in. |
| SessionEngine.TetrisSession.SetPaused | examples/tetris-integration/src/session.ts:368-387 | Pausing and resuming change the session as specified; the window is new, starting now with the pressure of now, exactly when a resume takes effect, and otherwise unchanged. |
| SessionEngine.TetrisSession.NewWindow | examples/tetris-integration/src/session.ts:457-465 | The new window spans five seconds, starts at this moment, and has recorded this moment's pressure and no placement. |
| SessionEngine.TetrisSession.RestartGame | examples/tetris-integration/src/session.ts:389-402 | A restart replaces game and window exactly when it is accepted; the new window starts now with the pressure of the new game. |
| SessionEngine.TetrisSession.BeginNewGame | examples/tetris-integration/src/session.ts:395-397 | Game and window are new; the window spans five seconds, starts now, and has recorded the new game's pressure and no placement. |
| SessionEngine.TetrisSession.RefreshPolicy | examples/tetris-integration/src/session.ts:176-262 | A refresh begins exactly as specified; its context is the exact mean, maximum and placement sums, over the last five seconds, of everything gathered since the last start, restart or resume. |
| SessionEngine.TetrisSession.ProviderAnswered | examples/tetris-integration/src/session.ts:219-248 | An answer is handled once, exactly as specified, and the refresh fails exactly when the answer is refused. |
| SessionEngine.TetrisSession.ApplyPolicySelection | examples/tetris-integration/src/session.ts:404-430 | A bounded selection is queued or put in force exactly as specified; an unbounded one is refused and changes nothing. |
| SessionEngine.TetrisSession.AbortExternally | examples/tetris-integration/src/session.ts:203-213 | An external abort marks only the refresh it belongs to. |
| SessionEngine.TetrisSession.Settled | examples/tetris-integration/src/session.ts:250-258 | Only the tracked promise is let go of when it settles. |
| SessionEngine.TetrisSession.CloseSession | examples/tetris-integration/src/session.ts:273-279 | Closing cancels, closes and counts one revision, once. |
| VirtualEpisode.RunAutonomousTetrisSession | examples/tetris-integration/src/autonomous-session.ts:33-104 | The loop terminates, and its moments tell the whole episode: each one follows from those before it, the last one leaves the session as returned, and times, counts and answers are theirs; the clock advances, never passes the end, and never rests longer than the player's pace or the longest fall; the episode fails exactly at the first answer out of bounds. |
| VirtualEpisode.PlayOn | examples/tetris-integration/src/autonomous-session.ts:63-97 | One iteration adds exactly one moment: gravity fires exactly when due, then the player acts exactly when due, and after a lock the refresh happens exactly when due and the next fall starts over. |
| VirtualEpisode.EveryLockAsks | examples/tetris-integration/src/autonomous-session.ts:87-94 | With a provider, a lock that the game survives asks it exactly if a refresh interval has passed since it was last asked, the first time at the start. |
| VirtualEpisode.FallStartsOverAtLocks | examples/tetris-integration/src/autonomous-session.ts:68-96 | After a fall or a lock, the clock does not go past the interval then in force before gravity fires, and gravity fires exactly then, unless a lock comes first. |
| VirtualEpisode.FirstFallIsFixed | examples/tetris-integration/src/autonomous-session.ts:48-61 | Without a provider the first fall takes the interval asked for, or 800 milliseconds. |
| VirtualEpisode.OneThingFollows | examples/tetris-integration/src/autonomous-session.ts:63-97 | Only one thing can happen next: time, command, answer and session are determined. |
| VirtualEpisode.TimelineIsDetermined | examples/tetris-integration/src/autonomous-session.ts:33-104 | Options, pieces and answers determine the episode: of two timelines one begins with the other. |
| VirtualEpisode.Iterate | examples/tetris-integration/src/autonomous-session.ts:63-86 | One iteration up to the lock moves the clock to what is due, makes it happen, and leaves fewer iterations. |
| VirtualEpisode.FailureComesFromTheProvider | examples/tetris-integration/src/autonomous-session.ts:56-92 | An episode whose provider never answers out of bounds does not fail; one whose first answer is out of bounds does. |
| VirtualEpisode.Advance | examples/tetris-integration/src/autonomous-session.ts:65-66 | The clock moves to whatever is due first: gravity, the player, or the end. |
| VirtualEpisode.Instant | examples/tetris-integration/src/autonomous-session.ts:67-86 | Gravity if due, then the player's turn; every lock is reported. |
| VirtualEpisode.FireGravity | examples/tetris-integration/src/autonomous-session.ts:68-74 | Gravity is one protocol step, and the next fall takes the interval in force afterwards. |
| VirtualEpisode.PlayersTurn | examples/tetris-integration/src/autonomous-session.ts:75-86 | The player acts exactly when due and the session is played; it locks exactly by a hard drop. |
| VirtualEpisode.AfterLock | examples/tetris-integration/src/autonomous-session.ts:87-96 | A refresh happens exactly when a provider exists, it is due and the session is played, and fails exactly if the answer is out of bounds; the next fall starts over. |
| VirtualEpisode.Begin | examples/tetris-integration/src/autonomous-session.ts:39-62 | A new session, with its first awaited refresh if there is a provider, which fails exactly if its answer is out of bounds. |
| VirtualEpisode.Perform | examples/tetris-integration/src/autonomous-session.ts:69-72 | One dispatched command is one protocol step; a lock counts one piece, a shift never locks and a hard drop always does. |
| VirtualEpisode.Refreshing | examples/tetris-integration/src/autonomous-session.ts:90-92 | An awaited refresh begins, is answered and settles before anything else, and fails exactly if the answer is out of bounds. |
| VirtualEpisode.IterationKeeps | examples/tetris-integration/src/autonomous-session.ts:63-97 | Each iteration fires gravity, gives a command or reaches the end, so only so many are left. |
| VirtualEpisode.PacedFits | examples/tetris-integration/src/autonomous-session.ts:63-97 | Events a gap apart within a duration are no more than the duration has room for. |
| AuthorityStores.PutVersionKeeps | modules/contract-store/src/lib.rs:162-239 | A name belongs to its first authority, a version is new exactly if it was not accepted before and is never rewritten, and a conflict changes nothing. |
| AuthorityStores.SetCurrentKeeps | modules/contract-store/src/lib.rs:344-368 | Only an accepted version becomes current, for its own name. |
| AuthorityStores.PutCandidateKeeps | modules/executable-store/src/lib.rs:165-175 | A candidate is inserted, waiting at version zero, only if its digest is new; nothing stored ever changes. |
| AuthorityStores.AdmissionKeeps | modules/executable-store/src/lib.rs:177-262 | A workspace's cycle gets one admission, stored as submitted, with its executable if that is new; a retry that differs in nothing but its time finds it, and any other one is refused. |
| AuthorityStores.BasicActivationKeeps | modules/executable-store/src/lifecycle.rs:27-87 | Basic activation does nothing or hands the contract's authority over; it conflicts exactly when the expected executable is not the active one. |
| AuthorityStores.BasicActivationChanges | modules/executable-store/src/lifecycle.rs:64-75 | Basic activation writes its target at the next version and retires what was active, and nothing else. |
| AuthorityStores.CandidateActivationKeeps | modules/executable-store/src/lifecycle.rs:89-186 | Manual activation hands over only from the active executable at the version the caller saw to the waiting candidate at the version it saw, under the current contract, and raises the version. |
| AuthorityStores.CandidateActivatesExactlyIf | modules/executable-store/src/lifecycle.rs:89-186 | It succeeds exactly when candidate, candidate version, current contract, active executable and its version are what the caller saw. |
| AuthorityStores.CandidateActivationChanges | modules/executable-store/src/lifecycle.rs:139-186 | Manual activation writes the candidate at the next version, retires what was active, and retires exactly the other candidates that wait under the name. |
| AuthorityStores.ResolutionKeeps | modules/executable-store/src/lifecycle.rs:260-407 | A resolution activates only the waiting candidate it names at the version seen, under the current contract; every other outcome leaves all active executables in place. |
| AuthorityStores.ResolvesExactlyIf | modules/executable-store/src/lifecycle.rs:300-403 | A candidate is activated or rejected exactly if it waits as it was seen, for the current contract, newer than every other one that waits (at the same time, with the greater digest), and, to be activated, if what is active is what was seen; it is superseded exactly if its contract is no longer current; otherwise nothing happens. |
| AuthorityStores.PrecedesExactlyIf | modules/executable-store/src/lifecycle.rs:332-337 | Digests are compared as texts: a proper prefix comes first, and otherwise the first difference decides. |
| AuthorityStores.ResolvingChanges | modules/executable-store/src/lifecycle.rs:340-401 | A resolution writes the candidate, retires what was active if it takes over, and retires exactly the other candidates that wait under the name. |
| AuthorityStores.SupersedingChanges | modules/executable-store/src/lifecycle.rs:496-507 | Superseding retires exactly the candidates that wait under the name for a contract that is not current. |
| AuthorityStores.SomethingIsDiscovered | modules/executable-store/src/lifecycle.rs:196-220 | As long as a candidate waits under a name, discovery shows one. |
| AuthorityStores.DiscoveredIsResolved | modules/executable-store/src/lifecycle.rs:196-403 | What is discovered is decided at once if nothing moves in between, and then no candidate waits under the name. |
| AuthorityStores.SomeCandidateResolves | modules/executable-store/src/lifecycle.rs:332-403 | As long as a candidate of the current contract waits, some candidate of it can be activated or rejected. |
| AuthorityStores.TakingOverKeeps | modules/executable-store/src/lifecycle.rs:56-75 | A handover never leaves a contract without an active executable and never gives it two. |
| AuthorityStores.SupersedingOthersKeeps | modules/executable-store/src/lifecycle.rs:509-519 | Superseding retires only waiting candidates, never the selected one. |
| AuthorityStores.SupersedingStaleKeeps | modules/executable-store/src/lifecycle.rs:496-507 | Retiring stale candidates touches no active executable. |
| RuntimeAuthority.EveryStepKeeps | apps/contract-service/src/lifecycle.rs:103-214 | Every step of every concurrent deployment, submission, activation, worker and catalog read, every skipped candidate and every crash keeps the invariant and undoes no authority. |
| RuntimeAuthority.CurrentVersionsKeepAuthority | apps/contract-service/src/lifecycle.rs:293-298 | In every run a version that has ever been current has exactly one active executable from then on, and no catalog read reports one missing. |
| RuntimeAuthority.DeployKeepsLearned | apps/contract-service/src/lifecycle.rs:177-196 | No step of any deployment changes an active executable other than the generated default of its contract. |
| RuntimeAuthority.AuthoredSettles | apps/contract-service/src/lifecycle.rs:184-196 | After trying to bootstrap the authored executable the default is no longer active, whoever got there first. |
| RuntimeAuthority.ActivateDefaultSteps | apps/contract-service/src/lifecycle.rs:177-183 | Activating the default gives authority where there was none, to the default alone, and otherwise changes nothing. |
| RuntimeAuthority.SetCurrentSteps | apps/contract-service/src/lifecycle.rs:202-203 | Only a contract with runtime authority becomes current, and only under the lock. |
| RuntimeAuthority.DeploymentsConverge | apps/contract-service/src/lifecycle.rs:177-203 | Once any deployment has completed, the default is never active again where an authored executable exists; if no candidate was activated, exactly the authored executable, else the default, is active. |
| RuntimeAuthority.DeploymentCompletes | apps/contract-service/src/lifecycle.rs:155-214 | Whatever an interrupted attempt left behind, a deployment left to itself completes within eleven steps. |
| RuntimeAuthority.DeploymentAdvances | apps/contract-service/src/lifecycle.rs:155-214 | A deployment of the owning authority always has a next step. |
| RuntimeAuthority.OnlyLearningBringsOthers | apps/contract-service/src/lifecycle.rs:216-244 | Only an activated candidate makes anything but the default or the authored executable active. |
| RuntimeAuthority.WorkerActivatesOnlyValidated | apps/contract-service/src/worker.rs:154-209 | Whenever a resolution activates, the stored candidate recompiled to its digest and materialized against its accepted, auto-activating contract. |
| RuntimeAuthority.MovedCandidateIsLeftAlone | apps/contract-service/src/worker.rs:184-188 | The early answer for a candidate that has moved never activates or rejects it. |
| RuntimeAuthority.AdmittedWhileCurrent | apps/contract-service/src/lifecycle.rs:440-456 | In every interleaving a candidate is stored only while its contract is current for its name. |
| RuntimeAuthority.SubmitterIsCurrent | apps/contract-service/src/lifecycle.rs:439-456 | A submission about to store holds the lock and its contract is current. |
| RuntimeAuthority.OneCandidatePerCycle | apps/contract-service/src/lifecycle.rs:452-456 | A cycle's admission, once stored, never changes. |
| RuntimeAuthority.RetiredStaysRetired | modules/executable-store/src/lifecycle.rs:56-75 | In every run a retired executable stays retired, although activation does not look at the state of its target. |
| AuthorityStores.BasicActivationRevives | modules/executable-store/src/lifecycle.rs:64-75 | Without the service's protocol, activation brings a retired executable back exactly when the contract is its own and the expected executable is the active one, or nothing is active and nothing is expected. |
| AuthorityStores.RetiredComesBackOverActive | modules/executable-store/src/lifecycle.rs:56-75 | Stores in which a retired executable comes back over the active one, which is retired in its place. |
| RuntimeAuthority.OthersHold | apps/contract-service/src/lifecycle.rs:202-203 | What other tasks do does not disturb what a task relies on. |
| RuntimeAuthority.CatalogueSteps | apps/contract-service/src/lifecycle.rs:293-298 | Each read of a catalog finds an active executable. |
| RuntimeAuthority.WorkSteps | apps/contract-service/src/worker.rs:45-94 | Every step of the worker that assesses or resolves a candidate keeps the invariant and undoes no authority. |
| RuntimeAuthority.SkippingKeeps | apps/contract-service/src/worker.rs:84-91 | A candidate that fails is skipped: nothing stored changes, and the next one is assessed from the start. |
| RuntimeAuthority.WorkerDecides | apps/contract-service/src/worker.rs:154-209 | Left to itself, a worker activates what it discovered exactly if its contract is current and auto-activating and the stored candidate recompiles to its digest and materializes; it retires any other one, and leaves no candidate waiting under the name. |
| RuntimeAuthority.SubmissionIsStoredExactlyIf | apps/contract-service/src/lifecycle.rs:440-457 | Left to itself, a submission for an accepted version is stored exactly if the version is current, the cycle has no admission yet, and the executable is absent or still waits. |
| RuntimeAuthority.ManualActivationTakesEffect | apps/contract-service/src/lifecycle.rs:517-577 | Left to itself, a manual activation for an accepted version does what the store's transaction does, and otherwise nothing. |
| RuntimeAuthority.CatalogueReportsExactly | apps/contract-service/src/lifecycle.rs:293-298 | A catalog read left to itself reports a missing executable exactly if one of its contracts has none active. |
| AnalysisWorkspace.PreparingKeeps | modules/analysis-workspace/src/local.rs:343-410 | Preparing seals at most one proposal a cycle, and returns only the sealed one with the caller's rules. |
| AnalysisWorkspace.SealedProposalIsFoundAgain | modules/analysis-workspace/src/local.rs:356-378 | Wherever the sealing attempt stopped, a retry with the same rules over unchanged files returns the same proposal. |
| AnalysisWorkspace.SealedProposalIsFoundExactlyIf | modules/analysis-workspace/src/local.rs:356-405 | A sealed proposal is found again exactly if the rules are its own and the sealed manifest, or what would be sealed now, is unchanged and the one it names. |
| AnalysisWorkspace.ChangedFilesLoseTheProposal | modules/analysis-workspace/src/local.rs:364-374 | A cycle whose files change after the sealing attempt stopped early never gets its proposal back, with whatever rules. |
| AnalysisWorkspace.ChangedSealIsFinal | modules/analysis-workspace/src/local.rs:1200-1248 | Once the files differ from the sealed manifest, as after a write that left its temporary file behind, no proposal is found or sealed, the cycle is neither superseded nor closed, and another attempt can only resume it for the same contract. |
| AnalysisWorkspace.RecordingKeeps | modules/analysis-workspace/src/local.rs:425-449 | A candidate is recorded once, and only against the published proposal. |
| AnalysisWorkspace.AnswerIsRecordedExactlyIf | modules/analysis-workspace/src/local.rs:425-449 | An answer is accepted exactly if it equals the recorded candidate in every field, or is the first one for the published proposal. |
| AnalysisWorkspace.CompletingKeeps | modules/analysis-workspace/src/local.rs:699-747 | An outcome is written once, under the cycle's own contract, and a Candidate outcome is the recorded candidate. |
| AnalysisWorkspace.PreparingCycleKeeps | modules/analysis-workspace/src/local.rs:188-292 | Opening an attempt, stopped after any of its writes, only closes cycles and adds one, without touching proposals or candidates; a cycle made ready is unfinished and of the caller's contract. |
| AnalysisWorkspace.PreparationInFull | modules/analysis-workspace/src/local.rs:188-292 | What an attempt that is not stopped does with the current cycle: a decided one is closed, an undecided one of another contract is sealed, superseded by the new contract and closed unless its files differ from the seal, one of the same contract is resumed as it is. |
| AnalysisWorkspace.FirstPreparationInFull | modules/analysis-workspace/src/local.rs:188-292 | With no cycle in the way, a new one is opened and becomes current exactly if the schedule allows it. |
| AnalysisWorkspace.InterruptedPreparationIsFinished | modules/analysis-workspace/src/local.rs:188-292 | An attempt stopped after any of its writes while it closes or supersedes a cycle is finished by the next one as if it had not been stopped. |
| AnalysisWorkspace.InterruptedCompletionIsFinished | modules/analysis-workspace/src/local.rs:774-811 | A completion stopped after any write from its outcome on is finished by the next attempt, whoever makes it. |
| AnalysisWorkspace.InterruptedCompletionIsRestartable | modules/analysis-workspace/src/local.rs:699-747 | A completion stopped after any write and tried again ends as one that was not stopped. |
| SealedProposal.EveryEventKeeps | apps/async-analysis/src/coordinator.rs:302-356 | Every tool call, coordinator step, claim, failure and crash, between any two durable writes, keeps the protocol's invariant and undoes nothing. |
| SealedProposal.EverySubmissionIsTheSame | apps/async-analysis/src/local_capabilities.rs:385-412 | In every run all submissions of a cycle carry the same attempt, rules and manifest digest. |
| SealedProposal.NoAdmissionConflict | apps/async-analysis/src/local_capabilities.rs:399-412 | The service is never asked to admit a second, different candidate for a cycle. |
| SealedProposal.SubmissionIsSealed | apps/async-analysis/src/local_capabilities.rs:390-408 | A submission is made only with the cycle's sealed proposal. |
| SealedProposal.CandidateOutcomeIsTheSealedOne | apps/async-analysis/src/coordinator.rs:322-346 | A cycle completed as Candidate has its one recorded candidate, admitted by the service from the sealed proposal, and its contract digest was read again as current. |
| SealedProposal.OnlyConfirmedCyclesBecomeCandidates | apps/async-analysis/src/coordinator.rs:322-346 | A cycle becomes a Candidate cycle only by its own attempt's coordinator, when the last digest read again is the cycle's own. |
| SealedProposal.CandidateIsConfirmedByItsOwnAttempt | apps/async-analysis/src/coordinator.rs:322-346 | In every run the attempt that completes a cycle as Candidate has itself found the service's current digest to be the cycle's, and has held the workspace ever since. |
| SealedProposal.CompletionKeeps | apps/async-analysis/src/coordinator.rs:645-695 | Completing as Candidate needs the recorded candidate and, as the last digest read again, the cycle's own. |
| SealedProposal.LaterAnswerIsAcceptedExactlyIf | apps/async-analysis/src/local_capabilities.rs:385-412 | A later answer for a cycle equals the recorded candidate up to the created flag, and is accepted exactly if the flag is the same. |
| SealedProposal.SecondAnswerIsRefused | apps/async-analysis/src/local_capabilities.rs:385-412 | A run in which two calls submit one proposal, both are answered, and the second answer is refused for its created flag. |
| SealedProposal.RereadsAreCurrent | apps/async-analysis/src/coordinator.rs:328-332 | What is recorded as read again is the service's current digest at that moment. |
| SealedProposal.WhatIsWrittenStays | modules/analysis-workspace/src/local.rs:343-449 | A cycle's proposal, candidate and outcome never change once written. |
| SealedProposal.AnswerIsAdmitted | apps/async-analysis/src/local_capabilities.rs:401-412 | The service's answer is the admission stored under the cycle. |
| SealedProposal.CallsBeginExactlyIf | apps/async-analysis/src/local_capabilities.rs:363-388 | A proposal call begins exactly while the agent is at work, or as the recovery of a sealed proposal. |
| SealedProposal.ClaimEndsExactlyIf | apps/async-analysis/src/coordinator.rs:302-356 | A claim ends exactly with a crash, or when its coordinator has returned and no call is left. |
| Recovery.RecoveryDecidesExactlyIf | apps/async-analysis/src/coordinator.rs:322-355 | Left to itself, with the service reachable, the files unchanged and the contract current, a recovery completes the cycle as Candidate, with what its sealed rules compile to, exactly if the cycle is admitted or the executable is absent or waiting; otherwise it gives up with no candidate and no outcome. |
| Recovery.RecoverySupersedes | apps/async-analysis/src/coordinator.rs:322-350 | A recovery that finds the contract moved supersedes the cycle by what is current, without submitting anything. |
| Recovery.ReportIsWrittenExactlyIf | apps/async-analysis/src/coordinator.rs:597-694 | Left to itself with the files unchanged: a report of no change, or of no candidate, is written exactly if the contract is current and no candidate is recorded; the recorded candidate exactly if a candidate is reported and recorded; a failure exactly if it is reported; the cycle is superseded exactly if the contract has moved; otherwise nothing is written and the cycle stays as it is. |
| Recovery.ProposalIsRecordedExactlyIf | apps/async-analysis/src/local_capabilities.rs:380-415 | A first proposal is sealed and submitted as made; its candidate is recorded exactly if what the rules compile to is not stored yet or still waits, and is then admitted under the cycle. |
| Recovery.PollSupersedesExactlyIf | apps/async-analysis/src/coordinator.rs:426-455 | A poll supersedes the cycle exactly if the contract has moved. |
| Recovery.LimitFails | apps/async-analysis/src/coordinator.rs:246-280 | An attempt that reaches a limit before anything is sealed decides the cycle as a failure. |
| Recovery.ClaimLetsPropose | modules/analysis-workspace/src/local.rs:188-292 | With no cycle in the way, a claim opens a new one in which the agent can propose. |
| Recovery.ClaimLetsRecover | modules/analysis-workspace/src/local.rs:188-292 | A claim that finds its own contract's cycle sealed, over unchanged files, is about to recover it. |
| Recovery.FirstAttemptDecidesExactlyIf | apps/async-analysis/src/coordinator.rs:302-694 | A first attempt left to itself, in which the agent proposes and reports a candidate, completes the cycle with what the rules compile to exactly if that is not stored yet or still waits; otherwise the cycle stays undecided. |
| Recovery.AskingFinds | modules/analysis-workspace/src/local.rs:343-410 | A recovery over unchanged files finds the sealed proposal again under its own rules. |
| Recovery.AnswersExactlyIf | modules/executable-store/src/lib.rs:177-262 | The service answers the sealed proposal with a candidate exactly if the cycle is admitted or the executable is absent or waiting; it then names the sealed manifest and rules, and otherwise nothing is stored. |
| Recovery.SubmittingEnds | apps/async-analysis/src/local_capabilities.rs:385-412 | A recorded candidate is returned without asking; otherwise the service is asked once, and its answer is recorded and returned, or the call fails. |
| Recovery.CompletingDecides | apps/async-analysis/src/coordinator.rs:328-355 | With a returned candidate and the contract current the cycle is completed as Candidate and is no longer the current one. |
| Recovery.RecordedIsDecidable | apps/async-analysis/src/local_capabilities.rs:389-400 | A recorded candidate is admitted, and compiled from the sealed rules. |
| Recovery.RunHasRules | apps/async-analysis/src/local_capabilities.rs:380-388 | In every run a sealed proposal has rules. |
| Recovery.StuckStays | apps/async-analysis/src/coordinator.rs:322-327 | No event leads out of such a cycle while its contract stays current: no claim for the contract, call, service move, failure or crash. |
| Recovery.StuckForGood | apps/async-analysis/src/coordinator.rs:322-327 | Once the executable of a sealed, unadmitted cycle is stored and no longer waiting, between attempts or while one recovers, the cycle gets no candidate and no outcome, and stays the current one, in every run of attempts for its contract for as long as that stays current. |
| Recovery.ActiveExecutableIsStuck | modules/executable-store/src/lib.rs:223-237 | A state in which it happens: the sealed rules compile to the executable that is already active. |
| Varint.EncodeVarint | tools/core-parity/run.py:247-253 | The loop writes the base-128 form. |
| Varint.ReadVarint | contracts/conformance/validate.py:755-765 | The loop, gathering seven bits a byte, reads what the bytes stand for; bits never overlap. |
| Varint.ReadsBack | contracts/conformance/validate.py:755-765 | An encoded value is read back in any context exactly if it fits the bytes left. |
| Varint.VarintRoundTrip | contracts/conformance/validate.py:755-765 | Reading undoes writing exactly for values below 2^70. |
| Varint.HasLengthDelimitedFieldOne | contracts/conformance/validate.py:768-792 | The loop computes the specified scan, including every rejection. |
| Varint.ScannerIsExact | contracts/conformance/validate.py:768-792 | On an encoded field list the answer is whether field one occurs length-delimited. |
| Varint.ScanGoesOn | contracts/conformance/validate.py:768-792 | A message that scans keeps its verdict up to its end whatever is appended. |
| Varint.PaddingChangesNothing | tools/core-parity/run.py:256-259 | Appending the unknown field 100 to any message that scans never changes the answer. |
| Varint.PaddingFillsExactly | tools/core-parity/run.py:256-261 | The padding is field 100, length-delimited, of zeros, and the padded message has the intended size exactly when the padding's length takes three bytes. |
| CanonicalEncoding.AnyValueReadsBack | apps/evidence-materializer/src/candidate.rs:115-162 | Every nested value can be read back from its JSON form, up to missing against empty values. |
| CanonicalEncoding.KeyValueReadsBack | apps/evidence-materializer/src/candidate.rs:164-173 | Every attribute can be read back likewise. |
| CanonicalEncoding.AnyValueJsonLosesNothing | apps/evidence-materializer/src/candidate.rs:115-162 | Two values have the same form exactly when they differ at most in missing against empty nested values. |
| CanonicalEncoding.KeyValueJsonLosesNothing | apps/evidence-materializer/src/candidate.rs:164-173 | Likewise for attributes. |
| CanonicalEncoding.DoubleHasNumberExactlyIf | apps/evidence-materializer/src/candidate.rs:127-136 | A double is encoded by its bit pattern in sixteen lower-case digits, and its number is there too exactly unless all exponent bits are set. |
| CanonicalEncoding.DigitsFillWidth | apps/evidence-materializer/src/candidate.rs:129-129 | A number that fits the width takes exactly that many digits. |
| CanonicalEncoding.EncodeHex | apps/evidence-materializer/src/candidate.rs:179-186 | The loop writes two lower-case digits a byte. |
| CanonicalEncoding.HexReadsBack | apps/evidence-materializer/src/candidate.rs:179-186 | Hexadecimal text determines the bytes. |
| CanonicalEncoding.DigitsReadBack | apps/evidence-materializer/src/candidate.rs:129-136 | The padded digits of a bit pattern determine it. |
| CanonicalEncoding.DecimalReadsBack | apps/evidence-materializer/src/candidate.rs:156-161 | Decimal text determines the index, negative ones included. |
| CanonicalEncoding.FoundMeansUnique | apps/evidence-materializer/src/candidate.rs:98-113 | An attribute is found exactly when its key occurs once, with a value. |
| CanonicalEncoding.HashParts | apps/evidence-materializer/src/projector.rs:213-224 | The loop feeds the hash exactly the length-prefixed framing of the parts. |
| CanonicalEncoding.FramingIsInjective | apps/evidence-materializer/src/projector.rs:213-224 | No two lists of parts with lengths below 2^64 are framed alike. |
| CanonicalEncoding.IdentityInputsDiffer | apps/evidence-materializer/src/projector.rs:109-135 | Different logical sources are hashed from different bytes, however identified, and never from an observation's. |
| CatalogOrder.Utf8Order | apps/evidence-materializer/src/catalog.rs:38-51 | Comparing strings by UTF-8 bytes is comparing their characters. |
| CatalogOrder.Utf16Order | apps/contract-service/src/lifecycle.rs:299-331 | Comparing by UTF-16 units agrees with it except exactly where, at the first difference, a supplementary character meets one from U+E000 to U+FFFF. |
| CatalogOrder.Utf8StandsForCharacter | apps/evidence-materializer/src/catalog.rs:45-50 | The bits of a character's UTF-8 bytes, put together, are the character. |
| CatalogOrder.Utf16StandsForCharacter | apps/contract-service/src/lifecycle.rs:299-331 | So are those of its surrogates. |
| CatalogOrder.SortedPassesUnlessInverted | apps/evidence-materializer/src/catalog.rs:45-50 | For any texts at all, a catalog sorted by UTF-16 units passes the strict UTF-8 order check exactly when no two neighbours are inverted. |
| CatalogOrder.SortedBasicPasses | apps/contract-service/src/lifecycle.rs:299-331 | Without characters above U+FFFF in the ordering fields it always passes. |
| CatalogOrder.PublishedIsStrictlyOrdered | apps/contract-service/src/lifecycle.rs:299-331 | Every published catalog is in the order demanded: what can be deployed sorts alike in both encodings. |
| CatalogOrder.NameIsIdentifierExactlyIf | modules/contract/src/validation.rs:46-60 | A name that the contract service accepts is an identifier for the materializer exactly if it does not end in a line feed. |
| CatalogOrder.IdentifierIsName | modules/evidence-store/src/lib.rs:231-238 | Every identifier is such a name. |
| CatalogOrder.AcceptedSourceIsValid | modules/contract/src/validation.rs:656-694 | An evidence source within the service's limits on UTF-16 units is within the materializer's on characters. |
| CatalogOrder.DeployableIsValidExactlyIf | modules/contract/src/validation.rs:67-89 | A deployable contract passes the materializer's own checks exactly if no part of its authority ends in a line feed. |
| CatalogOrder.PublishedIsAcceptedExactlyIf | apps/evidence-materializer/src/catalog.rs:18-91 | If no two contracts share a digest, a published catalog compiles exactly if no part of an authority in it ends in a line feed and no reference count overflows. |
| CatalogOrder.PublishedBreaksOnlyByAuthority | apps/evidence-materializer/src/catalog.rs:32-37 | With at most 2^32 - 1 contracts, the only problem a published catalog can have is such an authority. |
| CatalogOrder.LineFeedIsPublishedAndRejected | modules/evidence-store/src/lib.rs:27-48 | A contract whose tenant ends in a line feed is deployable and published, and the whole catalog is rejected for its authority. |
| CatalogOrder.Compile | apps/evidence-materializer/src/catalog.rs:18-91 | Compiling accepts exactly the acceptable catalogs; every contract is then found under its key, and each route's count is the number of contracts declaring it; a rejection names a problem of the first entry that has one. |
| CatalogOrder.ProblemOf | apps/evidence-materializer/src/catalog.rs:27-67 | The checks of one entry find a problem exactly when it has one, apart from overflowing a count. |
| CatalogOrder.CountRoutes | apps/evidence-materializer/src/catalog.rs:69-83 | A contract counts once for each route however often it declares it; it fails exactly when a counter is full. |

## Left out

- Floating-point rounding, infinities and NaN: times, pressures and scores are exact reals, so the finiteness checks
  of the clocks have no counterpart; bit patterns stand for doubles in the encodings.
- The width of state versions and counters in the executable store: versions are unbounded, so wrap-around of a 64-bit
  version is not modelled.
- `performance.now`, `Date.now`, `Math.random`, the piece source and the provider are inputs; callbacks and
  instrumentation are assumed to return.
- The abort signal given to the virtual episode: when it fires the loop only throws; aborts are modelled in the
  session.
- The real-time autonomous session and terminal rendering: wall-clock timers and I/O around the same logic.
- Promise scheduling inside the session: starting a refresh, the arrival of an answer, its settling and every abort
  are single steps in any order the runtime could produce.
- Snapshots as objects: what a session snapshot shows is read from the session's value; transition records and their
  reasons are reduced to what later steps depend on.
- The paging of discovery and its cursor: in the interleavings the worker may be handed any page of candidates waiting
  at that moment, which includes every page the query can return; which candidate comes first for a name is
  `AuthorityStores.IsDiscovered`.
- RuntimeAuthority.WorkerActivatesOnlyValidated: compiling and materializing are uninterpreted checks, so it is not
  modelled what they check, only that they passed on what is stored.
- `versions()` can report a missing active executable for a version that is persisted but not yet activated; nothing
  is claimed about it.
- Validation of contracts beyond what the catalog depends on, of provenance texts, page sizes and cursors, problem
  documents and telemetry: single branches with no state that other properties depend on.
- Store reads that fail on corrupt rows, cancellation flags, schema creation and migration.
- AnalysisWorkspace.PreparingCycleKeeps: the schedule and the attempt record count as writes but are not part of the
  state; whether a new cycle may be opened is an input. A fresh cycle identifier that is already in use is refused.
- SealedProposal.EveryEventKeeps: attempt budgets, handoff notes, audit files, schedules and the yield signal are not
  part of this model; failing or stopping at any point is always possible instead, and a limit can be reached at any
  attempt without a sealed proposal. An agent that hands over, or whose report is not accepted as one, ends its
  attempt without an outcome, which is such a stop.
- CanonicalEncoding.AnyValueReadsBack: the JSON value is decoded, not its serialized text.
- SHA-256 is an uninterpreted function; facts are proved about its inputs, and nothing is claimed about collisions.
- CatalogOrder.Compile: the JSON document is taken as parsed. Correlations of an evidence source are left out: the
  materializer only asks for an object there, which is what the service publishes.
- CatalogOrder.PublishedIsAcceptedExactlyIf: that two contracts share a digest takes a collision of the hash, so
  distinct digests are a hypothesis. Of what deploying validates, only what the materializer checks again is modelled.
- Recovery.RecoveryDecidesExactlyIf: what a service that cannot be reached, files that change or a contract that is
  replaced in the middle do to a recovery is covered by the invariants of `SealedProposal`, not by this statement.
- HTTP routing and clients, environment configuration, process spawning, the SQL evidence queries, the expression
  compiler, conformance schemas and the parity case generators.
