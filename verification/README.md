# Hostel allocation: a verified model

The repository assigns students to hostel rooms. A Python engine places them
(four modes), a NestJS service stores the results, publishes them into the
students table, executes room swaps, and undoes what it did. This project
models the allocator and the database steps that carry its output, and proves
what those steps keep.

How it is laid out:

- `Common`, `Rules`, `AllocationModel`: identifiers, stable sorting, rule
  evaluation, and the state a run moves through: `wings` (free-bed counters),
  `rooms` (who is in each room) and `placed` (where each student is). `Sound`
  says that the last two are inverse to each other, no room is over capacity,
  students locked by earlier runs have not moved, and cohort students sit in
  rooms of the run. `Counted` says that the counters are exact. `Together` says
  that accepted roommate pairs of the cohort share a room or are both unplaced;
  `KeptTogether` says it of each pair that no group divides.
- `AtomicUnits`, `WingPacking`, `GroupPacking`, `WingChoice`, `Individuals`,
  `InitialState`, `Fcfs`, `FcfsRun`, `EngineSteps`, `FillOrder`, `RunSteps`, `GroupRuns`,
  `ResultCleanup`: specification functions, what each phase does turn by turn,
  and the lemmas about the steps of the loops. `WingEligibility` and
  `LawfulRuns` say who sits where by the rules. `SplitStray` and `PairApart` each follow one input
  through a whole run.
- `AllocationEngine`: the engine itself, as classes whose methods update the
  three dictionaries and the shared room priority in place, proved against
  those functions.
- `SolverModel`, `SolverObjective`, `SolverFallbacks`, `SolverSingles`,
  `SolverTradeOff`, `SolverPreferences`, `SolverResults`: the CP-SAT mode. The solver is an oracle;
  the constraint model, its objective and the reading of a solution are
  modelled.
- `RoomTrigger`: the capacity trigger on every student row update. On it stand
  `Swaps` and `SwapRace` (direct swaps and chains), `CycleExecution` (executing
  what the cycle detection announced), `Administration` (publish, evict,
  rollback) and `EngineToDatabase` (publishing what a run computed).
- `SwapCycles`, `RulesMatrix`, `Invitations`, `RunMetrics`, `RunNames`,
  `RunProtocol`: cycle detection, the rules matrix and its two readers,
  roommate invitations, the figures of a run, and the run protocol between the
  service, the engine and its key store.

Conventions. A dictionary or list that the source mutates is a field of type
`map` or `seq`. What an exception or an error status says is a value of an error
datatype. A transaction that throws leaves every field as it was. Where the
source iterates over an unordered collection or in query order, the order is
arbitrary in the model. A result of the form "if and only if" is stated with
`<==>`.

What is assumed of an engine run (`AllocationModel.WellFormed`): distinct
student and room ids, no student twice in one group, one lock entry per room,
each locked student in one room only and within capacity, and accepted
invitations that form a matching. Nothing in the engine checks these; the last
one is proved of the invitation service (`Invitations.CallsGiveMatching`).

## Where the code and what is written about it differ

- A comment in the chain executor (core-services/src/swaps/swaps.service.ts:669-673)
  says that a rotation never meets the capacity limit because one occupant
  leaves each room before another arrives. The rows are written one after
  another, and the first write enters a room nobody has left yet.
  `Swaps.RotationPassesIff` gives the exact condition for every chain and
  `Swaps.FullRoomsRotation` a two-person chain that always fails.
- The split allocator tests eligibility against the last wing its ranking loop
  looked at, not the wing it fills (allocation-engine/app/allocation.py:538).
  The model does the same (`AllocationEngine.Engine.TakeBatch`).
  `WingEligibility.TurnIsLawfulIff` says of each turn of a split exactly when
  the students it seats may be where they are, and `LawfulRuns.RunLawfulIff`
  says it of whole runs. A condition on the input under which all of a run is
  lawful, that the leftover wing is the strictest one, is part of
  `WingEligibility.RunEnds`; `SplitStray.SplitSendsAstray` is an input without
  this, on which every run puts a student into a wing closed to them.
- A chain made of the requests of a detected cycle, with distinct recorded
  rooms, gives each participant the room that was announced exactly when the
  query happens to return the rows in the order of the cycle
  (`CycleExecution.AsAnnouncedIff`).
- A comment on the CP-SAT objective (allocation-engine/app/allocation.py:847-877)
  says that giving any student a bed always beats every bonus. This holds
  without pairs in the cohort, or when the rooms with a fallback priority have
  few beds or the cohort is small (`SolverSingles.BedsFirst`), and can fail
  beyond: `SolverTradeOff.DominanceFails`.
- A dispatch error sets the run to failed whatever its status is
  (core-services/src/admin/admin.service.ts:585-591, 675-711). If the engine
  has already answered, this overwrites a completed run:
  `RunProtocol.LateErrorOverwrites`.
- The eligibility page and the engine read a rule alike only if no field is
  present but falsy and no wing is called "Default" (`RulesMatrix.ReadAlikeIff`).
  Even then tied priorities can set them apart: `RulesMatrix.EvaluatorsAgreeIff`
  says exactly when.

## Model

| member | source | states |
|---|---|---|
| Rules.FirstMatchFinds | allocation-engine/app/allocation.py:220-243 | the rule loop stops at a matching rule exactly when one exists, and no earlier rule matches |
| Rules.ByPriorityDescends | allocation-engine/app/allocation.py:217-218 | the sorted rule list holds the same rules, highest priority first |
| Rules.DecidingRuleIsTop | allocation-engine/app/allocation.py:217-243 | the deciding rule is a matching rule that no matching rule outranks; none decides exactly when none matches |
| Rules.DecidingRuleIs | allocation-engine/app/allocation.py:217-243 | on the rules as listed: the rule that covers hostel, wing and year, that no covering rule outranks, and that is listed before every covering rule as high, is the one that decides |
| Rules.UncoveredAllowed | allocation-engine/app/allocation.py:211-243 | where no rule covers hostel, wing and year nothing decides and the room is allowed |
| Rules.SomeRuleDecides | allocation-engine/app/allocation.py:217-243 | where some rule covers them, some rule decides |
| AllocationModel.ValidRoomIs | allocation-engine/app/allocation.py:200-248 | a room must be available, in a known hostel, and not in one for the other gender; then the current room is valid, and any other unless the deciding rule forbids it |
| AllocationModel.MatchPriorityIs | allocation-engine/app/allocation.py:233-248 | the priority a student gives a room: -1 for the current one, else that of the deciding rule, else 0 |
| AllocationModel.KeyOfIs | allocation-engine/app/allocation.py:117-119 | two rooms are of one wing if and only if they agree on hostel, wing and floor, a missing or empty wing counting as "main" and a missing floor as 0 |
| AllocationModel.BedsShared | allocation-engine/app/allocation.py:94-102 | at every safe state, the end of every run included, the students locked in a room still sit there and with the cohort students placed in it are no more than its beds |
| AllocationModel.SeatKeepsSound | allocation-engine/app/allocation.py:444-470 | seating unplaced students within a room's capacity keeps agreement of both dictionaries, capacity, locks, and known rooms |
| AllocationModel.SeatKeepsTogetherIff | allocation-engine/app/allocation.py:444-470 | a placement keeps accepted pairs together if and only if the placed set splits no pair |
| AllocationModel.SeatKeepsPairIff | allocation-engine/app/allocation.py:444-470 | pair by pair: a placement keeps a pair together if and only if it seats both or neither |
| AllocationModel.SeatKeepsKept | allocation-engine/app/allocation.py:444-470 | a placement that splits no pair of those no group divides keeps all of these together, whatever becomes of other pairs |
| AllocationModel.CounterVersusFreeBeds | allocation-engine/app/allocation.py:104-108 | a wing counter never overstates the free beds, and equals them if and only if no closed room of the wing holds an occupant |
| AllocationModel.SeatAndChargeCounted | allocation-engine/app/allocation.py:475-477 | seating a unit and charging its wing keeps every counter exact |
| AtomicUnits.PartitionOfUnits | allocation-engine/app/allocation.py:292-315 | for any student list and any matching, the atomic units are a partition of the list into pairs of mutual roommates and singles without a roommate in it |
| AtomicUnits.LeadersLead | allocation-engine/app/allocation.py:292-315 | a student with no roommate in the list, or listed before the roommate, is the first member of its unit |
| AtomicUnits.SortUnitsPairsFirst | allocation-engine/app/allocation.py:422-424 | sorting by size keeps the same units and puts every pair before every single |
| AtomicUnits.SortUnitsStable | allocation-engine/app/allocation.py:422-424 | units of one size keep the order in which they were formed |
| AtomicUnits.UnitsInOrder | allocation-engine/app/allocation.py:292-315 | the units stand in the order in which the list names their first members |
| WingPacking.FillStepIsOptimal | allocation-engine/app/allocation.py:437-470 | filling one room pairs first, then continuing optimally, is optimal for the rooms together |
| WingPacking.NoPlacementBeatsBest | allocation-engine/app/allocation.py:418-477 | no assignment of whole units of one or two to rooms, whatever the free beds, houses more students than the greedy value |
| WingPacking.WholeGroupFitsIff | allocation-engine/app/allocation.py:418-477 | the whole group fits if and only if pairs do not exceed the two-bed spaces and the group does not exceed the free beds |
| GroupPacking.WingFreeBeds | allocation-engine/app/allocation.py:104-108 | the free beds summed room by room are the free beds of the wing |
| GroupPacking.GroupFitsIff | allocation-engine/app/allocation.py:341-391 | with a counter that covers the group, everyone is placed if and only if the pairs find two-bed spaces |
| GroupPacking.BestOfWingIsMaximum | allocation-engine/app/allocation.py:393-481 | the greedy value of a wing bounds every way of putting whole units into its rooms |
| FillOrder.FilledInOrder | allocation-engine/app/allocation.py:405-470 | of two rooms of the wing with free beds the one of higher shared priority, else the fuller, else the lower in floor and number comes first: whoever the step places in the later one found no bed left in it, or with a roommate in the group no two |
| EngineSteps.LastWingIs | allocation-engine/app/allocation.py:111-138 | the last wing in order is that of the open room that opens a wing and is followed by no room that opens another |
| WingChoice.RulePriority | allocation-engine/app/allocation.py:366-375 | the wing's rule score is the largest positive priority of an allowing rule that covers wing and year, or 0 |
| WingChoice.RulePriorityIs | allocation-engine/app/allocation.py:366-375 | field by field: a rule of higher priority than the score forbids or is for another hostel, wing or year, and a score above 0 is that of an allowing rule for the wing and year |
| WingChoice.SuitableIs | allocation-engine/app/allocation.py:331-364 | a wing is suitable for a group if and only if its counter is no smaller than the group, every member has a valid room in it, and it has an open room with a bed, or with two if two members are roommates |
| WingChoice.BestSuitableMeans | allocation-engine/app/allocation.py:354-391 | no suitable wing has a higher rule priority than the best one; of those as high none has its hostel earlier in the preferences; of those none a larger counter; of those none an earlier key |
| WingChoice.TopOfCandidates | allocation-engine/app/allocation.py:357-391 | the first candidate by score is the best suitable wing, or no candidate is suitable |
| WingChoice.CandidateTakesAllIff | allocation-engine/app/allocation.py:341-391 | a wing whose counter covers the group takes all of it if and only if its two-bed spaces cover the pairs; a group of singles is always placed entirely |
| Individuals.BestRoomIsBest | allocation-engine/app/allocation.py:587-637 | a unit is refused if and only if every valid room lacks its beds; otherwise it gets a valid room with space that none beats in rule priority and hostel preference |
| Individuals.FullestOfEquals | allocation-engine/app/allocation.py:600-612 | of valid rooms with space alike in priority and preference the fullest is taken, and of equally full ones the first by id |
| Individuals.SettleAllExplains | allocation-engine/app/allocation.py:609-649 | individual results name no group; a success has no reason and a failure the one reason there is |
| Individuals.SettleKeeps | allocation-engine/app/allocation.py:609-649 | placing one unit keeps soundness, exact counters, and pairs if the unit splits none |
| Individuals.SettleAllKeeps | allocation-engine/app/allocation.py:573-651 | the same for the whole individual phase |
| Individuals.SettleAllReports | allocation-engine/app/allocation.py:609-649 | one result per student, in order, telling where the student sits in the final state |
| Individuals.SettleAllMaximal | allocation-engine/app/allocation.py:609-649 | at the end of the phase no unit left out has a room valid for its lead with enough free beds |
| Individuals.SettleAllFate | allocation-engine/app/allocation.py:609-649 | at the end of the phase all members of a unit are seated or none is |
| InitialState.InitialSound | allocation-engine/app/allocation.py:80-109 | the state a run starts from is sound with exact counters, holds exactly the locked students, and no cohort student is placed |
| InitialState.LocksAreHeld | allocation-engine/app/allocation.py:89-102 | the list of a locked room is its entry without the ids of the cohort, in order and with every copy, and each of these is recorded as placed there |
| Fcfs.ServeKeeps | allocation-engine/app/allocation.py:666-696 | in any order of arrival and for any groups, serving keeps capacity, locks, counters, and every accepted pair together |
| Fcfs.ArrivalOrderIs | allocation-engine/app/allocation.py:676-680 | the students in order of service are those of the run, an earlier application before a later one, a missing one after everything up to the last second of the year 9999, equals in the order listed |
| Fcfs.NoEnvy | allocation-engine/app/allocation.py:587-637 | a party tried earlier and no larger got a room at least as good for its lead as any valid room a later party got; if it failed, no later party of its size sits in a room valid for its lead |
| Fcfs.ResultsAreAttempts | allocation-engine/app/allocation.py:676-694 | the results are exactly the attempts in order, so a failed pair is reported at both turns |
| Fcfs.ServedOrRefused | allocation-engine/app/allocation.py:676-694 | every served student ends placed, or every room valid for the student lacks the beds of its unit |
| FcfsRun.FcfsRunEnds | allocation-engine/app/allocation.py:666-696 | a whole first-come run: safe, pairs together, everyone seated in a room valid for them or their roommate, successes final and unique, the last result of each student true, nobody left out while a valid room has the beds, and no single student worse off than one who applied later |
| FcfsRun.RunIsFirstFair | allocation-engine/app/allocation.py:676-694 | if a applied before b, both without accepted roommates in the cohort, and b ends in a room valid for a, then a ends in a room at least as good for a |
| FcfsRun.ServeReported | allocation-engine/app/allocation.py:676-694 | successes are never taken back or repeated, and the last result naming a student tells where the student sits |
| RunSteps.IndividualsFinish | allocation-engine/app/allocation.py:733-772 | the individual phase turns a run underway into a finished one, maximal, with one true result per cohort student, and with every pair together that no group divides |
| RunSteps.OutstandingReady | allocation-engine/app/allocation.py:786-795 | the members of a group still to be placed contain both or neither of every pair that no group divides |
| RunSteps.OutstandingAre | allocation-engine/app/allocation.py:786-795 | they are the members of the cohort without a room, in the order of the group |
| RunSteps.UndividedTogether | allocation-engine/app/allocation.py:774-833 | if no group divides any pair, a finished run has every accepted pair together |
| RunSteps.SettledMaximally | allocation-engine/app/allocation.py:798-833 | whatever the group phases did, divided pairs included: a student without a room, and the roommate if that one has none either, find no room valid for the lead with the beds they need |
| ResultCleanup.SurvivorNext | allocation-engine/app/allocation.py:751-766 | replacing results one at a time keeps, for each student, the first success, else the first failure with a reason, else the first result |
| ResultCleanup.SurvivorIs | allocation-engine/app/allocation.py:751-766 | the result that survives is, by index, the first success, or if there is none the first with a reason, or if none has one the first |
| ResultCleanup.FirstNamedInOrder | allocation-engine/app/allocation.py:747-772 | the survivors stand in the order of the first results of their students |
| ResultCleanup.CleanupKeeps | allocation-engine/app/allocation.py:747-772 | the pass leaves one result per student named, loses no success, and leaves a list with one result each as it is |
| GroupRuns.BatchDivides | allocation-engine/app/allocation.py:530-544 | the pass over the waiting units divides them in two |
| GroupRuns.BatchIsGreedy | allocation-engine/app/allocation.py:530-544 | units taken may all enter by the leftover key and stay within the counter; no unit is left that may enter and would still fit |
| GroupRuns.TopOfRanked | allocation-engine/app/allocation.py:507-528 | the first of the sorted wings is open and unbeaten; the list is empty if and only if no wing is open |
| GroupRuns.TopRankedMeans | allocation-engine/app/allocation.py:271-286 | the first wing used is closest, then the same wing on another floor, then the same hostel; among wings as close, or when none has been used, the top one admits the most of the remaining members |
| GroupRuns.EligibleCountIs | allocation-engine/app/allocation.py:507-521 | the members counted for a wing are those who may enter it |
| GroupRuns.FirstOfTurns | allocation-engine/app/allocation.py:483-571 | what the first turn of a split does stays, and its wing is the one closeness is measured from ever after |
| GroupRuns.TurnStaysWithin | allocation-engine/app/allocation.py:530-565 | a turn places no more students in a wing than its counter says |
| GroupRuns.TurnPlacesUnits | allocation-engine/app/allocation.py:530-565 | whoever it places is of a waiting unit that it removes, all of which may enter the leftover key |
| GroupRuns.TurnTakesWhatFits | allocation-engine/app/allocation.py:530-565 | a turn removes no more students than the counter says, and no unit it leaves that may enter the leftover key would still have fitted |
| GroupRuns.StuckMeans | allocation-engine/app/allocation.py:523-550 | a split that ends with units left and a wing open to their members has no unit that may enter the leftover key and fits the counter of the top-ranked wing |
| WingEligibility.GroupGoesTogether | allocation-engine/app/allocation.py:719-745 | a group for which a wing is suitable goes to the best suitable one: as many of it as fit are placed, all in that wing |
| GroupRuns.SplittingStep | allocation-engine/app/allocation.py:483-571 | one turn of a split sends the batch to the top-ranked wing, which takes the most it can, seats and reports nobody else, and keeps the course |
| WingEligibility.NewlySeatedInWing | allocation-engine/app/allocation.py:437-470 | whoever is newly placed by a step that fills one wing sits in an open room of that wing |
| WingEligibility.BatchFitsIff | allocation-engine/app/allocation.py:530-565 | the top-ranked wing takes the whole batch if and only if it has a two-bed space for each pair of the batch |
| WingEligibility.TurnIsLawfulIff | allocation-engine/app/allocation.py:530-565 | a student seated by a turn sits, then and ever after, in a wing open to that student if and only if the top-ranked wing is; if that wing takes the whole batch, all of the batch do if and only if each of its units may enter it; they always do when it is the leftover wing |
| WingEligibility.GroupRunByRules | allocation-engine/app/allocation.py:774-833 | at the end of every run each cohort student with a room has one valid for the student or the roommate, or one in a wing open to the student as listed in a group, or was tested against the leftover wing instead |
| WingEligibility.RunEndsByRules | allocation-engine/app/allocation.py:698-833 | so, if every group member of the cohort who may enter the last wing of the order may enter every open wing, a whole run leaves nobody in a wing closed to them: each cohort student with a room has one valid for the student or the roommate, or one in a wing open to the student |
| WingEligibility.EligibleWingIff | allocation-engine/app/allocation.py:186-269 | a student who does not live in a wing whose rooms carry one name may enter it if and only if it has open rooms and all of them are valid |
| WingEligibility.AdmittedToValidRooms | allocation-engine/app/allocation.py:243-269 | if this is so of all group members and open wings, everyone a lawful run seats has a room valid for the student or the roommate |
| LawfulRuns.SplitLawfulIff | allocation-engine/app/allocation.py:483-571 | every turn of a split sends students only to a wing they may enter if and only if the members it seats sit in wings open to them ever after |
| LawfulRuns.RunLawfulIff | allocation-engine/app/allocation.py:774-833 | at the end of a run everyone whom the group phase seated sits in a wing open to them if and only if every split turn of the run seated only students who may enter its wing |
| LawfulRuns.LawfulRunKeeps | allocation-engine/app/allocation.py:774-833 | a run with only such turns keeps to the rules as a whole, the individual phase included |
| SplitStray.SplitSendsAstray | allocation-engine/app/allocation.py:530-544 | on a concrete input whose leftover wing is not the strictest, every group-based run seats a student in a wing that the rules close to that student, so what the run promises of the rules fails without the condition |
| PairApart.GroupDividesPair | allocation-engine/app/allocation.py:780-833 | on a concrete input whose group lists one of a pair, every group-based run leaves that roommate with a room and the other without |
| GroupRuns.OrderedGroups | allocation-engine/app/allocation.py:288-290 | the group orders list the same groups, largest first and earliest application first, equal ones in the order given |
| GroupRuns.EarliestTimestampIs | allocation-engine/app/allocation.py:709-716 | the time of a group is the earliest of its members, a missing one counting as the last second of the year 9999 |
| AllocationEngine.AllocationState.SeatUnit | allocation-engine/app/allocation.py:444-470 | appending a unit to a room's list and recording each member is the seating step |
| AllocationEngine.AllocationState.LockRoom | allocation-engine/app/allocation.py:94-102 | a locked room's list is overwritten and each locked student recorded |
| AllocationEngine.Engine.BuildWings | allocation-engine/app/allocation.py:111-138 | one wing per key of an available room, in the order in which the rooms first name them, holding exactly its available rooms in order |
| AllocationEngine.Engine.GetAtomicUnits | allocation-engine/app/allocation.py:292-315 | the loop with its processed set computes the units of the partition |
| AllocationEngine.Engine.EvaluateRules | allocation-engine/app/allocation.py:211-243 | the loop yields the verdict and priority of the deciding rule |
| AllocationEngine.Engine.GetValidRooms | allocation-engine/app/allocation.py:186-264 | the valid rooms of a student; every one of them has its shared priority overwritten, no other room has |
| AllocationEngine.Engine.GetValidWingKeys | allocation-engine/app/allocation.py:266-269 | the keys of the wings with a room valid for the student |
| AllocationEngine.Engine.InstantiateVariables | allocation-engine/app/allocation.py:909-921 | testing every student in turn leaves each room with the priority of the last one it is valid for, which is what the objective reads |
| AllocationEngine.Engine.AllocateUnit | allocation-engine/app/allocation.py:609-649 | one unit settled: seated in the best room with its wing charged, or reported as refused |
| AllocationEngine.Engine.AllocateIndividuals | allocation-engine/app/allocation.py:573-651 | the units, pairs first, settled from left to right |
| AllocationEngine.Engine.FillRoom | allocation-engine/app/allocation.py:433-470 | the inner loop takes its share of pairs and singles, no more and no less, leaves no unit that fits, labels every result with the group, and keeps every safety property, each pair no group divides included |
| AllocationEngine.Engine.AllocateGroupToWing | allocation-engine/app/allocation.py:393-481 | the number placed equals the most any placement of whole units into the wing could house; only rooms of the wing change, filled in order; every result names the group and no reason; every safety property kept, each pair no group divides included |
| AllocationEngine.Engine.FindBestWing | allocation-engine/app/allocation.py:317-391 | a wing is found if and only if a suitable one exists, and it is the best by rule priority, preference, counter and key (WingChoice.BestSuitableMeans) |
| AllocationEngine.Engine.RankWings | allocation-engine/app/allocation.py:507-528 | no wing is ranked if and only if none is open to a remaining member; the first is one that no open wing beats in closeness, then in eligible members |
| AllocationEngine.Engine.TakeBatch | allocation-engine/app/allocation.py:530-544 | the loop takes and leaves exactly the units of the specified pass, which tests the leftover key |
| AllocationEngine.Engine.AllocateGroupSplit | allocation-engine/app/allocation.py:483-571 | a course of turns that ends only when stuck; capacity, locks, counters and each pair no group divides kept, exactly the students placed reported |
| AllocationEngine.Engine.BuildInitialState | allocation-engine/app/allocation.py:80-109 | the loop over the lock table builds the initial state: each entry's room holds exactly its ids outside the cohort, in order and with every copy, each recorded there |
| AllocationEngine.Engine.PlaceGroup | allocation-engine/app/allocation.py:719-745 | a group goes as far as it can into the best suitable wing, or is split if no wing is suitable; the invariant of the run is kept, each pair no group divides included |
| AllocationEngine.Engine.Cleanup | allocation-engine/app/allocation.py:747-772 | the loop leaves, in the order in which the students are first named, each one's first success, else first reasoned failure, else first result; a list with one result each is unchanged |
| AllocationEngine.Engine.RunGroupBased | allocation-engine/app/allocation.py:774-833 | largest group first, each placed as specified, then the rest settled; the run ends sound, maximal, with exact counters and one true result per cohort student, failures with their reason; every pair together that no group divides, whatever groups do to other pairs; with the leftover wing the strictest, lawful |
| AllocationEngine.Engine.RunWingFcfs | allocation-engine/app/allocation.py:698-772 | the same with groups in order of their earliest application |
| AllocationEngine.Engine.RunFcfs | allocation-engine/app/allocation.py:666-696 | the loop computes the specified first-come run, earliest application first, and ends as FcfsRunEnds says, nobody worse off than a later applicant; failures give their reason |
| SolverModel.SolutionsAreAllocations | allocation-engine/app/allocation.py:898-957 | the 0/1 solutions of the constraints are exactly the valid allocations, and decoding gives the allocation back |
| SolverModel.FeasibleOfAllocation | allocation-engine/app/allocation.py:907-957 | a choice made from an allocation satisfies A to C if and only if the allocation is valid |
| SolverModel.RoomConstraintIff | allocation-engine/app/allocation.py:911-925 | constraint B of a room is its remaining capacity |
| SolverModel.PairsRespectedIff | allocation-engine/app/allocation.py:927-957 | constraint C says that roommates share a room or are both left out |
| SolverModel.NothingChosenIsFeasible | allocation-engine/app/allocation.py:903-957 | all-zero is always a solution, so the infeasible branch is never due to the model |
| SolverObjective.MatchPriorityInRange | allocation-engine/app/allocation.py:233-248 | with priorities of at least 0 what a student writes to a room is between -1 and the largest priority, and -1 only for the current room |
| SolverObjective.SharedPriorityInRange | allocation-engine/app/allocation.py:233-248 | so is what the rooms are left with, and at least 0 if nobody may keep a current room |
| SolverObjective.ObjectiveRange | allocation-engine/app/allocation.py:959-980 | the objective lies between the smallest and the largest weight times the number of housed students |
| SolverObjective.LastWriter | allocation-engine/app/allocation.py:243-248 | a room is left with the priority of the last student for whom it is valid |
| SolverObjective.LargestFigures | allocation-engine/app/allocation.py:879-887 | the figures in the base weight are the highest rule priority and the longest preference list there are, or 0 |
| SolverPreferences.NoBetterRoomFree | allocation-engine/app/allocation.py:872-988 | a student without a roommate in the cohort whom a maximiser puts into a room: no valid room with a bed left has the same shared priority and a hostel earlier in the list; none has a higher one if the list is shorter than 100; at large a point of priority weighs a hundred places |
| SolverPreferences.NoBetterRoomForPair | allocation-engine/app/allocation.py:959-988 | the same for an accepted pair and a valid room with two beds left, the places in both lists taken together |
| SolverPreferences.LeftOutForLackOfBeds | allocation-engine/app/allocation.py:959-988 | a student without a roommate in the cohort whom a maximiser leaves out has no valid room with a bed left |
| SolverFallbacks.FewFallBack | allocation-engine/app/allocation.py:911-925 | in every feasible solution the students who pay the fallback penalty are no more than the cohort, and no more than the remaining beds of the available rooms left with the priority -1 |
| SolverFallbacks.OneMoreBedCovers | allocation-engine/app/allocation.py:879-907 | with the given base one more bed outweighs all bonuses and the fallback penalties of c students, if 1000 c is below 1000000 plus the largest bonus |
| SolverFallbacks.FewFallbacksHouseMost | allocation-engine/app/allocation.py:959-988 | so every maximiser houses the most students if that bound holds of the students who can fall back |
| SolverFallbacks.CoversBoth | allocation-engine/app/allocation.py:879-907 | the bound holds without current-room fallbacks, and for a small cohort |
| SolverFallbacks.MaximiserHousesMost | allocation-engine/app/allocation.py:959-988 | every maximiser of the engine's objective houses at least as many students as any valid allocation, with rule priorities at least 0 and no current-room fallback, or 1000 N below 1000000 plus the largest bonus |
| SolverSingles.Augmented | allocation-engine/app/allocation.py:879-988 | without pairs, an allocation that could house more is turned by exchanges within its rooms into one that houses one more and loses preferences only |
| SolverSingles.SinglesHousedFirst | allocation-engine/app/allocation.py:879-988 | so without pairs in the cohort every maximiser houses the most students, for every size of the cohort and with fallbacks |
| SolverSingles.BedsFirst | allocation-engine/app/allocation.py:847-907 | the objective puts beds first if the cohort has no pairs, or if 1000 times the students who can fall back is below 1000000 plus the largest bonus |
| SolverTradeOff.OnlyOneHousesAll | allocation-engine/app/allocation.py:903-957 | in the chain example the only valid allocation that houses everyone has everyone in the room of their year |
| SolverTradeOff.PlacementWorth | allocation-engine/app/allocation.py:959-988 | what the objective gives for housing everyone in the chain, and for housing all but one |
| SolverTradeOff.DominanceFails | allocation-engine/app/allocation.py:847-907 | with more than a thousand pairs in a chain everyone can be housed and no maximiser houses everyone, although all rule priorities are 0 |
| SolverResults.ReadSolution | allocation-engine/app/allocation.py:988-1022 | one result per student, with the first room whose variable is 1 |
| SolverResults.ReadingIsDecoding | allocation-engine/app/allocation.py:988-1022 | reading a solution gives each student the room whose variable is 1, which is that of the decoded allocation, and a reason exactly if there is none |
| SolverResults.AllocationIsSafe | allocation-engine/app/allocation.py:903-957 | a valid allocation, seated on the initial state, keeps capacity, agreement, locks and pairs |
| RunMetrics.CompleteFaithful | allocation-engine/app/allocation.py:747-772 | the one-result-per-student list of a group or wing run states successes that stand, and each student's last result is the final place |
| RunMetrics.AllocatedIsPlaced | allocation-engine/app/main.py:204-206 | the number of allocated results is the number of cohort students with a room, although first-come runs may report a student twice |
| RunMetrics.CollectOutcomes | allocation-engine/app/main.py:209-216 | the outcome map holds the last outcome of every named student |
| RunMetrics.GroupIsSplit | allocation-engine/app/main.py:218-225 | a group counts as split if and only if two of its cohort members ended in different places |
| RunMetrics.QualityMetrics | allocation-engine/app/main.py:203-230 | the reported figures are those of the final state |
| RunMetrics.SplitIs | allocation-engine/app/main.py:208-225 | a group is split if and only if of two of its cohort members one has a room and the other none or one in another hostel or wing |
| RunMetrics.SplitCountIs | allocation-engine/app/main.py:208-229 | the figure is the number of such groups |
| RoomTrigger.CheckRoomCapacity | core-services/src/migrations/1721320060000-RoomCapacityTrigger.ts:31-76 | the trigger body with its early returns decides as specified |
| RoomTrigger.AllowsIffWithin | core-services/src/migrations/1721320060000-RoomCapacityTrigger.ts:31-76 | from a state within capacity the trigger rejects exactly the updates that would leave it |
| RoomTrigger.RunStaysWithin | core-services/src/migrations/1721320060000-RoomCapacityTrigger.ts:31-76 | no sequence of updates passes through a state over capacity |
| RoomTrigger.RunIff | core-services/src/migrations/1721320060000-RoomCapacityTrigger.ts:31-76 | a transaction that writes each student once gets through if and only if each update clears a room, keeps one, or finds a bed as counted on the table before; then the table holds just what was written |
| RoomTrigger.AnyOrderIff | core-services/src/migrations/1721320060000-RoomCapacityTrigger.ts:31-76 | it gets through in every order of its updates if and only if each room anyone enters has beds for all its occupants and all who are to come |
| Swaps.ExchangePasses | core-services/src/swaps/swaps.service.ts:538-548 | from any state within capacity the vacate-move-move sequence passes the trigger at each step and exchanges the rooms, full rooms and a shared room included |
| Swaps.ExchangeKeepsOccupancy | core-services/src/swaps/swaps.service.ts:538-548 | every room keeps its number of occupants, and a second exchange undoes the first |
| Swaps.NaiveOrderStopsIff | core-services/src/swaps/swaps.service.ts:538-548 | without vacating first the swap is stopped if and only if the rooms differ and the target room is full |
| Swaps.SwapsService.ExecuteDirectSwap | core-services/src/swaps/swaps.service.ts:494-599 | every error branch leaves the database as it was; otherwise rooms exchanged, two history rows, request completed |
| Swaps.DirectErrorIs | core-services/src/swaps/swaps.service.ts:494-552 | which condition each error reports; none is met exactly by an accepted request between two different students who both have a room |
| Swaps.LockCountMeansDistinct | core-services/src/swaps/swaps.service.ts:643-659 | the count of locked rows equals the list length if and only if the participants are distinct and known |
| Swaps.ChainGuards | core-services/src/swaps/swaps.service.ts:649-683 | the guards leave distinct participants, each still in the recorded room |
| Swaps.RotationKeepsOccupancy | core-services/src/swaps/swaps.service.ts:631-688 | a completed rotation leaves every room's occupancy as it was |
| Swaps.OccupancyTelescopes | core-services/src/swaps/swaps.service.ts:685-689 | after k moves of a rotation a room has its old number of occupants, one more if participant k's room is that room, one less if the first one's is |
| Swaps.RotationPassesIff | core-services/src/swaps/swaps.service.ts:685-689 | any rotation, shared rooms included, passes the trigger if and only if every recorded room has a spare bed, but for the first participant's and those shared with the one before |
| Swaps.FullRoomsRotation | core-services/src/swaps/swaps.service.ts:669-673 | two students in two full single rooms: the direct swap goes through, the chain never does |
| Swaps.ChainOutcome | core-services/src/swaps/swaps.service.ts:631-714 | after a commit each participant has the next one's recorded room, occupancies are unchanged, everybody else is untouched |
| Swaps.ChainRecords | core-services/src/swaps/swaps.service.ts:684-718 | a committed chain writes one history row for each participant, with recorded and next room, and completes exactly its requests |
| Swaps.ChainErrorIs | core-services/src/swaps/swaps.service.ts:606-682 | the guards pass if and only if every id has its request, no two genders differ, no student comes twice, and everyone is still in the recorded room |
| Swaps.GendersMatchIs | core-services/src/swaps/swaps.service.ts:303-312 | of these the gender check fails exactly on a request between two students known to be of different genders |
| Swaps.RequestedInOrder | core-services/src/swaps/swaps.service.ts:281-304 | the requests of a chain, in table order |
| Swaps.SwapsService.ExecuteSwapChain | core-services/src/swaps/swaps.service.ts:602-725 | an abort changes nothing; a commit leaves the rotated rooms, one history row each, and the requests completed |
| SwapRace.StepKeeps | core-services/src/swaps/swaps.service.ts:509-599 | one step of any executor, or its death, keeps the invariant of lock, uncommitted writes and history |
| SwapRace.AtMostOneCommits | core-services/src/swaps/swaps.service.ts:509-599 | over all interleavings of any number of executors at most one commits, and then the rooms are exchanged with exactly two history rows |
| SwapCycles.EdgesAreLast | core-services/src/swaps/swaps.service.ts:377-389 | each student with a targeted request points at the target of the last one, keeps the room asked there, and is listed once |
| SwapCycles.BuildGraph | core-services/src/swaps/swaps.service.ts:377-389 | the loop builds the edges, the rooms and the key order |
| SwapCycles.CycleSearch.FindCycleDFS | core-services/src/swaps/swaps.service.ts:444-474 | the search terminates, returns the closed part of the walk, and has visited exactly the walk |
| SwapCycles.DetectSwapCycles | core-services/src/swaps/swaps.service.ts:368-442 | every reported chain describes a simple cycle of two or more with each target's recorded room, and every such cycle is described, up to rotation |
| SwapCycles.FoundIsCycle | core-services/src/swaps/swaps.service.ts:452-474 | whatever a search finds is a simple cycle |
| SwapCycles.SearchFinds | core-services/src/swaps/swaps.service.ts:452-474 | a search that sees a student of a cycle finds that cycle, up to rotation |
| SwapCycles.DetectsExactly | core-services/src/swaps/swaps.service.ts:391-439 | everything reported is a simple cycle of two or more, and every such cycle is reported, up to rotation |
| SwapCycles.ReportedAgainIff | core-services/src/swaps/swaps.service.ts:391-412 | a student not seen yet whose requests lead into a cycle has it reported, and it was reported before if and only if the cycle was seen before |
| CycleExecution.AsAnnouncedIff | core-services/src/swaps/swaps.service.ts:287-304 | a detected cycle whose requests commit as a chain, recorded rooms distinct, gives every participant the announced room if and only if each row asks for the student of the next row; always so with two participants |
| Administration.AdminService.PublishAndCommit | core-services/src/admin/admin.service.ts:750-885 | every error with its condition; a trigger error leaves everything as it was; a commit locks exactly the successful results of the run, marks it published and nothing else, logs where each cohort student stood, and leaves the specified rows |
| Administration.PublishedRoom | core-services/src/admin/admin.service.ts:843-853 | a student with successful results of the run ends in the room of one of them, currentRoomId and allocatedRoomId alike; everybody else keeps both |
| Administration.PublishedApplication | core-services/src/admin/admin.service.ts:855-868 | once any room is given out, exactly the cohort is set to not submitted and "NONE" |
| Administration.AssignIsRun | core-services/src/admin/admin.service.ts:843-853 | as far as rooms go, the assignment loop is a sequence of updates under the trigger |
| Administration.PublishThenRollback | core-services/src/admin/admin.service.ts:766-884 | undo of a publish restores room, application status and submitted flag of every cohort student and the run; the results are as before if and only if none was locked |
| Administration.EvictThenRollback | core-services/src/admin/admin.service.ts:895-986 | undo of an eviction restores every student; all results are back if and only if no evicted student had more than one with a room |
| Administration.EvictionCanBeUndone | core-services/src/admin/admin.service.ts:1060-1068 | undoing an eviction at once is sure to pass the trigger if the rooms were within capacity |
| Administration.PublishCanBeUndone | core-services/src/admin/admin.service.ts:1060-1068 | undoing a publish at once is sure to pass the trigger if the cohort had no rooms before |
| Administration.SureToRestoreIff | core-services/src/admin/admin.service.ts:1060-1068 | a rollback passes the trigger in every order of the students if and only if each room someone goes back to has beds for all in it and all going back |
| Administration.AdminService.BulkEvict | core-services/src/admin/admin.service.ts:887-993 | an error if and only if no roll number is listed, changing nothing; otherwise exactly the listed students lose current and allocated room, submitted flag and get status "EVICTED", their results with a room go, everything else stays, and their standing is logged |
| Administration.EvictionFreesBeds | core-services/src/admin/admin.service.ts:948-960 | after an eviction the occupants of each room are those before without the evicted |
| Administration.AdminService.TakeEvictionSnapshot | core-services/src/admin/admin.service.ts:956-972 | each evicted student's standing with one of the student's roomed results if there is any |
| Administration.AdminService.RollbackAction | core-services/src/admin/admin.service.ts:1040-1111 | every error with its condition; all or nothing; field by field what each kind of action gets back; sure to commit when each room someone goes back to has beds for all in it and all going back |
| Administration.RestoreSaved | core-services/src/admin/admin.service.ts:1070-1080 | saved results are back under their ids, everything else is as it was |
| EngineToDatabase.MovePasses | core-services/src/admin/admin.service.ts:843-853 | moving one student to the room the final state gives passes the trigger and keeps the table in step with the state |
| EngineToDatabase.GroupRunPublishable | allocation-engine/app/allocation.py:747-772 | a finished group-based or wing-FCFS run is fit for publishing: sound, its successes state the final rooms, and every student placed has one |
| EngineToDatabase.FcfsRunPublishable | allocation-engine/app/allocation.py:666-696 | so is a first-come run |
| EngineToDatabase.SolverRunPublishable | allocation-engine/app/allocation.py:988-1022 | so is any feasible solution of the CP-SAT mode |
| EngineToDatabase.PublishingNeverStops | core-services/src/admin/admin.service.ts:843-853 | with an unhoused cohort and only locked students in the rooms, publishing the successes in any order never fires the trigger and puts each student in the room of the result |
| EngineToDatabase.PublishCommits | core-services/src/admin/admin.service.ts:750-885 | hence the assignments of a whole run commit, every cohort student ends in the room the engine chose or in none if it chose none, and nobody else is moved |
| EngineToDatabase.CompletedRunPublishes | core-services/src/admin/admin.service.ts:750-885 | from the engine to the students table: whatever webhooks, restarts, dispatch errors and losses there were, publishing a run the service has as completed commits and leaves every cohort student where the engine put them, and everybody else in place |
| EngineToDatabase.PublishCommitsIff | core-services/src/admin/admin.service.ts:843-853 | over any table, housed cohorts included, the publish commits if and only if each result in turn finds a bed as counted before; it commits in every order if and only if each room entered has beds for all in it and all to come |
| EngineToDatabase.HousedCohortCanStop | core-services/src/admin/admin.service.ts:843-853 | a publish can fail although what it writes is within every capacity: any two students who are to trade two full single rooms |
| RulesMatrix.RulesService.SaveRulesMatrix | core-services/src/admin/admin.service.ts:1161-1229 | exactly one rule per matrix entry and nothing else |
| RulesMatrix.CompiledIs | core-services/src/admin/admin.service.ts:1161-1229 | a hostel-wide entry gives a rule of priority 10, a wing entry one of priority 15, and there are no other rules |
| RulesMatrix.RulesService.GetRulesMatrix | core-services/src/admin/admin.service.ts:1121-1159 | the matrix the rule list is read back as |
| RulesMatrix.EngineFollowsMatrix | allocation-engine/app/allocation.py:212-246 | with the saved rules in any order the engine decides every room and year as the wing entry, else the hostel entry, else allowed |
| RulesMatrix.SaveThenGetIff | core-services/src/admin/admin.service.ts:1121-1229 | save then get gives the matrix back if and only if it covers exactly the hostels, has every room wing, no nameless wing, and no further wing without an entry |
| RulesMatrix.ReadEntry | core-services/src/admin/admin.service.ts:1144-1156 | an entry is read back if and only if some rule sets it, with the value of one that does |
| RulesMatrix.ReadLast | core-services/src/admin/admin.service.ts:1144-1156 | of several rules that set one entry the last one counts |
| RulesMatrix.ReadAlikeIff | core-services/src/admin/admin.service.ts:1531-1544 | the two readers agree on whether a rule applies everywhere if and only if the rule is plain |
| RulesMatrix.SomeScanFollows | core-services/src/admin/admin.service.ts:1476-1477 | each rule that applies and is not outranked decides in some descending order of reading |
| RulesMatrix.EvaluatorsAgreeIff | core-services/src/admin/admin.service.ts:1495-1555 | for plain rules the engine and the service give the same verdict in every descending order of reading if and only if the highest rules that apply say the same |
| RulesMatrix.EvaluatorsAgree | core-services/src/admin/admin.service.ts:1531-1544 | in particular with distinct priorities |
| RulesMatrix.TiesCanSplitReaders | core-services/src/admin/admin.service.ts:1476-1477 | whenever highest rules disagree, some order of reading contradicts the engine |
| RulesMatrix.ServiceFollowsMatrix | core-services/src/admin/admin.service.ts:1495-1555 | the service follows a saved plain matrix for every hostel, wing and year |
| RulesMatrix.ShownIffValid | core-services/src/admin/admin.service.ts:1495-1555 | an available room other than the current one is valid for the engine exactly when the student is shown its wing, in every order of reading, if and only if the highest rules agree or the hostel is closed to the gender |
| RulesMatrix.IsBlocked | core-services/src/admin/admin.service.ts:1528-1544 | the scan loop yields the verdict of the first matching rule |
| RulesMatrix.CollectWings | core-services/src/admin/admin.service.ts:1501-1524 | the wings of a hostel, each once, with the size of the largest room |
| RulesMatrix.LargestIs | core-services/src/admin/admin.service.ts:1501-1524 | the size is that of a largest room of the wing and the beds are those of all its rooms |
| RulesMatrix.EligibleWings | core-services/src/admin/admin.service.ts:1498-1560 | a wing is offered if and only if the hostel has it and the rules admit it, with the beds and largest room of the wing |
| Invitations.InvitationsService.SendInvitation | core-services/src/roommate-invitations/roommate-invitations.service.ts:58-152 | every error branch in order; otherwise one pending row more, under a new id, both parties accepted members of its group, neither taken and no such row pending |
| Invitations.SendErrorIs | core-services/src/roommate-invitations/roommate-invitations.service.ts:58-150 | which condition each refusal reports, and that the first of them in order is the one reported |
| Invitations.InvitationsService.RespondToInvitation | core-services/src/roommate-invitations/roommate-invitations.service.ts:154-207 | every error branch in order; accepting cancels the pending invitations of both parties |
| Invitations.RespondErrorIs | core-services/src/roommate-invitations/roommate-invitations.service.ts:154-184 | the same for a response |
| Invitations.AfterRespondIs | core-services/src/roommate-invitations/roommate-invitations.service.ts:185-204 | rejecting changes the one row to rejected; accepting makes it accepted and cancels exactly the other pending rows from or to either party |
| Invitations.RespondKeeps | core-services/src/roommate-invitations/roommate-invitations.service.ts:163-204 | responding keeps accepted invitations a matching that no pending one touches |
| Invitations.AcceptNeverConflicts | core-services/src/roommate-invitations/roommate-invitations.service.ts:171-183 | the receiver check on accept never fires, and checking the sender is not needed |
| Invitations.AcceptSettles | core-services/src/roommate-invitations/roommate-invitations.service.ts:183-201 | accepting takes both parties and leaves no other open invitation of theirs |
| Invitations.CourseKeeps | core-services/src/roommate-invitations/roommate-invitations.service.ts:58-207 | over every sequence of calls accepted invitations are a matching that no pending one touches |
| Invitations.BuildRoommateMap | allocation-engine/app/allocation.py:67-71 | the loop builds the roommate map |
| Invitations.RoommatesIffJoined | allocation-engine/app/allocation.py:67-71 | two students are roommates in the map if and only if an accepted invitation joins them |
| Invitations.OrderIrrelevant | allocation-engine/app/allocation.py:67-71 | the map does not depend on the order of the invitations |
| Invitations.CallsGiveMatching | allocation-engine/app/allocation.py:67-71 | after any sequence of calls the engine's roommate map is an involution without fixed points |
| RunProtocol.RunStore.UpdateRunState | allocation-engine/app/queue.py:120-135 | merges status and, if given, rows into the stored state of one run; does nothing without one |
| RunProtocol.RunStore.GetAllocationResult | allocation-engine/app/main.py:344-370 | unknown run, or the stored state |
| RunProtocol.CoreRuns.HandleWebhook | core-services/src/admin/admin.service.ts:597-646 | on an open run, results are appended and the run completed, a failure fails it; anything else and every other run stays as it is |
| RunProtocol.CoreRuns.SaveAllocationResults | core-services/src/admin/admin.service.ts:648-673 | the rows are added to their run in order and to no other |
| RunProtocol.CoreRuns.OnModuleInit | core-services/src/admin/admin.service.ts:96-192 | start-up: an open run the engine reports as completed is completed with its rows appended, one it reports as queued or running stays, any other open run is failed, and closed runs are untouched |
| RunProtocol.RowsForIs | core-services/src/admin/admin.service.ts:648-673 | the rows of a run are those stored under its id, in order |
| RunProtocol.OpenRunSettles | core-services/src/admin/admin.service.ts:96-192 | of an open run: results, by webhook or found by a restart, complete it with exactly what the engine computed; failures, and at a restart an engine that is silent or does not know it, fail it with nothing saved; nothing else changes it |
| RunProtocol.RestartFindsResults | core-services/src/admin/admin.service.ts:150-166 | a job that dies after storing its results leaves them to be found: the next restart completes the run |
| RunProtocol.FailureIsReported | allocation-engine/app/main.py:282-303 | a job that breaks down reports it, and the run fails with nothing saved |
| RunProtocol.StepKeeps | core-services/src/admin/admin.service.ts:521-646 | every step of every party keeps: at most one save, completed means holding the engine's output, and whoever carries results carries that output |
| RunProtocol.StepKeepsIff | core-services/src/admin/admin.service.ts:521-646 | of all steps exactly a dispatch error on a completed run breaks the promise that nothing was ever saved for a run that is not completed |
| RunProtocol.ResultsExactlyOnce | allocation-engine/app/main.py:175-303 | over every interleaving results are saved at most once and a completed run holds what the engine computed; no run but a completed one ever has results saved if and only if no dispatch error comes late |
| RunProtocol.TerminalStays | core-services/src/admin/admin.service.ts:603-612 | a completed, failed or deleted run keeps status and results whatever happens, except its deletion and a late dispatch error |
| RunProtocol.SavedTwiceIffOverlap | core-services/src/admin/admin.service.ts:597-646 | when the handler looks, saves and marks in separate steps, the results are saved at most once if and only if no two handlers are ever at work at once |
| RunProtocol.LateErrorOverwrites | core-services/src/admin/admin.service.ts:585-591 | a concrete course in which a late dispatch error turns a completed run into a failed one |

## Left out

- Network, HTTP, Redis, TypeORM, clocks and random ids: each call is one atomic step on values; statuses, replies, messages and ids are inputs.
- The webhook handler and the reconciliation of one run are single steps of the protocol; RunProtocol.SavedTwiceIffOverlap says what overlapping handlers do.
- Several transactions entering one room at the same time: the trigger counts rows without locking the room; only executors of one swap request are interleaved.
- The CP-SAT search: the solver is an oracle. The weight check that raises when a preference list has a hundred entries or more is not modelled, nor is the fallback for a solver without an answer.
- WingEligibility.RunEndsByRules: its condition on the leftover wing is sufficient, not necessary; over the turns of the run LawfulRuns.RunLawfulIff is exact, for groups that list a student with one and the same data.
- SolverSingles.BedsFirst: its two conditions are sufficient, not necessary; a cohort with pairs and fallbacks beyond the bound may still be housed first, and SolverTradeOff.DominanceFails shows that it need not.
- Atomicity of group-based and wing-FCFS runs is promised for each pair of which every group lists both or neither. A divided pair can end apart (PairApart.GroupDividesPair), or together by chance; AllocationModel.SeatKeepsPairIff is exact per placement. Maximality assumes nothing of the groups.
- The chain validator also compares hostels and checks eligibility, but only of a target room that its query does not load (core-services/src/swaps/swaps.service.ts:287-304, 316-349); requests in the model have no target room and these two checks are left out.
- Wing keys are triples instead of formatted strings; the order of their texts is an input that breaks ties.
- Room numbers are numbers in their sorting role, application times are numbers, and hostel names, programs, happiness, decision logs and debug prints are left out.
- Administration.AdminService.BulkEvict: an empty list of roll numbers finds nobody in the model; what the query builder does with an empty condition list is not part of this model.
- Room status after publish, evict and rollback, and the allocated room after rollback: they are overwritten from other data.
- "At most one open run": a rollback re-opens a run without looking for another.
- RulesMatrix.EligibleWings: hostels are given one at a time, with the visibility setting on.
- Swaps: requests are executed as found; creating, answering and cancelling swap requests, and the checks made when a request is created, are not modelled.
- Groups, dashboards, room and hostel administration, authentication, and the user interface.
