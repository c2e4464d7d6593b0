# TA schedule optimizer — a Dafny model

The modelled program assigns teaching assistants (TAs) to practical groups.
Its input is a table: one row per group, with the five slot columns `Day`,
`Time`, `Group`, `Location` and `Room`, and then one column per TA. A TA
column's header is `name_n`, where `n` is the number of shifts the TA must
take. Each cell holds `Yes`, `Preferably Not`, `No` or nothing.

The program works in stages:

1. It merges similar TAs into one column while there are too many columns.
2. It lowers some `Preferably Not` cells to `No`.
3. It builds the team and the incompatible and consecutive relations between
   groups, and gives every group a domain: the TAs who are not `No` for it.
4. It hands a constraint problem to a solver library.
5. When every solution is wanted, it ranks the solutions.

The logic exists twice, in `scheduler.py` and in
`schedule_maker_practical.py`, in nearly the same form. The model follows
`scheduler.py`. It models the practical script's own variants separately:

- the room-by-room consecutive scan;
- the different-room scan;
- the two older pairwise constraints;
- the order of the two ranking counts.

The practical script repeats several pieces unchanged:

- the header and team code (lines 106-134);
- the domain code (lines 137-156);
- the compound constraint `consecutive_constraint` (lines 337-382);
- `combine_availability` and the similarity scores (lines 494-526).

These pieces are modelled once.

Modules, one per concern:

| module | file | models |
|---|---|---|
| `Base` | base.dfy | tiers, slots, the table, sorted pairs, `itertools.combinations`, counting helpers |
| `Headers` | headers.dfy | `split('_')`, the shift suffix, `str(n)`, the merged header |
| `TeamModel` | team.dfy | `create_team_availability`, `count_plus1shift` |
| `Sorting` | sorting.dfy | Python's stable `sorted` by an integer key |
| `Relations` | relations.dfy | incompatible, consecutive and inconvenient pairs |
| `Domains` | domains.dfy | domains and the variable order |
| `Feasibility` | feasibility.dfy | `custom_constraint` / `consecutive_constraint` on one assignment |
| `FeasibilityFacts` | feasibility_facts.dfy | what the constraint's verdicts mean |
| `Legacy` | legacy.dfy | `combination_constraint`, `person_shift_constraint` |
| `Ranking` | ranking.dfy | `count_consecutive`, `count_preference`, `process_solutions` |
| `Downgrade` | downgrade.dfy | `decrease_preferably_not` / `decr_PrefNot`, in place on an `array2` |
| `Merge` | merge.dfy | similarity, `combine_availability`, one merge step, the merge loop |

Modelling choices:

- Every `sys.exit` and every exception the code does not catch becomes an
  error value of a `Result`-like datatype. The exceptions are the
  `KeyError`s, the `ValueError` of `max` on nothing, the
  `ZeroDivisionError`, and the `ValueError` of `float` or `int` on a shift
  suffix that is not an integer numeral, reported as the bad-suffix error. In the downgrade, the `KeyError`s are a person
  without a `Yes`, and a table without any `Preferably Not` before or after
  the pass (`Downgrade.Outcome`). The one after the pass comes once the table
  is already rewritten.
- An empty cell is the tier `Empty`. It is stored as it is and passes the
  `!= 'No'` domain test, so it counts as available.
- Loops that build lists or counters are methods, proved equal to a
  specification function. The in-place downgrade writes an `array2`.
- Ratios are `real`.
- The pair the user picks in the merge prompt is an integer parameter. The
  merge loop reads a sequence of such answers.
- The downgrade recounts the slot's `Yes` and `Preferably Not` from the
  transpose taken before the loop, so the counts never change inside a slot.
  The model recounts from the current table, which is the evident intent.
  The two agree. The `Yes` count never changes, and a visited cell is still
  `Preferably Not`, so `y >= 2` and `p >= 1` hold at every visit. A slot
  that passes `y >= 2 and y + p >= 3` therefore keeps passing.

## Model

| member | source | states |
|---|---|---|
| Headers.SplitJoin | scheduler.py:139-144 | no field of `split` holds the separator, and joining the fields gives the header back |
| Headers.ParseHeader | scheduler.py:136-144 | a header without `_` is the missing-suffix error; a second field that is not an integer, surrounding whitespace allowed, is the bad-suffix error; otherwise the name is the first field and the shift count the integer value of the second |
| Headers.ParseMergeHeader | schedule_maker_practical.py:463-468 | a chosen header is read exactly when it splits into two fields and the second is an integer, surrounding whitespace allowed; the header is then name, `_`, suffix |
| Headers.ParseIntPadded | schedule_maker_practical.py:468 | `int` reads a written integer with any whitespace before and after it as that integer |
| Headers.PaddedHeaderParses | scheduler.py:139-142 | `name_n` with whitespace around `n` is read as name `name` and count `n`, both by team construction and by the merge prompt |
| Headers.IntToStringRoundTrip | schedule_maker_practical.py:468-469 | the shift total written into a merged header is read back as the same integer, and holds no `_` |
| Headers.MergedHeaderParses | schedule_maker_practical.py:469 | `name1-name2_n` is read back as name `name1-name2` and count `n`, both by team construction and by a later merge prompt |
| TeamModel.CreateTeam | scheduler.py:130-161 | the result is the team, or the first header error, or the shift-total mismatch, as `TeamOf` defines |
| TeamModel.CollectMembers | scheduler.py:136-154 | the loop over the person columns gives the team of all headers, or stops at the first bad header |
| TeamModel.SumShifts | scheduler.py:157 | the loop sums every member's shift count |
| TeamModel.TeamErrors | scheduler.py:136-160 | team construction succeeds exactly when every header parses and the shift total equals the number of rows; a header error is the error of the first header that fails |
| TeamModel.BuildTeamStops | scheduler.py:137-141 | the first header that fails to parse decides the error, whatever follows |
| TeamModel.TeamOfDistinctNames | scheduler.py:144-154 | with distinct names, member `j` is the name and count of header `j` with one tier per group, from column `j` |
| TeamModel.UpsertFacts | scheduler.py:145-147 | `team[person] = ...` stores the new entry and keeps every entry of another name in place |
| TeamModel.BuildTeamDistinct | scheduler.py:145 | the team never holds a name twice |
| TeamModel.LookupDistinct | scheduler.py:277 | with distinct names, `team_dict[person]` finds that member |
| TeamModel.CountPlus1Shift | scheduler.py:164-174 | the count is the number of person columns whose shift count exceeds one |
| Relations.ExtractIncompatibleCombinations | scheduler.py:177-199 | the loop over distinct days and times builds the incompatible list `Incompatible` |
| Relations.IncompatibleOnDay | scheduler.py:185-198 | the inner loop over the distinct times of a day appends each bucket's pairs |
| Relations.BucketPairsShape | scheduler.py:189-198 | a bucket of k > 2 groups gives C(k,2) sorted pairs, one of two groups the pair in table order, a smaller one nothing |
| Relations.IncompatibleComplete | scheduler.py:183-198 | every two rows on the same day and time are listed: sorted when their bucket has more than two groups, in table order when it has two |
| Relations.IncompatibleSound | scheduler.py:183-198 | every listed pair names two distinct rows that meet on the same day at the same time |
| Relations.SortedBucketPairsAgree | scheduler.py:192-198 | sorting the two-group case changes only the two-group buckets |
| Relations.IncompatibleSortedMember | scheduler.py:192-198 | with the two-group case sorted, the list holds exactly the sorted pairs of two distinct rows on the same day and time |
| Relations.IncompatibleSortedComplete | scheduler.py:183-198 | with the two-group case sorted, every two rows meeting at the same time give their sorted pair |
| Relations.UnsortedPairWitness | scheduler.py:197-198 | rows `B` then `A` at one time give the list `[B, A]`, which lacks the sorted pair `[A, B]`; the corrected list holds it |
| Relations.SplitTimes | scheduler.py:211 | splitting the times fails unless the widest split has exactly two fields; otherwise each row gets its start and end |
| Relations.ScanRow | scheduler.py:217-223 | one row against every row of its day fills the same-room and the different-room list |
| Relations.ScanDay | scheduler.py:215-223 | the rows of one day, each against every row of that day |
| Relations.ExtractConsecutiveCombinations | scheduler.py:202-224 | the result is the time-split error, or the consecutive and the inconvenient list |
| Relations.ScanMember | scheduler.py:213-223 | a pair is listed exactly when it is the sorted pair of two distinct rows of one day, the first ending as the second starts, with the rooms the list asks for |
| Relations.ConsecutiveSplit | scheduler.py:220-223 | two touching rows of one day go to the consecutive list in the same room and to the inconvenient list otherwise |
| Relations.RoomsExclusive | scheduler.py:220-223 | no pair of rows is both same-room and different-room, and together the two cover every touching pair on one day |
| Relations.FindConsecutiveImprob | schedule_maker_practical.py:279-297 | the result is the time-split error or the different-room list |
| Relations.ImprobRow | schedule_maker_practical.py:291-295 | one row against every row of its day, different rooms only |
| Relations.ImprobDay | schedule_maker_practical.py:289-295 | the rows of one day, different rooms only |
| Relations.FindConsecutiveCombinations | schedule_maker_practical.py:257-276 | the result is the time-split error or the room-by-room consecutive list |
| Relations.RoomRow | schedule_maker_practical.py:270-274 | one row of a room and day against every row of that room and day |
| Relations.RoomDay | schedule_maker_practical.py:268-274 | the rows of one room and day |
| Relations.RoomDays | schedule_maker_practical.py:266-274 | every day of one room |
| Relations.RoomConsecutiveAgrees | schedule_maker_practical.py:257-276 | the room-by-room list holds the same pairs as the same-room list of the day scan |
| Domains.TierOfFirstRow | scheduler.py:148-154 | the stored tier of a group is the one of its first row, and `No` when it has no row |
| Domains.DomainMember | scheduler.py:338-343 | a person is in a group's domain exactly when a member of that name has a tier other than `No` for it, an empty cell included |
| Domains.DomainDistinct | scheduler.py:339-343 | with distinct names no one appears twice in a domain |
| Domains.DomainOf | scheduler.py:338-342 | the inner loop collects the domain of one group |
| Domains.DomainTable | scheduler.py:336-343 | the dictionary has one entry per distinct group |
| Domains.BuildDomains | scheduler.py:337-343 | the loop over the group column builds that dictionary |
| Sorting.SortByCorrect | scheduler.py:349 | `sorted` keeps every element, orders by key, and keeps equal keys in their original order |
| Domains.OrderCorrect | scheduler.py:349 | the variable order lists every entry once, by non-decreasing domain size, equal sizes in dictionary order |
| Domains.GroupListPermutes | scheduler.py:349-354 | the variable list is a permutation of the distinct groups |
| Feasibility.GroupByPerson | scheduler.py:266-270 | the assignment grouped by person, in order of first appearance |
| Feasibility.SolutionStep | scheduler.py:268-269 | one more variable extends an earlier person's groups or adds a new person at the end |
| FeasibilityFacts.SolutionEntry | scheduler.py:268-270 | every entry is an assigned person with exactly the groups they take |
| Feasibility.CheckShifts | scheduler.py:275-279 | the first loop's verdict, stopping at the first person who fails |
| Base.SortedCombosMember | scheduler.py:301-303 | the sorted combinations of a list are exactly the sorted pairs of two of its positions |
| Feasibility.CheckHeld | scheduler.py:287-310 | one person's groups are rejected exactly when a sorted pair of them is forbidden; otherwise in first-found mode the count is their consecutive pairs |
| Feasibility.CheckCombos | scheduler.py:300-310 | the same for the branch of more than two groups |
| Feasibility.CheckPairs | scheduler.py:286-310 | the second loop rejects exactly when some person holds a forbidden pair, and otherwise counts consecutive pairs in first-found mode |
| Feasibility.CustomConstraint | scheduler.py:254-321 | the method's verdict is the one `Constraint` defines |
| FeasibilityFacts.ShiftsMeaning | scheduler.py:276-279 | the first loop passes exactly when every assigned person is in the team and takes as many groups as their shift count |
| FeasibilityFacts.PairsComplete | scheduler.py:286-306 | a forbidden sorted pair held by one person is found |
| FeasibilityFacts.PairsSound | scheduler.py:286-306 | a pair the second loop finds is held by one person |
| FeasibilityFacts.PairsMeaning | scheduler.py:286-306 | the second loop passes exactly when no person holds a forbidden sorted pair |
| FeasibilityFacts.ConstraintMeaning | scheduler.py:254-321 | accepted exactly when the shift counts match, no forbidden pair is held and, in first-found mode, the consecutive ratio exceeds the floor; division by zero exactly in first-found mode with no person of more than one shift; an unknown-person error names an assigned person outside the team |
| FeasibilityFacts.ShiftsExact | scheduler.py:276-279 | when the shift total equals the number of variables, that is of distinct groups (true when the `Group` labels are distinct), every member with a non-negative count takes exactly that count, also a member who takes nothing |
| FeasibilityFacts.RepeatedGroupIdle | scheduler.py:157-160 | two rows of group `g` with `X_1` and `Y_1` pass the row-count check, give one variable, and `{g: X}` is accepted while `Y` takes no shift |
| FeasibilityFacts.NoSimultaneous | scheduler.py:286-306 | with the sorted incompatible list forbidden, an accepted assignment never gives one person two groups meeting at the same time |
| FeasibilityFacts.UnsortedPairAccepted | scheduler.py:290-294 | one person holding `B` and `A` passes when only the unsorted pair `[B, A]` is forbidden |
| FeasibilityFacts.SimultaneousAccepted | scheduler.py:197-198 | with the list as written, one person is accepted for two groups that meet at the same time |
| FeasibilityFacts.ZeroDivisionWitness | scheduler.py:317-318 | in first-found mode with nobody above one shift, an assignment that passes the other checks divides by zero |
| FeasibilityFacts.GuardedNeverDivides | scheduler.py:317-320 | the corrected constraint, which applies the ratio floor only when somebody has more than one shift, never divides by zero |
| FeasibilityFacts.GuardedAgrees | scheduler.py:317-320 | the guarded constraint agrees with the original wherever the original does not divide by zero, and otherwise accepts exactly what passes the shift and pair checks |
| Legacy.ZipMapFacts | schedule_maker_practical.py:302 | the dictionary's keys are the listed groups, and each maps to the person of its last occurrence |
| Legacy.CombinationConstraint | schedule_maker_practical.py:300-318 | the method's result is `Combination` of the zipped dictionary |
| Legacy.CombinationMeaning | schedule_maker_practical.py:305-316 | true exactly when every listed pair is split between two people; false names a pair held by one person; a missing group is a listed group outside the dictionary |
| Legacy.CombinationAgrees | schedule_maker_practical.py:300-318 | with distinct variables and every forbidden group among them, the old constraint passing implies that no person holds a forbidden pair; the converse holds when every forbidden pair is sorted and names two different groups |
| Legacy.PersonShiftConstraint | schedule_maker_practical.py:322-333 | true exactly when every team member takes exactly their shift count |
| Legacy.PersonShiftAgrees | schedule_maker_practical.py:322-333 | when the shift total equals the number of variables (distinct groups), the new shift check is the old one plus "every assigned person is in the team" |
| Legacy.OldConstraintsFollow | schedule_maker_practical.py:337-359 | when the variables are distinct, the names distinct, the shift counts non-negative with a total equal to the number of variables (distinct groups), and every forbidden pair is sorted and made of two different listed groups, an assignment the compound constraint accepts satisfies both old constraints |
| Legacy.UnsortedPairSplitsConstraints | schedule_maker_practical.py:300-318 | the sortedness hypothesis is needed: with the unsorted two-group entry `[B, A]` as the only forbidden pair, one person holding both is accepted by the compound constraint and rejected by `combination_constraint` |
| Ranking.GetFacts | scheduler.py:387 | `solution.get(group)` is `None` exactly when the group has no entry, and otherwise that entry's person |
| Ranking.ConsecutiveScoreBounds | scheduler.py:383-389 | the consecutive count is at most the number of pairs, zero exactly when no pair has one holder, full exactly when all have |
| Ranking.ConsecutiveOf | scheduler.py:384-389 | the loop over the consecutive pairs of one solution |
| Ranking.CountConsecutive | scheduler.py:379-392 | one consecutive count per solution, in order |
| Ranking.PrefNotScoreFacts | scheduler.py:399-405 | the preference count exists exactly when every entry's person is in the team, is at most the number of entries, and an error names a person outside the team |
| Ranking.PrefNotOf | scheduler.py:400-404 | the loop over the entries of one solution |
| Ranking.PrefNotStops | scheduler.py:402 | the first unknown person is the error |
| Ranking.PrefNotScoresFacts | scheduler.py:399-405 | the counts exist exactly when each solution has one, and then they are those counts in order |
| Ranking.CountPreference | scheduler.py:395-406 | the loop over all solutions |
| Ranking.BestUnique | scheduler.py:424-428 | the chosen position is determined by the two count lists |
| Ranking.MaxOf | scheduler.py:424 | the maximum of a non-empty list is in it and bounds it |
| Ranking.IndicesOf | scheduler.py:425 | the positions of the maximum, in increasing order, all of them |
| Ranking.BestFromMost | scheduler.py:425-428 | the first smallest preference count among the positions of the maximum is the choice |
| Ranking.SelectBest | scheduler.py:424-428 | no choice exactly for an empty list; otherwise the position with the largest consecutive count, and among those the smallest preference count, the first on ties |
| Ranking.ProcessSolutions | schedule_maker_practical.py:192-216 | no solutions is the `max` error, a preference error is reported, and otherwise the chosen solution is the best by the rule above |
| Ranking.PrefNotOfItemsGroups | scheduler.py:401-402 | on every prefix of the group entries, the written walk gives the corrected count, so only the appended counter makes it fail |
| Ranking.CounterBreaksRanking | scheduler.py:419-421 | in scheduler.py's order, the preference count of every solution fails |
| Ranking.CounterWitness | scheduler.py:420-421 | one known person with `Yes`: the corrected count is 0, the written one fails on the counter |
| Downgrade.Availability | scheduler.py:444-448 | the `Yes` count of every person, or the first person without a `Yes`; the table is not touched |
| Downgrade.DowngradeRow | scheduler.py:454-469 | one slot is rewritten to `RowAfter` of its old contents, and every other cell is unchanged |
| Downgrade.DecrPrefNot | scheduler.py:433-475 | the outcome is the one `PassOutcome` defines: a person without a `Yes`, or no `Preferably Not` in the table, is an error and changes nothing; otherwise the table becomes `Downgraded` of the old table, and an error follows when no `Preferably Not` is left |
| Downgrade.PassOutcomeFacts | scheduler.py:444-472 | the missing-`Yes` error exactly when a person has no `Yes`; the error before the pass exactly when, with every person having a `Yes`, the table holds no `Preferably Not`; the error after the pass only when the pass removed every one; otherwise the two printed totals are positive, the one after never larger |
| Downgrade.LastPrefNotRemoved | scheduler.py:454-472 | a table whose only `Preferably Not` sits in a slot with two `Yes`, held by a person with a `Yes` share above the ratio, is rewritten to `No` there and then fails on the total after the pass |
| Downgrade.DowngradeOnlyLowers | schedule_maker_practical.py:417-428 | a cell changes only from `Preferably Not` to `No`, exactly when its slot has at least two `Yes` and three `Yes` or `Preferably Not` and its person's `Yes` share exceeds the ratio |
| Downgrade.DowngradeCounts | schedule_maker_practical.py:399-428 | every person's and every slot's `Yes` count is unchanged, and no person or slot gains a `Preferably Not` |
| Downgrade.PrefNotTotalDecreases | schedule_maker_practical.py:406-431 | the table's `Preferably Not` total never rises and its `Yes` total is unchanged |
| Downgrade.DowngradeIdempotent | scheduler.py:454-469 | a second pass changes nothing |
| Merge.CombineIsWeaker | schedule_maker_practical.py:494-506 | the merged tier is the weaker of the two, an empty cell giving way to any answer, two empty cells giving `No` |
| Merge.CombineFacts | schedule_maker_practical.py:494-506 | commutative, `No` absorbs, an empty cell is neutral against an answer, two empty cells give `No`, and the result is `Yes` exactly when one is `Yes` and the other `Yes` or empty |
| Merge.CombineNotAssociative | schedule_maker_practical.py:494-506 | grouping matters: (empty, empty) then `Yes` gives `No`, empty then (empty, `Yes`) gives `Yes` |
| Merge.SimilarityFacts | schedule_maker_practical.py:508-526 | the score is symmetric and between 0 and 1 |
| Merge.CandidatesMember | schedule_maker_practical.py:517-524 | the dictionary holds exactly the pairs of two columns in order, neither with a `-` in its header, with their match counts |
| Merge.RankedFacts | schedule_maker_practical.py:447-448 | the ranking lists every candidate, by non-increasing number of matches |
| Merge.TopTenFacts | schedule_maker_practical.py:447-449 | at most ten candidates are offered, the best first, and none left out has more matches than one offered |
| Merge.SetColumn | schedule_maker_practical.py:472 | `df[name] = column` replaces the column of that header or appends it, and keeps every other column |
| Merge.DropNames | schedule_maker_practical.py:477 | every kept column comes from the table and carries none of the dropped headers |
| Merge.Apply | schedule_maker_practical.py:461-480 | a header that does not split is the caught `ValueError`; an accepted merge has a `Yes` in the merged column |
| Merge.MergeStep | schedule_maker_practical.py:458-488 | an answer outside the list is rejected; otherwise the chosen pair is merged |
| Merge.ApplyShape | schedule_maker_practical.py:461-480 | the merge adds the merged column, then drops its name again or drops the two old headers |
| Merge.ApplyShrinks | schedule_maker_practical.py:470-480 | an accepted merge of two unmerged columns removes at least one column, a rejected one adds none, whatever the headers |
| Merge.MergedShifts | schedule_maker_practical.py:463-469 | the merged header announces the sum of the two shift counts |
| Merge.ApplyFreshMerged | schedule_maker_practical.py:464-480 | with distinct headers and a new name, an accepted merge removes exactly the two columns, appends the merged one, drops the column count by one and keeps the total of required shifts |
| Merge.ApplyFreshRejected | schedule_maker_practical.py:474-477 | with a new name, a merged column without `Yes` leaves the table as it was |
| Merge.StepShrinks | schedule_maker_practical.py:458-480 | an accepted answer lowers the column count, a rejected one never raises it |
| Merge.RunFacts | schedule_maker_practical.py:445-491 | the loop stops asking only when the columns are at most `required`, or when the answers run out; it never adds a column and keeps the rows |
| Merge.MergeAvailability | schedule_maker_practical.py:437-491 | the loop reading one answer per prompt gives the result of `Run`, and stops early only with few enough columns |

## Left out

- The solver library (`Problem`, `OptimizedBacktrackingSolver`, `getSolutions`, `getSolution`). Its search order is not visible. The constraint is modelled on one full assignment, and the ranking takes the list of solutions as a parameter.
- Excel input and output, `os` paths, `print`, `time.sleep`, ANSI colours and `dict_to_dataframe`, because they are I/O or output formatting.
- `input()`: each answer is an integer parameter. A non-integer answer has the same effect as a number outside the list (the prompt repeats), so it is not represented separately.
- The `generate_schedule` orchestration and `main.py`: the thresholds of more than 9 TAs and more than 16 groups, and the order of the stages. They are glue.
- `check_input_range` and `check_structure`: every cell is one of the four tiers by construction, and the five slot columns are fields of `Slot`.
- pandas dtypes, copies and views, including whether the transpose aliases the table.
- The five slot columns in the downgrade: the source's per-slot counts run over the transposed row, which holds the slot columns too. A slot value spelled `Yes` would count, and a person column named like a slot value would be looked up. The `Preferably Not` totals before and after the pass are taken over the whole table, slot columns included. The model counts person cells only.
- Headers.ParseInt: reads ASCII digits only, with Python's whitespace around them. Python's `int` and `float` also accept other Unicode decimal digits, which the model rejects. A suffix of more than about 308 digits overflows `float` to infinity, so the source exits where the model accepts. A suffix `float` cannot read, such as `x`, an empty or blank suffix, or `2a`, raises an uncaught `ValueError` at the `float` call; the source's own exit is reached only for `inf`, `nan` or a non-integral number such as `2.5`. A suffix that `float` reads as an integer but `int` rejects, such as `2.0` or `1e2`, raises an uncaught `ValueError` at the `int` call. The model gives the bad-suffix error in every one of these cases; all of them stop the program.
- Repeated `Group` labels: team construction compares the shift total with the number of rows, while the solver has one variable per distinct group. With a repeated label the two differ, and an accepted schedule can leave a member with fewer shifts than their count (FeasibilityFacts.RepeatedGroupIdle). The lemmas that promise exact shift counts assume the total equals the number of variables.
- Group labels are text, compared by code point. When pandas reads the `Group` column as numbers, Python sorts them numerically, which changes which two-group entries come out unsorted in `extract_incompatible_combinations`.
- Floating point: ratios and scores are exact `real`s. The merge ranking sorts by the match count, which orders like the score because every score has the same denominator.
- Merge.Similarity: requires at least one row, because the source computes `0 / 0` (NaN) for an empty table. The ranking uses the match count and has no such requirement.
- Merge.ApplyFreshMerged: stated only for distinct headers and a merged name that is not already a header. Otherwise `df[name] = ...` overwrites an existing column. For that case the model states only that the column count does not rise (Merge.ApplyShrinks).
- Merge.MergeStep: recomputes the top ten from the current table for every answer. The source keeps the list of the last accepted merge. The two differ only after a rejected merge whose name overwrote an existing column.
- Merge.Run: stops when the answers run out. The source would keep prompting.
- Duplicate column labels in general: pandas would select or drop several columns under one label. Only the merge's upsert and drop by name model that.
- `zip` truncation: the assignment and the variable list have equal length by construction of the constraint call, so the model requires it.

## Findings

| source | as written | input that shows it | evidently intended | confidence | as-written member | corrected member |
|---|---|---|---|---|---|---|
| scheduler.py:197-198 | a time slot with exactly two groups is appended in table order, while the constraint looks up sorted pairs (line 291-292), so that entry never matches | groups `B`, `A` (in that order) both on Mon 9-11, one TA with two shifts holding both | sort the two-group case as the larger buckets are sorted, so the pair is forbidden | not executed | FeasibilityFacts.SimultaneousAccepted | FeasibilityFacts.NoSimultaneous |
| scheduler.py:317-318 | first-found mode divides by `plus1shift` without a guard | 17 groups, 17 TAs with one shift each and `required_columns` of 17 or more, so no merge: the first assignment passing the other checks raises `ZeroDivisionError` | skip the ratio floor when nobody has more than one shift, since then no one can hold a consecutive pair | not executed | FeasibilityFacts.ZeroDivisionWitness | FeasibilityFacts.GuardedNeverDivides |
| scheduler.py:420-421 | `count_consecutive` adds the counter key before `count_preference` walks the items, so the counter's integer is looked up as a person | any non-empty list of solutions, e.g. the one solution giving group `g` to a known TA | count both scores over the group entries only, as the practical script's order does | not executed | Ranking.CounterBreaksRanking | Ranking.ProcessSolutions |
