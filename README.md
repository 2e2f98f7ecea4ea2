# Schelling segregation model

This is a Dafny model of the simulation engine of `schelling_ABM.py`, an
agent-based Schelling segregation model. It covers:

- races and people;
- the neighbourhood happiness rule (`Person.is_happy`);
- the bordered housing grid (`Map.__init__`);
- the two full-grid sweeps (`check_happy`, `moving_time`);
- relocation of one person (`move_empty`);
- the early-termination test of the driver loop.

The files are organised as follows:

- `outcomes.dfy` (module `Outcomes`) holds `Option` and `Result`, the faults the program can raise, and per-round figures. `Rate` is the division by `people_cnt`.
- `population.dfy` (module `Population`) holds the slot vector that `Map.__init__` builds before shuffling. That is `int(p_races[i] * width * height)` new people per race, then `int(p_empty * width * height)` empty houses. It also holds the exceptions raised when the vector cannot be built or reshaped.
- `agents.dfy` (module `Agents`) holds the `Race` and `Person` classes, and the eight-offset neighbourhood. It defines the happiness rule two ways: as a function (`Verdict`, `HappyAt`), and as the counting loop of `is_happy` (`Person.IsHappy`), which is proved to compute that function.
- `grid.dfy` (module `Grid`) holds the `Map` class. Its fields are:
  - the padded `(height+2) x (width+2)` array `houses`;
  - the list `empties`;
  - a ghost map `Home` from each person to their house.

  Its invariant `Valid()` states the following:
  - the sentinel ring is empty;
  - `empties` lists every interior empty house exactly once, and nothing else;
  - every person lives in exactly one interior house, which `Home` records.

  The constructor establishes `Valid()`, and `check_happy`, `moving_time` and `move_empty` preserve it.
- `sweeps.dfy` (module `Sweeps`) holds the row-major order of the sweeps and the log of the relocations made by `moving_time`. A `Move` records who left which house for which. `Lawful` says each logged move goes from the mover's current house to a vacant other house. `Replay` gives the homes after the logged moves. `Movers` is the set of people moved. `Swept` says a log is that of one whole sweep. Its moves leave houses in strictly increasing row-major order, so there are at most `width * height` of them. Each is made by a person whose flag was not True. Every such person leaves their starting house. A person moved to a house the sweep has not reached yet leaves that house again when the sweep gets there. Given the houses drawn, these are exactly the moves the sweep makes.
- `driver.dfy` (module `Driver`) holds the stopping rule of lines 186-196 and the driver loop of lines 167-196.

Randomness is supplied from outside:

- The shuffle of the slot vector (line 72) is a permutation parameter `perm`.
- The empty house drawn by `move_empty` (line 117) is a nondeterministic choice among the entries of `empties`. Every statement about `move_empty` therefore holds whichever house is drawn.

Python exceptions are `Err` results:

- `MissingProportion`: `p_races` is shorter than `races`.
- `ShapeMismatch`: `reshape` fails.
- `NoVacancy`: `move_empty` runs with no empty house.
- `ZeroPopulation`: `people_cnt` is zero.

`moving_time` (lines 103-110) works on the live grid. Nothing is copied before people move, neither the grid nor the flags. A person moved to a house later in the row-major sweep is met again and, since their flag is still not True, moved again. The test at line 107 is `not(thisperson.happy)`, so a person whose flag is still `None` moves, as does one whose flag is `False`.

## Model

| member | source | states |
|---|---|---|
| Outcomes.Rate | schelling_ABM.py:96 | `count / people_cnt` fails exactly when `people_cnt` is zero (ZeroPopulation); otherwise the fraction times `people_cnt` is the count |
| Population.Share | schelling_ABM.py:63-69 | `int(p * n)`, used for each race's head count and for the number of empty houses, is the floor of a non-negative product; a product below one, negative ones included, gives no entries |
| Population.RaceSlots | schelling_ABM.py:61-67 | every entry of the people part is a slot for a person of one of the races created so far |
| Population.RaceSlotsLength | schelling_ABM.py:61-67 | the people part is as long as the sum of the per-race shares |
| Population.RaceCensus | schelling_ABM.py:61-67 | race `i` gets exactly `int(p_races[i] * width * height)` people, and no other race index occurs |
| Population.Layout | schelling_ABM.py:57-75 | fails with MissingProportion exactly when `p_races` has fewer entries than `races`; succeeds exactly when people plus empties tile `width * height`; a success has `width * height` slots whose races are in range |
| Population.LayoutCensus | schelling_ABM.py:61-69 | a successful layout has `int(p_races[i] * n)` people of race `i` and `int(p_empty * n)` empty slots |
| Agents.Race.constructor | schelling_ABM.py:17-21 | a race keeps the name, plot colour and similarity preference it was given |
| Agents.Person.constructor | schelling_ABM.py:25-28 | a new person has the given race and a `happy` flag of None |
| Agents.Person.IsHappy | schelling_ABM.py:29-42 | the counting loop returns the verdict of the happiness rule on the eight neighbours of `loc` and stores it in `happy` |
| Agents.NeighbourCell | schelling_ABM.py:31 | every offset reaches a cell adjacent to `loc` and different from it |
| Agents.NeighbourInArray | schelling_ABM.py:33-34 | for a location at least one cell inside the padded array, all eight neighbour lookups are in range |
| Agents.MooreNeighbourhood | schelling_ABM.py:31 | the offsets reach exactly the eight cells around `loc`, each by exactly one offset |
| Agents.NeighbourhoodAt | schelling_ABM.py:33-34 | entry `k` of the neighbourhood is the occupant of the `k`-th neighbour |
| Agents.TallyStep | schelling_ABM.py:33-36 | adding one neighbour adds one to the similar count (same race object), one to the different count (other race), or nothing (vacant) |
| Agents.TallyCounts | schelling_ABM.py:30-36 | the tally counts exactly the neighbour positions holding a different-race and a same-race occupant, with race equality by object identity |
| Agents.TallyBound | schelling_ABM.py:30-36 | similar plus different never exceeds the number of neighbours, eight |
| Agents.TallyOfVacant | schelling_ABM.py:35 | a neighbourhood of vacant houses counts nobody |
| Agents.Verdict | schelling_ABM.py:38-41 | the decision of `is_happy` from the tally: only someone with at least one counted neighbour can be happy (its division-free reading is `Agents.VerdictByProduct`) |
| Agents.HappyAt | schelling_ABM.py:29-41 | `is_happy` at a house: happy only when the tally of the eight neighbours counts someone |
| Agents.VerdictByProduct | schelling_ABM.py:38-41 | happy exactly when someone is counted and `similar >= simil_pref * (similar + different)` |
| Agents.IsolatedIsUnhappy | schelling_ABM.py:38-39 | a person with no occupied neighbour is unhappy |
| Agents.TieIsHappy | schelling_ABM.py:41 | a similar fraction exactly equal to `simil_pref` is happy |
| Agents.HomogeneousIsHappy | schelling_ABM.py:41 | with only same-race neighbours a person is happy exactly when `simil_pref <= 1` |
| Agents.MoreSimilarStaysHappy | schelling_ABM.py:41 | one more same-race neighbour never makes a happy person unhappy |
| Agents.FewerDifferentStaysHappy | schelling_ABM.py:41 | one fewer other-race neighbour never makes a happy person unhappy, while a same-race neighbour remains |
| Agents.IsolationOverridesPreference | schelling_ABM.py:38-41 | an isolated person is unhappy whatever `simil_pref` is, while anyone with at least one occupied neighbour and `simil_pref <= 0` is happy, whatever the neighbours' races |
| Grid.SlotInjective | schelling_ABM.py:75 | the reshape sends distinct interior houses to distinct slots |
| Grid.Placed | schelling_ABM.py:73-75 | the sentinel ring of the padded array is empty, and interior house `(r, c)` takes the in-range slot `(r-1) * width + (c-1)` of the reshaped vector |
| Grid.FirstIndex | schelling_ABM.py:118 | the index found holds `x` and no earlier index does |
| Grid.RemoveFirst | schelling_ABM.py:118 | `list.remove` shortens the list by one and removes one copy of `x` from its multiset |
| Grid.RemoveFirstAt | schelling_ABM.py:118 | removing the element at its first occurrence drops exactly that index |
| Grid.Shuffle | schelling_ABM.py:72 | the shuffled vector is a rearrangement of the original (the same multiset of entries), holding at position `j` the entry `perm[j]` |
| Grid.PermutedMultiset | schelling_ABM.py:72 | reading a sequence through a permutation of its positions yields the same multiset |
| Grid.DealtCensus | schelling_ABM.py:61-75 | after the shuffle there are still `int(p_races[i] * n)` slots of race `i` and `int(p_empty * n)` empty slots |
| Grid.VacanciesOfDeal | schelling_ABM.py:69-72 | a vector ending in `e` empty slots, with no other empty slot, still has `e` empty slots after the shuffle |
| Grid.VacanciesCount | schelling_ABM.py:69-72 | counting the empty slots one by one agrees with their multiplicity in the vector |
| Grid.PlacedResident | schelling_ABM.py:71-75 | every interior house of the reshaped grid holds what its shuffled slot says: nobody for an empty slot, a person of race `i` for slot `i` |
| Grid.PlacedUnshared | schelling_ABM.py:71-75 | after shuffle and reshape no person occupies two houses |
| Grid.CreateRace | schelling_ABM.py:64-66 | `rcnt` new, pairwise distinct people of the race, each with flag None |
| Grid.CreatePeople | schelling_ABM.py:61-67 | the people part has one new person per people slot of the layout, of that slot's race, each appearing once |
| Grid.SlotVector | schelling_ABM.py:61-69 | the people of each race followed by `int(p_empty * n)` empty slots, slot for slot of the layout: empty exactly in the last `int(p_empty * n)` places, every person new, unflagged and appearing once |
| Grid.Populate | schelling_ABM.py:57-75 | a new padded array of the right size that is the shuffled vector reshaped inside an empty ring; that vector has `int(p_empty * n)` empty slots; the interior matches the shuffled layout; every person is new, unflagged and in one house only |
| Grid.Survey | schelling_ABM.py:77-81 | `empties` lists in row-major order exactly the interior houses that are empty, one entry per empty slot of the reshaped vector; every occupant is recorded at their one house |
| Grid.SurveyRow | schelling_ABM.py:79-81 | one row of the recording loop extends the record by exactly that row, and the count of entries by that row's empty slots |
| Grid.SurveyCell | schelling_ABM.py:80-81 | one house of the recording loop: an empty house is appended to `empties`, an occupied one records its occupant |
| Grid.TalliedVacant | schelling_ABM.py:80-81 | appending an empty house keeps `empties` one entry per empty slot passed |
| Grid.TalliedOccupied | schelling_ABM.py:80-81 | passing an occupied house leaves the count of empty slots passed unchanged |
| Grid.TalliedAll | schelling_ABM.py:77-81 | after the last row the count of `empties` equals the number of empty slots in the whole vector |
| Grid.Map.constructor | schelling_ABM.py:47-81 | the new map satisfies `Valid()`; stores the dimensions, races and `people_cnt = width * height * (1 - p_empty)`; matches the shuffled layout house by house; has `int(p_empty * n)` empty houses, listed in row-major order, and the other `n - len(empties)` houses, the total of the per-race shares, occupied; every person is new and unflagged |
| Grid.NewMap | schelling_ABM.py:47-81 | fails exactly when the layout fails, with the same fault; otherwise a new map with everything the constructor promises |
| Grid.Map.MoveEmpty | schelling_ABM.py:112-123 | with no empty house fails and changes nothing; otherwise the destination comes from `empties` and is not the origin; `empties` loses the destination and gains the origin at the end, with its length unchanged; the origin becomes empty, the destination holds the person, every other house is unchanged, and `Valid()` is kept |
| Grid.Map.Relocate | schelling_ABM.py:118-123 | the state change of `move_empty` once index `k` of `empties` is drawn |
| Grid.Map.MoveKeepsBorder | schelling_ABM.py:122-123 | a relocation leaves the sentinel ring empty |
| Grid.Map.MoveKeepsEmpties | schelling_ABM.py:118-123 | after a relocation `empties` is again exactly the interior empty houses, each once |
| Grid.Map.MoveKeepsHomes | schelling_ABM.py:122-123 | after a relocation every person again lives in exactly one house |
| Grid.Map.CheckHappy | schelling_ABM.py:85-96 | every person's flag becomes the rule's verdict at their house (`FlagsCurrent`); the count is the number of people for whom it holds, at most the number of people; the fraction is count over `people_cnt`, failing exactly when that is zero |
| Grid.Map.CheckRow | schelling_ABM.py:91-95 | a row of the sweep extends the recorded verdicts by that row's occupants and the count by their approvals |
| Grid.Map.Visit | schelling_ABM.py:93-95 | one house: its occupant's flag becomes the rule's verdict there, and nobody moves |
| Grid.Map.JudgedAll | schelling_ABM.py:90-96 | once all rows are swept, every person has been judged and the approvals are exactly the happy people |
| Grid.Map.MovingTime | schelling_ABM.py:97-111 | `Valid()`, the set of people and the number of empty houses are kept. It fails with NoVacancy exactly when there is no empty house and someone wants to move. The count is zero exactly when every flag was True, in which case `houses` and `empties` are unchanged. People whose flag was True keep their house. On success a lawful log of moves replays the old homes to the new ones, and it is the log of one whole sweep (`Swept`). Its moves start from houses in strictly increasing row-major order, each made by a person whose flag was not True. Each such person leaves their starting house. A person moved to a house ahead of the sweep leaves it again when the sweep gets there. The count is the number of logged moves, at most `width * height`. The people moved are exactly those whose flag was not True, so the count is at least their number. The fraction is count over `people_cnt` |
| Grid.Map.Sweep | schelling_ABM.py:103-110 | the two loops: `Valid()` is kept. It is stuck only when there was no empty house and someone wanted to move, and then nothing changed. Otherwise the log is that of the sweep over the whole grid: moves leave houses in strictly increasing row-major order, everybody whose flag was not True has left their starting house, everybody moved ahead of the sweep has left again, nobody else has moved, and the count is the number of logged moves |
| Grid.Map.MoveRow | schelling_ABM.py:104-110 | one row of the sweep: `Valid()` is kept; stuck as for `Grid.Map.Sweep`; otherwise the log keeps its earlier moves and gains only moves from houses of that row. It then reaches the end of the row: every person whose starting house is in the row and whose flag was not True has left it, and so has everybody moved ahead of the sweep into the row. The count is still the number of logged moves |
| Grid.Map.Attend | schelling_ABM.py:105-110 | one house. When the count goes up by one, the house held a person whose flag was not True; that person now lives in a house that was in `empties`, the house is empty, nobody else changed house, and the log gains that move. When the count stays, nothing changed, and an occupant left in place has flag True unless the sweep is stuck. Stuck means there was no empty house and someone wanted to move. The log gains at most one move, from that house, and no flag changes |
| Sweeps.MoversBound | schelling_ABM.py:107-110 | a person moved several times is one mover, so there are never more movers than moves |
| Sweeps.LogStep | schelling_ABM.py:112-123 | appending a move from the mover's current house to a vacant other house keeps the log lawful, moves that person in the replayed homes, adds them to the movers and adds their departure from the old house |
| Sweeps.LogStart | schelling_ABM.py:102-103 | before the sweep the empty log accounts for the homes |
| Sweeps.LogStuck | schelling_ABM.py:117 | with no empty house at the start nobody has moved and nothing has changed |
| Sweeps.LogMove | schelling_ABM.py:105-110 | moving the occupant of house `(r+1, c+1)`, whose flag is not True, to a vacant house extends the log by a move from a house later than every earlier move's. Then everybody whose flag is not True and whose starting house comes up to and including that one has left it. Everybody moved into a house up to that one has left it again |
| Sweeps.LogStay | schelling_ABM.py:105-107 | passing a house that is empty, or whose occupant has flag True, keeps the log sound and complete one house further on |
| Sweeps.LogKeepsContent | schelling_ABM.py:107 | by the log, nobody whose flag was True has changed house |
| Sweeps.LogRow | schelling_ABM.py:103-104 | the end of one row of the sweep is the start of the next |
| Sweeps.SweepDone | schelling_ABM.py:103-110 | after the whole sweep the log is that of one whole sweep (`Swept`), with at most `width * height` moves. The movers are exactly the people whose flag was not True, and there are at least as many moves as such people. Those with flag True keep their house. The log is empty exactly when every flag was True, and then every home is unchanged |
| Sweeps.DepartureMover | schelling_ABM.py:107-110 | a person with a logged departure is one of the movers |
| Sweeps.Unmoved | schelling_ABM.py:105-110 | a person the log never moves is still in their starting house |
| Sweeps.FirstDeparture | schelling_ABM.py:112-123 | in a lawful log a mover's first move leaves their starting house |
| Sweeps.Arrived | schelling_ABM.py:112-123 | a person who never leaves the destination of one of their moves lives there at the end |
| Sweeps.PassStart | schelling_ABM.py:104-107 | passing house `(r+1, c+1)`: everybody whose flag is not True and whose starting house the sweep has passed has left it, except the occupant at hand, who is still at home |
| Sweeps.PassArrivals | schelling_ABM.py:104-107 | passing house `(r+1, c+1)`: everybody moved ahead of the sweep into a house it has now passed has left that house again, except the occupant at hand |
| Sweeps.TracedMove | schelling_ABM.py:105-110 | moving the occupant of house `(r+1, c+1)`, whose flag is not True, to a vacant interior house keeps the log sound one house further on: lawful, replaying to the new homes, each move by a person whose flag was not True from a passed interior house to an interior house, starting houses in strictly increasing row-major order. It adds one departure |
| Sweeps.CompleteMove | schelling_ABM.py:105-110 | moving the occupant of house `(r+1, c+1)` keeps the log complete one house further on |
| Sweeps.RowMovesStep | schelling_ABM.py:104-110 | one house of row `r` keeps the earlier moves and adds at most one move, which starts in that row |
| Sweeps.SlotInRange | schelling_ABM.py:75 | interior house `(r, c)` has a slot of the `width * height` vector |
| Sweeps.SlotOrder | schelling_ABM.py:103-104 | a house later in the row-major sweep has a later slot |
| Sweeps.Ordered | schelling_ABM.py:103-110 | moves whose starting houses increase from one move to the next increase pairwise, and there are at most `width * height` of them |
| Sweeps.SweptAll | schelling_ABM.py:103-110 | once the sweep has passed the last row, the log is that of one whole sweep (`Swept`), with at most `width * height` moves |
| Grid.Map.SameHomesSameGrid | schelling_ABM.py:105-110 | under `Valid()`, unchanged homes mean an unchanged grid |
| Driver.Trailing | schelling_ABM.py:192-193 | `xs[-10:]`: the last `min(10, len(xs))` entries, in order |
| Driver.MaxDeviation | schelling_ABM.py:192 | the maximum bounds every deviation from the latest happy fraction in the window and is one of them |
| Driver.SumBoundsEach | schelling_ABM.py:193 | a sum of non-negative move fractions bounds each of them |
| Driver.SumOfZeros | schelling_ABM.py:193 | a window with no movement sums to zero |
| Driver.Sum | schelling_ABM.py:193 | `sum(moves[-10:])` is never negative when no move fraction is |
| Driver.Plateau | schelling_ABM.py:192-193 | holds exactly when every happy fraction in the window is within `convgcrit_h` of the latest and the window's move fractions sum to at most `convgcrit_m` |
| Driver.ShouldStop | schelling_ABM.py:186-196 | stop exactly when the latest happy fraction is 1, or there are more than ten rounds, every one of the last ten happy fractions is within `convgcrit_h` of the latest and the last ten move fractions sum to at most `convgcrit_m`; up to ten rounds only the first case stops |
| Driver.WindowByIndex | schelling_ABM.py:192 | the deviation test over `happies[-10:]` is the same test over the last ten indices of `happies` |
| Driver.FrozenRunStops | schelling_ABM.py:186-196 | after more than ten rounds, a run whose last ten happy fractions are equal and with no movement stops, whatever non-negative criteria are used |
| Driver.PlateauBoundsMoves | schelling_ABM.py:193 | on a plateau each trailing move fraction is at most `convgcrit_m` |
| Driver.NoEarlierStopStep | schelling_ABM.py:174-196 | appending a round after one that did not stop keeps "no earlier round stopped" |
| Driver.CountedStep | schelling_ABM.py:96 | appending `count / people_cnt` keeps every recorded fraction a whole number of people over `people_cnt` |
| Driver.CountedNonNegative | schelling_ABM.py:111 | with a positive `people_cnt` no recorded fraction is negative, as `Driver.PlateauBoundsMoves` asks |
| Driver.RecordKeeps | schelling_ABM.py:178-179 | appending a round keeps the earlier entries, puts the round's two fractions last, keeps every fraction a count of people and keeps "no earlier round stopped"; the move fraction is zero exactly when nobody moved |
| Driver.Assess | schelling_ABM.py:167 | every flag is the rule's verdict at the person's house; the count is the number of happy people and the fraction is count over `people_cnt`, failing exactly when that is zero |
| Driver.PlayRound | schelling_ABM.py:176-179 | `moving_time` then `check_happy`. It fails exactly when there is no empty house and someone wants to move. The number of empty houses is the same afterwards. The moved count is zero exactly when everybody's flag was True. Afterwards every flag is the current verdict and the happy count is the number of happy people. The moved count is the length of a lawful log of moves from the old homes to the new. That log is the log of one whole sweep (`Swept`), whose movers are exactly the people whose flag was not True. The count is at most `width * height`. Both fractions are over `people_cnt` |
| Driver.Step | schelling_ABM.py:176-196 | one round fails exactly when there is no empty house and someone wants to move, and keeps the number of empty houses. Otherwise it extends both histories by one entry and keeps the earlier entries. Every flag is then the current verdict; the recorded happy fraction is the current happy people over `people_cnt`; the recorded move fraction is zero exactly when every flag was True; every fraction is a whole number of people over `people_cnt`; the recorded move fraction is the number of moves in a lawful log of the round over `people_cnt`; that log is the log of one whole sweep (`Swept`), with at most `width * height` moves, and the people moved are exactly those whose flag was not True; `stop` is exactly the exit test |
| Driver.Simulate | schelling_ABM.py:174-196 | fails only when the map has no empty house, so with one empty house the run completes; the number of empty houses never changes. At most `MCmaxsims` rounds are played and no round before the last met the exit test; a run shorter than `MCmaxsims` ends on a round that met it; at the end every flag is the current verdict and the last happy fraction is the current happy people over `people_cnt`; every recorded fraction is a whole number of people over `people_cnt` |
| Driver.Run | schelling_ABM.py:167-196 | the initial `check_happy`, then the loop. The only faults are ZeroPopulation and NoVacancy. ZeroPopulation occurs only when `people_cnt` is zero, and a zero `people_cnt` always fails. NoVacancy occurs only when the map has no empty house, so a map with an empty house and a non-zero `people_cnt` always completes the run. The number of empty houses never changes. The histories obey the exit rule, so without an early exit exactly `MCmaxsims` rounds are played. At the end every flag is the current verdict, the last happy fraction is the current happy people over `people_cnt`, and every recorded fraction is a whole number of people over `people_cnt` |

## Left out

- Plotting: `Map.Plot` and all matplotlib calls have no effect on the simulation state.
- `print` narration in the driver, and the two `__repr__` methods: printing is not modelled.
- The NumPy random generator. The shuffle is a given permutation, and the drawn empty house is an arbitrary entry of `empties`. The uniform distribution is not modelled.
- Floating-point arithmetic. Fractions, `simil_pref`, `people_cnt` and the convergence criteria are exact reals. The division in `is_happy` (line 41) and in the round fractions is read as true division, as in Python 3. Under Python 2 the int-by-int division at line 41 would floor; that reading is not modelled.
- Population.Share: `int(p * n)` is the floor of the exact product rather than of a float product, so a float rounding a product just below an integer is not captured.
- The concrete configuration at lines 147-160 (four races, a 50 x 50 grid, the proportions, `MCmaxsims = 1000` and the two criteria) is not fixed. These values are parameters of `Grid.NewMap` and `Driver.Run`.
- The bitwise `&` at line 192 is modelled as a conjunction; on two booleans the two agree.
- Driver.Run: relates only the last recorded happy fraction to the map, since earlier maps are gone by the end of the run. Each earlier entry is stated only to be a whole number of people over `people_cnt`. `Driver.Step` states the exact relation for the round it plays.
- Driver.Simulate: as for `Driver.Run`.
- Grid.Map.constructor: the per-race census is stated through the shuffled layout: each house matches its slot, and `Grid.DealtCensus` counts the slots. It is not stated as a count of `Person` objects per `Race` object, because `races` may list the same `Race` object twice.
- Grid.NewMap: as for `Grid.Map.constructor`.
- Grid.Map.MovingTime: the count is stated as the length of the log of one whole sweep (`Swept`), between the number of people whose flag was not True and `width * height`. It is not stated as a number computed from the starting grid alone. A person moved to a house later in the sweep is met again and moved again. Whether that happens depends on the house `move_empty` draws, which the model leaves as a free choice. Given the drawn houses, the log is exactly the sequence of moves the sweep makes.
