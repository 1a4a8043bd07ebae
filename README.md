# DogApp core in Dafny

A model of the logic of the "Dog Name or Human Name?" quiz (`app.py`):

- the dog-licence name filter;
- the data pipeline of `load_and_process_data`: dogs counted per birth year and per
  (year, name), human registry rows from 1991 on annotated with their year's total,
  the inner join on (year, name) kept from 2000 on, and the per-name totals;
- the two angle classifiers and the angle difference;
- the quiz session kept in the per-browser session state: new round, guess
  recording, submit (with its scoring loop) and next set.

Modules, one per component:

- `Wrappers` (`wrappers.dfy`) holds `Option`.
- `GroupBy` (`groupby.dfy`) is the pandas group-by, written once. It folds rows into one group per key, in order of first occurrence. Each group holds its row count and two column sums. It is proved against key-by-key reference sums.
- `DogNames` (`dog_names.dfy`) is the row mask at lines 29-35.
- `Dogginess` (`dogginess.dfy`) holds `classify_dogginess_tot`, `classify_dogginess_prop` and `angle_diff`.
- `Pipeline` (`pipeline.dfy`) holds `dogs_by_year`, `human_names`, `cross`, `check_corr` and the whole of `load_and_process_data` after loading.
- `Quiz` (`quiz.dfy`) holds the scoring loop as a method proved against a counting function, and the session as a class whose methods update its fields.

Two consequences of the code are worth stating:

- Registry rows that share a (year, name) are not summed (app.py:48-57). Such rows come one per gender. Each one joins the same dog row, so that dog row is counted once per human row in `dogs_tot` (`Pipeline.DogCountedPerHumanRow`).
- "Next set" is offered in both states: the button at app.py:226 is outside the `if` at app.py:200 that chooses between submit and answers shown.

## Model

| member | source | states |
|---|---|---|
| DogNames.KeepIff | app.py:29-35 | a licence row survives iff its name is non-null, is not one of the eight exact case-sensitive placeholder tokens, and has no character outside `[a-zA-Z-]` |
| DogNames.ContainsBadCharIff | app.py:34 | the regular-expression search for `[^a-zA-Z\-]` matches iff some character of the name is outside the class |
| DogNames.EmptyNameKept | app.py:34 | the empty name passes the filter, since the test is "contains a bad character" |
| DogNames.CaseSensitive | app.py:29-32 | the exclusion list compares exactly: "Unknown" survives, "UNKNOWN" does not |
| DogNames.FilterDogs | app.py:31-35 | filtering never adds rows, and every surviving name satisfies the name invariant |
| DogNames.FilterDogsMultiplicity | app.py:31-35 | each licence whose name passes the mask occurs in the filtered table exactly as many times as its row occurs in the input; a licence whose name fails never occurs |
| DogNames.FilterDogsMembers | app.py:31-35 | a (year, name) licence is in the filtered table iff there is an input row with that year and name that passes the mask |
| GroupBy.AggregateCorrect | app.py:41-43 | grouping yields exactly one group per distinct key present in the rows, and no other group; each group carries the number of rows with its key and the sums of both value columns over those rows |
| GroupBy.AggregatePartition | app.py:66-72 | over the groups whose key satisfies any predicate, the summed size and column sums equal what the rows with such keys contribute |
| Pipeline.DogsByYearCorrect | app.py:37-43 | each `dogs_by_year` row has `dogs_in_year` = number of filtered licences of its year and `dogs` = number with its (year, name), which is positive; (year, name) pairs are distinct; a pair has a row iff some filtered licence has it; per year, the `dogs` counts sum to `dogs_in_year` |
| Pipeline.UpperNormal | app.py:52 | an uppercased name has no lower-case letter, and uppercasing is idempotent |
| Pipeline.HumanNamesCorrect | app.py:48-57 | every registry row from 1991 on is kept exactly as often as it occurs, with `people` = its own V5, name = upper(V4) and `people_in_year` = the sum of V5 over all rows of its year; rows before 1991 are dropped |
| Pipeline.HumanYearTotals | app.py:48-51 | per year from 1991 on, the `people` of `human_names` sum to that year's registry total; earlier years have no rows |
| Pipeline.CrossMembers | app.py:60-63 | the inner join has one row per matching (human row, dog row) pair, and a row is in `cross` iff its year is at least 2000 and it combines a human row and a dog row with equal (year, name) |
| Pipeline.CrossPerHuman | app.py:60-63 | against the pipeline's dog counts, `cross` holds, for each human row from 2000 on in order, exactly one row carrying that (year, name)'s dog counts when a surviving licence of that year and name exists, and none otherwise |
| Pipeline.LowercaseNeverJoins | app.py:52 | since only human names are uppercased, a dog name containing a lower-case letter never appears in `cross` |
| Pipeline.TotalsCorrect | app.py:66-72 | `check_corr` has exactly one row per distinct joined name; `people_tot` and `dogs_tot` are the sums of `people` and `dogs` over that name's joined rows; the grand totals equal those of `cross` |
| Pipeline.DogCountedPerHumanRow | app.py:48-72 | two registry rows "Max"/"MAX" of 2005 (one per gender) and one licence MAX of 2005 give the single totals row (MAX, 10, 2): the one dog is counted twice |
| Pipeline.CheckCorr | app.py:96-98 | each verdict keeps its totals row and the two given angles, is labelled by the two classifiers applied to those angles, and records their absolute difference |
| Pipeline.LoadAndProcessNames | app.py:28-72 | the final dataset has one verdict per name, and a name is in it iff some `human_names` row from 2000 on has that name and a surviving licence of that birth year has exactly that name |
| Dogginess.ClassifyDogginessTot | app.py:80-86 | every integer angle gets one of the three labels: 0..34 gives the first, 35..55 the middle one, and negative angles or angles above 55 the third, in both directions |
| Dogginess.ClassifyDogginessProp | app.py:88-94 | the same three ranges give "Dog", "Could be either" and "Human", in both directions |
| Dogginess.ClassifiersAgree | app.py:80-94 | the two classifiers put every angle in the same bucket |
| Dogginess.AngleDiff | app.py:98 | the difference is non-negative and equals `a - b` or `b - a` |
| Dogginess.AngleDiffSymmetric | app.py:98 | the difference is symmetric, and zero exactly when the angles are equal |
| Quiz.ScoreRound | app.py:203-217 | the submit loop's `correct_count` is the number of slots 0..11 whose guess is present, non-empty and equal to the row's `dogginess_prop`; its writes are one per present guess, and only when a client exists |
| Quiz.CorrectCountBound | app.py:203-217 | a round scores at most one point per slot, so at most 12 |
| Quiz.PerfectRound | app.py:205-217 | guessing every slot's `dogginess_prop` scores every slot |
| Quiz.NoGuessesScoreZero | app.py:206-207 | a missing guess counts as incorrect: with no guesses the round scores zero |
| Quiz.AttemptsAgreeWithScore | app.py:106-117 | without a client nothing is written; each write carries the session id and `is_correct == (guess == correct_answer)`; the writes marked correct are as many as the slots the score counts |
| Quiz.Sample | app.py:158 | the sample has 12 rows, row i being the table row at the i-th chosen position |
| Quiz.Session.constructor | app.py:131-140 | a new session holds the given id, no sample, score 0/0, answers hidden and no guesses |
| Quiz.Session.StartRoundIfNeeded | app.py:156-160 | with no sample held, draws the chosen 12 rows, hides the answers and clears the guesses (fails, changing nothing, on fewer than 12 rows); with a sample held, changes nothing; the score never changes |
| Quiz.Session.RecordGuesses | app.py:171-183 | after the render loop the guesses are exactly the 12 radio selections; sample, score and flag are unchanged |
| Quiz.Session.Submit | app.py:200-222 | only while answers are hidden: adds the round's correct-slot count to `correct` and 12 to `total`, sets `show_answers`, keeps sample and guesses, and preserves `correct <= total` |
| Quiz.Session.NextSet | app.py:226-230 | in either state: clears the sample and the guesses, hides the answers, keeps the score |
| Quiz.NextSetAndRerun | app.py:156-160 | "next set" followed by the rerun it triggers gives a fresh sample, answers hidden, no guesses and an unchanged score |

`Quiz.Session.userId` is a constant field. It is set once by the constructor (app.py:131-132), so no method can change it.

## Left out

- Reading the two CSV files and naming their columns (app.py:21-26) is file I/O. The tables are parameters.
- Both angles are computed in floating point (app.py:74-77): arctan2, degrees and `np.round`. So are the proportions `dog_prop` and `human_prop` and the normalised shares (app.py:45, 53, 75-76). None of these is modelled. `Pipeline.CheckCorr` takes each name's two rounded angles from a caller-supplied function of its totals row. `dog_angle_prop` also divides by the column sums `dogs_tot.sum()` and `people_tot.sum()` over the whole table (app.py:75-77), so a faithful `angles` function has to close over the whole totals table. The claim that angles lie in [0, 90] is therefore not stated.
- `data.sample(12)` is random (app.py:158). The caller supplies the choice of 12 distinct row positions.
- The user id comes from `uuid4`, which is nondeterministic (app.py:132). The constructor takes it as a parameter. The write's timestamp from `datetime.now()` is not modelled.
- The database client and its insert are a remote call (app.py:12-16, 106-121). They are modelled only as the list of writes the submit loop attempts. Whether a write succeeds never affects the session state.
- Streamlit rendering, caching (`st.cache_data`, `st.cache_resource`), `st.rerun` and the per-slot answer display are left out (app.py:124-129, 164-170, 184-198). The guess-recording loop inside that rendering (app.py:171-183) is modelled by `Quiz.Session.RecordGuesses`. The rerun is modelled only by calling the next transition, as in `Quiz.NextSetAndRerun`.
- A run may stop when the data fails to load (app.py:143-147). This is left out because the pipeline is modelled on given tables.
- Group-by output order: pandas sorts group keys. `GroupBy.Aggregate` lists groups in order of their key's first occurrence, and the model keeps `human_names` in input order rather than grouped by year. Nothing downstream depends on row order: the join matches on keys, the totals are summed per name, and the quiz samples at random.
- Pipeline.UpperNormal: `str.upper` is modelled on ASCII letters only. Other characters are kept as they are, so Unicode case mappings such as "ß" to "SS" are not modelled.
- Null names: `Keep` rejects a name missing after loading. `read_csv`'s default NA parsing (app.py:22) already turns name cells such as "NA", "None", "null", "nan" and "NULL" into missing values, so those dogs are dropped by `notna()` (app.py:33). The model receives the parsed table and does not model that parsing.
- Birth years and registry years are integers. Rows whose year is missing (pandas drops them from a group-by) are not modelled.
