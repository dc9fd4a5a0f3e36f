# Vote app: ballot store and vote submission, modelled in Dafny

The vote app is a single-election tool. Employees pick up to three
coworkers they would most like to work with. HR views the top five and the
list of employees who have not voted yet, and can reset the ballot. Votes
live in one SQLite table, `votes(id, voter, candidate, created_at)`.

This project models:

- the ballot store, as a class `BallotStore.VoteTable`. Its state is the
  table's existence, its column set, its rows (a `seq` of `Votes.Row`) and
  the next AUTOINCREMENT id. Its methods are `init_db`, `add_votes` and
  `reset_votes`.
- the read-only queries, as functions over the row sequence:
  - `has_voted` is `Votes.HasVoted`;
  - `top_n` is `Tally.TopN`, built as group-by, rank sort and limit;
  - `not_voted_yet` is `Roster.NotVotedYet`.
- the vote tab's rules, in module `Voting`:
  - the candidate options offered to a voter;
  - the fixed-order check chain behind "Submit Vote" (`Decide`, `Submit`);
  - the configuration (`EMPLOYEES`, `FORBIDDEN_CANDIDATE`, `MAX_CHOICES`,
    `SHOW_TOP_N`) as an immutable `Settings` value.

Module layout:

- `string_order.dfy`: the code-point order on names and the sort `sorted` performs;
- `votes.dfy`: rows, `has_voted`, per-candidate counts, and what a batch of new rows does to them;
- `tally.dfy`: `top_n`;
- `roster.dfy`: the roster filter and `not_voted_yet`;
- `ballot_store.dfy`: the table object;
- `voting.dfy`: configuration, options and the submit handler.

Behaviour of the handler worth knowing:

- The handler checks, in this order: the forbidden name is chosen, then the
  voter has already voted, then the selection is empty. So an empty ballot
  from someone who already voted is reported as "already voted", not as
  "empty" (`Voting.EmptyBallotOutcome`).
- The handler itself has no self-vote check, no maximum-choices check and
  no roster-membership check. The widgets guarantee the first two: the
  option list leaves out the voter, and `max_selections` caps the count.
  `Voting.Submit` takes both as preconditions.
- There is no token mode and no used-token table.
- `reset_votes` deletes rows only. With AUTOINCREMENT, ids keep counting
  after a reset and restart at 1 only when `init_db` drops the table.

## Model

| member | source | states |
|---|---|---|
| `StringOrder.Less` | app.py:120 | the order of `candidate ASC` (SQLite BINARY collation) and of Python `sorted` on `str`: a proper prefix comes first, and otherwise the first character decides unless equal |
| `StringOrder.LessIrreflexive` | app.py:120 | no name sorts before itself |
| `StringOrder.LessAsymmetric` | app.py:120 | two names are never each before the other |
| `StringOrder.LessTransitive` | app.py:120 | the name order used by `candidate ASC` and by `sorted` is transitive |
| `StringOrder.LessTotal` | app.py:133 | any two different names are ordered one way or the other, so sorting leaves no ties |
| `StringOrder.SortNames` | app.py:133 | `sorted(...)` returns an ascending permutation (same multiset) of its input |
| `StringOrder.SortNamesKeepsAscending` | app.py:133 | sorting a list that is already ascending returns that list unchanged |
| `Votes.HasVoted` | app.py:93-99 | `has_voted(v)` is true exactly when some row has voter `v`: an existence test, not a count |
| `Votes.Voters` | app.py:130-131 | the set of distinct voters contains exactly the people for whom `has_voted` is true |
| `Votes.CountFor` | app.py:117-119 | the group's `COUNT(*)` equals how many times the candidate occurs in the candidate column |
| `Votes.BatchRows` | app.py:101-111 | the rows one `add_votes` call inserts carry the chosen candidates in the order given, all with this voter and one shared timestamp, with consecutive ids from the current counter |
| `Votes.CountAfterBatch` | app.py:101-111 | after `add_votes(v, cs)`, each candidate's count has grown by its number of occurrences in `cs`; all other counts stay the same |
| `Votes.VotedAfterBatch` | app.py:101-111 | after `add_votes(v, cs)`, a person has voted iff they had before, or they are `v` and `cs` is non-empty |
| `Votes.VotedPersists` | app.py:96 | adding rows never makes `has_voted` false again: "voted" is one-way until reset |
| `Tally.Dedup` | app.py:119 | the distinct values of a column contain each value once, and exactly the values that occur |
| `Tally.Groups` | app.py:117-119 | `GROUP BY candidate` yields one entry per candidate with at least one row, with its exact count; zero-vote candidates do not appear |
| `Tally.RankBefore` | app.py:120 | `ORDER BY cnt DESC, candidate ASC`: a higher count is listed first; names decide only between equal counts, ascending; no entry precedes itself |
| `Tally.RankAsymmetric` | app.py:120 | `ORDER BY cnt DESC, candidate ASC` never puts two entries each before the other |
| `Tally.RankTransitive` | app.py:120 | the ranking order is transitive |
| `Tally.RankTotal` | app.py:120 | any two different entries are ranked one way or the other |
| `Tally.InsertEntry` | app.py:120 | inserting into a ranked list keeps it ranked and adds exactly that entry |
| `Tally.RankSort` | app.py:120 | the ordering step returns a ranked permutation of the groups |
| `Tally.RankSortKeepsNamesDistinct` | app.py:119-120 | ordering the groups keeps their candidate names distinct |
| `Tally.RankedIsStrict` | app.py:120 | among entries with distinct names, each earlier entry ranks strictly before each later one |
| `Tally.Limit` | app.py:121 | `LIMIT n` keeps a prefix of the ordered rows of length at most `n`, shorter than the input only when cut at `n`; a negative `n` keeps everything |
| `Tally.TopN` | app.py:113-125 | `top_n(n)` returns at most `n` entries (no limit for negative `n`) with distinct candidates and exact counts of at least 1, sorted by count descending and then name ascending |
| `Tally.TopNOmitsOnlyLowerRanked` | app.py:116-122 | a candidate with votes is missing from `top_n(n)` only if exactly `n` entries were returned, and every returned entry ranks before it |
| `Tally.TopNOfEmptyTable` | app.py:113-125 | with no rows, `top_n` returns an empty list |
| `Tally.GroupsOfPair` | app.py:117-119 | one vote each for two different candidates groups into two entries of count 1 |
| `Tally.TopNOfPair` | app.py:113-125 | one vote each for two different candidates: `top_n(2)` lists both with count 1, the alphabetically first one first |
| `Tally.TieBrokenByName` | app.py:120 | a ballot naming `x` and `y` with `x` before `y` gives `top_n(2) == [(x,1), (y,1)]` in either order of the choices: equal counts are listed by name |
| `Roster.Without` | app.py:133 | the list filter keeps each roster name as often as it occurs unless that name is excluded |
| `Roster.WithoutNothing` | app.py:133 | filtering with nothing excluded returns the roster unchanged |
| `Roster.WithoutAppend` | app.py:156-159 | the filter works name by name and keeps roster order: filtering a concatenation is concatenating the filtered parts |
| `Roster.NotVotedYet` | app.py:127-133 | `not_voted_yet()` is ascending and holds exactly the roster members with no row, each as often as the roster lists them |
| `Roster.NotVotedYetOfEmptyTable` | app.py:127-133 | with no rows, `not_voted_yet()` is the whole roster, sorted |
| `BallotStore.VoteTable.Open` | app.py:56-60 | the store starts from whatever the database file holds: no table, or a table with some columns, rows and id counter |
| `BallotStore.VoteTable.InitDb` | app.py:62-91 | afterwards the table exists with every required column. A table already in that shape is left untouched, so a second call changes nothing. Otherwise every row is lost and ids restart at 1 |
| `BallotStore.VoteTable.AddVotes` | app.py:101-111 | appends exactly one row per candidate, in order, each with this voter and the same timestamp, with fresh increasing ids. Earlier rows are untouched |
| `BallotStore.VoteTable.ResetVotes` | app.py:135-140 | deletes every row; the id counter and the schema are kept |
| `Voting.DeployedConfiguration` | app.py:10-54 | the fixed settings: 39 employees, the banned name is one of them, at most 3 choices, top 5 shown, and the banned name is never among the options |
| `Voting.CandidateOptions` | app.py:156-159 | the options are exactly the roster members other than the voter and the forbidden name, each as often as listed |
| `Voting.Decide` | app.py:171-177 | a ballot is recorded exactly when it names no forbidden candidate, the voter has not voted and it is non-empty; the forbidden name is reported first, then already voted |
| `Voting.Submit` | app.py:170-179 | the outcome follows the fixed check order: forbidden name, then already voted, then empty selection. Only a recorded ballot changes the table, and it appends the `add_votes` rows. Any rejection leaves rows and id counter unchanged |
| `Voting.OptionsRuleOutForbiddenAndSelf` | app.py:156-171 | choices drawn from the offered options never trigger the forbidden-name rejection, never include the voter, and are all on the roster |
| `Voting.EmptyBallotOutcome` | app.py:171-176 | an empty ballot is reported as "already voted" to someone who has voted, and as empty otherwise |
| `Voting.RecordedVoterIsRejectedNext` | app.py:170-178 | after a recorded ballot, the same voter's next ballot is rejected. The rejection is forbidden-name if it names that candidate, otherwise already-voted |
| `Voting.RecordedBallotEffects` | app.py:170-178 | a recorded ballot marks the voter as voted and adds one vote per chosen candidate. It removes exactly the voter from `not_voted_yet` |
| `Voting.AfterReset` | app.py:135-140 | after a reset `top_n` is empty, nobody has voted, and `not_voted_yet` is the sorted roster |

## Left out

- Streamlit rendering is not modelled: the page, the tabs, the widgets, the messages, `st.session_state.reset_done` and `st.rerun`. It is presentation only.
- The HR password comparison and the reset confirmation checkbox are not modelled. They are UI gates in front of `top_n`, `not_voted_yet` and `reset_votes`, which are modelled.
- The SQLite connection lifecycle (`get_conn`, `commit`, `close`, `check_same_thread`) is not modelled, and neither are storage failures. The table is an in-memory sequence, and each operation happens as a whole.
- `PRAGMA table_info` is abstracted to a set of column names. Column types and constraints are not modelled.
- `time.time()` is not called. The timestamp is the parameter `now` of `AddVotes` and `Submit`.
- Concurrent submissions, and the check-then-insert race between them, are not modelled. The model is sequential.
- NULL values in `voter` or `candidate` are not modelled. The app never writes them.
- Tally.TopN: `n` is an unbounded integer. SQLite's 64-bit limit values are not modelled.
- BallotStore.VoteTable.AddVotes: ids come from a counter that only grows. This matches AUTOINCREMENT while the rows' ids stay below the counter, which `Valid()` keeps. SQLite's `sqlite_sequence` table is not modelled.
- Voting.CandidateOptions: its contract states which names are offered and how often. It does not state that roster order is kept; `Roster.WithoutAppend` states that for the underlying filter.
- The model does not prove that the concrete 39-name `EMPLOYEES` list is already alphabetical. `Voting.AfterReset` states only that `not_voted_yet` after a reset is the sorted roster.
- `SHOW_TOP_N`, `APP_TITLE`, `ADMIN_PASSWORD` and `DB_PATH` are used only by the UI. `SHOW_TOP_N` is kept as a `Settings` field.
