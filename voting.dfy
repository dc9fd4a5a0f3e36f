/**
 * The voting workflow: the fixed configuration, the candidate list offered
 * to a voter, and the handler behind the "Submit Vote" button.
 */
module Voting {
  import opened StringOrder
  import opened Votes
  import opened Tally
  import opened Roster
  import opened BallotStore

  /** The configuration fixed at start-up and never changed afterwards. */
  datatype Settings = Settings(roster: seq<string>, forbidden: string, maxChoices: nat, showTopN: int)

  const Employees: seq<string> := [
    "Apisit Wisai",
    "Areerat Tippayawong",
    "Athiwat Khamnon",
    "Atthaphon Kajitpongpanich",
    "Aunyamanee Pukkaew",
    "Bussaraporn Daungin",
    "Jirapong Nanta",
    "Kamonrat Sangkeiwrat",
    "Kronpongsakon Kronkum",
    "Nampheung Chuatay",
    "Nattapon Deebang",
    "Nutchaporn Jaengmongkol",
    "Nuttapon Comsoi",
    "Panupong Yodwong",
    "Paradon Saengjam",
    "Peerapan Khanchoom",
    "Piangsit Nualsri",
    "Pipatpon Kessuwan",
    "Pitakpong Chitsutti",
    "Pratpong Muaengwong",
    "Sai Lounge Mine",
    "Saranya Jeenmatchaya",
    "Sasipong Singprom",
    "Sirakrit Sermsuk",
    "Siwakon Sittirin",
    "Songyot Jaichai",
    "Suchonlaphat Suwanaphokin",
    "Sujaree Khumgoen",
    "Supasit Wiriyapap",
    "Suphuruek Somboon",
    "Tawan Chandsri",
    "Teerasak Wichai",
    "Thanabodee Krathu",
    "Thawatchai Sunarat",
    "Theerapan Khanthigul",
    "Thipawan Nanta",
    "Ungkairt Sirivoranankul",
    "Wiriya Jamol",
    "Worachet Baramee"
  ]

  /** The deployed configuration: at most 3 choices, the top 5 shown, one name banned. */
  const App: Settings := Settings(Employees, "Jirapong Nanta", 3, 5)

  /**
   * The deployed configuration as the code fixes it: the banned name is one
   * of the 39 employees, at most 3 choices, the top 5 shown, and the banned
   * name is never offered to anyone.
   */
  lemma DeployedConfiguration(voter: string)
    ensures |App.roster| == 39 && App.forbidden == App.roster[6]
    ensures App.maxChoices == 3 && App.showTopN == 5
    ensures App.forbidden !in CandidateOptions(App, voter)
  {
  }

  /**
   * `candidate_options`: the roster without the voter and without the
   * forbidden name, in roster order.
   */
  function CandidateOptions(cfg: Settings, voter: string): (r: seq<string>)
    ensures forall e :: e in r <==> e in cfg.roster && e != voter && e != cfg.forbidden
    ensures forall e :: multiset(r)[e] == if e == voter || e == cfg.forbidden then 0 else multiset(cfg.roster)[e]
  {
    Without(cfg.roster, {voter, cfg.forbidden})
  }

  /** What the handler reports for one press of "Submit Vote". */
  datatype Outcome = ForbiddenChosen | AlreadyVoted | NothingChosen | Recorded

  /**
   * The handler's if/elif chain, in its order: forbidden name, then already
   * voted, then empty. A ballot is recorded exactly when it passes all three.
   */
  function Decide(cfg: Settings, rows: seq<Row>, voter: string, choices: seq<string>): (o: Outcome)
    ensures o == Recorded <==> cfg.forbidden !in choices && !HasVoted(rows, voter) && |choices| > 0
    ensures o == ForbiddenChosen <==> cfg.forbidden in choices
    ensures o == AlreadyVoted <==> cfg.forbidden !in choices && HasVoted(rows, voter)
  {
    if cfg.forbidden in choices then ForbiddenChosen
    else if HasVoted(rows, voter) then AlreadyVoted
    else if |choices| == 0 then NothingChosen
    else Recorded
  }

  /**
   * The "Submit Vote" handler. The widget it reads from never offers the
   * voter's own name and never lets more than `maxChoices` names be picked;
   * the handler itself checks neither. Only a recorded ballot changes the
   * table.
   */
  method Submit(store: VoteTable, cfg: Settings, voter: string, choices: seq<string>, now: int)
    returns (o: Outcome)
    requires store.Valid() && store.Ready()
    requires |choices| <= cfg.maxChoices && voter !in choices
    modifies store
    ensures store.Valid() && store.Ready()
    ensures o == Decide(cfg, old(store.rows), voter, choices)
    ensures o == Recorded ==>
      store.rows == old(store.rows) + BatchRows(voter, choices, now, old(store.nextId)) &&
      store.nextId == old(store.nextId) + |choices|
    ensures o != Recorded ==> store.rows == old(store.rows) && store.nextId == old(store.nextId)
    ensures store.created == old(store.created) && store.columns == old(store.columns)
  {
    o := Decide(cfg, store.rows, voter, choices);
    if o == Recorded {
      store.AddVotes(voter, choices, now);
    }
  }

  /**
   * Choices picked from the offered options never trip the forbidden-name
   * check, never include the voter, and so meet the handler's precondition
   * whenever no more than `maxChoices` are picked.
   */
  lemma OptionsRuleOutForbiddenAndSelf(cfg: Settings, rows: seq<Row>, voter: string, choices: seq<string>)
    requires forall c :: c in choices ==> c in CandidateOptions(cfg, voter)
    ensures Decide(cfg, rows, voter, choices) != ForbiddenChosen
    ensures voter !in choices
    ensures forall c :: c in choices ==> c in cfg.roster
  {
  }

  /**
   * An empty ballot is never recorded, but the handler reports it as empty
   * only to someone who has not voted yet: the already-voted check comes first.
   */
  lemma EmptyBallotOutcome(cfg: Settings, rows: seq<Row>, voter: string)
    ensures Decide(cfg, rows, voter, []) == if HasVoted(rows, voter) then AlreadyVoted else NothingChosen
  {
  }

  /**
   * Once a ballot is recorded for a voter, any later ballot of theirs is
   * rejected (as forbidden if it names the banned candidate, otherwise as
   * already voted), until the table is reset.
   */
  lemma {:induction false} RecordedVoterIsRejectedNext(
    cfg: Settings, rows: seq<Row>, voter: string, choices: seq<string>, now: int, firstId: nat, again: seq<string>)
    requires Decide(cfg, rows, voter, choices) == Recorded
    ensures Decide(cfg, rows + BatchRows(voter, choices, now, firstId), voter, again)
         == if cfg.forbidden in again then ForbiddenChosen else AlreadyVoted
  {
    VotedAfterBatch(rows, voter, choices, now, firstId, voter);
  }

  /**
   * A recorded ballot adds one vote to each chosen candidate, leaves every
   * other count alone and takes the voter off the not-voted list.
   */
  lemma {:induction false} RecordedBallotEffects(
    cfg: Settings, rows: seq<Row>, voter: string, choices: seq<string>, now: int, firstId: nat)
    requires Decide(cfg, rows, voter, choices) == Recorded
    ensures var after := rows + BatchRows(voter, choices, now, firstId);
      && HasVoted(after, voter)
      && (forall c :: CountFor(after, c) == CountFor(rows, c) + multiset(choices)[c])
      && voter !in NotVotedYet(after, cfg.roster)
      && (forall e :: e != voter ==> (e in NotVotedYet(after, cfg.roster) <==> e in NotVotedYet(rows, cfg.roster)))
  {
    var after := rows + BatchRows(voter, choices, now, firstId);
    forall c ensures CountFor(after, c) == CountFor(rows, c) + multiset(choices)[c] {
      CountAfterBatch(rows, voter, choices, now, firstId, c);
    }
    forall e ensures HasVoted(after, e) <==> HasVoted(rows, e) || e == voter {
      VotedAfterBatch(rows, voter, choices, now, firstId, e);
    }
  }

  /**
   * After `reset_votes`: `top_n` is empty, nobody has voted, and
   * `not_voted_yet` is the whole roster in sorted order.
   */
  lemma {:induction false} AfterReset(roster: seq<string>, n: int, v: string)
    ensures TopN([], n) == []
    ensures !HasVoted([], v)
    ensures NotVotedYet([], roster) == SortNames(roster)
  {
    TopNOfEmptyTable(n);
    NotVotedYetOfEmptyTable(roster);
  }
}
