/** IGameRulesStrategy: the two rule sets behind one four-operation contract. */
module RulesStrategy {
  import opened Wrappers
  import opened CSharp
  import opened Tanks
  import ClassicDeathmatch
  import TimedRounds

  datatype Rules =
    | Classic(classic: ClassicDeathmatch.ClassicRules)
    | Timed(timed: TimedRounds.TimedRules)

  function RoundsToWin(rules: Rules): i32 {
    match rules
    case Classic(c) => c.roundsToWin
    case Timed(t) => t.roundsToWin
  }

  /** Called once at the start of each round with the clock's reading. Only
      the timed variant changes: it records the start time. */
  function StartRound(rules: Rules, now: real): (r: Rules)
    ensures r.Classic? <==> rules.Classic?
    ensures RoundsToWin(r) == RoundsToWin(rules)
    ensures rules.Classic? ==> r == rules
    ensures r.Timed? ==> r.timed.startTime == now && r.timed.duration == rules.timed.duration
  {
    match rules
    case Classic(c) => Classic(ClassicDeathmatch.StartRound(c))
    case Timed(t) => Timed(TimedRounds.StartRound(t, now))
  }

  /** Every rule set ends the round when at most one tank is active or the
      roster is null; only the timed one can end it with more still active. */
  function IsRoundOver(rules: Rules, tanks: Roster, now: real): (r: bool)
    ensures tanks.None? || ActiveCount(tanks.value) <= 1 ==> r
    ensures r && rules.Classic? ==> tanks.None? || ActiveCount(tanks.value) <= 1
  {
    match rules
    case Classic(c) => ClassicDeathmatch.IsRoundOver(c, tanks)
    case Timed(t) => TimedRounds.IsRoundOver(t, tanks, now)
  }

  /** The round winner is null or an active tank of the roster: null when
      nobody is active, the sole active tank when there is exactly one. */
  function DetermineRoundWinner(rules: Rules, tanks: Roster): (r: Option<nat>)
    ensures r.Some? ==> tanks.Some? && r.value < |tanks.value| && IsActive(tanks.value[r.value])
    ensures tanks.None? || ActiveCount(tanks.value) == 0 ==> r.None?
    ensures tanks.Some? && ActiveCount(tanks.value) == 1 ==>
              r.Some? && forall j :: 0 <= j < |tanks.value| && IsActive(tanks.value[j]) ==> j == r.value
  {
    match rules
    case Classic(c) => ClassicDeathmatch.DetermineRoundWinner(c, tanks)
    case Timed(t) => TimedRounds.DetermineRoundWinner(t, tanks)
  }

  /** The first non-null tank with exactly the threshold number of wins. */
  function DetermineGameWinner(rules: Rules, tanks: Roster): (r: Option<nat>)
    ensures r.Some? ==> tanks.Some? && r.value < |tanks.value| && HasWins(tanks.value[r.value], RoundsToWin(rules))
    ensures r.Some? ==> forall j :: 0 <= j < r.value ==> !HasWins(tanks.value[j], RoundsToWin(rules))
    ensures r.None? <==> tanks.None? || forall j :: 0 <= j < |tanks.value| ==> !HasWins(tanks.value[j], RoundsToWin(rules))
  {
    match rules
    case Classic(c) => ClassicDeathmatch.DetermineGameWinner(c, tanks)
    case Timed(t) => TimedRounds.DetermineGameWinner(t, tanks)
  }

  /** The timed rules end a round whenever the classic ones would, whatever the clock says. */
  lemma TimedEndsNoLaterThanClassic(t: TimedRounds.TimedRules, tanks: Roster, now: real)
    requires ClassicDeathmatch.IsRoundOver(ClassicDeathmatch.ClassicRules(t.roundsToWin), tanks)
    ensures TimedRounds.IsRoundOver(t, tanks, now)
  {
  }

  /** With at most one tank active both rule sets pick the same round winner:
      the health tie-break is never consulted. */
  lemma {:induction false} WinnersAgreeWithoutContest(t: TimedRounds.TimedRules, tanks: Roster)
    requires tanks.None? || ActiveCount(tanks.value) <= 1
    ensures TimedRounds.DetermineRoundWinner(t, tanks)
         == ClassicDeathmatch.DetermineRoundWinner(ClassicDeathmatch.ClassicRules(t.roundsToWin), tanks)
  {
    if tanks.Some? && ActiveCount(tanks.value) == 1 {
      SoleWitness(tanks.value, IsActive);
    }
  }

  /** Both rule sets decide the match identically for the same threshold. */
  lemma GameWinnersAgree(t: TimedRounds.TimedRules, tanks: Roster)
    ensures TimedRounds.DetermineGameWinner(t, tanks)
         == ClassicDeathmatch.DetermineGameWinner(ClassicDeathmatch.ClassicRules(t.roundsToWin), tanks)
  {
  }
}
