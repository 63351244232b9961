/** ClassicDeathmatchRulesStrategy: last tank standing. */
module ClassicDeathmatch {
  import opened Wrappers
  import opened CSharp
  import opened Tanks

  /** The strategy's only state is the immutable win threshold. */
  datatype ClassicRules = ClassicRules(roundsToWin: i32)

  /** Nothing to reset at the start of a round. */
  function StartRound(c: ClassicRules): (r: ClassicRules)
    ensures r == c
  {
    c
  }

  /** A null roster ends the round; otherwise it is over once at most one
      tank is still active. */
  function IsRoundOver(c: ClassicRules, tanks: Roster): (r: bool)
    ensures tanks.None? ==> r
    ensures tanks.Some? ==> (r <==> ActiveCount(tanks.value) <= 1)
  {
    match tanks
    case None => true
    case Some(ts) => Count(ts, IsActive) <= 1
  }

  /** The first active tank, or null when the roster is null or nobody is
      active; a sole active tank is the winner wherever it sits. */
  function DetermineRoundWinner(c: ClassicRules, tanks: Roster): (r: Option<nat>)
    ensures r.Some? ==> tanks.Some? && r.value < |tanks.value| && IsActive(tanks.value[r.value])
    ensures r.Some? ==> forall j :: 0 <= j < r.value ==> !IsActive(tanks.value[j])
    ensures r.None? <==> tanks.None? || ActiveCount(tanks.value) == 0
    ensures tanks.Some? && ActiveCount(tanks.value) == 1 ==>
              r.Some? && forall j :: 0 <= j < |tanks.value| && IsActive(tanks.value[j]) ==> j == r.value
  {
    match tanks
    case None => None
    case Some(ts) => CountZeroIff(ts, IsActive); SoleWitness(ts, IsActive); FirstWhere(ts, IsActive)
  }

  /** The first non-null tank whose win count equals the threshold exactly. */
  function DetermineGameWinner(c: ClassicRules, tanks: Roster): (r: Option<nat>)
    ensures r.Some? ==> tanks.Some? && r.value < |tanks.value| && HasWins(tanks.value[r.value], c.roundsToWin)
    ensures r.Some? ==> forall j :: 0 <= j < r.value ==> !HasWins(tanks.value[j], c.roundsToWin)
    ensures r.None? <==> tanks.None? || forall j :: 0 <= j < |tanks.value| ==> !HasWins(tanks.value[j], c.roundsToWin)
  {
    FirstOf(tanks, (e: Option<Tank>) => HasWins(e, c.roundsToWin))
  }

  /** The round goes on exactly while two different tanks are both active. */
  lemma RoundContinuesIffTwoActive(c: ClassicRules, ts: Entries)
    ensures !IsRoundOver(c, Some(ts)) <==>
            exists i, j :: 0 <= i < j < |ts| && IsActive(ts[i]) && IsActive(ts[j])
  {
    if !IsRoundOver(c, Some(ts)) {
      var i, j := CountTwoWitness(ts, IsActive);
    }
    if exists i, j :: 0 <= i < j < |ts| && IsActive(ts[i]) && IsActive(ts[j]) {
      var i, j :| 0 <= i < j < |ts| && IsActive(ts[i]) && IsActive(ts[j]);
      CountTwo(ts, IsActive, i, j);
    }
  }

  /** When exactly one tank is active the round is over and that tank wins it,
      wherever it sits in the roster. */
  lemma SoleSurvivorWins(c: ClassicRules, ts: Entries, i: nat)
    requires i < |ts| && IsActive(ts[i])
    requires ActiveCount(ts) == 1
    ensures IsRoundOver(c, Some(ts))
    ensures DetermineRoundWinner(c, Some(ts)) == Some(i)
  {
    SoleWitness(ts, IsActive);
  }
}
