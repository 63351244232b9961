/** GameRulesManager: the older, non-polymorphic last-tank-standing rules,
    written as index loops. Each query agrees with ClassicDeathmatch. */
module GameRulesManager {
  import opened Wrappers
  import opened CSharp
  import opened Tanks
  import ClassicDeathmatch

  datatype RulesManager = RulesManager(roundsToWin: i32)

  /** The deathmatch rules with the same threshold. */
  function AsClassic(m: RulesManager): ClassicDeathmatch.ClassicRules {
    ClassicDeathmatch.ClassicRules(m.roundsToWin)
  }

  /** True for a null or empty roster; otherwise counts active tanks. */
  method IsOnlyOneTankLeft(m: RulesManager, tanks: Roster) returns (b: bool)
    ensures tanks.None? ==> b
    ensures tanks.Some? ==> (b <==> ActiveCount(tanks.value) <= 1)
    ensures b == ClassicDeathmatch.IsRoundOver(AsClassic(m), tanks)
  {
    if tanks.None? || |tanks.value| == 0 {
      return true;
    }
    var ts := tanks.value;
    var numTanksLeft := 0;
    for i := 0 to |ts|
      invariant numTanksLeft == Count(ts[..i], IsActive)
    {
      CountPrefixStep(ts, IsActive, i);
      if IsActive(ts[i]) {
        numTanksLeft := numTanksLeft + 1;
      }
    }
    assert ts[..|ts|] == ts;
    b := numTanksLeft <= 1;
  }

  /** The first active tank, however many are active; null if none or the roster is null. */
  method DetermineRoundWinner(m: RulesManager, tanks: Roster) returns (r: Option<nat>)
    ensures r.Some? ==> tanks.Some? && r.value < |tanks.value| && IsActive(tanks.value[r.value])
    ensures r.Some? ==> forall j :: 0 <= j < r.value ==> !IsActive(tanks.value[j])
    ensures r.None? <==> tanks.None? || forall j :: 0 <= j < |tanks.value| ==> !IsActive(tanks.value[j])
    ensures r == ClassicDeathmatch.DetermineRoundWinner(AsClassic(m), tanks)
  {
    if tanks.None? {
      return None;
    }
    var ts := tanks.value;
    CountZeroIff(ts, IsActive);
    for i := 0 to |ts|
      invariant forall j :: 0 <= j < i ==> !IsActive(ts[j])
    {
      if ts[i].Some? && ts[i].value.instancePresent && ts[i].value.activeSelf {
        return Some(i);
      }
    }
    return None;
  }

  /** The first non-null tank with exactly the threshold number of wins, or null. */
  method DetermineGameWinner(m: RulesManager, tanks: Roster) returns (r: Option<nat>)
    ensures r.Some? ==> tanks.Some? && r.value < |tanks.value| && HasWins(tanks.value[r.value], m.roundsToWin)
    ensures r.Some? ==> forall j :: 0 <= j < r.value ==> !HasWins(tanks.value[j], m.roundsToWin)
    ensures r.None? <==> tanks.None? || forall j :: 0 <= j < |tanks.value| ==> !HasWins(tanks.value[j], m.roundsToWin)
    ensures r == ClassicDeathmatch.DetermineGameWinner(AsClassic(m), tanks)
  {
    if tanks.None? {
      return None;
    }
    var ts := tanks.value;
    for i := 0 to |ts|
      invariant forall j :: 0 <= j < i ==> !HasWins(ts[j], m.roundsToWin)
    {
      if ts[i].Some? && ts[i].value.wins == m.roundsToWin {
        return Some(i);
      }
    }
    return None;
  }
}
