/** Concrete rounds from the game's own test cases, stated about the model. */
module Scenarios {
  import opened Wrappers
  import opened CSharp
  import opened Tanks
  import TimedRounds
  import ClassicDeathmatch
  import GameManager
  import RulesStrategy
  import GameMessageUI

  function Fighter(active: bool, health: real, wins: i32): Option<Tank> {
    Some(Tank(true, active, wins, Some(health), "PLAYER"))
  }

  const Timed60: TimedRounds.TimedRules := TimedRounds.TimedRules(60.0, 3, 0.0)

  /** Healths 70, 100, 30 at timeout: the second tank wins. */
  lemma HighestHealthWins()
    ensures TimedRounds.DetermineRoundWinner(Timed60,
              Some([Fighter(true, 70.0, 0), Fighter(true, 100.0, 0), Fighter(true, 30.0, 0)])) == Some(1)
  {
    var ts := [Fighter(true, 70.0, 0), Fighter(true, 100.0, 0), Fighter(true, 30.0, 0)];
    CountTwo(ts, IsActive, 0, 1);
    var r := TimedRounds.DetermineRoundWinner(Timed60, Some(ts));
    assert TimedRounds.Contender(ts[1]);
  }

  /** Healths 100, 100, 30 at timeout: the first of the two equal maxima wins. */
  lemma EqualHealthFirstWins()
    ensures TimedRounds.DetermineRoundWinner(Timed60,
              Some([Fighter(true, 100.0, 0), Fighter(true, 100.0, 0), Fighter(true, 30.0, 0)])) == Some(0)
  {
    var ts := [Fighter(true, 100.0, 0), Fighter(true, 100.0, 0), Fighter(true, 30.0, 0)];
    CountTwo(ts, IsActive, 0, 1);
    var r := TimedRounds.DetermineRoundWinner(Timed60, Some(ts));
    assert TimedRounds.Contender(ts[0]);
  }

  /** Started at 0 with two tanks active: still running at 59, over at 60. */
  lemma SixtySecondRound()
    ensures !TimedRounds.IsRoundOver(TimedRounds.StartRound(Timed60, 0.0),
              Some([Fighter(true, 100.0, 0), Fighter(true, 100.0, 0)]), 59.0)
    ensures TimedRounds.IsRoundOver(TimedRounds.StartRound(Timed60, 0.0),
              Some([Fighter(true, 100.0, 0), Fighter(true, 100.0, 0)]), 60.0)
  {
    var ts := [Fighter(true, 100.0, 0), Fighter(true, 100.0, 0)];
    CountTwo(ts, IsActive, 0, 1);
    TimedRounds.TimerDecidesContestedRound(Timed60, 0.0, ts, 59.0);
  }

  /** Threshold 3: a round won by a tank on two wins ends the match with it. */
  lemma ThirdWinEndsMatch(ui: GameMessageUI.MessageService)
    ensures GameManager.EndRoundStep(GameManager.GameState(
              [Fighter(false, 0.0, 2), Fighter(true, 100.0, 2)], 4,
              RulesStrategy.Classic(ClassicDeathmatch.ClassicRules(3)),
              ui, None, None, GameManager.RoundEnding)).gameWinner == Some(1)
  {
    var g := GameManager.GameState([Fighter(false, 0.0, 2), Fighter(true, 100.0, 2)], 4,
              RulesStrategy.Classic(ClassicDeathmatch.ClassicRules(3)),
              ui, None, None, GameManager.RoundEnding);
    GameManager.WinningTheDecidingRound(g, 1);
  }
}
