/** GameManager's round bookkeeping as a pure state machine. Most steps are
    one stretch of the GameLoop coroutine between two waits; the round-end
    step also takes GameLoop's decision after the end wait. The waits
    themselves, tank reset and control, and the camera are left out. */
module GameManager {
  import opened Wrappers
  import opened CSharp
  import opened Tanks
  import opened RulesStrategy
  import opened GameMessageUI

  datatype Phase =
    | RoundStarting          // next: RoundStarting()
    | RoundPlaying           // next: RoundPlaying() up to its first poll
    | Polling                // waiting for the rules to end the round
    | RoundEnding            // next: RoundEnding()
    | SceneReload            // a game winner exists: the scene is reloaded
    | Halted(fault: Exception)  // RoundEnding threw; GameLoop is taken to be abandoned

  /** `m_Tanks` (never null once the loop runs), `m_RoundNumber`, the rules
      strategy, the message service, `m_RoundWinner`, `m_GameWinner`. */
  datatype GameState = GameState(
    tanks: Entries,
    roundNumber: i32,
    rules: Rules,
    ui: MessageService,
    roundWinner: Option<nat>,
    gameWinner: Option<nat>,
    phase: Phase)

  /** RoundStarting: the round number goes up by one, the strategy starts the
      round at the current time, and the new number is announced. */
  function StartRoundStep(g: GameState, now: real): (r: GameState)
    ensures r.roundNumber == Increment(g.roundNumber)
    ensures r.rules == RulesStrategy.StartRound(g.rules, now)
    ensures r.ui == DisplayRoundStart(g.ui, r.roundNumber)
    ensures r.tanks == g.tanks && r.phase == RoundPlaying
  {
    var n := Increment(g.roundNumber);
    g.(roundNumber := n,
       rules := RulesStrategy.StartRound(g.rules, now),
       ui := DisplayRoundStart(g.ui, n),
       phase := RoundPlaying)
  }

  /** RoundPlaying: the message is cleared before polling starts. */
  function PlayStep(g: GameState): (r: GameState)
    ensures r.ui == ClearMessage(g.ui)
    ensures r == g.(ui := r.ui, phase := Polling)
  {
    g.(ui := ClearMessage(g.ui), phase := Polling)
  }

  /** One poll of the strategy: the round ends when it says so, otherwise
      nothing changes. */
  function PollStep(g: GameState, now: real): (r: GameState)
    requires g.phase == Polling
    ensures r.phase == RoundEnding <==> IsRoundOver(g.rules, Some(g.tanks), now)
    ensures r.phase != RoundEnding ==> r == g
    ensures r == g.(phase := r.phase)
  {
    if IsRoundOver(g.rules, Some(g.tanks), now) then g.(phase := RoundEnding) else g
  }

  /** `m_RoundWinner.m_Wins++`: the winner's count goes up by one (wrapping
      as a C# int), everything else is left alone. */
  function AwardRound(ts: Entries, winner: Option<nat>): (r: Entries)
    requires winner.Some? ==> winner.value < |ts| && ts[winner.value].Some?
    ensures |r| == |ts|
    ensures winner.None? ==> r == ts
    ensures forall j :: 0 <= j < |ts| && winner != Some(j) ==> r[j] == ts[j]
    ensures winner.Some? ==> r[winner.value].Some?
    ensures winner.Some? ==> var i := winner.value;
              r[i].value.(wins := ts[i].value.wins) == ts[i].value
    ensures winner.Some? ==> var i := winner.value;
              ts[i].value.wins as int < MaxInt ==> r[i].value.wins as int == ts[i].value.wins as int + 1
    ensures winner.Some? ==> var i := winner.value;
              (r[i].value.wins as int - ts[i].value.wins as int - 1) % 0x1_0000_0000 == 0
  {
    match winner
    case None => ts
    case Some(i) => ts[i := Some(ts[i].value.(wins := Increment(ts[i].value.wins)))]
  }

  function TankAt(ts: Entries, i: Option<nat>): Option<Tank> {
    if i.Some? && i.value < |ts| then ts[i.value] else None
  }

  /** RoundEnding followed by GameLoop's decision: pick the round winner,
      award it, check for a game winner on the updated roster, show the
      results, then reload the scene on a game winner or start another round.
      If showing the results throws, the loop stops. */
  function EndRoundStep(g: GameState): (r: GameState)
    ensures r.roundWinner == DetermineRoundWinner(g.rules, Some(g.tanks))
    ensures r.tanks == AwardRound(g.tanks, r.roundWinner)
    ensures r.gameWinner == DetermineGameWinner(g.rules, Some(r.tanks))
    ensures r.rules == g.rules && r.roundNumber == g.roundNumber
    ensures r.phase.Halted? || (r.phase == SceneReload <==> r.gameWinner.Some?)
    ensures r.phase.Halted? || (r.phase == RoundStarting <==> r.gameWinner.None?)
    ensures r.phase.Halted? <==> g.ui.text.Some? && !AllPresent(g.tanks)
    ensures !r.phase.Halted? ==>
              DisplayRoundEndResults(g.ui, TankAt(r.tanks, r.roundWinner), TankAt(r.tanks, r.gameWinner), Some(r.tanks)) == Ok(r.ui)
    ensures r.phase.Halted? ==> r.ui == g.ui && r.phase.fault == NullReference
  {
    var rw := DetermineRoundWinner(g.rules, Some(g.tanks));
    var ts := AwardRound(g.tanks, rw);
    var gw := DetermineGameWinner(g.rules, Some(ts));
    var h := g.(tanks := ts, roundWinner := rw, gameWinner := gw);
    assert AllPresent(ts) <==> AllPresent(g.tanks);
    match DisplayRoundEndResults(g.ui, TankAt(ts, rw), TankAt(ts, gw), Some(ts))
    case Err(e) => h.(phase := Halted(e))
    case Ok(ui) => h.(ui := ui, phase := if gw.Some? then SceneReload else RoundStarting)
  }

  /** Advances the game by one stretch of the loop; a reloaded or halted game stays put. */
  function Step(g: GameState, now: real): (r: GameState)
    ensures g.phase == SceneReload || g.phase.Halted? ==> r == g
    ensures g.phase != RoundStarting ==> r.roundNumber == g.roundNumber
    ensures g.phase != RoundEnding ==> r.tanks == g.tanks
  {
    match g.phase
    case RoundStarting => StartRoundStep(g, now)
    case RoundPlaying => PlayStep(g)
    case Polling => PollStep(g, now)
    case RoundEnding => EndRoundStep(g)
    case SceneReload => g
    case Halted(_) => g
  }

  /** A drawn round leaves every win count as it was. */
  lemma DrawChangesNoWins(g: GameState)
    requires DetermineRoundWinner(g.rules, Some(g.tanks)).None?
    ensures EndRoundStep(g).tanks == g.tanks
  {
  }

  /** The game check sees the increment: a round winner that had one win
      short of the threshold, with no earlier tank at the threshold, wins the
      game in that same round. */
  lemma WinningTheDecidingRound(g: GameState, i: nat)
    requires DetermineRoundWinner(g.rules, Some(g.tanks)) == Some(i)
    requires g.tanks[i].value.wins as int + 1 == RoundsToWin(g.rules) as int
    requires forall j :: 0 <= j < i ==> !HasWins(g.tanks[j], RoundsToWin(g.rules))
    ensures EndRoundStep(g).gameWinner == Some(i)
  {
    var r := EndRoundStep(g);
    assert HasWins(r.tanks[i], RoundsToWin(g.rules));
  }

  /** The win count is checked for equality, not for reaching the threshold:
      a tank already past it is never reported as the game winner, whether or
      not it also wins this round, unless its count wraps past int.MaxValue. */
  lemma PastThresholdIsNoGameWinner(g: GameState, i: nat)
    requires i < |g.tanks| && g.tanks[i].Some?
    requires g.tanks[i].value.wins as int > RoundsToWin(g.rules) as int
    requires DetermineRoundWinner(g.rules, Some(g.tanks)) == Some(i) ==> g.tanks[i].value.wins as int < MaxInt
    ensures EndRoundStep(g).gameWinner != Some(i)
  {
    var r := EndRoundStep(g);
    assert r.tanks[i].value.wins as int > RoundsToWin(g.rules) as int;
  }

  /** The positions below n whose entries have an instance, in increasing order. */
  function InstanceIndices(ts: Entries, n: nat): seq<nat>
    requires n <= |ts|
  {
    if n == 0 then []
    else InstanceIndices(ts, n - 1) + (if HasInstance(ts[n - 1]) then [n - 1] else [])
  }

  /** InstanceIndices lists every position below n with an instance, each
      once and in increasing order. */
  lemma {:induction false} InstanceIndicesExact(ts: Entries, n: nat)
    requires n <= |ts|
    ensures |InstanceIndices(ts, n)| == Count(ts[..n], HasInstance)
    ensures forall k :: 0 <= k < |InstanceIndices(ts, n)| ==>
              InstanceIndices(ts, n)[k] < n && HasInstance(ts[InstanceIndices(ts, n)[k]])
    ensures StrictlyIncreasing(InstanceIndices(ts, n))
    ensures forall j :: 0 <= j < n && HasInstance(ts[j]) ==> j in InstanceIndices(ts, n)
  {
    if n > 0 {
      InstanceIndicesExact(ts, n - 1);
      CountPrefixStep(ts, HasInstance, n - 1);
    }
  }

  predicate StrictlyIncreasing(s: seq<nat>) {
    forall k, l :: 0 <= k < l < |s| ==> s[k] < s[l]
  }

  /** targets lists, in increasing order and each once, exactly the
      positions of entries that have an instance. */
  predicate IsCameraTargets(ts: Entries, targets: seq<nat>) {
    && (forall k :: 0 <= k < |targets| ==> targets[k] < |ts| && HasInstance(ts[targets[k]]))
    && StrictlyIncreasing(targets)
    && (forall i :: 0 <= i < |ts| && HasInstance(ts[i]) ==> i in targets)
  }

  /** Names the head of a sequence as one of its elements. IncreasingUnique
      calls it on both sides in its empty case: `s[0] in s` for the non-empty
      side, against the shared membership, rules out one sequence being empty
      while the other is not, leaving only both empty. */
  lemma HeadIsElement(s: seq<nat>)
    ensures |s| > 0 ==> s[0] in s
  {
  }

  /** Two strictly increasing sequences with the same elements are equal. */
  lemma {:induction false} IncreasingUnique(a: seq<nat>, b: seq<nat>)
    requires StrictlyIncreasing(a) && StrictlyIncreasing(b)
    requires forall x :: x in a <==> x in b
    ensures a == b
    decreases |a|
  {
    if |a| == 0 || |b| == 0 {
      HeadIsElement(a);
      HeadIsElement(b);
    } else {
      assert a[0] in b && b[0] in a;
      assert a[0] == b[0];
      forall x
        ensures x in a[1..] <==> x in b[1..]
      {
        if x in a[1..] {
          assert x in a && x != a[0];
        }
        if x in b[1..] {
          assert x in b && x != b[0];
        }
      }
      IncreasingUnique(a[1..], b[1..]);
      assert a == [a[0]] + a[1..] && b == [b[0]] + b[1..];
    }
  }

  /** Anything satisfying IsCameraTargets is the filter of positions with an
      instance, so its length is the number of such entries. */
  lemma CameraTargetsExact(ts: Entries, targets: seq<nat>)
    requires IsCameraTargets(ts, targets)
    ensures targets == InstanceIndices(ts, |ts|)
    ensures |targets| == Count(ts, HasInstance)
  {
    InstanceIndicesExact(ts, |ts|);
    assert ts[..|ts|] == ts;
    var f := InstanceIndices(ts, |ts|);
    forall x
      ensures x in targets <==> x in f
    {
      if x in f {
        var k :| 0 <= k < |f| && f[k] == x;
      }
      if x in targets {
        var k :| 0 <= k < |targets| && targets[k] == x;
      }
    }
    IncreasingUnique(targets, f);
  }

  /** SetCameraTargets: the instances of non-null entries that have one, in
      roster order, compacted into an array of exactly that length. Instances
      are identified by the index of their entry; the buffer has one slot per
      entry and is cut down to the filled prefix at the end. */
  method SetCameraTargets(ts: Entries) returns (targets: seq<nat>)
    ensures IsCameraTargets(ts, targets)
  {
    var buffer: seq<nat> := seq(|ts|, _ => 0);
    var validTargets := 0;
    for i := 0 to |ts|
      invariant |buffer| == |ts|
      invariant validTargets <= i
      invariant buffer[..validTargets] == InstanceIndices(ts, i)
    {
      InstanceIndicesExact(ts, i);
      if ts[i].Some? && ts[i].value.instancePresent {
        assert buffer[validTargets := i][..validTargets + 1] == buffer[..validTargets] + [i];
        buffer := buffer[validTargets := i];
        validTargets := validTargets + 1;
      }
    }
    InstanceIndicesExact(ts, |ts|);
    targets := buffer[..validTargets];
  }
}
