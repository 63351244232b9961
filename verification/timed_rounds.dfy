/** TimedRoundRulesStrategy: last tank standing, but a round also ends when
    its time runs out, and then the healthiest active tank wins it. */
module TimedRounds {
  import opened Wrappers
  import opened CSharp
  import opened Tanks

  /** An ITimeProvider reference. Its readings are passed to each call as
      `now`; the handle itself only matters for the constructor's null check. */
  datatype TimeProvider = TimeProvider

  /** `_roundDurationSeconds`, `_numRoundsToWinForGame` and `_roundStartTime`. */
  datatype TimedRules = TimedRules(duration: real, roundsToWin: i32, startTime: real)

  /** The constructor: rejects a null time provider, otherwise stores the
      configuration unchanged; the start time keeps its default of 0. */
  function New(duration: real, roundsToWin: i32, provider: Option<TimeProvider>)
    : (r: Result<TimedRules, Exception>)
    ensures provider.None? <==> r.Err?
    ensures r.Err? ==> r.error == ArgumentNull("timeProvider")
    ensures r.Ok? ==> r.value.duration == duration && r.value.roundsToWin == roundsToWin
    ensures r.Ok? ==> r.value.startTime == 0.0
  {
    if provider.None? then Err(ArgumentNull("timeProvider"))
    else Ok(TimedRules(duration, roundsToWin, 0.0))
  }

  /** Records the time provider's current reading as the round's start. */
  function StartRound(s: TimedRules, now: real): (r: TimedRules)
    ensures r.startTime == now
    ensures r.duration == s.duration && r.roundsToWin == s.roundsToWin
  {
    s.(startTime := now)
  }

  /** Over when the roster is null or at most one tank is active, or when the
      time elapsed since StartRound has reached the duration. */
  function IsRoundOver(s: TimedRules, tanks: Roster, now: real): (r: bool)
    ensures tanks.None? ==> r
    ensures tanks.Some? && ActiveCount(tanks.value) <= 1 ==> r
    ensures now - s.startTime >= s.duration ==> r
    ensures r && tanks.Some? && ActiveCount(tanks.value) >= 2 ==> now - s.startTime >= s.duration
  {
    var oneTankLeft := tanks.None? || Count(tanks.value, IsActive) <= 1;
    var timeExpired := now - s.startTime >= s.duration;
    oneTankLeft || timeExpired
  }

  /** An active tank that has a health provider: a candidate for the
      health tie-break. */
  predicate Contender(e: Option<Tank>) {
    IsActive(e) && e.value.health.Some?
  }

  function HealthOf(e: Option<Tank>): real
    requires Contender(e)
  {
    e.value.health.value
  }

  /** A contender whose health beats the scan's initial maximum of -1. */
  predicate AboveFloor(e: Option<Tank>) {
    Contender(e) && HealthOf(e) > -1.0
  }

  /** Index i is the tie-break winner: a contender above -1 whose health is at
      least every contender's and strictly above every earlier contender's,
      so that the first of several equal maxima wins. */
  predicate HealthWinner(ts: Entries, i: nat) {
    && i < |ts|
    && AboveFloor(ts[i])
    && (forall j :: 0 <= j < |ts| && Contender(ts[j]) ==> HealthOf(ts[j]) <= HealthOf(ts[i]))
    && (forall j :: 0 <= j < i && Contender(ts[j]) ==> HealthOf(ts[j]) < HealthOf(ts[i]))
  }

  /** What the scan knows after visiting ts[..i], holding the best index so
      far and the maximum health seen (starting at -1). */
  predicate ScanState(ts: Entries, i: nat, best: Option<nat>, maxHealth: real) {
    && i <= |ts|
    && (best.None? ==>
          maxHealth == -1.0 && forall j :: 0 <= j < i ==> !AboveFloor(ts[j]))
    && (best.Some? ==>
          && best.value < i
          && AboveFloor(ts[best.value])
          && HealthOf(ts[best.value]) == maxHealth
          && (forall j :: 0 <= j < i && Contender(ts[j]) ==> HealthOf(ts[j]) <= maxHealth)
          && (forall j :: 0 <= j < best.value && Contender(ts[j]) ==> HealthOf(ts[j]) < maxHealth))
  }

  /** The foreach over the active tanks: skip tanks without a provider, and
      replace the best only on a strictly greater health. */
  function HealthScan(ts: Entries, i: nat, best: Option<nat>, maxHealth: real): (r: Option<nat>)
    requires ScanState(ts, i, best, maxHealth)
    ensures r.Some? ==> HealthWinner(ts, r.value)
    ensures r.None? <==> forall j :: 0 <= j < |ts| ==> !AboveFloor(ts[j])
    decreases |ts| - i
  {
    if i == |ts| then best
    else if !IsActive(ts[i]) then HealthScan(ts, i + 1, best, maxHealth)
    else if ts[i].value.health.None? then HealthScan(ts, i + 1, best, maxHealth)
    else if !(ts[i].value.health.value > maxHealth) then HealthScan(ts, i + 1, best, maxHealth)
    else HealthScan(ts, i + 1, Some(i), ts[i].value.health.value)
  }

  /** No active tank: null. One: that tank. Several: the health tie-break. */
  function DetermineRoundWinner(s: TimedRules, tanks: Roster): (r: Option<nat>)
    ensures r.Some? ==> tanks.Some? && r.value < |tanks.value| && IsActive(tanks.value[r.value])
    ensures tanks.None? || ActiveCount(tanks.value) == 0 ==> r.None?
    ensures tanks.Some? && ActiveCount(tanks.value) == 1 ==>
              r.Some? && forall j :: 0 <= j < |tanks.value| && IsActive(tanks.value[j]) ==> j == r.value
    ensures tanks.Some? && ActiveCount(tanks.value) >= 2 ==>
              (r.Some? ==> HealthWinner(tanks.value, r.value))
    ensures tanks.Some? && ActiveCount(tanks.value) >= 2 ==>
              (r.None? <==> forall j :: 0 <= j < |tanks.value| ==> !AboveFloor(tanks.value[j]))
  {
    if tanks.None? || |tanks.value| == 0 then None
    else
      var ts := tanks.value;
      var active := Count(ts, IsActive);
      if active == 0 then None
      else if active == 1 then SoleWitness(ts, IsActive); FirstWhere(ts, IsActive)
      else HealthScan(ts, 0, None, -1.0)
  }

  /** The first non-null tank whose win count equals the threshold exactly. */
  function DetermineGameWinner(s: TimedRules, tanks: Roster): (r: Option<nat>)
    ensures r.Some? ==> tanks.Some? && r.value < |tanks.value| && HasWins(tanks.value[r.value], s.roundsToWin)
    ensures r.Some? ==> forall j :: 0 <= j < r.value ==> !HasWins(tanks.value[j], s.roundsToWin)
    ensures r.None? <==> tanks.None? || forall j :: 0 <= j < |tanks.value| ==> !HasWins(tanks.value[j], s.roundsToWin)
  {
    FirstOf(tanks, (e: Option<Tank>) => HasWins(e, s.roundsToWin))
  }

  /** The tie-break winner is unique. */
  lemma HealthWinnerUnique(ts: Entries, i: nat, j: nat)
    requires HealthWinner(ts, i) && HealthWinner(ts, j)
    ensures i == j
  {
  }

  /** After StartRound at time t with at least two tanks still active, the
      round is running while less than the duration has elapsed and over
      from the moment it has. */
  lemma TimerDecidesContestedRound(s: TimedRules, t: real, ts: Entries, now: real)
    requires ActiveCount(ts) >= 2
    ensures IsRoundOver(StartRound(s, t), Some(ts), now) <==> now - t >= s.duration
  {
  }

  /** Once the round is over it stays over as time goes on, for as long as
      the roster does not change. */
  lemma RoundOverIsStable(s: TimedRules, tanks: Roster, now: real, later: real)
    requires now <= later
    requires IsRoundOver(s, tanks, now)
    ensures IsRoundOver(s, tanks, later)
  {
  }
}
