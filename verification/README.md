# Tank arena round rules in Dafny

This project models the round-rules engine of a Unity tank arena game
(namespace `Complete`). The engine sits over an ordered roster of
`TankManager` entries and decides four things: when a round is over, who
won it, who won the game, and what the message label shows. It also models
the per-round bookkeeping of `GameManager`: the round counter, the win
award, the continue-or-stop decision and the camera-target compaction.

What is modelled:

- **Roster** (`Tanks`). A roster is `Option<seq<Option<Tank>>>`. The outer
  `None` is a null `TankManager[]` and an inner `None` is a null entry. A
  `Tank` records whether its instance exists, the instance's `activeSelf`,
  its win count (a C# `int`, modelled as `i32`), its health reading
  (`None` when it has no health provider) and its coloured player name.
  Winners are returned as roster indices, so "the same tank" (the tests'
  `AreSame`) is index equality.
- **ClassicDeathmatch**: last tank standing.
- **TimedRounds**: the same rules plus a round timer. When two or more tanks
  are still active it breaks the tie on health: the scan starts from a
  maximum of -1 and replaces the best tank only on a strictly greater
  health.
- **RulesStrategy**: the `IGameRulesStrategy` contract, as a datatype with
  two variants.
- **GameRulesManager**: the older loop-based rules. Each of its three
  methods is proved equal to the ClassicDeathmatch function for every
  roster, including the empty one.
- **GameMessageUI**: the message label's text, as pure functions.
  `DisplayRoundEndResults` builds the scoreboard with LINQ `Aggregate`
  before it looks at the game winner. So a null roster throws
  `ArgumentNullException` and a null entry throws `NullReferenceException`,
  even when the game winner's message would replace the scoreboard. The
  model returns these as `Err`.
- **GameManager**: the game loop as a state machine. Most steps are one
  stretch of the coroutine between waits; the round-end step covers
  `RoundEnding`'s stretch, its end wait and `GameLoop`'s decision after it
  (see "## Left out"). If the round-end display throws,
  the model takes the whole loop to stop there and shows this as the phase
  `Halted`; what Unity does with `GameLoop` after a nested coroutine throws
  is engine behaviour outside the code (see "## Left out").
- **Numerals**: C#'s rendering of an `int` in a string concatenation, with a
  parser that undoes it.

Time and health are `real`. The clock is not called: each operation that
reads it takes the reading as a parameter `now`.

Behaviours of the code worth knowing:

- No bound is checked on the configuration. The threshold and the duration
  may be any values.
- The timed winner scan does not check that time has expired.
- A tank whose health is -1 or less can never win the tie-break, because the
  scan starts at -1. If no active tank with a health provider is above -1,
  the result is null.
- The game winner needs a win count exactly equal to the threshold (`==`).

## Model

| member | source | states |
|---|---|---|
| CSharp.Increment | Assets/_Completed-Assets/Scripts/Managers/GameManager.cs:135 | `++` on a C# int gives x + 1 modulo 2^32: exactly x + 1 below int.MaxValue |
| Numerals.IntRoundTrip | Assets/_Completed-Assets/Scripts/Managers/GameMessageUIService.cs:24 | the decimal text of any int, as concatenated into a message, parses back to the same int |
| Numerals.ParseIntCanonical | Assets/_Completed-Assets/Scripts/Managers/GameMessageUIService.cs:24 | the parser accepts only the text an int renders to, so each int has exactly one text (no leading zeros, no "-0") |
| Tanks.Count | Assets/_Completed-Assets/Scripts/Managers/ClassicDeathmatchRulesStrategy.cs:26 | LINQ Count of matching entries never exceeds the roster length |
| Tanks.FirstWhere | Assets/_Completed-Assets/Scripts/Managers/ClassicDeathmatchRulesStrategy.cs:31 | FirstOrDefault returns a matching position with no match before it, or null exactly when nothing matches |
| Tanks.FirstOf | Assets/_Completed-Assets/Scripts/Managers/ClassicDeathmatchRulesStrategy.cs:29-37 | `tanks?.FirstOrDefault(p)` is null for a null roster, else the first position satisfying p |
| ClassicDeathmatch.StartRound | Assets/_Completed-Assets/Scripts/Managers/ClassicDeathmatchRulesStrategy.cs:16-21 | starting a round leaves the strategy unchanged |
| ClassicDeathmatch.IsRoundOver | Assets/_Completed-Assets/Scripts/Managers/ClassicDeathmatchRulesStrategy.cs:23-27 | a null roster ends the round; otherwise it is over iff at most one entry is non-null with an active instance |
| ClassicDeathmatch.DetermineRoundWinner | Assets/_Completed-Assets/Scripts/Managers/ClassicDeathmatchRulesStrategy.cs:29-32 | the result is an active tank with every earlier entry inactive or absent; it is null iff the roster is null or no tank is active; a sole active tank wins wherever it sits |
| ClassicDeathmatch.DetermineGameWinner | Assets/_Completed-Assets/Scripts/Managers/ClassicDeathmatchRulesStrategy.cs:34-37 | the first non-null tank whose wins equal the threshold exactly; null iff there is none or the roster is null |
| ClassicDeathmatch.RoundContinuesIffTwoActive | Assets/_Completed-Assets/Scripts/Managers/ClassicDeathmatchRulesStrategy.cs:26 | a round goes on exactly when two distinct roster positions both hold active tanks |
| ClassicDeathmatch.SoleSurvivorWins | Assets/_Completed-Assets/Scripts/Managers/ClassicDeathmatchRulesStrategy.cs:23-32 | with exactly one active tank the round is over and that tank wins, at any position |
| TimedRounds.New | Assets/_Completed-Assets/Scripts/Managers/TimedRoundRulesStrategy.cs:13-21 | a null time provider is rejected with ArgumentNullException("timeProvider"); otherwise duration and threshold are stored unchanged and the start time is 0 |
| TimedRounds.StartRound | Assets/_Completed-Assets/Scripts/Managers/TimedRoundRulesStrategy.cs:23-26 | records the current time as the start time and keeps the configuration |
| TimedRounds.IsRoundOver | Assets/_Completed-Assets/Scripts/Managers/TimedRoundRulesStrategy.cs:28-36 | over when the roster is null, at most one tank is active, or the elapsed time reaches the duration; with two or more active, only the elapsed time can end it |
| TimedRounds.HealthScan | Assets/_Completed-Assets/Scripts/Managers/TimedRoundRulesStrategy.cs:47-60 | the strict-greater scan from -1 returns the health winner, or null exactly when no active tank with a provider is above -1 |
| TimedRounds.DetermineRoundWinner | Assets/_Completed-Assets/Scripts/Managers/TimedRoundRulesStrategy.cs:38-61 | null for a null roster or no active tank; the sole active tank when there is one; with several, the active tank with a provider whose health is above -1, at least every other's and strictly above every earlier one's, or null iff no such health exists |
| TimedRounds.DetermineGameWinner | Assets/_Completed-Assets/Scripts/Managers/TimedRoundRulesStrategy.cs:63-66 | the first non-null tank whose wins equal the threshold exactly, or null |
| TimedRounds.HealthWinnerUnique | Assets/_Completed-Assets/Scripts/Managers/TimedRoundRulesStrategy.cs:47-60 | at most one position satisfies the tie-break, so ties go to the first maximum |
| TimedRounds.TimerDecidesContestedRound | Assets/_Completed-Assets/Scripts/Managers/TimedRoundRulesStrategy.cs:23-36 | after StartRound at t with two or more active tanks, the round is over iff now - t reaches the duration |
| TimedRounds.RoundOverIsStable | Assets/_Completed-Assets/Scripts/Managers/TimedRoundRulesStrategy.cs:28-36 | a round over at one time is still over at any later time on the same roster |
| RulesStrategy.StartRound | Assets/_Completed-Assets/Scripts/Managers/IGameRulesStrategy.cs:5 | only the timed variant changes, by recording the start time; the threshold is kept |
| RulesStrategy.IsRoundOver | Assets/_Completed-Assets/Scripts/Managers/IGameRulesStrategy.cs:6 | both variants end a round with a null roster or at most one active tank; the classic one only then |
| RulesStrategy.DetermineRoundWinner | Assets/_Completed-Assets/Scripts/Managers/IGameRulesStrategy.cs:7 | every variant's round winner is null or an active tank in the roster; null when no tank is active; the sole active tank when exactly one is |
| RulesStrategy.DetermineGameWinner | Assets/_Completed-Assets/Scripts/Managers/IGameRulesStrategy.cs:8 | every variant's game winner is the first non-null tank with exactly the threshold wins |
| RulesStrategy.TimedEndsNoLaterThanClassic | Assets/_Completed-Assets/Scripts/Managers/TimedRoundRulesStrategy.cs:28-36 | whenever the classic rules end a round, the timed rules do too, at any time |
| RulesStrategy.WinnersAgreeWithoutContest | Assets/_Completed-Assets/Scripts/Managers/TimedRoundRulesStrategy.cs:38-45 | with at most one active tank the two variants pick the same round winner |
| RulesStrategy.GameWinnersAgree | Assets/_Completed-Assets/Scripts/Managers/TimedRoundRulesStrategy.cs:63-66 | both variants pick the same game winner for the same threshold |
| GameRulesManager.IsOnlyOneTankLeft | Assets/_Completed-Assets/Scripts/Managers/GameRulesManager.cs:12-25 | true for a null or empty roster, else iff at most one tank is active; equal to ClassicDeathmatch.IsRoundOver |
| GameRulesManager.DetermineRoundWinner | Assets/_Completed-Assets/Scripts/Managers/GameRulesManager.cs:27-38 | the first active tank even when several are active, null when none is; equal to ClassicDeathmatch.DetermineRoundWinner |
| GameRulesManager.DetermineGameWinner | Assets/_Completed-Assets/Scripts/Managers/GameRulesManager.cs:40-51 | the first tank with exactly the threshold wins, null when none; equal to ClassicDeathmatch.DetermineGameWinner |
| GameMessageUI.DisplayRoundStart | Assets/_Completed-Assets/Scripts/Managers/GameMessageUIService.cs:20-26 | with a text component the text is "ROUND " followed by the one numeral that reads back as the round number, so exactly "ROUND " + n; without one nothing changes |
| GameMessageUI.ClearMessage | Assets/_Completed-Assets/Scripts/Managers/GameMessageUIService.cs:28-34 | with a text component the text becomes empty; without one nothing changes |
| GameMessageUI.AggregateScores | Assets/_Completed-Assets/Scripts/Managers/GameMessageUIService.cs:47 | the left fold throws NullReferenceException iff an entry is null, otherwise appends the scoreboard lines to the seed |
| GameMessageUI.DisplayRoundEndResults | Assets/_Completed-Assets/Scripts/Managers/GameMessageUIService.cs:36-53 | no text component: unchanged; null roster or null entry: the exception; a game winner: name + " WINS THE GAME!"; otherwise "DRAW!" or name + " WINS THE ROUND!", then four newlines and the scoreboard |
| GameMessageUI.ClearForgets | Assets/_Completed-Assets/Scripts/Managers/GameMessageUIService.cs:28-34 | clearing is idempotent and erases the round-start text |
| GameMessageUI.RoundStartDistinguishesRounds | Assets/_Completed-Assets/Scripts/Managers/GameMessageUIService.cs:20-26 | two round numbers produce the same round-start text only if they are equal |
| GameMessageUI.ScoreLinesAt | Assets/_Completed-Assets/Scripts/Managers/GameMessageUIService.cs:47 | the scoreboard is the lines before entry k, then entry k's line, then the lines after it: one line per entry, in roster order |
| GameMessageUI.ScoreLinesLength | Assets/_Completed-Assets/Scripts/Managers/GameMessageUIService.cs:47 | the scoreboard's length is the sum of its lines' lengths |
| GameMessageUI.GameWinMessageIgnoresRound | Assets/_Completed-Assets/Scripts/Managers/GameMessageUIService.cs:49-50 | once a game winner exists, on rosters with no null entry, the message ignores the round winner and the scores |
| GameManager.StartRoundStep | Assets/_Completed-Assets/Scripts/Managers/GameManager.cs:128-140 | the round number is incremented, then the strategy starts the round at the current time, then the new number is announced |
| GameManager.PlayStep | Assets/_Completed-Assets/Scripts/Managers/GameManager.cs:142-145 | the message is cleared before polling and nothing else changes |
| GameManager.PollStep | Assets/_Completed-Assets/Scripts/Managers/GameManager.cs:147-150 | the round ends exactly when the strategy reports it over; otherwise the state is unchanged |
| GameManager.AwardRound | Assets/_Completed-Assets/Scripts/Managers/GameManager.cs:160-163 | the round winner's wins rise by one modulo 2^32 (so int.MaxValue wraps to int.MinValue) and nothing else changes; a draw changes nothing |
| GameManager.EndRoundStep | Assets/_Completed-Assets/Scripts/Managers/GameManager.cs:112-170 | the winner is awarded before the game winner is computed on the updated roster; the results are shown with the updated roster; unless the display throws, the loop stops iff there is a game winner; it halts iff the display throws (a text component and a null entry), with a NullReferenceException and the label unchanged |
| GameManager.Step | Assets/_Completed-Assets/Scripts/Managers/GameManager.cs:112-126 | a reloaded or halted game does not move; only round start changes the round number and only round end changes the roster |
| GameManager.DrawChangesNoWins | Assets/_Completed-Assets/Scripts/Managers/GameManager.cs:158-163 | a null round winner leaves every win count unchanged |
| GameManager.WinningTheDecidingRound | Assets/_Completed-Assets/Scripts/Managers/GameManager.cs:158-165 | a round winner at threshold - 1, with no earlier tank at the threshold, is the game winner of that same round |
| GameManager.PastThresholdIsNoGameWinner | Assets/_Completed-Assets/Scripts/Managers/ClassicDeathmatchRulesStrategy.cs:36 | the check is equality: a tank already past the threshold is not reported as game winner, even when it wins this round, unless its count wraps at int.MaxValue |
| GameManager.InstanceIndicesExact | Assets/_Completed-Assets/Scripts/Managers/GameManager.cs:99-105 | the filtered positions are exactly the entries with an instance below the bound, strictly increasing, as many as the count of such entries |
| GameManager.CameraTargetsExact | Assets/_Completed-Assets/Scripts/Managers/GameManager.cs:97-107 | such a target list is unique: it equals the filtered positions and its length is the number of entries with an instance |
| GameManager.SetCameraTargets | Assets/_Completed-Assets/Scripts/Managers/GameManager.cs:95-110 | the targets are exactly the positions of non-null entries with an instance, each once and in roster order |
| Scenarios.HighestHealthWins | Assets/_Completed-Assets/Scripts/Tests/TimedRoundRulesStrategyTests.cs:118-129 | healths 70, 100, 30 at timeout: the second tank wins |
| Scenarios.EqualHealthFirstWins | Assets/_Completed-Assets/Scripts/Tests/TimedRoundRulesStrategyTests.cs:132-143 | healths 100, 100, 30: the first of the equal maxima wins |
| Scenarios.SixtySecondRound | Assets/_Completed-Assets/Scripts/Tests/TimedRoundRulesStrategyTests.cs:65-89 | a 60 s round started at 0 with two active tanks is running at 59 and over at 60 |
| Scenarios.ThirdWinEndsMatch | Assets/_Completed-Assets/Scripts/Managers/GameManager.cs:158-165 | with threshold 3, the round won by a tank on two wins makes it the game winner |

## Left out

- Unity APIs are not modelled: `Time`, `WaitForSeconds` and the coroutine scheduling, `SceneManager.LoadScene` (shown only as the phase `SceneReload`), `Instantiate`, `Debug.Log`/`LogError`, and the camera calls. They are engine side effects with no rules logic.
- `TankManager.Reset`, `EnableControl` and `DisableControl` are not modelled. Tank activity and health are changed by the simulation outside the rules, so every lemma holds for any roster.
- `GameManager.Start`, `SpawnAllTanks`, the choice of strategy by game mode and the Inspector checks are setup glue and are not modelled. The loop runs only on a non-null roster, so `GameState.tanks` is not optional.
- `LoggingGameMessageUIServiceDecorator` only forwards calls and writes log lines. The service constructor's error log is left out too.
- Floating point is not modelled: health, times and durations are `real`. IEEE rounding of `Time - start` is not captured, and neither is a NaN health, which the `!(h > max)` test would skip.
- `ITimeProvider.DeltaTime` is never read by the rules. The time provider is a token checked for null, and its readings are passed as `now`.
- `m_ColoredPlayerText` is an opaque name string; its `ColorUtility` construction is not modelled.
- `int.ToString` is modelled for the invariant culture ('-' then digits). Culture-specific negative signs are not modelled.
- GameManager.AwardRound: roster entries are assumed to be distinct `TankManager` objects, so a win is added to one index only. The source increments a shared object, and one object in two slots would show the win in both; an `m_Tanks` array serialized from the Inspector cannot share entries.
- GameManager.EndRoundStep: assumes Unity abandons `GameLoop` when `RoundEnding` throws in `DisplayRoundEndResults` (GameManager.cs:167, inside the `StartCoroutine` at :116). Unity logs exceptions from coroutines rather than passing them to the caller, and whether the waiting `GameLoop` then resumes at :118 with `m_GameWinner` already set is engine behaviour the code does not show. If it resumes, the game would reload or start another round with the text unchanged, which `Halted` does not model.
- GameManager.EndRoundStep: one step covers `RoundEnding`'s stretch (GameManager.cs:155-167), the end wait at :169 and `GameLoop`'s decision at :118-125. Nothing the rules or the label read changes during the wait, so no state is lost by merging them.
- GameManager.PlayStep: the model puts a step boundary between `ClearMessage` and the first poll, which run in one frame in the source. Nothing the rules read changes in between.
- RulesStrategy.IsRoundOver: states only what both variants share. Each variant's own function carries its full contract.
