/** GameMessageUIService: the text shown on the game's message label. Each
    operation is a pure function from the current service to the next one. */
module GameMessageUI {
  import opened Wrappers
  import opened CSharp
  import opened Numerals
  import opened Tanks

  /** `text` is None when the service was built without a Text component;
      otherwise it holds the component's current text. */
  datatype MessageService = MessageService(text: Option<string>)

  const RoundPrefix: string := "ROUND "
  const GameSuffix: string := " WINS THE GAME!"
  const RoundSuffix: string := " WINS THE ROUND!"
  const DrawHeader: string := "DRAW!"
  const Spacer: string := "\n\n\n\n"

  /** Shows "ROUND " followed by the round number. ParseInt accepts only
      the text IntToString writes (Numerals.ParseIntCanonical), so the last
      ensures fixes the text to exactly "ROUND " + the number. */
  function DisplayRoundStart(svc: MessageService, roundNumber: i32): (r: MessageService)
    ensures svc.text.None? ==> r == svc
    ensures svc.text.Some? ==> r.text.Some? && |r.text.value| > |RoundPrefix|
    ensures svc.text.Some? ==> r.text.value[..|RoundPrefix|] == RoundPrefix
    ensures svc.text.Some? ==> ParseInt(r.text.value[|RoundPrefix|..]) == Some(roundNumber as int)
  {
    if svc.text.None? then svc
    else
      var t := RoundPrefix + IntToString(roundNumber as int);
      assert t[|RoundPrefix|..] == IntToString(roundNumber as int);
      IntRoundTrip(roundNumber as int);
      MessageService(Some(t))
  }

  /** Empties the text. */
  function ClearMessage(svc: MessageService): (r: MessageService)
    ensures svc.text.None? ==> r == svc
    ensures svc.text.Some? ==> r.text == Some("")
  {
    if svc.text.None? then svc else MessageService(Some(""))
  }

  /** One scoreboard line: the player's name, its win count and " WINS". */
  function ScoreLine(t: Tank): string {
    t.name + ": " + IntToString(t.wins as int) + " WINS\n"
  }

  /** The concatenation of f's text for each element, in order. */
  function ConcatMap<T>(ts: seq<T>, f: T -> string): string {
    if |ts| == 0 then "" else f(ts[0]) + ConcatMap(ts[1..], f)
  }

  /** The scoreboard as a reference definition: the lines of all tanks, in order. */
  function ScoreLines(ts: seq<Tank>): string {
    ConcatMap(ts, ScoreLine)
  }

  predicate AllPresent(es: Entries) {
    forall j :: 0 <= j < |es| ==> es[j].Some?
  }

  function Unwrap(es: Entries): (ts: seq<Tank>)
    requires AllPresent(es)
    ensures |ts| == |es| && forall j :: 0 <= j < |es| ==> ts[j] == es[j].value
  {
    if |es| == 0 then [] else [es[0].value] + Unwrap(es[1..])
  }

  /** LINQ `Aggregate` appending each entry's line to the seed, left to right;
      dereferencing a null entry throws. */
  function AggregateScores(acc: string, es: Entries): (r: Result<string, Exception>)
    ensures r.Err? <==> !AllPresent(es)
    ensures r.Err? ==> r.error == NullReference
    ensures r.Ok? ==> r.value == acc + ScoreLines(Unwrap(es))
    decreases |es|
  {
    if |es| == 0 then Ok(acc)
    else match es[0]
      case None => Err(NullReference)
      case Some(t) =>
        var r := AggregateScores(acc + ScoreLine(t), es[1..]);
        if r.Ok? then ScoreLinesCons(acc, es); r else r
  }

  /** Appending the first tank's line and then the rest's is appending the
      whole scoreboard. */
  lemma ScoreLinesCons(acc: string, es: Entries)
    requires 0 < |es| && AllPresent(es)
    ensures acc + ScoreLine(es[0].value) + ScoreLines(Unwrap(es[1..])) == acc + ScoreLines(Unwrap(es))
  {
    var ts := Unwrap(es);
    assert ts[1..] == Unwrap(es[1..]);
    var line, rest := ScoreLine(ts[0]), ConcatMap(ts[1..], ScoreLine);
    assert ScoreLines(ts) == line + rest;
    assert acc + line + rest == acc + (line + rest);
  }

  /** The first line of the round-end message. */
  function RoundHeader(roundWinner: Option<Tank>): string {
    if roundWinner.None? then DrawHeader else roundWinner.value.name + RoundSuffix
  }

  /** The round-end message. The scoreboard is built first, so a null roster
      or a null entry throws even when there is a game winner; a game winner
      then replaces the whole message. */
  function DisplayRoundEndResults(svc: MessageService, roundWinner: Option<Tank>,
                                  gameWinner: Option<Tank>, allTanks: Roster)
    : (r: Result<MessageService, Exception>)
    ensures svc.text.None? ==> r == Ok(svc)
    ensures svc.text.Some? && allTanks.None? ==> r == Err(ArgumentNull("source"))
    ensures svc.text.Some? && allTanks.Some? ==>
              (r.Err? <==> !AllPresent(allTanks.value)) && (r.Err? ==> r.error == NullReference)
    ensures svc.text.Some? && r.Ok? && gameWinner.Some? ==>
              r.value.text == Some(gameWinner.value.name + GameSuffix)
    ensures svc.text.Some? && r.Ok? && gameWinner.None? ==>
              allTanks.Some? && AllPresent(allTanks.value) &&
              r.value.text == Some(RoundHeader(roundWinner) + Spacer + ScoreLines(Unwrap(allTanks.value)))
  {
    if svc.text.None? then Ok(svc)
    else if allTanks.None? then Err(ArgumentNull("source"))
    else
      var message := RoundHeader(roundWinner) + Spacer;
      match AggregateScores(message, allTanks.value)
      case Err(e) => Err(e)
      case Ok(board) =>
        if gameWinner.Some? then Ok(MessageService(Some(gameWinner.value.name + GameSuffix)))
        else Ok(MessageService(Some(board)))
  }

  /** Clearing twice is clearing once, and clearing erases whatever the
      round-start display wrote. */
  lemma ClearForgets(svc: MessageService, roundNumber: i32)
    ensures ClearMessage(ClearMessage(svc)) == ClearMessage(svc)
    ensures ClearMessage(DisplayRoundStart(svc, roundNumber)) == ClearMessage(svc)
  {
  }

  /** Distinct round numbers are announced with distinct texts. */
  lemma RoundStartDistinguishesRounds(svc: MessageService, m: i32, n: i32)
    requires svc.text.Some?
    requires DisplayRoundStart(svc, m) == DisplayRoundStart(svc, n)
    ensures m == n
  {
    var a := DisplayRoundStart(svc, m).text.value;
    assert ParseInt(a[|RoundPrefix|..]) == Some(m as int);
  }

  lemma {:induction false} ConcatMapAt<T>(ts: seq<T>, k: nat, f: T -> string)
    requires k < |ts|
    ensures ConcatMap(ts, f) == ConcatMap(ts[..k], f) + f(ts[k]) + ConcatMap(ts[k + 1..], f)
    decreases k
  {
    if k == 0 {
      assert ts[..0] == [];
      assert ts[1..] == ts[k + 1..];
    } else {
      var tail := ts[1..];
      ConcatMapAt(tail, k - 1, f);
      assert tail[..k - 1] == ts[..k][1..];
      assert tail[k - 1] == ts[k];
      assert tail[k..] == ts[k + 1..];
      var a, b, c, d := f(ts[0]), ConcatMap(ts[..k][1..], f), f(ts[k]), ConcatMap(ts[k + 1..], f);
      assert ConcatMap(ts, f) == a + (b + c + d);
      assert ConcatMap(ts[..k], f) == a + b;
      assert a + (b + c + d) == (a + b) + c + d;
    }
  }

  /** The scoreboard splits into a prefix, the k-th tank's line, and a suffix:
      one line per tank, in roster order. */
  lemma ScoreLinesAt(ts: seq<Tank>, k: nat)
    requires k < |ts|
    ensures ScoreLines(ts) == ScoreLines(ts[..k]) + ScoreLine(ts[k]) + ScoreLines(ts[k + 1..])
  {
    ConcatMapAt(ts, k, ScoreLine);
  }

  /** The total length of the lines. */
  function LineLengths(ts: seq<Tank>): nat {
    if |ts| == 0 then 0 else |ScoreLine(ts[0])| + LineLengths(ts[1..])
  }

  /** The length of the scoreboard is the sum of its lines' lengths. */
  lemma {:induction false} ScoreLinesLength(ts: seq<Tank>)
    ensures |ScoreLines(ts)| == LineLengths(ts)
  {
    if |ts| > 0 {
      ScoreLinesLength(ts[1..]);
    }
  }

  /** A game winner's message depends on nothing but the winner's name. */
  lemma GameWinMessageIgnoresRound(svc: MessageService, rw1: Option<Tank>, rw2: Option<Tank>,
                                   g: Tank, es1: Entries, es2: Entries)
    requires AllPresent(es1) && AllPresent(es2)
    ensures DisplayRoundEndResults(svc, rw1, Some(g), Some(es1))
         == DisplayRoundEndResults(svc, rw2, Some(g), Some(es2))
  {
  }
}
