/** The roster the round rules inspect: an ordered array of TankManager
    references, any of which may be null, and which may itself be null. */
module Tanks {
  import opened Wrappers
  import opened CSharp

  /** The part of a TankManager the rules read.
      `instancePresent` is `m_Instance != null`, `activeSelf` is
      `m_Instance.activeSelf`, `health` is the reading of `m_HealthProvider`
      (None when there is no provider), `name` is `m_ColoredPlayerText`. */
  datatype Tank = Tank(
    instancePresent: bool,
    activeSelf: bool,
    wins: i32,
    health: Option<real>,
    name: string)

  /** The entries of a non-null `TankManager[]`; None is a null entry. */
  type Entries = seq<Option<Tank>>

  /** A possibly null `TankManager[]`. */
  type Roster = Option<Entries>

  /** Still in the round: a non-null entry whose instance exists and is active. */
  predicate IsActive(e: Option<Tank>) {
    e.Some? && e.value.instancePresent && e.value.activeSelf
  }

  /** A non-null entry with a spawned instance (a camera target). */
  predicate HasInstance(e: Option<Tank>) {
    e.Some? && e.value.instancePresent
  }

  /** A non-null entry whose win count is exactly k. */
  predicate HasWins(e: Option<Tank>, k: i32) {
    e.Some? && e.value.wins == k
  }

  /** The number of elements of s satisfying p (LINQ `Count(p)`). */
  function Count<T>(s: seq<T>, p: T -> bool): (n: nat)
    ensures n <= |s|
  {
    if |s| == 0 then 0 else Count(s[..|s| - 1], p) + (if p(s[|s| - 1]) then 1 else 0)
  }

  /** The index of the first element satisfying p (LINQ `FirstOrDefault(p)`,
      with the element identified by its position). */
  function FirstWhere<T>(s: seq<T>, p: T -> bool): (r: Option<nat>)
    ensures r.Some? ==> r.value < |s| && p(s[r.value])
    ensures r.Some? ==> forall j :: 0 <= j < r.value ==> !p(s[j])
    ensures r.None? ==> forall j :: 0 <= j < |s| ==> !p(s[j])
  {
    if |s| == 0 then None
    else if p(s[0]) then Some(0)
    else match FirstWhere(s[1..], p)
      case None => None
      case Some(k) => Some(k + 1)
  }

  /** Lifts FirstWhere over a possibly null array (C#'s `tanks?.FirstOrDefault(p)`). */
  function FirstOf(tanks: Roster, p: Option<Tank> -> bool): (r: Option<nat>)
    ensures r.Some? ==> tanks.Some? && r.value < |tanks.value| && p(tanks.value[r.value])
    ensures r.Some? ==> forall j :: 0 <= j < r.value ==> !p(tanks.value[j])
    ensures r.None? <==> tanks.None? || forall j :: 0 <= j < |tanks.value| ==> !p(tanks.value[j])
  {
    match tanks
    case None => None
    case Some(ts) => FirstWhere(ts, p)
  }

  function ActiveCount(ts: Entries): nat {
    Count(ts, IsActive)
  }

  lemma {:induction false} CountPositive<T>(s: seq<T>, p: T -> bool, i: nat)
    requires i < |s| && p(s[i])
    ensures Count(s, p) >= 1
    decreases |s|
  {
    if i < |s| - 1 {
      assert s[..|s| - 1][i] == s[i];
      CountPositive(s[..|s| - 1], p, i);
    }
  }

  lemma {:induction false} CountNone<T>(s: seq<T>, p: T -> bool)
    requires forall j :: 0 <= j < |s| ==> !p(s[j])
    ensures Count(s, p) == 0
    decreases |s|
  {
    if |s| > 0 {
      var s' := s[..|s| - 1];
      assert forall j :: 0 <= j < |s'| ==> s'[j] == s[j];
      CountNone(s', p);
    }
  }

  /** Count is zero exactly when no element satisfies p. */
  lemma CountZeroIff<T>(s: seq<T>, p: T -> bool)
    ensures Count(s, p) == 0 <==> forall j :: 0 <= j < |s| ==> !p(s[j])
  {
    if forall j :: 0 <= j < |s| ==> !p(s[j]) {
      CountNone(s, p);
    } else {
      var i :| 0 <= i < |s| && p(s[i]);
      CountPositive(s, p, i);
    }
  }

  /** Two distinct satisfying positions make the count at least two. */
  lemma {:induction false} CountTwo<T>(s: seq<T>, p: T -> bool, i: nat, j: nat)
    requires i < j < |s| && p(s[i]) && p(s[j])
    ensures Count(s, p) >= 2
    decreases |s|
  {
    var s' := s[..|s| - 1];
    if j < |s| - 1 {
      assert s'[i] == s[i] && s'[j] == s[j];
      CountTwo(s', p, i, j);
    } else {
      assert s'[i] == s[i];
      CountPositive(s', p, i);
    }
  }

  /** A count of two or more is witnessed by two distinct satisfying positions. */
  lemma {:induction false} CountTwoWitness<T>(s: seq<T>, p: T -> bool) returns (i: nat, j: nat)
    requires Count(s, p) >= 2
    ensures i < j < |s| && p(s[i]) && p(s[j])
    decreases |s|
  {
    var s' := s[..|s| - 1];
    if Count(s', p) >= 2 {
      i, j := CountTwoWitness(s', p);
      assert s'[i] == s[i] && s'[j] == s[j];
    } else {
      assert Count(s', p) >= 1 && p(s[|s| - 1]);
      CountZeroIff(s', p);
      var k :| 0 <= k < |s'| && p(s'[k]);
      assert s'[k] == s[k];
      i, j := k, |s| - 1;
    }
  }

  /** With a count of exactly one, the first satisfying position is the only one. */
  lemma SoleWitness<T>(s: seq<T>, p: T -> bool)
    ensures Count(s, p) == 1 ==> FirstWhere(s, p).Some?
    ensures Count(s, p) == 1 ==> forall j :: 0 <= j < |s| && p(s[j]) ==> j == FirstWhere(s, p).value
  {
    if Count(s, p) == 1 {
      CountZeroIff(s, p);
      var i := FirstWhere(s, p).value;
      forall j | 0 <= j < |s| && p(s[j])
        ensures j == i
      {
        if i < j {
          CountTwo(s, p, i, j);
        }
      }
    }
  }

  /** Count of a prefix grows by one exactly at satisfying positions. */
  lemma CountPrefixStep<T>(s: seq<T>, p: T -> bool, i: nat)
    requires i < |s|
    ensures Count(s[..i + 1], p) == Count(s[..i], p) + (if p(s[i]) then 1 else 0)
  {
    assert s[..i + 1][..i] == s[..i];
  }
}
