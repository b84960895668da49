/**
 * The persisted statistics record and its update after each finished game
 * (stats, its defaulting and updateStats in js/main.js).
 */
module Statistics {
  import opened Optional

  /** The statistics record: counters, six-slot guess distribution, and wins per secret word. */
  datatype Record = Record(
    gamesPlayed: int,
    wins: int,
    currentStreak: int,
    maxStreak: int,
    guessDistribution: seq<int>,
    solutionHistory: map<string, int>)

  /** The slots of the guess distribution: slot i counts wins in i + 1 guesses. */
  const Slots: nat := 6

  function Zeros(): seq<int> { [0, 0, 0, 0, 0, 0] }

  /** The record a first-time player starts with. */
  function Initial(): Record
  {
    Record(0, 0, 0, 0, Zeros(), map[])
  }

  /**
   * What parsing the stored text yields: the counters as written, and the
   * two fields added in a later version, which older records lack.
   */
  datatype Stored = Stored(
    gamesPlayed: int,
    wins: int,
    currentStreak: int,
    maxStreak: int,
    guessDistribution: Option<seq<int>>,
    solutionHistory: Option<map<string, int>>)

  /**
   * Loading: no stored record gives the initial record; a stored record keeps
   * its counters and gets six zero slots and an empty history for the fields
   * it lacks.
   */
  function Load(stored: Option<Stored>): (r: Record)
    ensures stored == None ==> r == Initial()
    ensures stored != None ==>
      && r.gamesPlayed == stored.value.gamesPlayed && r.wins == stored.value.wins
      && r.currentStreak == stored.value.currentStreak && r.maxStreak == stored.value.maxStreak
      && r.guessDistribution == stored.value.guessDistribution.GetOr(Zeros())
      && r.solutionHistory == stored.value.solutionHistory.GetOr(map[])
  {
    match stored
    case None => Initial()
    case Some(s) =>
      Record(s.gamesPlayed, s.wins, s.currentStreak, s.maxStreak,
             s.guessDistribution.GetOr(Zeros()), s.solutionHistory.GetOr(map[]))
  }

  /** What saving writes: every field present. */
  function Save(r: Record): (stored: Stored)
    ensures stored.guessDistribution.Some? && stored.solutionHistory.Some?
    ensures Load(Some(stored)) == r
  {
    Stored(r.gamesPlayed, r.wins, r.currentStreak, r.maxStreak, Some(r.guessDistribution), Some(r.solutionHistory))
  }

  function Sum(s: seq<int>): int
  {
    if s == [] then 0 else s[0] + Sum(s[1..])
  }

  /**
   * updateStats on the record: one more game; on a win one more win, a longer
   * streak, a new maximum if the streak exceeds it, one more win in the slot
   * of `guessCount` when that is 1 to 6, and one more win for the winning word
   * when one is given and it is not empty; on a loss the streak is reset.
   */
  function Apply(s: Record, won: bool, guessCount: int, winningWord: Option<string>): (r: Record)
    requires |s.guessDistribution| == Slots
    ensures |r.guessDistribution| == Slots
    ensures r.gamesPlayed == s.gamesPlayed + 1 && r.wins == s.wins + (if won then 1 else 0)
    ensures won ==> r.currentStreak == s.currentStreak + 1
    ensures !won ==> r.currentStreak == 0 && r.guessDistribution == s.guessDistribution && r.solutionHistory == s.solutionHistory
  {
    if won then
      var streak := s.currentStreak + 1;
      var dist := s.guessDistribution;
      s.(gamesPlayed := s.gamesPlayed + 1,
         wins := s.wins + 1,
         currentStreak := streak,
         maxStreak := if streak > s.maxStreak then streak else s.maxStreak,
         guessDistribution := if 1 <= guessCount <= 6 then dist[guessCount - 1 := dist[guessCount - 1] + 1] else dist,
         solutionHistory :=
           if winningWord.Some? && winningWord.value != ""
           then s.solutionHistory[winningWord.value := Lookup(s.solutionHistory, winningWord.value, 0) + 1]
           else s.solutionHistory)
    else
      s.(gamesPlayed := s.gamesPlayed + 1, currentStreak := 0)
  }

  /**
   * The invariant every update keeps: the counters are ordered
   * 0 <= currentStreak <= maxStreak <= wins <= gamesPlayed, the distribution
   * has six non-negative slots that together count no more than the wins, and
   * every word in the history has been won at least once.
   */
  ghost predicate Valid(s: Record)
  {
    && 0 <= s.currentStreak <= s.maxStreak <= s.wins <= s.gamesPlayed
    && |s.guessDistribution| == Slots
    && (forall i :: 0 <= i < Slots ==> s.guessDistribution[i] >= 0)
    && Sum(s.guessDistribution) <= s.wins
    && (forall w :: w in s.solutionHistory ==> s.solutionHistory[w] >= 1)
  }

  /** The distribution accounts for every win (each win fell in slots 1 to 6). */
  ghost predicate Tallied(s: Record)
  {
    Sum(s.guessDistribution) == s.wins
  }

  /**
   * The statistics object the page keeps and mutates in place. The counters
   * and the history are fields; the distribution is an array the update
   * increments in place.
   */
  class Stats {
    var gamesPlayed: int
    var wins: int
    var currentStreak: int
    var maxStreak: int
    const guessDistribution: array<int>
    var solutionHistory: map<string, int>

    ghost predicate Shaped()
      reads this
    {
      guessDistribution.Length == Slots
    }

    /** The record this object holds. */
    ghost function Value(): Record
      reads this, guessDistribution
    {
      Record(gamesPlayed, wins, currentStreak, maxStreak, guessDistribution[..], solutionHistory)
    }

    /** The object built from a loaded record. */
    constructor (r: Record)
      requires |r.guessDistribution| == Slots
      ensures Shaped() && Value() == r && fresh(guessDistribution)
    {
      gamesPlayed, wins, currentStreak, maxStreak := r.gamesPlayed, r.wins, r.currentStreak, r.maxStreak;
      guessDistribution := new int[Slots](i requires 0 <= i < Slots => r.guessDistribution[i]);
      solutionHistory := r.solutionHistory;
      new;
      assert guessDistribution[..] == r.guessDistribution;
    }

    /** updateStats: record the outcome of one game. */
    method UpdateStats(won: bool, guessCount: int, winningWord: Option<string>)
      requires Shaped()
      modifies this, guessDistribution
      ensures Shaped()
      ensures Value() == Apply(old(Value()), won, guessCount, winningWord)
    {
      gamesPlayed := gamesPlayed + 1;
      if won {
        wins := wins + 1;
        currentStreak := currentStreak + 1;
        if currentStreak > maxStreak {
          maxStreak := currentStreak;
        }
        if 1 <= guessCount <= 6 {
          guessDistribution[guessCount - 1] := guessDistribution[guessCount - 1] + 1;
        }
        if winningWord.Some? && winningWord.value != "" {
          var w := winningWord.value;
          solutionHistory := solutionHistory[w := (if w in solutionHistory then solutionHistory[w] else 0) + 1];
        }
      } else {
        currentStreak := 0;
      }
    }
  }

  // ---------------------------------------------------------------------
  // Properties of one update
  // ---------------------------------------------------------------------

  lemma {:induction false} SumBump(s: seq<int>, i: nat)
    requires i < |s|
    ensures Sum(s[i := s[i] + 1]) == Sum(s) + 1
  {
    if i > 0 {
      SumBump(s[1..], i - 1);
      assert s[i := s[i] + 1][1..] == s[1..][i - 1 := s[i] + 1];
    }
  }

  lemma {:induction false} SumNonNegative(s: seq<int>)
    requires forall i :: 0 <= i < |s| ==> s[i] >= 0
    ensures Sum(s) >= 0
  {
    if s != [] {
      SumNonNegative(s[1..]);
    }
  }

  /**
   * The counters: one more game always; a win adds one win and one to the
   * streak and lifts the maximum to the streak if it is higher; a loss only
   * resets the streak, every other field is as before.
   */
  lemma ApplyCounters(s: Record, won: bool, guessCount: int, winningWord: Option<string>)
    requires |s.guessDistribution| == Slots
    ensures var r := Apply(s, won, guessCount, winningWord);
      && r.gamesPlayed == s.gamesPlayed + 1
      && (won ==> r.wins == s.wins + 1 && r.currentStreak == s.currentStreak + 1
                  && r.maxStreak == (if s.currentStreak + 1 > s.maxStreak then s.currentStreak + 1 else s.maxStreak))
      && (!won ==> r == s.(gamesPlayed := s.gamesPlayed + 1, currentStreak := 0))
  {
  }

  /**
   * The distribution: a win in 1 to 6 guesses adds one to exactly that slot
   * and one to the total; any other outcome leaves the distribution as it was.
   */
  lemma ApplyDistribution(s: Record, won: bool, guessCount: int, winningWord: Option<string>)
    requires |s.guessDistribution| == Slots
    ensures var r := Apply(s, won, guessCount, winningWord);
      && |r.guessDistribution| == Slots
      && (forall i :: 0 <= i < Slots ==>
            r.guessDistribution[i] == s.guessDistribution[i] + (if won && i == guessCount - 1 then 1 else 0))
      && Sum(r.guessDistribution) == Sum(s.guessDistribution) + (if won && 1 <= guessCount <= 6 then 1 else 0)
  {
    if won && 1 <= guessCount <= 6 {
      SumBump(s.guessDistribution, guessCount - 1);
    }
  }

  /**
   * The history: a win with a non-empty winning word adds one to that word's
   * count (starting from 0 if it was absent) and leaves every other word as it
   * was; any other outcome leaves the history unchanged.
   */
  lemma ApplyHistory(s: Record, won: bool, guessCount: int, winningWord: Option<string>, w: string)
    requires |s.guessDistribution| == Slots
    ensures var r := Apply(s, won, guessCount, winningWord);
      && (won && winningWord == Some(w) && w != "" ==> w in r.solutionHistory && r.solutionHistory[w] == Lookup(s.solutionHistory, w, 0) + 1)
      && (winningWord != Some(w) || !won || w == "" ==> Lookup(r.solutionHistory, w, 0) == Lookup(s.solutionHistory, w, 0))
      && r.solutionHistory.Keys <= s.solutionHistory.Keys + {w} + (if winningWord.Some? then {winningWord.value} else {})
  {
  }

  /** Every update keeps the invariant, whatever the guess count. */
  lemma ApplyValid(s: Record, won: bool, guessCount: int, winningWord: Option<string>)
    requires Valid(s)
    ensures Valid(Apply(s, won, guessCount, winningWord))
  {
    ApplyDistribution(s, won, guessCount, winningWord);
  }

  /** A win in 1 to 6 guesses, or a loss, keeps the distribution's total equal to the wins. */
  lemma ApplyTallied(s: Record, won: bool, guessCount: int, winningWord: Option<string>)
    requires Valid(s) && Tallied(s)
    requires won ==> 1 <= guessCount <= 6
    ensures Tallied(Apply(s, won, guessCount, winningWord))
  {
    ApplyDistribution(s, won, guessCount, winningWord);
  }

  /** A win with a guess count outside 1 to 6 is counted as a win but in no slot: the total falls one short. */
  lemma OutOfRangeWinUntallies(s: Record, guessCount: int, winningWord: Option<string>)
    requires Valid(s) && Tallied(s)
    requires !(1 <= guessCount <= 6)
    ensures Sum(Apply(s, true, guessCount, winningWord).guessDistribution) == Apply(s, true, guessCount, winningWord).wins - 1
  {
    ApplyDistribution(s, true, guessCount, winningWord);
  }

  // ---------------------------------------------------------------------
  // A sequence of games
  // ---------------------------------------------------------------------

  /** The arguments of one updateStats call. */
  datatype Outcome = Outcome(won: bool, guessCount: int, winningWord: Option<string>)

  /** The record after the games of `os`, in order. */
  function ApplyAll(s: Record, os: seq<Outcome>): (r: Record)
    requires |s.guessDistribution| == Slots
    ensures |r.guessDistribution| == Slots
    decreases |os|
  {
    if os == [] then s
    else ApplyAll(Apply(s, os[0].won, os[0].guessCount, os[0].winningWord), os[1..])
  }

  function WinCount(os: seq<Outcome>): nat
  {
    if os == [] then 0 else (if os[0].won then 1 else 0) + WinCount(os[1..])
  }

  /** The number of wins at the end of `os` since its last loss. */
  function TrailingWins(os: seq<Outcome>): nat
  {
    if os == [] then 0 else if os[|os| - 1].won then TrailingWins(os[..|os| - 1]) + 1 else 0
  }

  lemma {:induction false} ApplyAllSnoc(s: Record, os: seq<Outcome>, o: Outcome)
    requires |s.guessDistribution| == Slots
    ensures ApplyAll(s, os + [o]) == Apply(ApplyAll(s, os), o.won, o.guessCount, o.winningWord)
    decreases |os|
  {
    if os != [] {
      assert (os + [o])[1..] == os[1..] + [o];
      ApplyAllSnoc(Apply(s, os[0].won, os[0].guessCount, os[0].winningWord), os[1..], o);
    }
  }

  /**
   * After a sequence of games: one game played per outcome, one win per won
   * outcome, and the current streak is the run of wins since the last loss
   * (added to the earlier streak when there was no loss).
   */
  lemma {:induction false} ApplyAllCounters(s: Record, os: seq<Outcome>)
    requires |s.guessDistribution| == Slots
    ensures ApplyAll(s, os).gamesPlayed == s.gamesPlayed + |os|
    ensures ApplyAll(s, os).wins == s.wins + WinCount(os)
    ensures ApplyAll(s, os).currentStreak
      == if TrailingWins(os) == |os| then s.currentStreak + |os| else TrailingWins(os)
    decreases |os|
  {
    if os != [] {
      var init, o := os[..|os| - 1], os[|os| - 1];
      assert os == init + [o];
      ApplyAllSnoc(s, init, o);
      ApplyAllCounters(s, init);
      WinCountSnoc(init, o);
    }
  }

  lemma {:induction false} WinCountSnoc(os: seq<Outcome>, o: Outcome)
    ensures WinCount(os + [o]) == WinCount(os) + (if o.won then 1 else 0)
  {
    if os != [] {
      assert (os + [o])[1..] == os[1..] + [o];
      WinCountSnoc(os[1..], o);
    }
  }

  /**
   * The invariant holds after any sequence of games, and the distribution
   * stays tallied when every win took 1 to 6 guesses.
   */
  lemma {:induction false} ApplyAllValid(s: Record, os: seq<Outcome>)
    requires Valid(s)
    ensures Valid(ApplyAll(s, os))
    ensures Tallied(s) && (forall i :: 0 <= i < |os| && os[i].won ==> 1 <= os[i].guessCount <= 6)
      ==> Tallied(ApplyAll(s, os))
    decreases |os|
  {
    if os != [] {
      var o := os[0];
      var next := Apply(s, o.won, o.guessCount, o.winningWord);
      ApplyValid(s, o.won, o.guessCount, o.winningWord);
      ApplyAllValid(next, os[1..]);
      if Tallied(s) && (forall i :: 0 <= i < |os| && os[i].won ==> 1 <= os[i].guessCount <= 6) {
        ApplyTallied(s, o.won, o.guessCount, o.winningWord);
        assert forall i :: 0 <= i < |os[1..]| && os[1..][i].won ==> 1 <= os[1..][i].guessCount <= 6 by {
          forall i | 0 <= i < |os[1..]| ensures os[1..][i] == os[i + 1] {}
        }
      }
    }
  }

  // ---------------------------------------------------------------------
  // Loading
  // ---------------------------------------------------------------------

  /** A fresh player starts from a record that satisfies the invariant and is tallied. */
  lemma InitialValid()
    ensures Valid(Initial()) && Tallied(Initial())
  {
  }

  /**
   * A record from an older version, stored without distribution and history,
   * loads as its counters plus six zero slots and an empty history. It keeps
   * the invariant when its counters are ordered, but its distribution is
   * tallied only if it had no wins.
   */
  lemma LoadLegacy(g: int, w: int, cs: int, ms: int)
    requires 0 <= cs <= ms <= w <= g
    ensures var r := Load(Some(Stored(g, w, cs, ms, None, None)));
      && r == Initial().(gamesPlayed := g, wins := w, currentStreak := cs, maxStreak := ms)
      && Valid(r)
      && (Tallied(r) <==> w == 0)
  {
  }

  /**
   * Saving and loading again gives the same record; so the defaulting of a
   * stored record, legacy or not, is applied only once.
   */
  lemma SaveLoad(r: Record, stored: Stored)
    ensures Load(Some(Save(r))) == r
    ensures Load(Some(Save(Load(Some(stored))))) == Load(Some(stored))
  {
  }
}
