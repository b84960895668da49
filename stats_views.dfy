/**
 * The figures the statistics and history dialogs show (updateStatsUI and
 * updateHistoryUI in js/main.js): the rounded win percentage, the longest
 * bar of the guess histogram and each bar's width, and the ranking of the
 * solution history.
 */
module StatsViews {

  // ---------------------------------------------------------------------
  // Win percentage
  // ---------------------------------------------------------------------

  /**
   * Math.round(wins / gamesPlayed * 100), or 0 before the first game. The
   * division is exact here: the result is the integer nearest to
   * 100 * wins / gamesPlayed, halves rounded up as Math.round does. The page
   * rounds a floating-point product instead and can land one below on an
   * exact half: 23 of 40 gives 58 here, but 0.575 * 100 is 57.49999999999999
   * in floating point and the page shows 57.
   */
  function WinPercentage(gamesPlayed: int, wins: int): (r: int)
    ensures gamesPlayed > 0 ==> -gamesPlayed <= 2 * (100 * wins - r * gamesPlayed) < gamesPlayed
    ensures gamesPlayed <= 0 ==> r == 0
    ensures gamesPlayed > 0 && 0 <= wins <= gamesPlayed ==> 0 <= r <= 100
  {
    if gamesPlayed > 0 then
      var q := (200 * wins + gamesPlayed) / (2 * gamesPlayed);
      DivBounds(200 * wins + gamesPlayed, 2 * gamesPlayed);
      assert 2 * gamesPlayed * q == 2 * (q * gamesPlayed);
      if 0 <= wins <= gamesPlayed then
        assert q * (2 * gamesPlayed) <= 200 * gamesPlayed + gamesPlayed < 101 * (2 * gamesPlayed);
        assert q < 101 by { if q >= 101 { MulMono(2 * gamesPlayed, 101, q); } }
        q
      else q
    else 0
  }

  lemma DivBounds(a: int, b: int)
    requires b > 0
    ensures b * (a / b) <= a < b * (a / b) + b
  {
  }

  lemma MulMono(b: int, x: int, y: int)
    requires b > 0 && x <= y
    ensures x * b <= y * b
  {
  }

  lemma Distribute(a: int, b: int, g: int)
    ensures (a - b) * g == a * g - b * g
  {
  }

  /** The percentage is the only integer that close to 100 * wins / gamesPlayed. */
  lemma WinPercentageUnique(gamesPlayed: int, wins: int, p: int)
    requires gamesPlayed > 0
    requires -gamesPlayed <= 2 * (100 * wins - p * gamesPlayed) < gamesPlayed
    ensures p == WinPercentage(gamesPlayed, wins)
  {
    var r := WinPercentage(gamesPlayed, wins);
    if p < r {
      MulMono(gamesPlayed, 1, r - p);
      Distribute(r, p, gamesPlayed);
    } else if p > r {
      MulMono(gamesPlayed, 1, p - r);
      Distribute(p, r, gamesPlayed);
    }
  }

  // ---------------------------------------------------------------------
  // Histogram
  // ---------------------------------------------------------------------

  /** Math.max(...guessDistribution, 1): the longest bar, never below 1. */
  function HistogramMax(dist: seq<int>): (m: int)
    ensures m >= 1
    ensures forall i :: 0 <= i < |dist| ==> dist[i] <= m
    ensures m == 1 || m in dist
  {
    if dist == [] then 1
    else
      var rest := HistogramMax(dist[1..]);
      if dist[0] > rest then dist[0] else rest
  }

  /** A bar width as the fraction num / den of the full width. */
  datatype Width = Width(num: int, den: int)

  /** Math.max(count / maxVal * 100, 0) percent, kept as an exact fraction. */
  function BarWidth(count: int, maxVal: int): (w: Width)
    ensures w.num >= 0
    ensures maxVal > 0 ==> w.den > 0
    ensures w.num * maxVal == (if count < 0 then 0 else 100 * count) * w.den
  {
    if count < 0 then Width(0, 1) else Width(100 * count, maxVal)
  }

  /**
   * Every bar of the histogram is between 0 and 100 percent wide, and a bar
   * is full width exactly when its count is the histogram's maximum.
   */
  lemma BarWidthBounds(dist: seq<int>, i: nat)
    requires i < |dist|
    ensures var w := BarWidth(dist[i], HistogramMax(dist));
      && w.den >= 1 && 0 <= w.num <= 100 * w.den
      && (w.num == 100 * w.den <==> dist[i] == HistogramMax(dist))
  {
  }

  // ---------------------------------------------------------------------
  // History ranking
  // ---------------------------------------------------------------------

  /** One entry of the solution history: a word and how often it was won. */
  datatype Entry = Entry(word: string, count: int)

  /** Strict lexicographic order on strings, by character code. */
  predicate LexLess(a: string, b: string)
  {
    if a == [] then b != []
    else if b == [] then false
    else if a[0] != b[0] then a[0] < b[0]
    else LexLess(a[1..], b[1..])
  }

  /** a[0].localeCompare(b[0]) in character-code order: negative, zero or positive. */
  function LexCompare(a: string, b: string): int
  {
    if LexLess(a, b) then -1 else if a == b then 0 else 1
  }

  /**
   * The sort comparator: by count, higher first; equal counts by word,
   * alphabetically. A negative result puts `a` first.
   */
  function Compare(a: Entry, b: Entry): (r: int)
    ensures r == 0 <==> a == b
    ensures a.count > b.count ==> r < 0
    ensures a.count == b.count ==> (r < 0 <==> LexLess(a.word, b.word))
  {
    LexTrichotomy(a.word, a.word);
    if b.count != a.count then b.count - a.count else LexCompare(a.word, b.word)
  }

  /** `a` is ranked before `b`. */
  predicate Before(a: Entry, b: Entry)
  {
    Compare(a, b) < 0
  }

  lemma {:induction false} LexTrichotomy(a: string, b: string)
    ensures a == b || LexLess(a, b) || LexLess(b, a)
    ensures !(LexLess(a, b) && LexLess(b, a))
    ensures !LexLess(a, a)
  {
    if a != [] && b != [] {
      LexTrichotomy(a[1..], b[1..]);
      if a[0] == b[0] && a[1..] == b[1..] {
        assert a == [a[0]] + a[1..] && b == [b[0]] + b[1..];
      }
    } else if a != [] {
      LexTrichotomy(a[1..], a[1..]);
    }
  }

  lemma {:induction false} LexTransitive(a: string, b: string, c: string)
    requires LexLess(a, b) && LexLess(b, c)
    ensures LexLess(a, c)
  {
    if a != [] && b != [] && c != [] && a[0] == b[0] && b[0] == c[0] {
      LexTransitive(a[1..], b[1..], c[1..]);
    }
  }

  /**
   * The comparator is a strict total order on entries: it puts no entry
   * before itself, orders any two different entries one way and never both
   * ways, and is transitive. So the ranking does not depend on the sort.
   */
  lemma CompareIsOrder(a: Entry, b: Entry, c: Entry)
    ensures !Before(a, a)
    ensures a != b ==> (Before(a, b) <==> !Before(b, a))
    ensures Before(a, b) && Before(b, c) ==> Before(a, c)
  {
    LexTrichotomy(a.word, b.word);
    LexTrichotomy(a.word, a.word);
    if Before(a, b) && Before(b, c) && a.count == b.count == c.count {
      LexTransitive(a.word, b.word, c.word);
    }
  }

  /** Every entry of `es` comes before every later one. */
  predicate Ranked(es: seq<Entry>)
  {
    forall i, j :: 0 <= i < j < |es| ==> Before(es[i], es[j])
  }

  /** Insert `e` into a ranked list at its place. */
  function Insert(e: Entry, es: seq<Entry>): (r: seq<Entry>)
    ensures multiset(r) == multiset(es) + multiset{e}
  {
    if es == [] || Before(e, es[0]) then [e] + es
    else
      assert es == [es[0]] + es[1..];
      [es[0]] + Insert(e, es[1..])
  }

  /** entries.sort(comparator): the history entries in ranked order. */
  function Rank(es: seq<Entry>): (r: seq<Entry>)
    ensures multiset(r) == multiset(es)
  {
    if es == [] then []
    else
      assert es == [es[0]] + es[1..];
      Insert(es[0], Rank(es[1..]))
  }

  lemma ConsRanked(h: Entry, r: seq<Entry>)
    requires Ranked(r) && forall k :: 0 <= k < |r| ==> Before(h, r[k])
    ensures Ranked([h] + r)
  {
    forall i, j | 0 <= i < j < |r| + 1 ensures Before(([h] + r)[i], ([h] + r)[j]) {
      if i > 0 {
        assert ([h] + r)[i] == r[i - 1];
      }
    }
  }

  /** The head of a ranked list comes before every entry of a list made of its tail and a later entry. */
  lemma HeadBeforeAll(es: seq<Entry>, e: Entry, r: seq<Entry>)
    requires Ranked(es) && es != [] && Before(es[0], e)
    requires multiset(r) == multiset(es[1..]) + multiset{e}
    ensures forall k :: 0 <= k < |r| ==> Before(es[0], r[k])
  {
    forall k | 0 <= k < |r| ensures Before(es[0], r[k]) {
      assert r[k] in multiset(es[1..]) + multiset{e};
      if r[k] != e {
        assert r[k] in es[1..];
      }
    }
  }

  lemma {:induction false} InsertRanked(e: Entry, es: seq<Entry>)
    requires Ranked(es) && e !in es
    ensures Ranked(Insert(e, es)) && multiset(Insert(e, es)) == multiset(es) + multiset{e}
  {
    if es != [] && !Before(e, es[0]) {
      CompareIsOrder(e, es[0], e);
      InsertRanked(e, es[1..]);
      var r := Insert(e, es[1..]);
      HeadBeforeAll(es, e, r);
      ConsRanked(es[0], r);
      assert es == [es[0]] + es[1..];
    } else if es != [] {
      forall k | 0 <= k < |es| ensures Before(e, es[k]) {
        CompareIsOrder(e, es[0], es[k]);
      }
      ConsRanked(e, es);
    } else {
      ConsRanked(e, es);
    }
  }

  /**
   * Ranking a history (distinct words, as Object.entries yields them) gives
   * a list in ranked order holding the same entries.
   */
  lemma {:induction false} RankCorrect(es: seq<Entry>)
    requires forall i, j :: 0 <= i < j < |es| ==> es[i].word != es[j].word
    ensures Ranked(Rank(es)) && multiset(Rank(es)) == multiset(es)
  {
    if es != [] {
      var tail := es[1..];
      assert forall i, j :: 0 <= i < j < |tail| ==> tail[i].word != tail[j].word by {
        forall i, j | 0 <= i < j < |tail| ensures tail[i].word != tail[j].word {
          assert tail[i] == es[i + 1] && tail[j] == es[j + 1];
        }
      }
      RankCorrect(tail);
      var r := Rank(tail);
      assert es[0] !in tail by {
        forall k | 0 <= k < |tail| ensures tail[k] != es[0] {
          assert tail[k] == es[k + 1];
        }
      }
      assert es[0] !in r by {
        assert es[0] !in multiset(tail);
      }
      InsertRanked(es[0], r);
    }
  }

  /** Two ranked lists with the same entries start with the same entry. */
  lemma RankedHead(a: seq<Entry>, b: seq<Entry>)
    requires Ranked(a) && Ranked(b) && multiset(a) == multiset(b) && a != []
    ensures b != [] && a[0] == b[0]
  {
    assert a[0] in multiset(b);
    var k :| 0 <= k < |b| && b[k] == a[0];
    assert b[0] in multiset(a);
    var m :| 0 <= m < |a| && a[m] == b[0];
    if k > 0 {
      CompareIsOrder(a[0], a[0], a[0]);
      if m > 0 {
        CompareIsOrder(a[0], a[m], a[0]);
      }
      assert false;
    }
  }

  /**
   * Two ranked lists with the same entries are equal: whatever order
   * Object.entries lists the history in, and whichever sort runs, the ranking
   * shown is the same.
   */
  lemma {:induction false} RankedUnique(a: seq<Entry>, b: seq<Entry>)
    requires Ranked(a) && Ranked(b) && multiset(a) == multiset(b)
    ensures a == b
    decreases |a|
  {
    if a != [] {
      RankedHead(a, b);
      var x := a[0];
      assert a == [x] + a[1..] && b == [x] + b[1..];
      assert multiset(a[1..]) == multiset(b[1..]) by {
        assert multiset(a) == multiset{x} + multiset(a[1..]);
        assert multiset(b) == multiset{x} + multiset(b[1..]);
        assert multiset(a[1..]) == multiset(a) - multiset{x};
        assert multiset(b[1..]) == multiset(b) - multiset{x};
      }
      RankedUnique(a[1..], b[1..]);
    }
  }

  /** Worked case: MAUS and BAUM were both won three times, so BAUM comes first; KATZE, won once, last. */
  lemma RankExample()
    ensures Rank([Entry("MAUS", 3), Entry("BAUM", 3), Entry("KATZE", 1)])
      == [Entry("BAUM", 3), Entry("MAUS", 3), Entry("KATZE", 1)]
  {
    assert LexLess("BAUM", "MAUS");
  }
}
