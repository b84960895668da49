/**
 * Scoring of one guess against the secret word (getTileColors in js/main.js).
 *
 * The specification `Score` classifies each position on its own: a position
 * that matches the secret is Exact; any other position is Present when,
 * among the non-matching positions carrying the same letter, fewer lie to its
 * left than the secret has copies of that letter left over after the exact
 * matches. `ScoreGuess` is the source's two-pass algorithm over a letter-count
 * table, proved equal to `Score`.
 */
module Scoring {
  import opened Optional

  /** A tile colour: green, yellow or grey. */
  datatype Tile = Exact | Present | Absent

  /** The letters in a word, a guess and a row of the board. */
  const WordLength: nat := 5

  /** Number of occurrences of `c` in `s`. */
  function Count(s: seq<char>, c: char): nat
  {
    if s == [] then 0 else Count(s[..|s| - 1], c) + (if s[|s| - 1] == c then 1 else 0)
  }

  /**
   * Position `i` of the guess holds the same letter as the secret. A secret
   * shorter than the guess has no letter at `i` and never matches there.
   */
  predicate IsMatch(secret: seq<char>, guess: seq<char>, i: nat)
    requires i < |guess|
  {
    i < |secret| && guess[i] == secret[i]
  }

  /** Matching positions below `n` whose letter is `c`. */
  function Matches(secret: seq<char>, guess: seq<char>, c: char, n: nat): nat
    requires n <= |guess|
  {
    if n == 0 then 0
    else Matches(secret, guess, c, n - 1) + (if IsMatch(secret, guess, n - 1) && guess[n - 1] == c then 1 else 0)
  }

  /** Non-matching positions below `n` whose letter is `c`. */
  function Unmatched(secret: seq<char>, guess: seq<char>, c: char, n: nat): nat
    requires n <= |guess|
  {
    if n == 0 then 0
    else Unmatched(secret, guess, c, n - 1) + (if !IsMatch(secret, guess, n - 1) && guess[n - 1] == c then 1 else 0)
  }

  /** Copies of `c` in the secret that no exact match uses up. */
  function Spare(secret: seq<char>, guess: seq<char>, c: char): int
  {
    Count(secret, c) - Matches(secret, guess, c, |guess|)
  }

  /** The colour of position `i`. */
  function Classify(secret: seq<char>, guess: seq<char>, i: nat): Tile
    requires i < |guess|
  {
    if IsMatch(secret, guess, i) then Exact
    else if Unmatched(secret, guess, guess[i], i) < Spare(secret, guess, guess[i]) then Present
    else Absent
  }

  /** The colours of all positions of the guess. */
  function Score(secret: seq<char>, guess: seq<char>): (r: seq<Tile>)
    ensures |r| == |guess|
  {
    seq(|guess|, i requires 0 <= i < |guess| => Classify(secret, guess, i))
  }

  /** Position `i` of the score is the colour of that position. */
  lemma ScoreAt(secret: seq<char>, guess: seq<char>, i: nat)
    requires i < |guess|
    ensures Score(secret, guess)[i] == Classify(secret, guess, i)
  {
  }

  /** Positions below `n` that carry letter `c` and are coloured (Exact or Present). */
  function Coloured(tiles: seq<Tile>, guess: seq<char>, c: char, n: nat): nat
    requires n <= |guess| <= |tiles|
  {
    if n == 0 then 0
    else Coloured(tiles, guess, c, n - 1) + (if guess[n - 1] == c && tiles[n - 1] != Absent then 1 else 0)
  }

  function Min(a: int, b: int): int { if a <= b then a else b }

  function Max0(a: int): nat { if a < 0 then 0 else a }

  /** The count table's entry for `c`; a letter the table lacks reads as 0. */
  // ---------------------------------------------------------------------
  // The algorithm
  // ---------------------------------------------------------------------

  /** The letter-count table over the secret (targetLetterCounts). */
  method LetterCounts(secret: seq<char>) returns (counts: map<char, int>)
    ensures forall c :: Lookup(counts, c, 0) == Count(secret, c)
  {
    counts := map[];
    var k := 0;
    while k < |secret|
      invariant 0 <= k <= |secret|
      invariant forall c :: Lookup(counts, c, 0) == Count(secret[..k], c)
    {
      assert secret[..k + 1][..k] == secret[..k];
      counts := counts[secret[k] := Lookup(counts, secret[k], 0) + 1];
      k := k + 1;
    }
    assert secret[..k] == secret;
  }

  /**
   * Pass 1 of getTileColors: every position that matches the secret turns
   * green, its letter's count is decremented, and the guess letter there is
   * blanked so that pass 2 skips it.
   */
  method MarkExact(secret: seq<char>, guess: seq<char>, table: map<char, int>)
    returns (result: seq<Tile>, chars: seq<Option<char>>, counts: map<char, int>)
    requires |guess| == 5
    requires forall c :: Lookup(table, c, 0) == Count(secret, c)
    ensures |result| == 5 && |chars| == 5
    ensures forall j :: 0 <= j < 5 ==> result[j] == (if IsMatch(secret, guess, j) then Exact else Absent)
    ensures forall j :: 0 <= j < 5 ==> chars[j] == (if IsMatch(secret, guess, j) then None else Some(guess[j]))
    ensures forall c :: Lookup(counts, c, 0) == Spare(secret, guess, c)
  {
    result := [Absent, Absent, Absent, Absent, Absent];
    chars := seq(5, i requires 0 <= i < 5 => Some(guess[i]));
    counts := table;
    var i := 0;
    while i < 5
      invariant 0 <= i <= 5 && |result| == 5 && |chars| == 5
      invariant forall j :: 0 <= j < 5 ==>
        result[j] == (if j < i && IsMatch(secret, guess, j) then Exact else Absent)
      invariant forall j :: 0 <= j < 5 ==>
        chars[j] == (if j < i && IsMatch(secret, guess, j) then None else Some(guess[j]))
      invariant forall c :: Lookup(counts, c, 0) == Count(secret, c) - Matches(secret, guess, c, i)
    {
      if i < |secret| && guess[i] == secret[i] {
        result := result[i := Exact];
        counts := counts[guess[i] := Lookup(counts, guess[i], 0) - 1];
        chars := chars[i := None];
      }
      i := i + 1;
    }
  }

  /**
   * Pass 2 of getTileColors: a position not blanked by pass 1 turns yellow
   * while the count of its letter is positive, and that count is decremented.
   * The i-th non-blanked copy of a letter (counting from 0) therefore turns
   * yellow exactly when the table held more than i copies of it.
   */
  method MarkPresent(guess: seq<char>, exact: seq<Tile>, chars: seq<Option<char>>, table: map<char, int>)
    returns (result: seq<Tile>)
    requires |guess| == 5 && |exact| == 5 && |chars| == 5
    requires forall j :: 0 <= j < 5 ==> chars[j] == None || chars[j] == Some(guess[j])
    requires forall c :: Lookup(table, c, 0) >= 0
    ensures |result| == 5
    ensures forall j :: 0 <= j < 5 ==> result[j] == (if Yellow(guess, chars, table, j) then Present else exact[j])
  {
    result := exact;
    var counts := table;
    var i := 0;
    while i < 5
      invariant 0 <= i <= 5 && |result| == 5
      invariant forall j :: 0 <= j < 5 ==> result[j] == (if j < i && Yellow(guess, chars, table, j) then Present else exact[j])
      invariant forall c :: Lookup(counts, c, 0) == Max0(Lookup(table, c, 0) - Earlier(guess, chars, c, i))
    {
      if chars[i].Some? {
        var letter := chars[i].value;
        if Lookup(counts, letter, 0) > 0 {
          result := result[i := Present];
          counts := counts[letter := Lookup(counts, letter, 0) - 1];
        }
      }
      i := i + 1;
    }
  }

  /** Pass 2 turns position `j` yellow: it was left in place and its letter has copies left. */
  predicate Yellow(guess: seq<char>, chars: seq<Option<char>>, table: map<char, int>, j: nat)
    requires j < |chars| <= |guess|
  {
    chars[j] != None && Earlier(guess, chars, guess[j], j) < Lookup(table, guess[j], 0)
  }

  /** Positions below `n` that pass 1 left in place and that hold letter `c`. */
  function Earlier(guess: seq<char>, chars: seq<Option<char>>, c: char, n: nat): nat
    requires n <= |chars| <= |guess|
  {
    if n == 0 then 0
    else Earlier(guess, chars, c, n - 1) + (if chars[n - 1] != None && guess[n - 1] == c then 1 else 0)
  }

  /** Pass 1 blanks exactly the matching positions, so Earlier counts the unmatched ones. */
  lemma {:induction false} EarlierIsUnmatched(secret: seq<char>, guess: seq<char>, chars: seq<Option<char>>, c: char, n: nat)
    requires n <= |chars| == |guess|
    requires forall j :: 0 <= j < |guess| ==> chars[j] == (if IsMatch(secret, guess, j) then None else Some(guess[j]))
    ensures Earlier(guess, chars, c, n) == Unmatched(secret, guess, c, n)
  {
    if n > 0 {
      EarlierIsUnmatched(secret, guess, chars, c, n - 1);
    }
  }

  /** getTileColors: the colours of a five-letter guess against the secret. */
  method ScoreGuess(secret: seq<char>, guess: seq<char>) returns (result: seq<Tile>)
    requires |guess| == WordLength
    ensures result == Score(secret, guess)
  {
    var table := LetterCounts(secret);
    var exact, chars, counts := MarkExact(secret, guess, table);
    forall c | true ensures Lookup(counts, c, 0) >= 0 {
      SpareNonNegative(secret, guess, c);
    }
    result := MarkPresent(guess, exact, chars, counts);
    forall j | 0 <= j < 5 ensures result[j] == Score(secret, guess)[j] {
      EarlierIsUnmatched(secret, guess, chars, guess[j], j);
    }
  }

  // ---------------------------------------------------------------------
  // Properties of the scoring
  // ---------------------------------------------------------------------

  lemma {:induction false} CountPrefix(s: seq<char>, c: char, k: nat)
    requires k <= |s|
    ensures Count(s[..k], c) <= Count(s, c)
    decreases |s| - k
  {
    if k < |s| {
      CountPrefix(s, c, k + 1);
      assert s[..k + 1][..k] == s[..k];
    } else {
      assert s[..k] == s;
    }
  }

  lemma {:induction false} MatchesBound(secret: seq<char>, guess: seq<char>, c: char, n: nat)
    requires n <= |guess|
    ensures Matches(secret, guess, c, n) <= Count(secret[..Min(n, |secret|)], c)
  {
    if n > 0 {
      MatchesBound(secret, guess, c, n - 1);
      if n - 1 < |secret| {
        assert secret[..n][..n - 1] == secret[..n - 1];
      }
    }
  }

  /** The exact matches of a letter never use more copies than the secret has. */
  lemma SpareNonNegative(secret: seq<char>, guess: seq<char>, c: char)
    ensures Spare(secret, guess, c) >= 0
  {
    MatchesBound(secret, guess, c, |guess|);
    CountPrefix(secret, c, Min(|guess|, |secret|));
  }

  /** Every position of the secret counts towards its own letter. */
  lemma {:induction false} CountPositive(s: seq<char>, k: nat)
    requires k < |s|
    ensures Count(s, s[k]) > 0
  {
    if k < |s| - 1 {
      CountPositive(s[..|s| - 1], k);
    }
  }

  /** The occurrences of a letter in a guess prefix are its matching plus its non-matching positions. */
  lemma {:induction false} GuessOccurrences(secret: seq<char>, guess: seq<char>, c: char, n: nat)
    requires n <= |guess|
    ensures Count(guess[..n], c) == Matches(secret, guess, c, n) + Unmatched(secret, guess, c, n)
  {
    if n > 0 {
      GuessOccurrences(secret, guess, c, n - 1);
      assert guess[..n][..n - 1] == guess[..n - 1];
    }
  }

  /** Among the first `n` positions, the coloured copies of `c` are its matches plus as many other copies as the secret has spare. */
  lemma {:induction false} ColouredPrefix(secret: seq<char>, guess: seq<char>, c: char, n: nat)
    requires n <= |guess|
    ensures Coloured(Score(secret, guess), guess, c, n)
      == Matches(secret, guess, c, n) + Min(Unmatched(secret, guess, c, n), Spare(secret, guess, c))
  {
    if n > 0 {
      ColouredPrefix(secret, guess, c, n - 1);
      var tiles := Score(secret, guess);
      var m, u, s := Matches(secret, guess, c, n - 1), Unmatched(secret, guess, c, n - 1), Spare(secret, guess, c);
      ScoreAt(secret, guess, n - 1);
      assert Coloured(tiles, guess, c, n)
        == Coloured(tiles, guess, c, n - 1) + (if guess[n - 1] == c && tiles[n - 1] != Absent then 1 else 0);
      if guess[n - 1] != c {
        assert Matches(secret, guess, c, n) == m && Unmatched(secret, guess, c, n) == u;
      } else if IsMatch(secret, guess, n - 1) {
        assert Matches(secret, guess, c, n) == m + 1 && Unmatched(secret, guess, c, n) == u;
      } else {
        assert Matches(secret, guess, c, n) == m && Unmatched(secret, guess, c, n) == u + 1;
        assert tiles[n - 1] != Absent <==> u < s;
      }
    } else {
      SpareNonNegative(secret, guess, c);
    }
  }

  /**
   * Repeated-letter accounting: the number of green or yellow tiles carrying
   * letter `c` is the smaller of its number of copies in the secret and in
   * the guess. In particular it never exceeds the copies in the secret.
   */
  lemma ColouredCount(secret: seq<char>, guess: seq<char>, c: char)
    ensures Coloured(Score(secret, guess), guess, c, |guess|) == Min(Count(secret, c), Count(guess, c))
    ensures Coloured(Score(secret, guess), guess, c, |guess|) <= Count(secret, c)
  {
    ColouredPrefix(secret, guess, c, |guess|);
    GuessOccurrences(secret, guess, c, |guess|);
    assert guess[..|guess|] == guess;
  }

  /**
   * What one tile means: green exactly at the positions that match the
   * secret; yellow only at a non-matching position whose letter occurs in
   * the secret; a letter the secret lacks is always grey.
   */
  lemma TileMeaning(secret: seq<char>, guess: seq<char>, i: nat)
    requires i < |guess|
    ensures |Score(secret, guess)| == |guess|
    ensures Score(secret, guess)[i] == Exact <==> i < |secret| && guess[i] == secret[i]
    ensures Score(secret, guess)[i] == Present ==> !IsMatch(secret, guess, i) && Count(secret, guess[i]) > 0
    ensures Count(secret, guess[i]) == 0 ==> Score(secret, guess)[i] == Absent
  {
    if IsMatch(secret, guess, i) {
      CountPositive(secret, i);
    }
  }

  /** Guessing the secret itself turns every tile green. */
  lemma SecretIsAllGreen(secret: seq<char>)
    ensures Score(secret, secret) == seq(|secret|, _ => Exact)
  {
  }

  lemma {:induction false} UnmatchedGrows(secret: seq<char>, guess: seq<char>, j: nat, n: nat)
    requires j < n <= |guess|
    requires !IsMatch(secret, guess, j)
    ensures Unmatched(secret, guess, guess[j], j) < Unmatched(secret, guess, guess[j], n)
  {
    if n > j + 1 {
      UnmatchedGrows(secret, guess, j, n - 1);
    }
  }

  /**
   * Yellow goes to the leftmost copies: when a position is yellow, every
   * non-matching copy of its letter further left is yellow too.
   */
  lemma YellowLeftmostFirst(secret: seq<char>, guess: seq<char>, j: nat, i: nat)
    requires j < i < |guess|
    requires guess[j] == guess[i] && !IsMatch(secret, guess, j)
    requires Score(secret, guess)[i] == Present
    ensures Score(secret, guess)[j] == Present
  {
    UnmatchedGrows(secret, guess, j, i);
  }

  /**
   * A grey tile on a letter the secret contains means all of the secret's
   * copies of that letter are already shown green or yellow.
   */
  lemma GreyMeansUsedUp(secret: seq<char>, guess: seq<char>, i: nat)
    requires i < |guess|
    requires Score(secret, guess)[i] == Absent
    ensures Coloured(Score(secret, guess), guess, guess[i], |guess|) == Count(secret, guess[i])
  {
    UnmatchedGrows(secret, guess, i, |guess|);
    ColouredPrefix(secret, guess, guess[i], |guess|);
  }

  /** Counting one more position of a prefix. */
  lemma CountStep(w: seq<char>, c: char, k: nat)
    requires k < |w|
    ensures Count(w[..k + 1], c) == Count(w[..k], c) + (if w[k] == c then 1 else 0)
  {
    assert w[..k + 1][..k] == w[..k];
  }

  /** Letter counts of a five-letter word, position by position. */
  lemma CountFive(w: seq<char>, c: char)
    requires |w| == 5
    ensures Count(w, c) == (if w[0] == c then 1 else 0) + (if w[1] == c then 1 else 0)
      + (if w[2] == c then 1 else 0) + (if w[3] == c then 1 else 0) + (if w[4] == c then 1 else 0)
  {
    CountStep(w, c, 0); CountStep(w, c, 1); CountStep(w, c, 2); CountStep(w, c, 3); CountStep(w, c, 4);
    assert w[..5] == w;
  }

  /**
   * Worked case: in SPEED / ERASE no position matches (the secret ends in
   * D), so both Es of the guess and its S are yellow while R and A are grey.
   */
  lemma ExampleSpeedErase()
    ensures Score("SPEED", "ERASE") == [Present, Absent, Absent, Present, Present]
  {
    CountFive("SPEED", 'E'); CountFive("SPEED", 'R'); CountFive("SPEED", 'A'); CountFive("SPEED", 'S');
  }

  /** Worked case: the secret has two Es, so only the first two of the guess's three unmatched Es are yellow. */
  lemma ExampleSpeedEerie()
    ensures Score("SPEED", "EERIE") == [Present, Present, Absent, Absent, Absent]
  {
    CountFive("SPEED", 'E'); CountFive("SPEED", 'R'); CountFive("SPEED", 'I');
  }

  /** Worked case: letters the secret lacks are grey; E occurs elsewhere and is yellow. */
  lemma ExampleCraneBoxed()
    ensures Score("CRANE", "BOXED") == [Absent, Absent, Absent, Present, Absent]
  {
    CountFive("CRANE", 'B'); CountFive("CRANE", 'O'); CountFive("CRANE", 'X'); CountFive("CRANE", 'E'); CountFive("CRANE", 'D');
  }
}
