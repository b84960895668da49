/**
 * The game state of js/main.js: the rows typed so far (guessedWords), the
 * number of the next free tile (availableSpace), the number of submitted rows
 * (guessedWordCount), the secret word, and what a submission does to the
 * board, the keyboard and the statistics.
 *
 * The page builds a board of 30 squares with ids 1 to 30 (createSquares).
 * When a row past the sixth is typed or submitted, the handlers look up
 * squares that do not exist; the model follows what the handlers have done to
 * the game state by the time that lookup fails.
 */
module Game {
  import opened Optional
  import opened Scoring
  import Words
  import Keyboard
  import Statistics
  import Share

  /** Squares on the board: six rows of five. */
  const Tiles: nat := 30
  const MaxRows: nat := 6

  /** How handleSubmitWord ended: the row was short, unknown, refused because the game was over, or scored. */
  datatype Submitted = NotEnoughLetters | NotInList | GameOver | Scored(tiles: seq<Tile>)

  /**
   * The entry buffer: the submitted rows are full, the current row holds at
   * most five letters, and while the row has squares on the board the cursor
   * is the id of the square after its last letter. Past the board the cursor
   * only runs ahead, because a deletion there stops before moving it back.
   */
  ghost predicate RowsCursor(rows: seq<seq<char>>, count: int, space: int)
  {
    && rows != []
    && count == |rows| - 1
    && (forall i :: 0 <= i < count ==> |rows[i]| == WordLength)
    && |rows[count]| <= WordLength
    && if count < MaxRows then space == 1 + WordLength * count + |rows[count]|
       else space >= 1 + Tiles + |rows[count]|
  }

  /** Submitting a full row opens an empty one and leaves the cursor where it is. */
  lemma CursorNext(rows: seq<seq<char>>, count: int, space: int)
    requires RowsCursor(rows, count, space) && |rows[count]| == WordLength
    ensures RowsCursor(rows + [[]], count + 1, space)
  {
    forall i | 0 <= i < count + 1 ensures |(rows + [[]])[i]| == WordLength {
      assert (rows + [[]])[i] == rows[i];
    }
  }

  /**
   * The first min(count, 6) rows of `rows` are painted on `board`, each with
   * its score against the secret.
   */
  ghost predicate PaintedRows(board: seq<seq<Tile>>, rows: seq<seq<char>>, count: int, word: Option<string>)
  {
    && |board| == Min(count, MaxRows)
    && |board| <= |rows|
    && (board != [] ==> word.Some?)
    && forall i :: 0 <= i < |board| ==> board[i] == Score(word.value, Words.UpperString(rows[i]))
  }

  /** Submitting the current row keeps the board in step with the rows. */
  lemma PaintedNext(board: seq<seq<Tile>>, rows: seq<seq<char>>, count: int, word: Option<string>, tiles: seq<Tile>)
    requires PaintedRows(board, rows, count, word) && 0 <= count == |rows| - 1 && word.Some?
    requires tiles == Score(word.value, Words.UpperString(rows[count]))
    ensures PaintedRows(if count < MaxRows then board + [tiles] else board, rows + [[]], count + 1, word)
  {
    var next := if count < MaxRows then board + [tiles] else board;
    forall i | 0 <= i < |next| ensures next[i] == Score(word.value, Words.UpperString((rows + [[]])[i])) {
      assert (rows + [[]])[i] == rows[i];
    }
  }

  class Session {
    var guessedWords: seq<seq<char>>
    var availableSpace: int
    var guessedWordCount: int
    /** The secret; undefined until a word list with at least one word has been loaded. */
    var word: Option<string>
    const wordList: seq<string>
    /** The colours painted on the submitted rows that have squares on the board. */
    var board: seq<seq<Tile>>
    const keyboard: Keyboard.Keys
    const stats: Statistics.Stats
    /** The statistics when this game began, and the updateStats calls it has made since. */
    ghost var start: Statistics.Record
    ghost var outcomes: seq<Statistics.Outcome>

    /** getCurrentWordArr: the row being typed. */
    function CurrentRow(): (row: seq<char>)
      reads this
      requires guessedWords != []
      ensures guessedWords == guessedWords[..|guessedWords| - 1] + [row]
    {
      guessedWords[|guessedWords| - 1]
    }

    /**
     * The entry buffer: the submitted rows are full, the current row holds at
     * most five letters, and while the row has squares on the board the cursor
     * is the id of the square after its last letter. Past the board the cursor
     * only runs ahead, because a deletion there stops before moving it back.
     */
    ghost predicate Cursor()
      reads this
    {
      RowsCursor(guessedWords, guessedWordCount, availableSpace)
    }

    /** The secret is a word of the list, and is defined exactly when the list is not empty. */
    ghost predicate Picked()
      reads this
    {
      (word.Some? <==> wordList != []) && (word.Some? ==> word.value in wordList)
    }

    /** Each submitted row on the board shows the score of that row against the secret. */
    ghost predicate Painted()
      reads this
    {
      Cursor() && PaintedRows(board, guessedWords, guessedWordCount, word)
    }

    /** The statistics are the starting record with this game's updates applied. */
    ghost predicate Recorded()
      reads this, stats, stats.guessDistribution
    {
      && stats.Shaped()
      && |start.guessDistribution| == Statistics.Slots
      && stats.Value() == Statistics.ApplyAll(start, outcomes)
    }

    ghost predicate Valid()
      reads this, stats, stats.guessDistribution
    {
      Cursor() && Picked() && Painted() && Recorded()
    }

    /**
     * The game is decided: six rows have been submitted, or the last
     * submitted row spelled the secret.
     */
    predicate Over()
      reads this
      requires guessedWords != [] && 0 <= guessedWordCount < |guessedWords|
    {
      || guessedWordCount >= MaxRows
      || (guessedWordCount >= 1 && word == Some(Words.UpperString(guessedWords[guessedWordCount - 1])))
    }

    /** A game records one statistics update once it is decided and none before. */
    ghost predicate OneOutcome()
      reads this, stats, stats.guessDistribution
      requires Valid()
    {
      |outcomes| == if Over() then 1 else 0
    }

    /** Every win of this game was recorded with a guess count the distribution has a slot for. */
    ghost predicate WinsInRange()
      reads this
    {
      forall i :: 0 <= i < |outcomes| && outcomes[i].won ==> 1 <= outcomes[i].guessCount <= MaxRows
    }

    /**
     * The page after start-up: an empty first row, the cursor on square 1 and
     * the secret picked at index `pick` of the loaded list (Math.random is
     * the caller's choice of `pick`).
     */
    constructor (wordList: seq<string>, pick: nat, keyboard: Keyboard.Keys, stats: Statistics.Stats)
      requires stats.Shaped()
      requires wordList != [] ==> pick < |wordList|
      ensures Valid() && OneOutcome() && WinsInRange()
      ensures guessedWords == [[]] && availableSpace == 1 && guessedWordCount == 0 && board == []
      ensures word == (if wordList != [] then Some(wordList[pick]) else None)
      ensures this.wordList == wordList && this.keyboard == keyboard && this.stats == stats
      ensures outcomes == []
    {
      guessedWords := [[]];
      availableSpace := 1;
      guessedWordCount := 0;
      word := if wordList != [] then Some(wordList[pick]) else None;
      this.wordList := wordList;
      board := [];
      this.keyboard := keyboard;
      this.stats := stats;
      start := stats.Value();
      outcomes := [];
    }

    /**
     * updateGuessedWords: a letter joins the current row only when the row has
     * fewer than five letters, and then the cursor moves on by one square.
     */
    method UpdateGuessedWords(letter: char)
      requires Valid()
      modifies this`guessedWords, this`availableSpace
      ensures Valid()
      ensures old(|CurrentRow()|) < WordLength ==>
        && guessedWords == old(guessedWords[..guessedWordCount] + [CurrentRow() + [letter]])
        && availableSpace == old(availableSpace) + 1
      ensures old(|CurrentRow()|) >= WordLength ==>
        guessedWords == old(guessedWords) && availableSpace == old(availableSpace)
    {
      var current := guessedWords[|guessedWords| - 1];
      if |current| < WordLength {
        guessedWords := guessedWords[..|guessedWords| - 1] + [current + [letter]];
        availableSpace := availableSpace + 1;
        assert forall i :: 0 <= i < guessedWordCount ==> guessedWords[i] == old(guessedWords[i]);
      }
    }

    /**
     * handleDeleteLetter: the last letter of a non-empty current row is
     * removed and the cursor moves back by one square. When that square is
     * past the board (a seventh or later row) its lookup fails after the
     * letter is gone, so the cursor stays where it was.
     */
    method HandleDeleteLetter()
      requires Valid()
      modifies this`guessedWords, this`availableSpace
      ensures Valid()
      ensures old(|CurrentRow()|) > 0 ==>
        && guessedWords == old(guessedWords[..guessedWordCount] + [CurrentRow()[..|CurrentRow()| - 1]])
        && availableSpace == old(if availableSpace - 1 <= Tiles then availableSpace - 1 else availableSpace)
      ensures old(|CurrentRow()|) == 0 ==>
        guessedWords == old(guessedWords) && availableSpace == old(availableSpace)
      ensures old(guessedWordCount) < MaxRows ==> availableSpace == old(availableSpace) - (old(|CurrentRow()|) - |CurrentRow()|)
    {
      var current := guessedWords[|guessedWords| - 1];
      if |current| > 0 {
        guessedWords := guessedWords[..|guessedWords| - 1] + [current[..|current| - 1]];
        assert forall i :: 0 <= i < guessedWordCount ==> guessedWords[i] == old(guessedWords[i]);
        if availableSpace - 1 <= Tiles {
          availableSpace := availableSpace - 1;
        }
      }
    }

    /**
     * The new state after a submission that was scored: one more row
     * submitted and a fresh empty row to type in; the row is painted and the
     * keyboard recoloured when it has squares on the board; a win records a
     * win with the new row count, and the sixth row that misses records a loss.
     */
    twostate predicate ScoredEffect(tiles: seq<Tile>)
      reads this, keyboard, stats, stats.guessDistribution
      requires old(guessedWords) != []
    {
      && RowEffect(tiles)
      && keyboard.colors == (if old(guessedWordCount) < MaxRows
                             then Keyboard.RecolourRow(old(keyboard.colors), keyboard.keys, old(CurrentRow()), tiles)
                             else old(keyboard.colors))
    }

    /** The part of a scored submission that the handler does before it returns. */
    twostate predicate RowEffect(tiles: seq<Tile>)
      reads this, stats, stats.guessDistribution
      requires old(guessedWords) != []
    {
      var row := old(CurrentRow());
      var guess := Words.UpperString(row);
      && old(word).Some?
      && tiles == Score(old(word).value, guess)
      && |tiles| == |row|
      && guessedWords == old(guessedWords) + [[]]
      && guessedWordCount == old(guessedWordCount) + 1
      && availableSpace == old(availableSpace)
      && word == old(word)
      && board == (if old(guessedWordCount) < MaxRows then old(board) + [tiles] else old(board))
      && start == old(start)
      && outcomes == old(outcomes) + (
           if Some(guess) == old(word) then [Statistics.Outcome(true, guessedWordCount, old(word))]
           else if old(|guessedWords|) == MaxRows then [Statistics.Outcome(false, 0, None)]
           else [])
    }

    /**
     * handleSubmitWord as written: a row that is not five letters long, or
     * whose upper-cased spelling is not in the list, is refused and changes
     * nothing; any other row is scored against the secret, whether or not the
     * game is already decided.
     */
    method HandleSubmitWord() returns (r: Submitted)
      requires Valid()
      modifies this, keyboard, stats, stats.guessDistribution
      ensures Valid()
      ensures r.NotEnoughLetters? <==> old(|CurrentRow()|) != WordLength
      ensures r.NotInList? <==> old(|CurrentRow()| == WordLength && Words.UpperString(CurrentRow()) !in wordList)
      ensures !r.GameOver?
      ensures !r.Scored? ==> unchanged(this, keyboard, stats) && stats.Value() == old(stats.Value())
      ensures r.Scored? ==> ScoredEffect(r.tiles)
    {
      var current := guessedWords[|guessedWords| - 1];
      if |current| != WordLength {
        return NotEnoughLetters;
      }
      var guess := Words.UpperString(current);
      if guess !in wordList {
        return NotInList;
      }
      var count := guessedWordCount;
      var tiles := ScoreRow(current, guess);
      if count < MaxRows {
        PaintKeys(current, tiles);
      }
      return Scored(tiles);
    }

    /**
     * The scoring half of handleSubmitWord, for a row that passed both checks.
     * The tiles flip and recolour the keyboard on timers that fire after the
     * handler has returned; the caller does that part.
     */
    method ScoreRow(current: seq<char>, guess: string) returns (tiles: seq<Tile>)
      requires Valid()
      requires current == CurrentRow() && |current| == WordLength
      requires guess == Words.UpperString(current) && guess in wordList
      modifies this, stats, stats.guessDistribution
      ensures Valid()
      ensures RowEffect(tiles)
    {
      var secret := word.value;
      tiles := ScoreGuess(secret, guess);
      var count := guessedWordCount;
      Tally(guess == secret, secret, count + 1, |guessedWords|);
      board, guessedWordCount, guessedWords :=
        (if count < MaxRows then board + [tiles] else board), count + 1, guessedWords + [[]];
      CursorNext(old(guessedWords), count, availableSpace);
      PaintedNext(old(board), old(guessedWords), count, word, tiles);
    }

    /**
     * The statistics part of handleSubmitWord, once the count has been
     * raised: a win records the new count and the secret; otherwise, when
     * the sixth row has just missed, a loss.
     */
    method Tally(won: bool, secret: string, count: int, rows: int)
      requires Recorded()
      modifies stats, stats.guessDistribution, this`outcomes
      ensures Recorded()
      ensures outcomes == old(outcomes) + (
        if won then [Statistics.Outcome(true, count, Some(secret))]
        else if rows == MaxRows then [Statistics.Outcome(false, 0, None)]
        else [])
    {
      if won {
        stats.UpdateStats(true, count, Some(secret));
        RecordOutcome(Statistics.Outcome(true, count, Some(secret)));
      } else if rows == MaxRows {
        stats.UpdateStats(false, 0, None);
        RecordOutcome(Statistics.Outcome(false, 0, None));
      }
    }

    /** Account for the updateStats call just made. */
    ghost method RecordOutcome(o: Statistics.Outcome)
      requires |start.guessDistribution| == Statistics.Slots && stats.Shaped()
      requires stats.Value() == Statistics.Apply(Statistics.ApplyAll(start, outcomes), o.won, o.guessCount, o.winningWord)
      modifies this`outcomes
      ensures outcomes == old(outcomes) + [o]
      ensures Recorded()
    {
      Statistics.ApplyAllSnoc(start, outcomes, o);
      outcomes := outcomes + [o];
    }

    /** The updateKeyboardColor call of each flipped tile, in order along the row. */
    method PaintKeys(letters: seq<char>, tiles: seq<Tile>)
      requires |letters| == |tiles|
      modifies keyboard
      ensures keyboard.colors == Keyboard.RecolourRow(old(keyboard.colors), keyboard.keys, letters, tiles)
    {
      var i := 0;
      while i < |letters|
        invariant 0 <= i <= |letters|
        invariant keyboard.colors == Keyboard.RecolourRow(old(keyboard.colors), keyboard.keys, letters[..i], tiles[..i])
      {
        Keyboard.RecolourRowSnoc(old(keyboard.colors), keyboard.keys, letters[..i], tiles[..i], letters[i], tiles[i]);
        assert letters[..i + 1] == letters[..i] + [letters[i]];
        assert tiles[..i + 1] == tiles[..i] + [tiles[i]];
        keyboard.UpdateKeyboardColor(letters[i], tiles[i]);
        i := i + 1;
      }
      assert letters[..i] == letters && tiles[..i] == tiles;
    }

    /**
     * handleSubmitWord with the guard it lacks: once the game is decided
     * every submission is refused. Otherwise it is the submission as written.
     * This keeps exactly one statistics update per decided game and never
     * lets a seventh row be submitted.
     */
    method SubmitUnlessOver() returns (r: Submitted)
      requires Valid() && OneOutcome() && WinsInRange() && guessedWordCount <= MaxRows
      modifies this, keyboard, stats, stats.guessDistribution
      ensures Valid() && OneOutcome() && WinsInRange() && guessedWordCount <= MaxRows
      ensures r.GameOver? <==> old(Over())
      ensures r.NotEnoughLetters? <==> !old(Over()) && old(|CurrentRow()|) != WordLength
      ensures r.NotInList? <==> !old(Over()) && old(|CurrentRow()| == WordLength && Words.UpperString(CurrentRow()) !in wordList)
      ensures !r.Scored? ==> unchanged(this, keyboard, stats) && stats.Value() == old(stats.Value())
      ensures r.Scored? ==> ScoredEffect(r.tiles)
    {
      if Over() {
        return GameOver;
      }
      r := HandleSubmitWord();
      if r.Scored? {
        var guess := Words.UpperString(old(CurrentRow()));
        assert guessedWords[guessedWordCount - 1] == old(CurrentRow());
        if Some(guess) == word {
          assert Over();
        } else if old(|guessedWords|) == MaxRows {
          assert Over();
        } else {
          assert !Over();
        }
      }
    }

    /**
     * The share button: the text for the rows submitted so far. Once a row
     * past the board has been submitted its squares are missing and there is
     * no text; otherwise the text reads back as the count and the painted rows.
     */
    method ShareResult() returns (text: Option<string>)
      requires Valid()
      ensures text.Some? <==> guessedWordCount <= MaxRows
      ensures text.Some? ==> Share.Decode(text.value) == Some(Share.Shared(guessedWordCount, board))
    {
      assert forall i :: 0 <= i < |board| ==> |board[i]| == WordLength by {
        forall i | 0 <= i < |board| ensures |board[i]| == WordLength {
          assert |guessedWords[i]| == WordLength;
        }
      }
      text := Share.BuildShareText(guessedWordCount, board);
      if text.Some? {
        assert board[..guessedWordCount] == board;
        Share.DecodeShareText(guessedWordCount, board);
      }
    }

    /**
     * resetGame: empty rows, the cursor back on square 1, a new secret when
     * the list has words (index `pick`), an unpainted board and keyboard. The
     * statistics carry over to the new game.
     */
    method ResetGame(pick: nat)
      requires Valid()
      requires wordList != [] ==> pick < |wordList|
      modifies this, keyboard
      ensures Valid() && OneOutcome() && WinsInRange()
      ensures guessedWords == [[]] && availableSpace == 1 && guessedWordCount == 0 && board == []
      ensures word == (if wordList != [] then Some(wordList[pick]) else old(word))
      ensures keyboard.colors == map[]
      ensures stats.Value() == old(stats.Value()) && outcomes == []
    {
      guessedWords := [[]];
      availableSpace := 1;
      guessedWordCount := 0;
      if wordList != [] {
        word := Some(wordList[pick]);
      }
      board := [];
      keyboard.Reset();
      start := stats.Value();
      outcomes := [];
    }
  }

  /** The letters of a five-letter word typed one by one. */
  method TypeRow(game: Session, letters: string)
    requires game.Valid() && |game.CurrentRow()| == 0 && |letters| == WordLength
    modifies game`guessedWords, game`availableSpace
    ensures game.Valid()
    ensures game.guessedWords == old(game.guessedWords[..game.guessedWordCount]) + [letters]
  {
    var i := 0;
    while i < |letters|
      invariant 0 <= i <= |letters|
      invariant game.Valid()
      invariant game.guessedWords == old(game.guessedWords[..game.guessedWordCount]) + [letters[..i]]
    {
      assert letters[..i + 1] == letters[..i] + [letters[i]];
      game.UpdateGuessedWords(letters[i]);
      i := i + 1;
    }
    assert letters[..i] == letters;
  }

  /** A row that spells the secret, typed into an empty row and submitted as written. */
  method WinningRow(game: Session, letters: string)
    requires game.Valid() && game.CurrentRow() == [] && |letters| == WordLength
    requires game.word == Some(Words.UpperString(letters))
    modifies game, game.keyboard, game.stats, game.stats.guessDistribution
    ensures game.Valid() && game.CurrentRow() == [] && game.word == old(game.word)
    ensures game.start == old(game.start) && |game.outcomes| == |old(game.outcomes)| + 1
  {
    TypeRow(game, letters);
    var r := game.HandleSubmitWord();
  }

  /**
   * As written: after the secret APFEL is guessed, typing it again and
   * pressing Enter scores it again and records a second win, so one game
   * counts as two games played.
   */
  method DoubleWin() returns (played: int)
    ensures played == 2
  {
    var keyboard := new Keyboard.Keys({'a', 'p', 'f', 'e', 'l'});
    var stats := new Statistics.Stats(Statistics.Initial());
    var game := new Session(["APFEL"], 0, keyboard, stats);
    assert Words.UpperString("apfel") == "APFEL";
    WinningRow(game, "apfel");
    WinningRow(game, "apfel");
    Statistics.ApplyAllCounters(game.start, game.outcomes);
    played := stats.gamesPlayed;
  }

  /** The same row typed and submitted with the guard, before the game is decided. */
  method GuardedWinningRow(game: Session, letters: string)
    requires game.Valid() && game.OneOutcome() && game.WinsInRange() && game.guessedWordCount <= MaxRows
    requires game.CurrentRow() == [] && |letters| == WordLength && game.guessedWordCount == 0
    requires game.word == Some(Words.UpperString(letters))
    modifies game, game.keyboard, game.stats, game.stats.guessDistribution
    ensures game.Valid() && game.OneOutcome() && game.WinsInRange() && game.guessedWordCount <= MaxRows
    ensures game.CurrentRow() == [] && game.start == old(game.start) && game.Over()
  {
    TypeRow(game, letters);
    var r := game.SubmitUnlessOver();
  }

  /** A row typed and submitted with the guard after the game is decided is refused. */
  method GuardedLateRow(game: Session, letters: string)
    requires game.Valid() && game.OneOutcome() && game.WinsInRange() && game.guessedWordCount <= MaxRows
    requires game.CurrentRow() == [] && |letters| == WordLength && game.Over()
    modifies game, game.keyboard, game.stats, game.stats.guessDistribution
    ensures game.Valid() && game.OneOutcome() && game.WinsInRange() && game.start == old(game.start) && game.Over()
  {
    TypeRow(game, letters);
    var r := game.SubmitUnlessOver();
  }

  /** With the guard, the same key presses record the game once. */
  method SingleWin() returns (played: int)
    ensures played == 1
  {
    var keyboard := new Keyboard.Keys({'a', 'p', 'f', 'e', 'l'});
    var stats := new Statistics.Stats(Statistics.Initial());
    var game := new Session(["APFEL"], 0, keyboard, stats);
    assert Words.UpperString("apfel") == "APFEL";
    GuardedWinningRow(game, "apfel");
    GuardedLateRow(game, "apfel");
    Statistics.ApplyAllCounters(game.start, game.outcomes);
    played := stats.gamesPlayed;
  }
}
