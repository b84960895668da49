# Wordle Deutsch: a verified model of the game engine

Wordle Deutsch is a browser game. The player has six tries to guess a secret
five-letter German word. Each guess is coloured letter by letter:

- green: the letter is in the right place;
- yellow: the letter is in the word but elsewhere;
- grey: the letter is not in the word, or all its copies are already used up.

The on-screen keyboard shows the best colour each letter has earned. Statistics
survive between games: games played, wins, streaks, a histogram of guess counts,
and the words won. All of this logic sits in `js/main.js`, inside one
`DOMContentLoaded` handler. This project models that logic in Dafny and proves
what it promises.

| module | file | models |
|---|---|---|
| `Optional` | optional.dfy | the option type used for values that may be missing |
| `Scoring` | scoring.dfy | `getTileColors` |
| `Words` | words.dfy | loading the word list; the case mappings |
| `Keyboard` | keyboard.dfy | `updateKeyboardColor`; the keyboard reset |
| `Statistics` | statistics.dfy | the stats record, its defaulting on load, and `updateStats` |
| `StatsViews` | stats_views.dfy | the win percentage, histogram scale, bar widths and history ranking |
| `Share` | share.dfy | the share text |
| `Game` | game.dfy | the entry buffer, word submission, reset, and the share button |

### Scoring

`getTileColors` is a method with two loops over a letter-count table,
`Scoring.ScoreGuess`. It is split into three steps:

- `LetterCounts` counts the letters of the secret;
- `MarkExact` is the first pass: it marks green positions and uses up their letters;
- `MarkPresent` is the second pass: it hands out yellow while the letter still has copies left.

The method is proved equal to a declarative definition, `Scoring.Score`. In that
definition, position `i` is green when it matches. Otherwise it is yellow when
two numbers compare as follows:

- the first is how many earlier unmatched positions hold the same letter;
- the second is how many copies of the letter the secret has beyond its green matches.

If the first is smaller, the position is yellow; if not, it is grey. The lemmas
about `Score` prove the following:

- the number of green and yellow tiles for a letter is the smaller of its counts in secret and guess;
- a grey tile means every copy in the secret is used up;
- yellow goes to the leftmost unmatched copies first.

A reader might expect the final `E` of `ERASE` to be green against `SPEED`. It
is not: `SPEED` ends in `D`, so no position matches, and the code gives present,
absent, absent, present, present. `Scoring.ExampleSpeedErase` proves exactly that
colouring.

### The game

`Game.Session` is a class with the closure's variables as fields:

- `guessedWords`, the list of typed rows;
- `availableSpace`, the id of the next free square;
- `guessedWordCount`;
- `word`, the secret;
- the loaded `wordList`;
- the painted board;
- the keyboard object;
- the statistics object.

Its methods are the event handlers. The board has 30 squares, ids 1 to 30. The
handlers do not stop a seventh row: typing works, and so does submitting,
because nothing checks whether the game is over. Past the board, the square
lookups return nothing, and code that uses the missing square throws. The model
keeps the state changes made before the throw:

- typing past the board: `updateGuessedWords` appends the letter and moves the
  cursor, then throws when it writes to the missing square;
- `handleDeleteLetter` drops the letter, then throws on the missing square
  before it moves the cursor back;
- submitting a seventh row: `handleSubmitWord` itself returns normally. It scores
  the row and counts it. Only if the row spells the secret does it record an
  outcome: a win with guess count 7. A miss records nothing, because the loss
  test at js/main.js:286 looks for exactly six rows. Each tile's flip timer then
  throws on the missing square (js/main.js:268-269) before it calls
  `updateKeyboardColor`. So a seventh row is never painted and its letters do
  not recolour the keyboard.

## Model

| member | source | states |
|---|---|---|
| `Scoring.LetterCounts` | js/main.js:313-316 | the table built from the secret holds, for every character, its number of occurrences in the secret |
| `Scoring.MarkExact` | js/main.js:318-325 | the first pass marks exactly the matching positions green and the rest grey, nulls exactly the matched guess letters, and leaves each letter's count at its occurrences minus its green matches |
| `Scoring.MarkPresent` | js/main.js:327-332 | the second pass makes a position yellow exactly when it was not nulled and fewer earlier unmatched copies of its letter came before it than the count left for that letter; every other position keeps its first-pass colour |
| `Scoring.EarlierIsUnmatched` | js/main.js:327-332 | the copies of a letter that the second pass has seen before position n are exactly the unmatched positions below n holding that letter |
| `Scoring.Score` | js/main.js:311-334 | the declarative reference for the colouring, one tile per guess letter; what each tile means is stated by `Scoring.TileMeaning` and the lemmas after it |
| `Scoring.ScoreGuess` | js/main.js:311-334 | for a five-letter guess, getTileColors returns exactly the declarative score of the guess against the secret |
| `Scoring.TileMeaning` | js/main.js:312-332 | the score has one tile per guess letter; a tile is green exactly when the letter matches the secret there; a yellow tile is unmatched and its letter occurs in the secret; a letter absent from the secret is grey |
| `Scoring.ColouredCount` | js/main.js:315-332 | for every letter, the green plus yellow tiles carrying it number the smaller of its counts in the secret and in the guess, so never more than the secret's count |
| `Scoring.ColouredPrefix` | js/main.js:327-332 | among the first n positions, the coloured tiles for a letter are its green matches plus the unmatched copies that still found a spare occurrence |
| `Scoring.GuessOccurrences` | js/main.js:318-330 | the copies of a letter among the first n guess positions split into matched and unmatched ones |
| `Scoring.SpareNonNegative` | js/main.js:321 | green matches never use up more copies of a letter than the secret has, so the count left after the first pass is never negative |
| `Scoring.MatchesBound` | js/main.js:318-325 | the green matches for a letter among the first n positions are at most its occurrences in the matching prefix of the secret |
| `Scoring.CountPrefix` | js/main.js:316 | a prefix never holds more copies of a letter than the whole word |
| `Scoring.CountPositive` | js/main.js:316 | a letter that occurs in a word has a positive count in it |
| `Scoring.SecretIsAllGreen` | js/main.js:318-325 | guessing the secret itself colours every tile green |
| `Scoring.UnmatchedGrows` | js/main.js:327-332 | an unmatched copy of a letter at position j is counted among the copies before any later position |
| `Scoring.YellowLeftmostFirst` | js/main.js:327-332 | when a later copy of a letter is yellow, every earlier unmatched copy of it is yellow too |
| `Scoring.GreyMeansUsedUp` | js/main.js:327-332 | a grey tile means the coloured tiles for its letter already account for every copy of it in the secret |
| `Scoring.ExampleSpeedErase` | js/main.js:311-334 | against SPEED, ERASE scores present, absent, absent, present, present |
| `Scoring.ExampleSpeedEerie` | js/main.js:311-334 | against SPEED, EERIE scores present, present, absent, absent, absent: two Es, both used up by the first two copies |
| `Scoring.ExampleCraneBoxed` | js/main.js:311-334 | against CRANE, BOXED scores only the E, out of place, as yellow |
| `Words.Trim` | js/main.js:24 | trimming never lengthens a line and leaves no white space at either end |
| `Words.Split` | js/main.js:24 | splitting gives at least one piece and at most one more than the text's length, and no piece contains the separator |
| `Words.Normalise` | js/main.js:24 | a trimmed, upper-cased line is no longer than the line and holds no lower-case keyboard letter |
| `Words.KeepWords` | js/main.js:24 | the lines kept are at most the lines read, and none is empty |
| `Words.WordList` | js/main.js:24 | the list has at most one entry per line of the file, and no entry is empty |
| `Words.Lower` | js/main.js:358 | lower-casing keeps lower-case keyboard letters, names the same letter (its upper case is unchanged), and never yields an upper-case keyboard letter |
| `Words.UpperString` | js/main.js:24 | upper-casing keeps the length and maps each character on its own |
| `Words.TrimStart` | js/main.js:24 | leading white space is removed and the rest kept, and what remains does not start with white space |
| `Words.TrimEnd` | js/main.js:24 | trailing white space is removed and the rest kept, and what remains does not end with white space |
| `Words.FirstIndex` | js/main.js:24 | the index found holds the separator and none comes before it |
| `Words.UpperFacts` | js/main.js:24 | upper-casing leaves no lower-case keyboard letter, is idempotent, keeps white space, and lower-casing undoes it on the keyboard's letters |
| `Words.TrimFacts` | js/main.js:24 | trimming never lengthens, leaves no white space at either end, and is idempotent |
| `Words.TrimSlice` | js/main.js:24 | what trimming keeps is one contiguous slice of the line, and only white space lies before and after that slice |
| `Words.TrimIdle` | js/main.js:24 | a string with no white space at its ends is unchanged by trimming |
| `Words.SplitJoin` | js/main.js:24 | splitting on newlines loses nothing: joining the pieces gives the text back, and no piece contains a newline |
| `Words.JoinSplit` | js/main.js:24 | splitting a join of newline-free lines gives those lines back |
| `Words.KeepWordsMembers` | js/main.js:24 | a word is in the list exactly when it is non-empty and some line normalises to it |
| `Words.NormalEnds` | js/main.js:24 | a normalised line that is kept has no white space at either end |
| `Words.NormalUpper` | js/main.js:24 | a normalised line holds no lower-case keyboard letter |
| `Words.WordListEntries` | js/main.js:24 | every list entry is non-empty, contains no newline, has no white space at its ends and no lower-case letter |
| `Keyboard.Upgrade` | js/main.js:362-368 | the three branches keep the key's colour or take the tile's, and never end below either |
| `Keyboard.Recolour` | js/main.js:357-369 | one letter repaints at most its own key: the painted keys are the old ones plus the letter's key when the keyboard has it |
| `Keyboard.RecolourRow` | js/main.js:264-273 | a scored row keeps every painted key painted and paints no key the keyboard lacks |
| `Keyboard.Keys.constructor` | js/main.js:10 | the keyboard holds the given letter keys, none of them coloured |
| `Keyboard.Keys.UpdateKeyboardColor` | js/main.js:357-369 | the key of the lower-cased letter, if the keyboard has one, is repainted by the three branches: green always, yellow unless green, grey unless green or yellow; nothing else changes |
| `Keyboard.Keys.Reset` | js/main.js:229-232 | every key loses its colour |
| `Keyboard.UpgradeIsHigher` | js/main.js:357-369 | the three branches compute the higher of the key's colour and the tile's colour in the order unset, grey, yellow, green |
| `Keyboard.RecolourMonotone` | js/main.js:357-369 | a repaint never lowers any key and changes no key but the letter's own |
| `Keyboard.RecolourIdempotent` | js/main.js:357-369 | repeating the same repaint changes nothing |
| `Keyboard.RecolourCommutes` | js/main.js:264-273 | two repaints give the same keyboard in either order, so the order in which the flip timers fire does not matter |
| `Keyboard.RecolourRowIsBest` | js/main.js:264-273 | after a row is scored, each key shows the higher of its old colour and the best colour the row gave it |
| `Keyboard.RecolourRowSnoc` | js/main.js:264-273 | replaying a row letter by letter gives the same keyboard as the row as a whole |
| `Statistics.Load` | js/main.js:67-78 | no stored record gives the zero record with six empty slots; a stored record keeps its counters, and a missing distribution or history becomes six zeros or an empty map |
| `Statistics.Save` | js/main.js:98 | what is written holds the distribution and the history, and loading it gives the record back |
| `Statistics.Apply` | js/main.js:80-99 | updateStats on the record: six slots stay; one more game, one more win exactly on a win; a win lengthens the streak; a loss resets it and changes neither the distribution nor the history |
| `Statistics.Stats.constructor` | js/main.js:67-78 | the statistics object built from the loaded record has six slots, holds exactly that record, and its distribution array is its own |
| `Statistics.Stats.UpdateStats` | js/main.js:80-99 | the object after the update holds exactly the record the update function gives for the old record and the arguments |
| `Statistics.ApplyCounters` | js/main.js:81-87 | one more game always; a win adds one to wins and streak and lifts the maximum streak to the streak; a loss changes only games played and resets the streak |
| `Statistics.ApplyDistribution` | js/main.js:88-90 | a win in 1 to 6 guesses adds one to exactly slot guessCount - 1 and one to the total; any other outcome leaves every slot as it was |
| `Statistics.ApplyHistory` | js/main.js:92-94 | a win with a non-empty word adds one to that word's count, starting from 0, and leaves every other word's count alone |
| `Statistics.ApplyValid` | js/main.js:80-99 | every update keeps 0 <= streak <= max streak <= wins <= games, non-negative slots whose total is at most the wins, and positive history counts |
| `Statistics.ApplyTallied` | js/main.js:88-90 | a loss, or a win in 1 to 6 guesses, keeps the slot total equal to the wins |
| `Statistics.OutOfRangeWinUntallies` | js/main.js:88-90 | a win with a guess count outside 1 to 6 is counted as a win but put in no slot, so the total falls one short of the wins |
| `Statistics.ApplyAll` | js/main.js:80-99 | a sequence of updates keeps six slots |
| `Statistics.ApplyAllSnoc` | js/main.js:80-99 | the record after one more game is that game's update applied to the record before it |
| `Statistics.ApplyAllCounters` | js/main.js:81-87 | after a sequence of games: one game per outcome, one win per won outcome, and the streak is the run of wins since the last loss |
| `Statistics.WinCountSnoc` | js/main.js:82 | one more outcome adds one win exactly when it was won |
| `Statistics.ApplyAllValid` | js/main.js:80-99 | the invariant holds after any sequence of games, and the slot total stays equal to the wins when every win took 1 to 6 guesses |
| `Statistics.InitialValid` | js/main.js:67-74 | the record of a new player satisfies the invariant and its slots total its wins |
| `Statistics.LoadLegacy` | js/main.js:76-78 | a record stored without distribution and history loads with six zero slots and no history; it keeps the invariant, and its total matches its wins only if it had none |
| `Statistics.SaveLoad` | js/main.js:67-78 | saving and loading again gives the same record; for any stored record, legacy ones included, loading, saving and loading again gives what the first load gave, so the defaulting applies once |
| `StatsViews.WinPercentage` | js/main.js:103 | with games played the percentage is the integer nearest 100 * wins / games, halves rounded up; with none it is 0; it lies in 0 to 100 when wins <= games |
| `StatsViews.WinPercentageUnique` | js/main.js:103 | no other integer is that close to 100 * wins / games |
| `StatsViews.HistogramMax` | js/main.js:111 | the scale is at least 1 and every slot is at most the scale, and it is 1 or one of the slots |
| `StatsViews.BarWidth` | js/main.js:128-129 | the width is never negative, and for a positive scale it is the fraction max(100 * count, 0) / maxVal |
| `StatsViews.BarWidthBounds` | js/main.js:111-129 | every bar is between 0 and 100 percent wide, with a positive denominator, and is full width exactly when its slot is the maximum |
| `StatsViews.Compare` | js/main.js:163-166 | the comparator is zero exactly for equal entries, puts the higher count first, and orders equal counts by word |
| `StatsViews.LexTrichotomy` | js/main.js:165 | character-code order on words is total, asymmetric and irreflexive |
| `StatsViews.LexTransitive` | js/main.js:165 | character-code order on words is transitive |
| `StatsViews.CompareIsOrder` | js/main.js:163-166 | the comparator, count descending then word ascending, is a strict total order on entries |
| `StatsViews.Insert` | js/main.js:163-166 | inserting adds exactly the one entry |
| `StatsViews.Rank` | js/main.js:157-166 | the sorted entries are exactly the entries given |
| `StatsViews.InsertRanked` | js/main.js:163-166 | inserting a new entry into a ranked list keeps it ranked and adds exactly that entry |
| `StatsViews.RankCorrect` | js/main.js:157-166 | sorting the history's entries, whose words are distinct, gives a ranked list with exactly the same entries |
| `StatsViews.RankedHead` | js/main.js:163-166 | two ranked lists with the same entries start with the same entry |
| `StatsViews.RankedUnique` | js/main.js:157-166 | two ranked lists with the same entries are equal, so the ranking shown does not depend on the order of the history's entries or on the sort algorithm |
| `StatsViews.RankExample` | js/main.js:163-166 | MAUS and BAUM with three wins each and KATZE with one rank as BAUM, MAUS, KATZE |
| `Share.ShareText` | js/main.js:186-197 | there is a text exactly when every submitted row is on the board, and it reads back as the count and those rows |
| `Share.BuildShareText` | js/main.js:186-197 | the loops build the title with the row count, then one line of five squares per submitted row; with a submitted row past the board there is no text |
| `Share.RowsSnoc` | js/main.js:188-197 | one more row adds its squares and a newline to the text |
| `Share.SquareRoundTrip` | js/main.js:192-194 | each colour has its own square, and no square is a newline |
| `Share.ReadSquaresSquares` | js/main.js:189-195 | a line of squares reads back as the row it came from |
| `Share.ReadRowsRows` | js/main.js:188-197 | the lines of squares read back as the rows they came from |
| `Share.DecimalDigits` | js/main.js:186 | the count is written as non-empty decimal digits that read back as the count |
| `Share.DecodeShareText` | js/main.js:186-197 | the share text reads back as exactly the count and the rows it was built from |
| `Share.ShareTextInjective` | js/main.js:186-197 | two boards give the same share text only when they agree on the shared rows |
| `Game.CursorNext` | js/main.js:245-296 | submitting a full row opens an empty row and keeps the entry invariant with the cursor unchanged |
| `Game.PaintedNext` | js/main.js:260-273 | after a submission the board still shows, for each of the first min(count, 6) rows, that row's score |
| `Game.Session.constructor` | js/main.js:1-38 | the page starts with one empty row, the cursor on square 1, no rows submitted, a blank board, and the secret picked from the list when it has words |
| `Game.Session.CurrentRow` | js/main.js:240-243 | getCurrentWordArr: the row being typed is the last row, and the rows are the earlier rows followed by it |
| `Game.Session.UpdateGuessedWords` | js/main.js:298-309 | a letter is appended and the cursor advances by one exactly when the current row has fewer than five letters; otherwise nothing changes; the entry invariant is kept |
| `Game.Session.HandleDeleteLetter` | js/main.js:382-391 | the last letter of a non-empty row is removed and, on the board, the cursor moves back by one; an empty row changes nothing; the invariant is kept |
| `Game.Session.HandleSubmitWord` | js/main.js:245-296 | a row that is not five letters long, or whose upper-cased spelling is not in the list, changes nothing. Otherwise the row is scored against the secret. The count goes up by one and a new empty row opens. A row on the board is painted and recolours the keyboard. A win records the new count and the secret; the sixth row's miss records a loss. It never refuses a row because the game is over |
| `Game.Session.ScoreRow` | js/main.js:260-295 | the scored branch: the tiles are the row's score, the board, count, rows and statistics change as the handler changes them, and the invariants are kept |
| `Game.Session.Tally` | js/main.js:277-293 | a win calls the statistics update with the new count and the secret; otherwise the sixth row calls it with a loss; else nothing is recorded |
| `Game.Session.PaintKeys` | js/main.js:264-273 | the flip of each tile of the row recolours its letter's key, in row order |
| `Game.Session.ShareResult` | js/main.js:185-197 | there is a share text exactly when at most six rows were submitted, and it reads back as the count and the painted rows |
| `Game.Session.ResetGame` | js/main.js:213-236 | one empty row, cursor on square 1, no rows submitted, blank board and keyboard, and a new secret when the list has words; the statistics carry over |
| `Game.TypeRow` | js/main.js:298-309 | typing five letters into an empty row fills it with those letters |
| `Game.DoubleWin` | js/main.js:245-296 | as written: winning, then typing the secret again and pressing Enter, records two games played for one game |
| `Game.Session.SubmitUnlessOver` | js/main.js:245-296 | with a game-over guard: a decided game refuses every row and changes nothing; otherwise as written. Each game records exactly one update once decided, every win has a count of 1 to 6, and no seventh row is submitted |
| `Game.SingleWin` | js/main.js:245-296 | with the guard, the same key presses record one game played |

## Left out

- Rendering is not modelled. This covers the tiles' text, the histogram and history rows, the modals and the `alert`s. It is presentation and does not change the game state.
- Animations and timers are not modelled. The model applies the tile flips and their keyboard repaints when the submission returns, instead of on timers 200 ms apart. `Keyboard.RecolourCommutes` shows that the order of the repaints does not matter. Events that arrive while the timers are still pending are not modelled.
- Fetching the word list is not modelled; the list is a constructor parameter. `Math.random` is replaced by the caller's choice of index. The time before the fetch completes behaves like an empty list: every submission is refused as not in the list.
- `localStorage` and JSON are not modelled. The model keeps only the field defaulting on load (`Statistics.Load`) and the record that saving writes (`Statistics.Save`).
- Stored records that lack a counter field are not modelled; their counters become `NaN`. So are stored distributions whose length is not six: the model keeps six slots, and the statistics object requires six.
- The clipboard write and its confirmation are not modelled. They are browser calls.
- The keydown handler and the on-screen keyboard's click handler are not modelled. They only dispatch Enter, Backspace/`del` and letters to the three handlers above. The keydown handler accepts only `a` to `z` and ignores keys while a dialog is open. The model lets any character be typed.
- `localeCompare` is replaced by character-code order. The source's sort is replaced by an insertion sort that is proved to yield the only ranked ordering (`StatsViews.RankedUnique`).
- StatsViews.WinPercentage: computes `Math.round(wins / games * 100)` in exact integers, not in floating point. So on some inputs it differs from the page. For example, 23 wins in 40 games shows 57 on the page, because `0.575 * 100` is `57.49999999999999` in floating point, but gives 58 here.
- StatsViews.BarWidth: keeps the ratio `count / maxVal * 100` as an exact fraction, not a floating-point number.
- JavaScript numbers are not modelled: counters are unbounded integers.
- Case mapping covers only `a`-`z` and `ä`, `ö`, `ü`, the letters of the German keyboard. Other characters, including `ß`, which becomes `SS`, are left unchanged.
- The service worker `sw.js` is not modelled. It only caches files.
- `Game.Session.ShareResult` reads the colours from the scored rows, not from the squares' styles. A square whose flip timer has not yet fired would show black.

## Findings

| source | as written | input that shows it | evidently intended | confidence | as-written member | corrected member |
|---|---|---|---|---|---|---|
| js/main.js:245-296 | `handleSubmitWord` has no game-over check. Any five-letter word in the list is scored and tallied, even after the game is won or lost. | Secret APFEL. Type `apfel` and press Enter, then type `apfel` and press Enter again. The keydown handler ignores keys while the statistics dialog is open (js/main.js:394), and the dialog opens 2.6 s after the win (js/main.js:279-285). So the second entry must either be finished within 2.6 s, or follow closing the dialog. Then `updateStats` runs twice, so one game counts as two games played and two wins. After six misses, a seventh row can also be submitted. A win there is recorded with guess count 7, which has no slot, so the distribution no longer totals the wins (`Statistics.OutOfRangeWinUntallies`). | Once a game is decided, refuse further submissions until a new game starts. | not executed | `Game.DoubleWin` | `Game.Session.SubmitUnlessOver` |
