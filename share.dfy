/**
 * The text the share button copies (js/main.js): a title line with the
 * number of submitted rows, a blank line, then one line of coloured squares
 * per submitted row. The model reads the colours from the scored rows rather
 * than from the squares' styles, and proves that the text can be read back.
 */
module Share {
  import opened Optional
  import opened Scoring
  import Words

  const Title: string := "Wordle Deutsch "

  /** The emoji for a square's colour: green, yellow, or black for every other colour. */
  function Square(t: Tile): char
  {
    match t
    case Exact => '\U{1F7E9}'
    case Present => '\U{1F7E8}'
    case Absent => '\U{2B1B}'
  }

  function Squares(row: seq<Tile>): string
  {
    seq(|row|, i requires 0 <= i < |row| => Square(row[i]))
  }

  /** One line per row. */
  function Rows(rows: seq<seq<Tile>>): string
  {
    if rows == [] then "" else Squares(rows[0]) + "\n" + Rows(rows[1..])
  }

  function Digit(d: nat): char
    requires d < 10
  {
    ('0' as int + d) as char
  }

  /** A number as a template literal writes it: decimal digits, no leading zeros. */
  function Decimal(n: nat): string
  {
    if n < 10 then [Digit(n)] else Decimal(n / 10) + [Digit(n % 10)]
  }

  function Header(count: nat): string
  {
    Title + Decimal(count) + "/6\n\n"
  }

  /**
   * The share text after `count` submitted rows of which `board` holds the
   * painted ones. A row past the board has no squares, and reading the
   * colour of a missing square fails: then there is no text.
   */
  function ShareText(count: nat, board: seq<seq<Tile>>): (r: Option<string>)
    ensures r.Some? <==> count <= |board|
    ensures r.Some? ==> Decode(r.value) == Some(Shared(count, board[..count]))
  {
    if count <= |board| then
      DecodeShareText(count, board[..count]);
      Some(Header(count) + Rows(board[..count]))
    else None
  }

  /** The share button's loops: a title, then five squares and a newline per row. */
  method BuildShareText(count: nat, board: seq<seq<Tile>>) returns (text: Option<string>)
    requires forall i :: 0 <= i < |board| ==> |board[i]| == WordLength
    ensures text == ShareText(count, board)
  {
    var s := Header(count);
    var i := 0;
    while i < count
      invariant 0 <= i <= count && i <= |board|
      invariant s == Header(count) + Rows(board[..i])
    {
      if i == |board| {
        return None;
      }
      var row := board[i];
      var j := 0;
      while j < WordLength
        invariant 0 <= j <= WordLength
        invariant s == Header(count) + Rows(board[..i]) + Squares(row[..j])
      {
        assert Squares(row[..j + 1]) == Squares(row[..j]) + [Square(row[j])];
        s := s + [Square(row[j])];
        j := j + 1;
      }
      RowsSnoc(board[..i], row);
      assert board[..i + 1] == board[..i] + [row];
      assert row[..j] == row;
      s := s + "\n";
      i := i + 1;
    }
    return Some(s);
  }

  lemma {:induction false} RowsSnoc(rows: seq<seq<Tile>>, row: seq<Tile>)
    ensures Rows(rows + [row]) == Rows(rows) + Squares(row) + "\n"
    decreases |rows|
  {
    if rows == [] {
      assert Rows([row]) == Squares(row) + "\n" + Rows([]);
    } else {
      assert (rows + [row])[1..] == rows[1..] + [row];
      RowsSnoc(rows[1..], row);
    }
  }

  // ---------------------------------------------------------------------
  // Reading a share text back
  // ---------------------------------------------------------------------

  /** What a share text says: how many rows were submitted and their colours. */
  datatype Shared = Shared(count: nat, rows: seq<seq<Tile>>)

  function SquareTile(c: char): Option<Tile>
  {
    if c == '\U{1F7E9}' then Some(Exact)
    else if c == '\U{1F7E8}' then Some(Present)
    else if c == '\U{2B1B}' then Some(Absent)
    else None
  }

  function ReadSquares(s: string): Option<seq<Tile>>
  {
    if s == [] then Some([])
    else match (SquareTile(s[0]), ReadSquares(s[1..]))
      case (Some(t), Some(rest)) => Some([t] + rest)
      case _ => None
  }

  function ReadRows(s: string): Option<seq<seq<Tile>>>
    decreases |s|
  {
    if s == [] then Some([])
    else if '\n' !in s then None
    else
      var i := Words.FirstIndex(s, '\n');
      match (ReadSquares(s[..i]), ReadRows(s[i + 1..]))
      case (Some(row), Some(rest)) => Some([row] + rest)
      case _ => None
  }

  predicate IsDigit(c: char)
  {
    '0' <= c <= '9'
  }

  predicate AllDigits(s: string)
  {
    forall i :: 0 <= i < |s| ==> IsDigit(s[i])
  }

  function DigitValue(c: char): nat
  {
    if IsDigit(c) then c as int - '0' as int else 0
  }

  /** The value of a string of decimal digits. */
  function ParseDigits(s: string): nat
  {
    if s == [] then 0 else ParseDigits(s[..|s| - 1]) * 10 + DigitValue(s[|s| - 1])
  }

  /** Read a share text: the title, then the rest of the header and the rows. */
  function Decode(text: string): Option<Shared>
  {
    if |text| < |Title| || text[..|Title|] != Title then None
    else DecodeCount(text[|Title|..])
  }

  /** Read a decimal count, "/6", a blank line, then the rows. */
  function DecodeCount(rest: string): Option<Shared>
  {
    if '/' !in rest then None
    else
      var k := Words.FirstIndex(rest, '/');
      var digits := rest[..k];
      if digits == [] || !AllDigits(digits) || |rest| < k + 4 || rest[k..k + 4] != "/6\n\n" then None
      else match ReadRows(rest[k + 4..])
        case Some(rows) => Some(Shared(ParseDigits(digits), rows))
        case None => None
  }

  lemma SquareRoundTrip(t: Tile)
    ensures SquareTile(Square(t)) == Some(t) && Square(t) != '\n'
  {
  }

  lemma {:induction false} ReadSquaresSquares(row: seq<Tile>)
    ensures ReadSquares(Squares(row)) == Some(row)
    ensures '\n' !in Squares(row)
    decreases |row|
  {
    if row != [] {
      SquareRoundTrip(row[0]);
      assert Squares(row)[1..] == Squares(row[1..]);
      ReadSquaresSquares(row[1..]);
      assert [row[0]] + row[1..] == row;
    }
  }

  /** Every line of squares reads back as the row it was made from. */
  lemma {:induction false} ReadRowsRows(rows: seq<seq<Tile>>)
    ensures ReadRows(Rows(rows)) == Some(rows)
    decreases |rows|
  {
    if rows != [] {
      var line := Squares(rows[0]);
      var s := Rows(rows);
      ReadSquaresSquares(rows[0]);
      assert s == line + "\n" + Rows(rows[1..]);
      assert s[|line|] == '\n' && s[..|line|] == line;
      Words.FirstIndexAt(s, '\n', |line|);
      assert s[|line| + 1..] == Rows(rows[1..]);
      ReadRowsRows(rows[1..]);
      assert [rows[0]] + rows[1..] == rows;
    }
  }

  lemma {:induction false} DecimalDigits(n: nat)
    ensures Decimal(n) != [] && AllDigits(Decimal(n))
    ensures ParseDigits(Decimal(n)) == n
    decreases n
  {
    if n >= 10 {
      DecimalDigits(n / 10);
      var s := Decimal(n);
      assert s[..|s| - 1] == Decimal(n / 10);
    }
  }

  lemma DecodeCountParts(digits: string, rows: seq<seq<Tile>>)
    requires digits != [] && AllDigits(digits)
    ensures DecodeCount(digits + "/6\n\n" + Rows(rows)) == Some(Shared(ParseDigits(digits), rows))
  {
    var rest := digits + "/6\n\n" + Rows(rows);
    assert '/' !in digits by {
      forall i | 0 <= i < |digits| ensures digits[i] != '/' {
        assert IsDigit(digits[i]);
      }
    }
    assert rest[|digits|] == '/';
    assert rest[..|digits|] == digits;
    Words.FirstIndexAt(rest, '/', |digits|);
    assert rest[|digits|..|digits| + 4] == "/6\n\n";
    assert rest[|digits| + 4..] == Rows(rows);
    ReadRowsRows(rows);
  }

  lemma DecodeTitle(rest: string)
    ensures Decode(Title + rest) == DecodeCount(rest)
  {
    assert (Title + rest)[..|Title|] == Title;
    assert (Title + rest)[|Title|..] == rest;
  }

  lemma HeaderSplit(count: nat, rows: seq<seq<Tile>>)
    ensures Header(count) + Rows(rows) == Title + (Decimal(count) + "/6\n\n" + Rows(rows))
  {
  }

  lemma DecodeAfterTitle(count: nat, rows: seq<seq<Tile>>)
    ensures Decode(Title + (Decimal(count) + "/6\n\n" + Rows(rows))) == Some(Shared(count, rows))
  {
    DecodeTitle(Decimal(count) + "/6\n\n" + Rows(rows));
    DecimalDigits(count);
    DecodeCountParts(Decimal(count), rows);
  }

  /** The share text reads back as the count and the rows it was built from. */
  lemma DecodeShareText(count: nat, rows: seq<seq<Tile>>)
    ensures Decode(Header(count) + Rows(rows)) == Some(Shared(count, rows))
  {
    HeaderSplit(count, rows);
    DecodeAfterTitle(count, rows);
  }

  /** Two boards give the same share text only when they agree on the shared rows. */
  lemma ShareTextInjective(count: nat, a: seq<seq<Tile>>, b: seq<seq<Tile>>)
    requires ShareText(count, a).Some? && ShareText(count, a) == ShareText(count, b)
    ensures a[..count] == b[..count]
  {
    DecodeShareText(count, a[..count]);
    DecodeShareText(count, b[..count]);
  }
}
