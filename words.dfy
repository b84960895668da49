/**
 * The word list as loaded at start-up (loadWordList in js/main.js): the file
 * text is split on newlines, each line is trimmed and upper-cased, and empty
 * lines are dropped. Also the letter case mappings used by the game.
 */
module Words {

  /**
   * String.prototype.toUpperCase on one character, for the letters of the
   * German keyboard: a-z and the umlauts. Every other character is kept.
   */
  function Upper(c: char): char
  {
    if 'a' <= c <= 'z' then (c as int - 32) as char
    else if c == 'ä' then 'Ä'
    else if c == 'ö' then 'Ö'
    else if c == 'ü' then 'Ü'
    else c
  }

  /** String.prototype.toLowerCase on one character, for A-Z and the umlauts. */
  function Lower(c: char): (r: char)
    ensures IsLowerLetter(c) ==> r == c
    ensures Upper(r) == Upper(c)
    ensures !('A' <= r <= 'Z') && r != 'Ä' && r != 'Ö' && r != 'Ü'
  {
    if 'A' <= c <= 'Z' then (c as int + 32) as char
    else if c == 'Ä' then 'ä'
    else if c == 'Ö' then 'ö'
    else if c == 'Ü' then 'ü'
    else c
  }

  predicate IsLowerLetter(c: char)
  {
    'a' <= c <= 'z' || c == 'ä' || c == 'ö' || c == 'ü'
  }

  function UpperString(s: string): (r: string)
    ensures |r| == |s|
    ensures forall i :: 0 <= i < |s| ==> r[i] == Upper(s[i])
  {
    if s == [] then [] else [Upper(s[0])] + UpperString(s[1..])
  }

  /** The characters String.prototype.trim removes (WhiteSpace and LineTerminator of ECMAScript). */
  predicate IsSpace(c: char)
  {
    c == '\t' || c == '\n' || c == '\U{000B}' || c == '\U{000C}' || c == '\r' || c == ' '
    || c == '\U{00A0}' || c == '\U{1680}' || ('\U{2000}' <= c <= '\U{200A}')
    || c == '\U{2028}' || c == '\U{2029}' || c == '\U{202F}' || c == '\U{205F}'
    || c == '\U{3000}' || c == '\U{FEFF}'
  }

  /** White space removed at the start: what is left is a suffix that does not start with white space. */
  function TrimStart(s: string): (r: string)
    ensures |r| <= |s| && r == s[|s| - |r|..]
    ensures forall i :: 0 <= i < |s| - |r| ==> IsSpace(s[i])
    ensures r != [] ==> !IsSpace(r[0])
  {
    if s != [] && IsSpace(s[0]) then TrimStart(s[1..]) else s
  }

  /** White space removed at the end: what is left is a prefix that does not end with white space. */
  function TrimEnd(s: string): (r: string)
    ensures |r| <= |s| && r == s[..|r|]
    ensures forall i :: |r| <= i < |s| ==> IsSpace(s[i])
    ensures r != [] ==> !IsSpace(r[|r| - 1])
  {
    if s != [] && IsSpace(s[|s| - 1]) then TrimEnd(s[..|s| - 1]) else s
  }

  /** String.prototype.trim: white space removed at both ends. */
  function Trim(s: string): (r: string)
    ensures |r| <= |s|
    ensures r != [] ==> !IsSpace(r[0]) && !IsSpace(r[|r| - 1])
  {
    TrimEnd(TrimStart(s))
  }

  /** String.prototype.split with a one-character separator. */
  function Split(s: string, sep: char): (r: seq<string>)
    ensures 1 <= |r| <= |s| + 1
    ensures forall k :: 0 <= k < |r| ==> sep !in r[k]
    decreases |s|
  {
    if sep in s then
      var i := FirstIndex(s, sep);
      [s[..i]] + Split(s[i + 1..], sep)
    else [s]
  }

  /** The position of the first `sep` in `s`. */
  function FirstIndex(s: string, sep: char): (i: nat)
    requires sep in s
    ensures i < |s| && s[i] == sep && sep !in s[..i]
  {
    if s[0] == sep then 0 else FirstIndex(s[1..], sep) + 1
  }

  /** The inverse of Split: the pieces joined with the separator between them. */
  function Join(pieces: seq<string>, sep: char): string
  {
    if pieces == [] then "" else if |pieces| == 1 then pieces[0] else pieces[0] + [sep] + Join(pieces[1..], sep)
  }

  /** One line of the file as it enters the list (empty when it is dropped). */
  function Normalise(line: string): (r: string)
    ensures |r| <= |line|
    ensures forall k :: 0 <= k < |r| ==> !IsLowerLetter(r[k])
  {
    var r := UpperString(Trim(line));
    assert forall k :: 0 <= k < |r| ==> !IsLowerLetter(r[k]) by {
      forall k | 0 <= k < |r| ensures !IsLowerLetter(r[k]) {
        UpperFacts(Trim(line)[k]);
      }
    }
    r
  }

  /** The lines kept, in file order. */
  function KeepWords(lines: seq<string>): (r: seq<string>)
    ensures |r| <= |lines|
    ensures forall k :: 0 <= k < |r| ==> r[k] != []
  {
    if lines == [] then []
    else
      var w := Normalise(lines[0]);
      (if |w| > 0 then [w] else []) + KeepWords(lines[1..])
  }

  /** loadWordList: the word list read from the file's text. */
  function WordList(data: string): (r: seq<string>)
    ensures |r| <= |data| + 1
    ensures forall k :: 0 <= k < |r| ==> r[k] != []
  {
    KeepWords(Split(data, '\n'))
  }

  // ---------------------------------------------------------------------
  // Properties
  // ---------------------------------------------------------------------

  /** Upper-casing leaves no lower-case letter, keeps white space, and is undone by Lower on the keyboard's letters. */
  lemma UpperFacts(c: char)
    ensures !IsLowerLetter(Upper(c))
    ensures Upper(Upper(c)) == Upper(c)
    ensures IsSpace(Upper(c)) <==> IsSpace(c)
    ensures IsLowerLetter(c) ==> Lower(Upper(c)) == c
  {
  }

  /** Trimming never lengthens, leaves no white space at either end, and is idempotent. */
  lemma {:induction false} TrimFacts(s: string)
    ensures |Trim(s)| <= |s|
    ensures Trim(s) != [] ==> !IsSpace(Trim(s)[0]) && !IsSpace(Trim(s)[|Trim(s)| - 1])
    ensures Trim(Trim(s)) == Trim(s)
  {
    var t := TrimStart(s);
    var r := TrimEnd(t);
    if r != [] {
      assert r[0] == t[0];
    }
    TrimIdle(r);
  }

  /** What trimming keeps is the middle part of the line: only white space lies before and after it. */
  lemma {:induction false} TrimSlice(s: string)
    ensures exists a, b ::
      && 0 <= a <= b <= |s| && Trim(s) == s[a..b]
      && (forall i :: 0 <= i < a ==> IsSpace(s[i]))
      && (forall i :: b <= i < |s| ==> IsSpace(s[i]))
  {
    var t := TrimStart(s);
    var r := TrimEnd(t);
    var a := |s| - |t|;
    assert r == s[a..a + |r|];
    forall i | a + |r| <= i < |s| ensures IsSpace(s[i]) {
      assert s[i] == t[i - a];
    }
  }

  /** Trim leaves alone a string with no white space at its ends. */
  lemma TrimIdle(s: string)
    requires s != [] ==> !IsSpace(s[0]) && !IsSpace(s[|s| - 1])
    ensures Trim(s) == s
  {
  }

  /** Splitting and then joining with the same separator gives back the text. */
  lemma {:induction false} SplitJoin(s: string, sep: char)
    ensures Join(Split(s, sep), sep) == s
    ensures forall p :: p in Split(s, sep) ==> sep !in p
    decreases |s|
  {
    if sep in s {
      var i := FirstIndex(s, sep);
      SplitJoin(s[i + 1..], sep);
      var rest := Split(s[i + 1..], sep);
      assert Split(s, sep) == [s[..i]] + rest && ([s[..i]] + rest)[1..] == rest;
      assert s == s[..i] + [sep] + s[i + 1..];
    }
  }

  /** Joining pieces free of the separator and splitting again gives back the pieces. */
  lemma {:induction false} JoinSplit(pieces: seq<string>, sep: char)
    requires pieces != []
    requires forall p :: p in pieces ==> sep !in p
    ensures Split(Join(pieces, sep), sep) == pieces
  {
    if |pieces| > 1 {
      JoinSplit(pieces[1..], sep);
      var s := Join(pieces, sep);
      assert s == pieces[0] + [sep] + Join(pieces[1..], sep);
      assert s[|pieces[0]|] == sep;
      assert s[..|pieces[0]|] == pieces[0];
      assert FirstIndex(s, sep) == |pieces[0]| by {
        FirstIndexAt(s, sep, |pieces[0]|);
      }
      assert s[|pieces[0]| + 1..] == Join(pieces[1..], sep);
    }
  }

  lemma FirstIndexAt(s: string, sep: char, i: nat)
    requires i < |s| && s[i] == sep && sep !in s[..i]
    ensures FirstIndex(s, sep) == i
  {
  }

  /** What the list holds: the normalised form of every line that is not blank, in file order. */
  lemma {:induction false} KeepWordsMembers(lines: seq<string>, w: string)
    ensures w in KeepWords(lines) <==> w != [] && exists i :: 0 <= i < |lines| && Normalise(lines[i]) == w
  {
    if lines != [] {
      var w0 := Normalise(lines[0]);
      var tail := lines[1..];
      var rest := KeepWords(tail);
      KeepWordsMembers(tail, w);
      assert KeepWords(lines) == (if |w0| > 0 then [w0] else []) + rest;
      if w in KeepWords(lines) && w != w0 {
        assert w in rest;
        var j :| 0 <= j < |tail| && Normalise(tail[j]) == w;
        assert tail[j] == lines[j + 1];
        assert Normalise(lines[j + 1]) == w;
      }
      if w != [] && exists i :: 0 <= i < |lines| && Normalise(lines[i]) == w {
        var i :| 0 <= i < |lines| && Normalise(lines[i]) == w;
        if i > 0 {
          assert tail[i - 1] == lines[i];
          assert Normalise(tail[i - 1]) == w;
          assert w in rest;
        } else {
          assert w == w0;
        }
        assert w in KeepWords(lines);
      }
    }
  }

  /** A non-empty normal form has no white space at its ends. */
  lemma NormalEnds(line: string)
    requires Normalise(line) != []
    ensures !IsSpace(Normalise(line)[0]) && !IsSpace(Normalise(line)[|Normalise(line)| - 1])
  {
    var t := Trim(line);
    TrimFacts(line);
    UpperFacts(t[0]);
    UpperFacts(t[|t| - 1]);
  }

  /** The normal form holds no lower-case letter. */
  lemma NormalUpper(line: string)
    ensures forall k :: 0 <= k < |Normalise(line)| ==> !IsLowerLetter(Normalise(line)[k])
  {
    var t := Trim(line);
    forall k | 0 <= k < |t| ensures !IsLowerLetter(Upper(t[k])) {
      UpperFacts(t[k]);
    }
  }

  /** The normal form of a line without a newline holds no newline. */
  lemma {:induction false} NormalNoNewline(line: string)
    requires '\n' !in line
    ensures '\n' !in Normalise(line)
  {
    var ts := TrimStart(line);
    NotInSlice(line, '\n', |line| - |ts|, |line|);
    var t := TrimEnd(ts);
    NotInSlice(ts, '\n', 0, |t|);
    UpperNotNewline(t);
  }

  lemma NotInSlice(s: string, c: char, i: nat, j: nat)
    requires c !in s && i <= j <= |s|
    ensures c !in s[i..j]
  {
    forall k | 0 <= k < j - i ensures s[i..j][k] != c {
      assert s[i..j][k] == s[i + k];
    }
  }

  lemma UpperNotNewline(s: string)
    requires '\n' !in s
    ensures '\n' !in UpperString(s)
  {
    var u := UpperString(s);
    forall k | 0 <= k < |u| ensures u[k] != '\n' {
      assert u[k] == Upper(s[k]);
    }
  }

  /**
   * Every entry of the list is non-empty, holds no newline, has no white
   * space at its ends and no lower-case letter.
   */
  lemma {:induction false} WordListEntries(data: string, w: string)
    requires w in WordList(data)
    ensures w != [] && '\n' !in w
    ensures !IsSpace(w[0]) && !IsSpace(w[|w| - 1])
    ensures forall k :: 0 <= k < |w| ==> !IsLowerLetter(w[k])
  {
    var lines := Split(data, '\n');
    KeepWordsMembers(lines, w);
    var i :| 0 <= i < |lines| && Normalise(lines[i]) == w;
    assert '\n' !in lines[i];
    NormalEnds(lines[i]);
    NormalUpper(lines[i]);
    NormalNoNewline(lines[i]);
  }
}
