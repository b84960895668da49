/**
 * The colour of each key of the on-screen keyboard (updateKeyboardColor in
 * js/main.js). A key starts uncoloured and is repainted after every scored
 * letter; green is never replaced and yellow only by green, so a key's
 * colour only moves up the order Unset < Grey < Yellow < Green.
 */
module Keyboard {
  import opened Optional
  import opened Scoring
  import Words

  datatype KeyColor = Unset | Grey | Yellow | Green

  /** The background a tile of this kind is given. */
  function Paint(t: Tile): KeyColor
  {
    match t
    case Exact => Green
    case Present => Yellow
    case Absent => Grey
  }

  function Rank(k: KeyColor): nat
  {
    match k
    case Unset => 0
    case Grey => 1
    case Yellow => 2
    case Green => 3
  }

  /** The higher of two colours in the order Unset < Grey < Yellow < Green. */
  function Higher(a: KeyColor, b: KeyColor): KeyColor
  {
    if Rank(a) >= Rank(b) then a else b
  }

  /** The three branches of updateKeyboardColor for a key currently showing `current`. */
  function Upgrade(current: KeyColor, t: Tile): (r: KeyColor)
    ensures r == current || r == Paint(t)
    ensures Rank(r) >= Rank(current) && Rank(r) >= Rank(Paint(t))
  {
    var color := Paint(t);
    if color == Green then color
    else if color == Yellow && current != Green then color
    else if current != Green && current != Yellow then color
    else current
  }

  /**
   * The key colours after one letter is scored: the key whose data-key is the
   * lower-cased letter is upgraded; a letter without a key changes nothing.
   */
  function Recolour(colors: map<char, KeyColor>, keys: set<char>, letter: char, t: Tile): (r: map<char, KeyColor>)
    ensures r.Keys == colors.Keys + (if Words.Lower(letter) in keys then {Words.Lower(letter)} else {})
  {
    var key := Words.Lower(letter);
    if key in keys then colors[key := Upgrade(Lookup(colors, key, Unset), t)] else colors
  }

  /** The key colours after a whole row of letters is scored, left to right. */
  function RecolourRow(colors: map<char, KeyColor>, keys: set<char>, letters: seq<char>, tiles: seq<Tile>): (r: map<char, KeyColor>)
    requires |letters| == |tiles|
    ensures colors.Keys <= r.Keys <= colors.Keys + keys
    decreases |letters|
  {
    if letters == [] then colors
    else RecolourRow(Recolour(colors, keys, letters[0], tiles[0]), keys, letters[1..], tiles[1..])
  }

  /** The best colour a row gives to `key`: the highest colour among its letters that land on that key. */
  function BestIn(keys: set<char>, key: char, letters: seq<char>, tiles: seq<Tile>): KeyColor
    requires |letters| == |tiles|
  {
    if letters == [] then Unset
    else
      var here := if Words.Lower(letters[0]) == key && key in keys then Paint(tiles[0]) else Unset;
      Higher(here, BestIn(keys, key, letters[1..], tiles[1..]))
  }

  /** The keyboard on the page: the set of letter keys and the colour each one shows. */
  class Keys {
    const keys: set<char>
    var colors: map<char, KeyColor>

    /** A keyboard with the given letter keys, none coloured yet. */
    constructor (keys: set<char>)
      ensures this.keys == keys && colors == map[]
    {
      this.keys := keys;
      colors := map[];
    }

    /** updateKeyboardColor: repaint the key of `letter` after a tile of kind `t`. */
    method UpdateKeyboardColor(letter: char, t: Tile)
      modifies this
      ensures colors == Recolour(old(colors), keys, letter, t)
    {
      var key := Words.Lower(letter);
      if key !in keys {
        return;
      }
      var current := if key in colors then colors[key] else Unset;
      var color := Paint(t);
      if color == Green {
        colors := colors[key := color];
      } else if color == Yellow && current != Green {
        colors := colors[key := color];
      } else if current != Green && current != Yellow {
        colors := colors[key := color];
      }
    }

    /** resetGame clears every key's background. */
    method Reset()
      modifies this
      ensures colors == map[]
    {
      colors := map[];
    }
  }

  // ---------------------------------------------------------------------
  // Properties
  // ---------------------------------------------------------------------

  /** The repaint is the higher of the current colour and the tile's colour. */
  lemma UpgradeIsHigher(current: KeyColor, t: Tile)
    ensures Upgrade(current, t) == Higher(current, Paint(t))
  {
  }

  /** A repaint never downgrades a key, and changes no key but the letter's own. */
  lemma RecolourMonotone(colors: map<char, KeyColor>, keys: set<char>, a: char, t: Tile, k: char)
    ensures Rank(Lookup(Recolour(colors, keys, a, t), k, Unset)) >= Rank(Lookup(colors, k, Unset))
    ensures k != Words.Lower(a) ==> Lookup(Recolour(colors, keys, a, t), k, Unset) == Lookup(colors, k, Unset)
  {
  }

  /** Repeating the same repaint changes nothing. */
  lemma RecolourIdempotent(colors: map<char, KeyColor>, keys: set<char>, a: char, t: Tile)
    ensures Recolour(Recolour(colors, keys, a, t), keys, a, t) == Recolour(colors, keys, a, t)
  {
  }

  /**
   * Two repaints give the same keyboard in either order, so the order in
   * which the row's reveal timers fire does not matter.
   */
  lemma RecolourCommutes(colors: map<char, KeyColor>, keys: set<char>, a: char, ta: Tile, b: char, tb: Tile)
    ensures Recolour(Recolour(colors, keys, a, ta), keys, b, tb) == Recolour(Recolour(colors, keys, b, tb), keys, a, ta)
  {
    var ka, kb := Words.Lower(a), Words.Lower(b);
    if ka == kb && ka in keys {
      var c := Lookup(colors, ka, Unset);
      UpgradeIsHigher(c, ta);
      UpgradeIsHigher(c, tb);
      UpgradeIsHigher(Upgrade(c, ta), tb);
      UpgradeIsHigher(Upgrade(c, tb), ta);
    }
  }

  /**
   * A scored row leaves each key showing the higher of its old colour and the
   * best colour the row gives it.
   */
  lemma {:induction false} RecolourRowIsBest(colors: map<char, KeyColor>, keys: set<char>, letters: seq<char>, tiles: seq<Tile>, key: char)
    requires |letters| == |tiles|
    ensures Lookup(RecolourRow(colors, keys, letters, tiles), key, Unset) == Higher(Lookup(colors, key, Unset), BestIn(keys, key, letters, tiles))
    decreases |letters|
  {
    if letters != [] {
      RecolourRowIsBest(Recolour(colors, keys, letters[0], tiles[0]), keys, letters[1..], tiles[1..], key);
    }
  }

  /** Scoring one more letter of a row repaints after the letters before it: the row can be replayed letter by letter. */
  lemma {:induction false} RecolourRowSnoc(colors: map<char, KeyColor>, keys: set<char>, letters: seq<char>, tiles: seq<Tile>, a: char, t: Tile)
    requires |letters| == |tiles|
    ensures RecolourRow(colors, keys, letters + [a], tiles + [t]) == Recolour(RecolourRow(colors, keys, letters, tiles), keys, a, t)
    decreases |letters|
  {
    if letters != [] {
      assert (letters + [a])[1..] == letters[1..] + [a];
      assert (tiles + [t])[1..] == tiles[1..] + [t];
      RecolourRowSnoc(Recolour(colors, keys, letters[0], tiles[0]), keys, letters[1..], tiles[1..], a, t);
    }
  }
}
