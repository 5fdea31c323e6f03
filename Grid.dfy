/**
 * The grid builder: the size of the board and the map from 1-based cell keys
 * to {letter, guess, direction} that the game builds from a level's words.
 */
module Grid {
  import opened Levels
  import opened Keys

  /** `toUpperCase` on one character (ASCII letters only). */
  function Upper(c: char): (r: char)
    ensures !('a' <= r <= 'z')
    ensures !('a' <= c <= 'z') ==> r == c
  {
    if 'a' <= c <= 'z' then (c as int - 32) as char else c
  }

  /** One cell of the board: the expected letter, the player's guess, and the owning word's direction. */
  datatype Cell = Cell(letter: char, guess: string, direction: Direction)

  type Guesses = map<Key, Cell>

  function Max(a: nat, b: nat): nat
  {
    if a < b then b else a
  }

  // ---------------------------------------------------------------------------
  // Grid size

  /** How far a word reaches to the right: start column plus its length (across) or plus one (down). */
  function ExtentX(w: Word): nat
  {
    if w.direction == Across then w.start.x + |w.text| else w.start.x + 1
  }

  /** How far a word reaches downward: start row plus one (across) or plus its length (down). */
  function ExtentY(w: Word): nat
  {
    if w.direction == Across then w.start.y + 1 else w.start.y + |w.text|
  }

  datatype Size = Size(width: nat, height: nat)

  /**
   * The board's size: the largest horizontal and vertical extent over all
   * words, 0 by 0 for no words. Every word fits, and each non-zero side is
   * reached by some word.
   */
  function GridSize(words: seq<Word>): Size
  {
    if words == [] then Size(0, 0)
    else
      var s := GridSize(words[..|words| - 1]);
      var w := words[|words| - 1];
      Size(Max(s.width, ExtentX(w)), Max(s.height, ExtentY(w)))
  }

  /** The board size bounds every word, and each non-zero side is reached by some word. */
  lemma {:induction false} GridSizeBounds(words: seq<Word>)
    ensures forall j :: 0 <= j < |words| ==>
              ExtentX(words[j]) <= GridSize(words).width && ExtentY(words[j]) <= GridSize(words).height
    ensures GridSize(words).width == 0 || exists j :: 0 <= j < |words| && ExtentX(words[j]) == GridSize(words).width
    ensures GridSize(words).height == 0 || exists j :: 0 <= j < |words| && ExtentY(words[j]) == GridSize(words).height
  {
    if words != [] {
      var prefix := words[..|words| - 1];
      GridSizeBounds(prefix);
      assert forall j :: 0 <= j < |prefix| ==> prefix[j] == words[j];
    }
  }

  /** `calculateGridSize`: one pass over the words, widening maxX and maxY. */
  method CalculateGridSize(words: seq<Word>) returns (width: nat, height: nat)
    ensures Size(width, height) == GridSize(words)
  {
    var maxX, maxY := 0, 0;
    var i := 0;
    while i < |words|
      invariant 0 <= i <= |words|
      invariant Size(maxX, maxY) == GridSize(words[..i])
    {
      var w := words[i];
      if w.direction == Across {
        maxX := Max(maxX, w.start.x + |w.text|);
        maxY := Max(maxY, w.start.y + 1);
      } else {
        maxX := Max(maxX, w.start.x + 1);
        maxY := Max(maxY, w.start.y + |w.text|);
      }
      assert words[..i + 1][..i] == words[..i];
      i := i + 1;
    }
    assert words[..|words|] == words;
    width, height := maxX, maxY;
  }

  // ---------------------------------------------------------------------------
  // Cells of one word

  /** The key of letter `i` of word `w`: (y+1, x+1+i) across, (y+1+i, x+1) down. */
  function KeyAt(w: Word, i: nat): Key
  {
    if w.direction == Across then Key(w.start.y + 1, w.start.x + 1 + i)
    else Key(w.start.y + 1 + i, w.start.x + 1)
  }

  /** The cell that letter `i` of word `w` writes. */
  function CellAt(w: Word, i: nat): Cell
    requires i < |w.text|
  {
    Cell(Upper(w.text[i]), "", w.direction)
  }

  /** `k` is one of the first `n` cells of word `w`. */
  predicate CoversUpTo(w: Word, n: nat, k: Key)
  {
    if w.direction == Across then
      k.row == w.start.y + 1 && w.start.x + 1 <= k.col < w.start.x + 1 + n
    else
      k.col == w.start.x + 1 && w.start.y + 1 <= k.row < w.start.y + 1 + n
  }

  /** `k` is one of the cells of word `w`. */
  predicate Covers(w: Word, k: Key)
  {
    CoversUpTo(w, |w.text|, k)
  }

  /** The position within `w` of the letter at `k`. */
  function Offset(w: Word, k: Key): int
  {
    if w.direction == Across then k.col - (w.start.x + 1) else k.row - (w.start.y + 1)
  }

  /** The cell word `w` writes at a key it covers. */
  function CellOf(w: Word, k: Key): Cell
    requires Covers(w, k)
  {
    CellAt(w, Offset(w, k))
  }

  /** The keys a word covers are exactly the keys of its letters. */
  lemma CoversIff(w: Word, k: Key)
    ensures Covers(w, k) <==> exists i :: 0 <= i < |w.text| && KeyAt(w, i) == k
  {
    if Covers(w, k) {
      assert KeyAt(w, Offset(w, k)) == k;
    }
  }

  // ---------------------------------------------------------------------------
  // The cell map

  /** `m` after writing the first `n` letters of `w`, in order. */
  function PlaceWord(m: Guesses, w: Word, n: nat): (r: Guesses)
    requires n <= |w.text|
    ensures m.Keys <= r.Keys && |r.Keys| <= |m.Keys| + n
  {
    if n == 0 then m else PlaceWord(m, w, n - 1)[KeyAt(w, n - 1) := CellAt(w, n - 1)]
  }

  /** The initial cell map: every word's letters written in order, later words over earlier ones. */
  function Build(words: seq<Word>): Guesses
  {
    if words == [] then map[]
    else
      var w := words[|words| - 1];
      PlaceWord(Build(words[..|words| - 1]), w, |w.text|)
  }

  lemma {:induction false} PlaceWordAt(m: Guesses, w: Word, n: nat, k: Key)
    requires n <= |w.text|
    ensures k in PlaceWord(m, w, n) <==> k in m || CoversUpTo(w, n, k)
    ensures CoversUpTo(w, n, k) ==> PlaceWord(m, w, n)[k] == CellAt(w, Offset(w, k))
    ensures !CoversUpTo(w, n, k) && k in m ==> PlaceWord(m, w, n)[k] == m[k]
  {
    if n > 0 {
      PlaceWordAt(m, w, n - 1, k);
    }
  }

  /**
   * The index of the last word that covers `k`, or -1 when none does.
   */
  function LastCover(words: seq<Word>, k: Key): (r: int)
    ensures -1 <= r < |words|
    ensures r >= 0 ==> Covers(words[r], k)
    ensures forall j :: r < j < |words| ==> !Covers(words[j], k)
  {
    if words == [] then -1
    else if Covers(words[|words| - 1], k) then |words| - 1
    else
      var prefix := words[..|words| - 1];
      assert forall j :: 0 <= j < |prefix| ==> prefix[j] == words[j];
      LastCover(prefix, k)
  }

  /**
   * A key is in the initial map exactly when some word covers it, and it holds
   * the cell written by the last such word.
   */
  lemma {:induction false} BuildAt(words: seq<Word>, k: Key)
    ensures k in Build(words) <==> LastCover(words, k) >= 0
    ensures k in Build(words) ==> Build(words)[k] == CellOf(words[LastCover(words, k)], k)
  {
    if words != [] {
      var prefix, w := words[..|words| - 1], words[|words| - 1];
      BuildAt(prefix, k);
      PlaceWordAt(Build(prefix), w, |w.text|, k);
      if !Covers(w, k) {
        assert LastCover(words, k) == LastCover(prefix, k);
        if LastCover(prefix, k) >= 0 {
          assert words[LastCover(prefix, k)] == prefix[LastCover(prefix, k)];
        }
      }
    }
  }

  /** Cells not covered by any word are absent; every covered cell is present. */
  lemma BuildKeys(words: seq<Word>, k: Key)
    ensures k in Build(words) <==> exists j :: 0 <= j < |words| && Covers(words[j], k)
  {
    BuildAt(words, k);
  }

  /**
   * Letter `i` of word `j` is stored, uppercased and with an empty guess, at
   * KeyAt(words[j], i), unless a later word writes the same key.
   */
  lemma BuildStoresLetter(words: seq<Word>, j: nat, i: nat)
    requires j < |words| && i < |words[j].text|
    requires forall j' :: j < j' < |words| ==> !Covers(words[j'], KeyAt(words[j], i))
    ensures KeyAt(words[j], i) in Build(words)
    ensures Build(words)[KeyAt(words[j], i)] == Cell(Upper(words[j].text[i]), "", words[j].direction)
  {
    var k := KeyAt(words[j], i);
    assert Covers(words[j], k);
    BuildAt(words, k);
  }

  /** Every initial cell has an empty guess and an uppercase letter. */
  lemma BuildCellsFresh(words: seq<Word>, k: Key)
    requires k in Build(words)
    ensures Build(words)[k].guess == ""
    ensures !('a' <= Build(words)[k].letter <= 'z')
  {
    BuildAt(words, k);
  }

  /** Every key of the initial map lies inside the board: 1 <= row <= height, 1 <= col <= width. */
  lemma KeysWithinGrid(words: seq<Word>, k: Key)
    requires k in Build(words)
    ensures 1 <= k.row <= GridSize(words).height
    ensures 1 <= k.col <= GridSize(words).width
  {
    BuildAt(words, k);
    GridSizeBounds(words);
  }

  /** The initialising effect: a cursor (x, y) walks each word, writing one cell per letter. */
  method BuildGuesses(words: seq<Word>) returns (m: Guesses)
    ensures m == Build(words)
  {
    m := map[];
    var j := 0;
    while j < |words|
      invariant 0 <= j <= |words|
      invariant m == Build(words[..j])
    {
      var w := words[j];
      var x: nat, y: nat := w.start.x + 1, w.start.y + 1;
      var i := 0;
      while i < |w.text|
        invariant 0 <= i <= |w.text|
        invariant Key(y, x) == KeyAt(w, i)
        invariant m == PlaceWord(Build(words[..j]), w, i)
      {
        m := m[Key(y, x) := Cell(Upper(w.text[i]), "", w.direction)];
        if w.direction == Across {
          x := x + 1;
        } else {
          y := y + 1;
        }
        i := i + 1;
      }
      assert words[..j + 1][..j] == words[..j];
      j := j + 1;
    }
    assert words[..|words|] == words;
  }

  // ---------------------------------------------------------------------------
  // The shipped level

  /** Level 1 is 4 columns wide and 7 rows high. */
  lemma Level1Size()
    ensures GridSize(Level1.words) == Size(4, 7)
  {
  }

  /** The ten cells of level 1: "SHIP" on row 1, "PACKAGE" down column 4 sharing (1,4). */
  function Level1Keys(): set<Key>
  {
    {Key(1, 1), Key(1, 2), Key(1, 3), Key(1, 4), Key(2, 4),
     Key(3, 4), Key(4, 4), Key(5, 4), Key(6, 4), Key(7, 4)}
  }

  lemma Level1KeysCount()
    ensures |Level1Keys()| == 10
  {
  }

  lemma Level1KeyIff(k: Key)
    ensures k in Build(Level1.words) <==> k in Level1Keys()
  {
    var words := Level1.words;
    BuildKeys(words, k);
    assert Covers(words[0], k) <==> k.row == 1 && 1 <= k.col <= 4;
    assert Covers(words[1], k) <==> k.col == 4 && 1 <= k.row <= 7;
    if k.row == 1 && 1 <= k.col <= 4 {
      assert k.col == 1 || k.col == 2 || k.col == 3 || k.col == 4;
    } else if k.col == 4 && 1 <= k.row <= 7 {
      assert k.row in {1, 2, 3, 4, 5, 6, 7};
    }
  }

  /** Level 1 has exactly ten cells, those of `Level1Keys`. */
  lemma Level1KeySet()
    ensures Build(Level1.words).Keys == Level1Keys()
    ensures |Build(Level1.words)| == 10
  {
    forall k
      ensures k in Build(Level1.words) <==> k in Level1Keys()
    {
      Level1KeyIff(k);
    }
    Level1KeysCount();
  }

  /** The shared cell (1,4) holds 'P' with the later word's direction, down; (1,1) holds 'S' across. */
  lemma Level1Cells()
    ensures Key(1, 4) in Build(Level1.words) && Build(Level1.words)[Key(1, 4)] == Cell('P', "", Down)
    ensures Key(1, 1) in Build(Level1.words) && Build(Level1.words)[Key(1, 1)] == Cell('S', "", Across)
  {
    BuildStoresLetter(Level1.words, 1, 0);
    BuildStoresLetter(Level1.words, 0, 0);
  }
}
