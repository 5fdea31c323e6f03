/**
 * The game board: routing keystrokes into guesses, tracking the active word,
 * auto-advancing focus, checking completion, and the per-cell view the grid
 * renders (enabled or not, intersection marker, correct-guess highlight).
 */
module Board {
  import opened Wrappers
  import opened Levels
  import opened Keys
  import opened Grid

  // ---------------------------------------------------------------------------
  // Guesses

  /** `value.slice(-1).toUpperCase()`: the last character typed, uppercased, or "" for empty input. */
  function LastCharUpper(value: string): (r: string)
    ensures |r| <= 1 && (r == "" <==> value == "")
    ensures forall i :: 0 <= i < |r| ==> !('a' <= r[i] <= 'z')
  {
    if value == [] then [] else [Upper(value[|value| - 1])]
  }

  /**
   * The guess update of `handleInputChange`: cell `k` gets the new guess and
   * keeps its letter and direction; every other cell is left as it was.
   */
  function ApplyGuess(g: Guesses, k: Key, value: string): (r: Guesses)
    requires k in g
    ensures r.Keys == g.Keys
    ensures r[k].letter == g[k].letter && r[k].direction == g[k].direction
    ensures r[k].guess == LastCharUpper(value)
    ensures forall k' :: k' in g && k' != k ==> r[k'] == g[k']
  {
    g[k := g[k].(guess := LastCharUpper(value))]
  }

  /** Same cells with the same letters and directions; only guesses may differ. */
  ghost predicate SameLayout(g: Guesses, base: Guesses)
  {
    && g.Keys == base.Keys
    && forall k :: k in g ==> g[k].letter == base[k].letter && g[k].direction == base[k].direction
  }

  // ---------------------------------------------------------------------------
  // Completion

  /** The grid's correct-guess highlight: the guess equals the cell's letter. */
  predicate ShowsCorrect(c: Cell)
  {
    c.guess == [c.letter]
  }

  /** `checkLevelCompletion`: every cell's guess equals its letter and is non-empty. */
  predicate Complete(g: Guesses)
  {
    forall k :: k in g ==> g[k].guess == [g[k].letter] && g[k].guess != ""
  }

  /** The level is complete exactly when every cell shows the correct-guess highlight. */
  lemma CompleteIffAllHighlighted(g: Guesses)
    ensures Complete(g) <==> forall k :: k in g ==> ShowsCorrect(g[k])
  {
  }

  /**
   * After one keystroke the level is complete exactly when the new guess is
   * that cell's letter and every other cell was already correct.
   */
  lemma CompleteAfterGuess(g: Guesses, k: Key, value: string)
    requires k in g
    ensures Complete(ApplyGuess(g, k, value)) <==>
            LastCharUpper(value) == [g[k].letter] &&
            forall k' :: k' in g && k' != k ==> ShowsCorrect(g[k'])
  {
  }

  /** `Lower`: the inverse of Upper on uppercase letters. */
  function Lower(c: char): char
  {
    if 'A' <= c <= 'Z' then (c as int + 32) as char else c
  }

  /**
   * The expected letter typed in either case, alone or as the last character
   * of a longer input, becomes exactly that letter as the guess.
   */
  lemma EitherCaseTypesLetter(letter: char, before: string)
    requires !('a' <= letter <= 'z')
    ensures LastCharUpper(before + [letter]) == [letter]
    ensures LastCharUpper(before + [Lower(letter)]) == [letter]
  {
  }

  /** The map after typing `vs[i]` into cell `ks[i]`, one keystroke after another. */
  function TypeAnswers(g: Guesses, ks: seq<Key>, vs: seq<string>): (r: Guesses)
    requires |vs| == |ks|
    requires forall i :: 0 <= i < |ks| ==> ks[i] in g
    ensures r.Keys == g.Keys
    ensures forall k :: k in g ==> r[k].letter == g[k].letter
  {
    if ks == [] then g
    else
      var n := |ks| - 1;
      assert forall i :: 0 <= i < n ==> ks[..n][i] == ks[i];
      ApplyGuess(TypeAnswers(g, ks[..n], vs[..n]), ks[n], vs[n])
  }

  /** A cell that received at least one keystroke whose uppercased last character is its letter shows correct. */
  lemma {:induction false} TypeAnswersCorrect(g: Guesses, ks: seq<Key>, vs: seq<string>, k: Key)
    requires |vs| == |ks|
    requires forall i :: 0 <= i < |ks| ==> ks[i] in g
    requires forall i :: 0 <= i < |ks| ==> LastCharUpper(vs[i]) == [g[ks[i]].letter]
    requires k in ks
    ensures ShowsCorrect(TypeAnswers(g, ks, vs)[k])
  {
    var n := |ks| - 1;
    var prefix := ks[..n];
    assert forall i :: 0 <= i < n ==> prefix[i] == ks[i] && vs[..n][i] == vs[i];
    if k != ks[n] {
      assert k in prefix by {
        var i :| 0 <= i < |ks| && ks[i] == k;
        assert i < n;
        assert prefix[i] == k;
      }
      TypeAnswersCorrect(g, prefix, vs[..n], k);
    }
  }

  /**
   * Typing into every cell an input whose last character is that cell's
   * letter, in either case, completes the level, whatever the guesses were before.
   */
  lemma TypingAllAnswersCompletes(g: Guesses, ks: seq<Key>, vs: seq<string>)
    requires |vs| == |ks|
    requires forall i :: 0 <= i < |ks| ==> ks[i] in g
    requires forall i :: 0 <= i < |ks| ==> LastCharUpper(vs[i]) == [g[ks[i]].letter]
    requires forall k :: k in g ==> k in ks
    ensures Complete(TypeAnswers(g, ks, vs))
  {
    var r := TypeAnswers(g, ks, vs);
    forall k | k in r
      ensures r[k].guess == [r[k].letter] && r[k].guess != ""
    {
      TypeAnswersCorrect(g, ks, vs, k);
    }
  }

  /** Changing a cell of a complete board to a wrong or empty guess makes it incomplete. */
  lemma WrongGuessBreaksCompletion(g: Guesses, k: Key, value: string)
    requires k in g
    requires LastCharUpper(value) != [g[k].letter]
    ensures !Complete(ApplyGuess(g, k, value))
  {
    CompleteAfterGuess(g, k, value);
  }

  // ---------------------------------------------------------------------------
  // The active word

  /**
   * `isActiveWordKey`: with no anchor nothing is active; otherwise the active
   * word is the ray from the anchor along the anchor cell's direction (not
   * bounded by the word's length).
   */
  predicate IsActiveWordKey(anchor: Option<Key>, g: Guesses, k: Key)
    requires anchor.Some? ==> anchor.value in g
  {
    match anchor
    case None => false
    case Some(a) =>
      var d := g[a].direction;
      (d == Across && a.row == k.row && k.col >= a.col) ||
      (d == Down && a.col == k.col && k.row >= a.row)
  }

  /**
   * The active word is exactly the set of cells auto-advance can reach from
   * the anchor: every key some number of NextKey steps along the anchor's direction.
   */
  lemma ActiveIsReachable(a: Key, g: Guesses, k: Key)
    requires a in g
    ensures IsActiveWordKey(Some(a), g, k) <==> exists n: nat :: Walk(a, g[a].direction, n) == k
  {
    var d := g[a].direction;
    if IsActiveWordKey(Some(a), g, k) {
      var n: nat := if d == Across then k.col - a.col else k.row - a.row;
      WalkPosition(a, d, n);
    }
    if exists n: nat :: Walk(a, d, n) == k {
      var n: nat :| Walk(a, d, n) == k;
      WalkPosition(a, d, n);
    }
  }

  /** The ray never ends: the next key along the anchor's direction is active too. */
  lemma ActiveRayUnbounded(a: Key, g: Guesses, k: Key)
    requires a in g && IsActiveWordKey(Some(a), g, k)
    ensures IsActiveWordKey(Some(a), g, NextKey(k, g[a].direction))
  {
  }

  // ---------------------------------------------------------------------------
  // Intersections

  /** Intersection `it` sits on key `k` (its zero-based position plus one). */
  predicate MarksKey(it: Intersection, k: Key)
  {
    it.position.x + 1 == k.col && it.position.y + 1 == k.row
  }

  /** `intersections.some(...)`: some intersection sits on `k`. */
  predicate IsIntersection(ints: seq<Intersection>, k: Key)
  {
    exists i :: 0 <= i < |ints| && MarksKey(ints[i], k)
  }

  /** `intersections.find(...).clues`: the clues of the first intersection on `k`, if any. */
  function FindClues(ints: seq<Intersection>, k: Key): (r: Option<seq<string>>)
    ensures r.Some? <==> IsIntersection(ints, k)
    ensures r.Some? ==> exists i :: 0 <= i < |ints| && MarksKey(ints[i], k) && r.value == ints[i].clues &&
                                    forall i' :: 0 <= i' < i ==> !MarksKey(ints[i'], k)
  {
    if ints == [] then None
    else if MarksKey(ints[0], k) then Some(ints[0].clues)
    else
      var r := FindClues(ints[1..], k);
      assert r.Some? ==> exists i :: 0 <= i < |ints| && MarksKey(ints[i], k) && r.value == ints[i].clues &&
                                     forall i' :: 0 <= i' < i ==> !MarksKey(ints[i'], k) by {
        // the first match in the tail, at j, is the first match in ints, at j + 1
        assert forall i :: 0 < i < |ints| ==> ints[1..][i - 1] == ints[i];
        if r.Some? {
          var j :| 0 <= j < |ints[1..]| && MarksKey(ints[1..][j], k) && r.value == ints[1..][j].clues &&
                   forall i' :: 0 <= i' < j ==> !MarksKey(ints[1..][i'], k);
          assert MarksKey(ints[j + 1], k) && forall i' :: 0 <= i' < j + 1 ==> !MarksKey(ints[i'], k);
        }
      }
      r
  }

  /** Level 1's one intersection is the shared cell (1,4), and it holds both clues in order. */
  lemma Level1Clues()
    ensures FindClues(Level1.intersections, Key(1, 4)) ==
            Some(["/images/level1/clue-ship-package-1.webp", "/images/level1/clue-ship-package-2.webp"])
    ensures forall k :: IsIntersection(Level1.intersections, k) <==> k == Key(1, 4)
  {
  }

  /** Every cell of a board laid out from `words` lies within the board size of `words`. */
  lemma CellsWithinGrid(g: Guesses, words: seq<Word>)
    requires SameLayout(g, Build(words))
    ensures forall k :: k in g ==> 1 <= k.row <= GridSize(words).height && 1 <= k.col <= GridSize(words).width
  {
    forall k | k in g
      ensures 1 <= k.row <= GridSize(words).height && 1 <= k.col <= GridSize(words).width
    {
      KeysWithinGrid(words, k);
    }
  }

  // ---------------------------------------------------------------------------
  // The board

  /** What one rendered grid cell shows. */
  datatype CellView = CellView(enabled: bool, intersection: bool, correct: bool, value: string)

  class GameBoard {
    var level: Level
    var guesses: Guesses
    var activeWordStart: Option<Key>
    var focused: Option<Key>
    var levelComplete: bool
    var selectedClues: seq<string>

    /**
     * The cells are the level's cells with their letters and directions; the
     * anchor, when set, is one of them; the completion flag is up to date.
     */
    ghost predicate Valid()
      reads this
    {
      && SameLayout(guesses, Build(level.words))
      && (activeWordStart.Some? ==> activeWordStart.value in guesses)
      && levelComplete == Complete(guesses)
    }

    /** Mounting the board on a level: the initial cells, no anchor, no focus, no clues. */
    constructor (lv: Level)
      ensures Valid()
      ensures level == lv && guesses == Build(lv.words)
      ensures activeWordStart == None && focused == None && selectedClues == []
    {
      level := lv;
      var g := BuildGuesses(lv.words);
      guesses := g;
      activeWordStart := None;
      focused := None;
      selectedClues := [];
      levelComplete := Complete(g);
    }

    /**
     * `setCurrentLevel`: selecting the level already shown changes nothing;
     * another level rebuilds the cells (discarding guesses) and keeps the anchor.
     */
    method SelectLevel(lv: Level)
      requires Valid()
      requires lv == level || activeWordStart.None? || activeWordStart.value in Build(lv.words)
      modifies this
      ensures Valid()
      ensures lv == old(level) ==> unchanged(this)
      ensures lv != old(level) ==> level == lv && guesses == Build(lv.words)
      ensures activeWordStart == old(activeWordStart) && focused == old(focused)
      ensures selectedClues == old(selectedClues)
    {
      if lv != level {
        level := lv;
        var g := BuildGuesses(lv.words);
        guesses := g;
        levelComplete := Complete(g);
      }
    }

    /**
     * `handleFocus`: focusing a cell outside the active word makes it the new
     * anchor; focusing a cell of the active word leaves the anchor alone.
     * A key with no cell cannot take focus.
     */
    method HandleFocus(k: Key)
      requires Valid()
      modifies this`activeWordStart, this`focused
      ensures Valid()
      ensures k !in guesses ==> activeWordStart == old(activeWordStart) && focused == old(focused)
      ensures k in guesses ==> focused == Some(k) && IsActiveWordKey(activeWordStart, guesses, k)
      ensures k in guesses ==>
                (activeWordStart == old(activeWordStart) <==> IsActiveWordKey(old(activeWordStart), guesses, k))
      ensures k in guesses && !IsActiveWordKey(old(activeWordStart), guesses, k) ==> activeWordStart == Some(k)
    {
      if k in guesses {
        focused := Some(k);
        if !IsActiveWordKey(activeWordStart, guesses, k) {
          activeWordStart := Some(k);
        }
      }
    }

    /**
     * `handleInputChange`: store the last character typed, uppercased, as the
     * guess of cell `k`; recompute completion; then move focus to the next
     * cell in `k`'s direction if that cell exists and is in the active word.
     */
    method HandleInputChange(k: Key, value: string)
      requires Valid()
      requires k in guesses
      modifies this`guesses, this`levelComplete, this`activeWordStart, this`focused
      ensures Valid()
      ensures guesses == ApplyGuess(old(guesses), k, value)
      ensures levelComplete == Complete(guesses)
      ensures activeWordStart == old(activeWordStart)
      ensures var next := NextKey(k, old(guesses)[k].direction);
              focused == if next in guesses && IsActiveWordKey(activeWordStart, guesses, next)
                         then Some(next) else old(focused)
    {
      guesses := ApplyGuess(guesses, k, value);
      levelComplete := Complete(guesses);
      var next := NextKey(k, guesses[k].direction);
      if next in guesses && IsActiveWordKey(activeWordStart, guesses, next) {
        // focusing the next input fires its focus handler; the cell is active, so the anchor stays
        HandleFocus(next);
      }
    }

    /** `handleClueIconClick` on the marker at `k`: show that intersection's clues, in order. */
    method ClueIconClick(k: Key)
      requires Valid()
      requires IsIntersection(level.intersections, k)
      modifies this`selectedClues
      ensures Valid()
      ensures selectedClues == FindClues(level.intersections, k).value
    {
      var found := FindClues(level.intersections, k);
      selectedClues := found.value;
    }

    /** The rendered cell at `k`: enabled iff it is a cell, with its guess and highlights. */
    function ViewAt(k: Key): CellView
      reads this
    {
      var present := k in guesses;
      CellView(present,
               IsIntersection(level.intersections, k),
               present && ShowsCorrect(guesses[k]),
               if present then guesses[k].guess else "")
    }

    /** `row` is row `y` of the rendered grid, `width` cells wide. */
    ghost predicate RowShows(row: seq<CellView>, y: nat, width: nat)
      reads this
    {
      |row| == width && forall c :: 0 <= c < width ==> row[c] == ViewAt(Key(y, c + 1))
    }

    /** One row of `renderGrid`: columns 1..width of row `y`. */
    method RenderRow(y: nat, width: nat) returns (row: seq<CellView>)
      ensures RowShows(row, y, width)
    {
      row := [];
      var x := 1;
      while x <= width
        invariant 1 <= x <= width + 1
        invariant |row| == x - 1
        invariant forall c :: 0 <= c < |row| ==> row[c] == ViewAt(Key(y, c + 1))
      {
        row := row + [ViewAt(Key(y, x))];
        x := x + 1;
      }
    }

    /**
     * `renderGrid`: rows 1..height, columns 1..width of the board. Every cell
     * of the level appears in it, enabled.
     */
    method RenderGrid() returns (rows: seq<seq<CellView>>)
      requires Valid()
      ensures |rows| == GridSize(level.words).height
      ensures forall r :: 0 <= r < |rows| ==> RowShows(rows[r], r + 1, GridSize(level.words).width)
      ensures forall k :: k in guesses ==>
                1 <= k.row <= |rows| && 1 <= k.col <= |rows[k.row - 1]| && rows[k.row - 1][k.col - 1].enabled
    {
      var width, height := CalculateGridSize(level.words);
      rows := [];
      var y := 1;
      while y <= height
        invariant 1 <= y <= height + 1
        invariant |rows| == y - 1
        invariant forall r :: 0 <= r < |rows| ==> RowShows(rows[r], r + 1, width)
      {
        var row := RenderRow(y, width);
        rows := rows + [row];
        y := y + 1;
      }
      CellsEnabled(rows, width, height);
    }

    /** In a grid whose rows show the board, every cell of the level is present and enabled. */
    lemma CellsEnabled(rows: seq<seq<CellView>>, width: nat, height: nat)
      requires SameLayout(guesses, Build(level.words))
      requires width == GridSize(level.words).width && height == GridSize(level.words).height
      requires |rows| == height && forall r :: 0 <= r < |rows| ==> RowShows(rows[r], r + 1, width)
      ensures forall k :: k in guesses ==>
                1 <= k.row <= |rows| && 1 <= k.col <= |rows[k.row - 1]| && rows[k.row - 1][k.col - 1].enabled
    {
      CellsWithinGrid(guesses, level.words);
      forall k | k in guesses
        ensures 1 <= k.row <= |rows| && 1 <= k.col <= |rows[k.row - 1]| && rows[k.row - 1][k.col - 1].enabled
      {
        assert RowShows(rows[k.row - 1], k.row, width);
        assert rows[k.row - 1][k.col - 1] == ViewAt(Key(k.row, k.col));
      }
    }
  }

  /** The layout of the level 1 cells that the walkthrough below passes through. */
  ghost predicate Level1Layout(g: Guesses)
  {
    && Key(1, 1) in g && Key(1, 2) in g && Key(1, 4) in g && Key(2, 4) in g
    && g[Key(1, 1)].direction == Across && g[Key(1, 4)].direction == Down
    && g[Key(2, 4)].guess == ""
  }

  lemma Level1HasLayout()
    ensures Level1Layout(Build(Level1.words))
  {
    Level1KeySet();
    Level1Cells();
    BuildCellsFresh(Level1.words, Key(2, 4));
  }

  /**
   * Play from the first cell of a fresh board laid out like level 1: typing 's'
   * at (1,1) moves focus to (1,2); typing 'p' at the shared cell (1,4) leaves
   * focus there, because that cell's direction is down and (2,4) is off the
   * across ray anchored at (1,1).
   */
  method PlayShip(b: GameBoard) returns (afterS: Option<Key>, afterP: Option<Key>, complete: bool)
    requires b.Valid() && b.activeWordStart == None && Level1Layout(b.guesses)
    modifies b
    ensures afterS == Some(Key(1, 2))
    ensures afterP == Some(Key(1, 4))
    ensures !complete
  {
    b.HandleFocus(Key(1, 1));
    b.HandleInputChange(Key(1, 1), "s");
    afterS := b.focused;
    b.HandleFocus(Key(1, 4));
    b.HandleInputChange(Key(1, 4), "p");
    assert b.guesses[Key(2, 4)].guess == "";
    afterP := b.focused;
    complete := b.levelComplete;
  }

  /** The walkthrough on level 1 itself. */
  method Level1Walkthrough() returns (afterS: Option<Key>, afterP: Option<Key>, complete: bool)
    ensures afterS == Some(Key(1, 2))
    ensures afterP == Some(Key(1, 4))
    ensures !complete
  {
    var b := new GameBoard(Level1);
    Level1HasLayout();
    afterS, afterP, complete := PlayShip(b);
  }
}
