/** Value-level model of the snake engine in src/main.py: grid cells,
    directions, colours, the colour and size defaults of the constructor,
    the one-step movement rule (`Game.Go`) and the grid classification
    (`Game.Update`).  The class in game.dfy is proved against these. */
module SnakeModel {

  /** A grid position `(row, column)`, as the tuples of `player` and `apple`. */
  type Cell = (int, int)

  datatype Option<T> = None | Some(value: T)

  /** Screen size used when the constructor gets no size. */
  const SCREEN_X: int := 25
  const SCREEN_Y: int := 12

  /** The values stored in the grid `data`. */
  const EMPTY: int := 0
  const BODY: int := 1
  const APPLE: int := 2

  /** The Python `Movement` enum. */
  datatype Movement = Right | Left | Down | Up

  /** The Python `Color` enum (its emoji values are presentation only). */
  datatype Color = Red | Orange | Yellow | Green | Blue | Purple | Brown | White | Black | Manzana | Star

  function Max0(n: int): nat
  {
    if n < 0 then 0 else n
  }

  // ---------------------------------------------------------------------------
  // Directions

  /** The `(row, column)` offset `MoveSnake` passes to `Go` for a movement. */
  function Delta(m: Movement): (d: Cell)
    ensures (d.0 == 0) != (d.1 == 0)
    ensures -1 <= d.0 <= 1 && -1 <= d.1 <= 1
  {
    match m
    case Right => (0, 1)
    case Left => (0, -1)
    case Down => (1, 0)
    case Up => (-1, 0)
  }

  /** Right/Left move along a row and undo each other; Down/Up move along a
      column and undo each other; distinct movements have distinct offsets. */
  lemma DeltaGeometry(m1: Movement, m2: Movement)
    ensures Delta(Right).0 == 0 && Delta(Right).1 > 0
    ensures Delta(Down).1 == 0 && Delta(Down).0 > 0
    ensures Delta(Left) == (-Delta(Right).0, -Delta(Right).1)
    ensures Delta(Up) == (-Delta(Down).0, -Delta(Down).1)
    ensures Delta(m1) == Delta(m2) ==> m1 == m2
  {
  }

  // ---------------------------------------------------------------------------
  // Colours and sizes

  /** The enum member name of a colour. */
  function NameOf(c: Color): string
  {
    match c
    case Red => "RED"
    case Orange => "ORANGE"
    case Yellow => "YELLOW"
    case Green => "GREEN"
    case Blue => "BLUE"
    case Purple => "PURPLE"
    case Brown => "BROWN"
    case White => "WHITE"
    case Black => "BLACK"
    case Manzana => "MANZANA"
    case Star => "STAR"
  }

  /** The configuration names the game understands. */
  const ColorMapping: map<string, Color> := map[
    "RED" := Red, "ORANGE" := Orange, "YELLOW" := Yellow, "GREEN" := Green,
    "BLUE" := Blue, "PURPLE" := Purple, "BROWN" := Brown, "WHITE" := White,
    "BLACK" := Black]

  /** `COLOR_MAPPING.get(name)`: a colour for a known name, None otherwise.
      The apple and star glyphs can never be configured. */
  function ColorFromName(name: string): (r: Option<Color>)
    ensures r.Some? <==> name in ColorMapping
    ensures r.Some? ==> r.value != Manzana && r.value != Star && NameOf(r.value) == name
  {
    if name in ColorMapping then Some(ColorMapping[name]) else None
  }

  /** Every configurable colour is found again under its own name. */
  lemma ColorNameRoundTrip(c: Color)
    requires c != Manzana && c != Star
    ensures ColorFromName(NameOf(c)) == Some(c)
  {
  }

  /** The rows and columns the constructor stores: `size_x` takes the
      `size_y` argument and `size_y` the `size_x` argument.  With exactly one
      argument missing one field stays None and building the grid fails. */
  function Dimensions(sizeX: Option<int>, sizeY: Option<int>): (r: Option<(int, int)>)
    ensures sizeX.None? && sizeY.None? ==> r == Some((SCREEN_Y, SCREEN_X))
    ensures sizeX.Some? && sizeY.Some? ==> r == Some((sizeY.value, sizeX.value))
    ensures sizeX.Some? != sizeY.Some? ==> r.None?
  {
    var rows := if sizeX.None? then Some(SCREEN_Y) else sizeY;
    var cols := if sizeY.None? then Some(SCREEN_X) else sizeX;
    if rows.Some? && cols.Some? then Some((rows.value, cols.value)) else None
  }

  /** A missing colour argument takes its default. */
  function WithDefault(c: Option<Color>, default: Color): (r: Color)
    ensures c.Some? ==> r == c.value
    ensures c.None? ==> r == default
  {
    if c.None? then default else c.value
  }

  /** `ValidateColors`: equal colours are replaced by the default pair, so
      the player is never drawn in the background colour. */
  function Validated(bg: Color, player: Color): (r: (Color, Color))
    ensures r.0 != r.1
    ensures bg != player ==> r == (bg, player)
    ensures bg == player ==> r == (White, Green)
  {
    if bg == player then (White, Green) else (bg, player)
  }

  /** Whatever the arguments, the constructor ends with distinct colours,
      and with white on green when none is given. */
  lemma ConstructorColors(bg: Option<Color>, player: Option<Color>)
    ensures var r := Validated(WithDefault(bg, White), WithDefault(player, Green));
      r.0 != r.1 &&
      (bg.None? && player.None? ==> r == (White, Green)) &&
      (bg.Some? && player.Some? && bg.value != player.value ==> r == (bg.value, player.value))
  {
  }

  // ---------------------------------------------------------------------------
  // Cells and bodies

  predicate InBounds(rows: int, cols: int, c: Cell)
  {
    0 <= c.0 < rows && 0 <= c.1 < cols
  }

  predicate AllInBounds(rows: int, cols: int, s: seq<Cell>)
  {
    forall c :: c in s ==> InBounds(rows, cols, c)
  }

  /** No cell occurs twice. */
  predicate Distinct(s: seq<Cell>)
  {
    forall i, j :: 0 <= i < j < |s| ==> s[i] != s[j]
  }

  function Elements(s: seq<Cell>): set<Cell>
  {
    set c | c in s
  }

  /** Python's `list.remove(x)`: drops the first occurrence of `x`. */
  function Remove(s: seq<Cell>, x: Cell): seq<Cell>
    requires x in s
  {
    if s[0] == x then s[1..] else [s[0]] + Remove(s[1..], x)
  }

  lemma {:induction false} RemoveFirst(s: seq<Cell>, x: Cell)
    requires x in s
    ensures |Remove(s, x)| == |s| - 1
    ensures multiset(Remove(s, x)) == multiset(s) - multiset{x}
  {
    assert s == [s[0]] + s[1..];
    if s[0] != x {
      RemoveFirst(s[1..], x);
    }
  }

  /** `Remove` drops exactly the first occurrence: it returns the index `i` of
      that occurrence, and the result is the list without `s[i]`, the other
      cells in their old order. */
  lemma {:induction false} RemoveIsFirst(s: seq<Cell>, x: Cell) returns (i: nat)
    requires x in s
    ensures i < |s| && s[i] == x && x !in s[..i]
    ensures Remove(s, x) == s[..i] + s[i+1..]
  {
    if s[0] == x {
      i := 0;
    } else {
      var j := RemoveIsFirst(s[1..], x);
      i := j + 1;
      assert s[..i] == [s[0]] + s[1..][..j];
      assert s[i+1..] == s[1..][j+1..];
    }
  }

  lemma DistinctTail(s: seq<Cell>)
    requires |s| > 0 && Distinct(s)
    ensures Distinct(s[1..]) && s[0] !in s[1..]
  {
  }

  lemma DistinctCons(x: Cell, t: seq<Cell>)
    requires Distinct(t) && x !in t
    ensures Distinct([x] + t)
  {
  }

  /** On a duplicate-free list the removed cell is gone and the rest stays
      duplicate-free. */
  lemma {:induction false} RemoveDistinct(s: seq<Cell>, x: Cell)
    requires x in s && Distinct(s)
    ensures x !in Remove(s, x) && Distinct(Remove(s, x))
  {
    DistinctTail(s);
    if s[0] != x {
      var t := s[1..];
      RemoveDistinct(t, x);
      RemoveFirst(t, x);
      var r := Remove(t, x);
      assert s[0] !in r by {
        assert multiset(r)[s[0]] <= multiset(t)[s[0]] == 0;
      }
      DistinctCons(s[0], r);
    }
  }

  // ---------------------------------------------------------------------------
  // The one-step rule of Go

  /** The state `Go` works on. */
  datatype Snapshot = Snapshot(player: seq<Cell>, apple: seq<Cell>, score: int)

  /** The candidate head: the current head moved by `d`. */
  function NextHead(player: seq<Cell>, d: Cell): Cell
    requires |player| > 0
  {
    (player[0].0 + d.0, player[0].1 + d.1)
  }

  /** The collision test of `Go`: off the board, or onto any segment of the
      current body, its tail included. */
  predicate Blocked(rows: int, cols: int, player: seq<Cell>, h: Cell)
  {
    h.0 < 0 || h.1 < 0 || h.0 >= rows || h.1 >= cols || h in player
  }

  /** The move is accepted and its new head lands on an apple. */
  predicate Eats(rows: int, cols: int, s: Snapshot, d: Cell)
  {
    |s.player| > 0 && !Blocked(rows, cols, s.player, NextHead(s.player, d)) &&
    NextHead(s.player, d) in s.apple
  }

  /** Outcome of one `Go(d)`: None when the move is refused; otherwise the new
      body, apples and score, `spawn` being the apple placed after a meal. */
  function Step(rows: int, cols: int, s: Snapshot, d: Cell, spawn: Cell): Option<Snapshot>
  {
    if |s.player| == 0 then Some(s)
    else
      var h := NextHead(s.player, d);
      if Blocked(rows, cols, s.player, h) then None
      else if h in s.apple then Some(Snapshot([h] + s.player, Remove(s.apple, h) + [spawn], s.score + 1))
      else Some(Snapshot([h] + s.player[..|s.player| - 1], s.apple, s.score))
  }

  /** A move off the board or into the body, tail included, is refused; any
      other move of a non-empty snake is accepted. */
  lemma CollisionRejectsMove(rows: int, cols: int, s: Snapshot, d: Cell, spawn: Cell)
    requires |s.player| > 0
    ensures var h := NextHead(s.player, d);
      Step(rows, cols, s, d, spawn).None? <==>
        (!InBounds(rows, cols, h) || exists k :: 0 <= k < |s.player| && s.player[k] == h)
  {
  }

  /** A move onto a cell without an apple shifts the body: same length, the
      new head first, each other segment where its predecessor was. */
  lemma PlainMoveShiftsBody(rows: int, cols: int, s: Snapshot, d: Cell, spawn: Cell)
    requires |s.player| > 0
    requires !Blocked(rows, cols, s.player, NextHead(s.player, d))
    requires NextHead(s.player, d) !in s.apple
    ensures var r := Step(rows, cols, s, d, spawn);
      r.Some? && |r.value.player| == |s.player| &&
      r.value.player[0] == NextHead(s.player, d) &&
      (forall i :: 1 <= i < |s.player| ==> r.value.player[i] == s.player[i - 1]) &&
      r.value.apple == s.apple && r.value.score == s.score
  {
  }

  /** Eating: the score goes up by one, the body keeps its tail and grows by
      exactly one, the eaten apple goes and `spawn` comes, so the number of
      apples is unchanged. */
  lemma EatingGrows(rows: int, cols: int, s: Snapshot, d: Cell, spawn: Cell)
    requires Eats(rows, cols, s, d)
    requires Distinct(s.apple) && spawn != NextHead(s.player, d)
    ensures var h := NextHead(s.player, d);
      var r := Step(rows, cols, s, d, spawn);
      r.Some? && r.value.score == s.score + 1 &&
      |r.value.player| == |s.player| + 1 && r.value.player[0] == h &&
      r.value.player[1..] == s.player &&
      |r.value.apple| == |s.apple| &&
      multiset(r.value.apple) == multiset(s.apple) - multiset{h} + multiset{spawn} &&
      h !in r.value.apple && spawn in r.value.apple
  {
    var h := NextHead(s.player, d);
    RemoveFirst(s.apple, h);
    RemoveDistinct(s.apple, h);
  }

  /** The accepted head and the rest of the new body. */
  lemma StepBodyShape(rows: int, cols: int, s: Snapshot, d: Cell, spawn: Cell)
    requires |s.player| > 0 && Step(rows, cols, s, d, spawn).Some?
    ensures var h := NextHead(s.player, d);
      var r := Step(rows, cols, s, d, spawn).value;
      InBounds(rows, cols, h) &&
      r.player == [h] + (if h in s.apple then s.player else s.player[..|s.player| - 1]) &&
      h !in s.player
  {
  }

  /** A distinct, in-bounds body stays distinct and in bounds after an
      accepted move. */
  lemma StepKeepsBody(rows: int, cols: int, s: Snapshot, d: Cell, spawn: Cell)
    requires Step(rows, cols, s, d, spawn).Some?
    requires AllInBounds(rows, cols, s.player)
    ensures var r := Step(rows, cols, s, d, spawn).value;
      AllInBounds(rows, cols, r.player) &&
      (Distinct(s.player) ==> Distinct(r.player))
  {
  }

  /** Distinct in-bounds apples stay so when a meal spawns its apple on an
      in-bounds cell that holds no apple. */
  lemma StepKeepsApples(rows: int, cols: int, s: Snapshot, d: Cell, spawn: Cell)
    requires Step(rows, cols, s, d, spawn).Some?
    requires AllInBounds(rows, cols, s.apple)
    requires Eats(rows, cols, s, d) ==> InBounds(rows, cols, spawn) && spawn !in s.apple
    ensures var r := Step(rows, cols, s, d, spawn).value;
      AllInBounds(rows, cols, r.apple) && (Distinct(s.apple) ==> Distinct(r.apple))
  {
    if Eats(rows, cols, s, d) {
      var h := NextHead(s.player, d);
      RemoveFirst(s.apple, h);
      var rest := Remove(s.apple, h);
      assert forall c :: c in rest ==> c in s.apple by {
        forall c | c in rest ensures c in s.apple {
          assert multiset(rest)[c] > 0;
        }
      }
      assert spawn !in rest by {
        assert multiset(rest)[spawn] <= multiset(s.apple)[spawn] == 0;
      }
      if Distinct(s.apple) {
        RemoveDistinct(s.apple, h);
        assert rest + [spawn] == Step(rows, cols, s, d, spawn).value.apple;
        DistinctSnoc(rest, spawn);
      }
    }
  }

  lemma DistinctSnoc(t: seq<Cell>, x: Cell)
    requires Distinct(t) && x !in t
    ensures Distinct(t + [x])
  {
  }

  // ---------------------------------------------------------------------------
  // Counting cells

  ghost function RowCells(r: int, n: nat): set<Cell>
  {
    if n == 0 then {} else RowCells(r, n - 1) + {(r, n - 1)}
  }

  lemma {:induction false} RowCellsMembers(r: int, n: nat)
    ensures forall c :: c in RowCells(r, n) <==> c.0 == r && 0 <= c.1 < n
  {
    if n > 0 {
      RowCellsMembers(r, n - 1);
    }
  }

  lemma {:induction false} RowCellsSize(r: int, n: nat)
    ensures |RowCells(r, n)| == n
  {
    if n > 0 {
      RowCellsSize(r, n - 1);
      RowCellsMembers(r, n - 1);
      assert (r, n - 1) !in RowCells(r, n - 1);
    }
  }

  /** Every cell of a `rows` × `cols` board. */
  ghost function BoardCells(rows: nat, cols: nat): set<Cell>
  {
    if rows == 0 then {} else BoardCells(rows - 1, cols) + RowCells(rows - 1, cols)
  }

  lemma {:induction false} BoardCellsMembers(rows: nat, cols: nat)
    ensures forall c :: c in BoardCells(rows, cols) <==> InBounds(rows, cols, c)
  {
    if rows > 0 {
      BoardCellsMembers(rows - 1, cols);
      RowCellsMembers(rows - 1, cols);
    }
  }

  lemma {:induction false} BoardCellsSize(rows: nat, cols: nat)
    ensures |BoardCells(rows, cols)| == rows * cols
  {
    if rows > 0 {
      var k: nat := rows - 1;
      var prev, row := BoardCells(k, cols), RowCells(k, cols);
      BoardCellsSize(k, cols);
      RowCellsSize(k, cols);
      LastRowIsNew(k, cols);
      assert |prev + row| == |prev| + |row|;
      assert |prev| == k * cols;
      MulStep(k, cols);
    }
  }

  lemma LastRowIsNew(r: nat, cols: nat)
    ensures BoardCells(r, cols) * RowCells(r, cols) == {}
  {
    BoardCellsMembers(r, cols);
    RowCellsMembers(r, cols);
    forall c | c in RowCells(r, cols) ensures c !in BoardCells(r, cols) {
    }
  }

  lemma MulStep(a: nat, b: nat)
    ensures (a + 1) * b == a * b + b
  {
  }

  lemma {:induction false} DistinctElements(s: seq<Cell>)
    requires Distinct(s)
    ensures |Elements(s)| == |s|
  {
    if |s| > 0 {
      var t := s[1..];
      DistinctTail(s);
      DistinctElements(t);
      assert s == [s[0]] + t;
      assert Elements(s) == {s[0]} + Elements(t);
    }
  }

  lemma SubsetSize(a: set<Cell>, b: set<Cell>)
    requires a <= b
    ensures |a| <= |b|
  {
    assert b == a + (b - a);
    assert a * (b - a) == {};
  }

  /** A distinct in-bounds body never fills a `rows` × `cols` board after an
      accepted move, as long as an apple spawned on a meal goes to a cell
      that is neither body nor apple: besides the new body, the vacated tail
      cell or the spawned apple always occupies one more cell.  So the
      `>= size_x * size_y` test of `CheckIfWin` cannot succeed after a step
      from such a state. */
  lemma StepNeverFillsBoard(rows: int, cols: int, s: Snapshot, d: Cell, spawn: Cell)
    requires |s.player| > 0 && Distinct(s.player) && AllInBounds(rows, cols, s.player)
    requires Step(rows, cols, s, d, spawn).Some?
    requires Eats(rows, cols, s, d) ==>
      InBounds(rows, cols, spawn) && spawn !in s.player && spawn !in s.apple
    ensures |Step(rows, cols, s, d, spawn).value.player| < rows * cols
  {
    var h := NextHead(s.player, d);
    var r := Step(rows, cols, s, d, spawn).value;
    StepBodyShape(rows, cols, s, d, spawn);
    StepKeepsBody(rows, cols, s, d, spawn);
    // the cells in use: the new body plus one more distinct in-bounds cell
    var used := if h in s.apple then r.player + [spawn] else [h] + s.player;
    assert |r.player| < |used|;
    assert AllInBounds(rows, cols, used);
    if h in s.apple {
      DistinctSnoc(r.player, spawn);
    } else {
      DistinctCons(h, s.player);
    }
    var rs: nat, cs: nat := rows, cols;
    BoardCellsSize(rs, cs);
    BoardCellsMembers(rs, cs);
    DistinctElements(used);
    SubsetSize(Elements(used), BoardCells(rs, cs));
  }

  // ---------------------------------------------------------------------------
  // The grid

  /** The value `Update` leaves in a cell of a cleared grid: apples are
      stamped after the body, so an apple shows over a segment. */
  function CellValue(player: seq<Cell>, apple: seq<Cell>, c: Cell): (v: int)
    ensures v == APPLE <==> c in apple
    ensures v == BODY <==> c in player && c !in apple
    ensures v == EMPTY <==> c !in player && c !in apple
  {
    if c in apple then APPLE else if c in player then BODY else EMPTY
  }

  /** The first meal on a 5 × 5 board: the snake starting at the left of the
      top row moves right onto the apple beside its head. */
  lemma FirstMeal()
    ensures Step(5, 5, Snapshot([(0, 2), (0, 1), (0, 0)], [(0, 3)], 0), Delta(Right), (4, 4))
      == Some(Snapshot([(0, 3), (0, 2), (0, 1), (0, 0)], [(4, 4)], 1))
  {
    var s := Snapshot([(0, 2), (0, 1), (0, 0)], [(0, 3)], 0);
    assert NextHead(s.player, Delta(Right)) == (0, 3);
    assert (0, 3) !in s.player;
    assert Remove([(0, 3)], (0, 3)) + [(4, 4)] == [(4, 4)];
    assert [(0, 3)] + s.player == [(0, 3), (0, 2), (0, 1), (0, 0)];
  }
}
