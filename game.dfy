/** The `Game` class of src/main.py as a Dafny class: its fields are updated
    in place by the same methods, each proved against the value-level rules
    of module SnakeModel.  Random choices are parameters; `Win` and
    `GameOver` set a status instead of ending the process. */
module SnakeGame {
  import opened SnakeModel

  /** Whether the session goes on, or which screen ended it. */
  datatype Status = Playing | Won | Lost

  class Game {
    /** Number of rows (the constructor's `size_y` argument). */
    const sizeX: int
    /** Number of columns (the constructor's `size_x` argument). */
    const sizeY: int
    var bgColor: Color
    var playerColor: Color
    /** The grid last stamped by `Clear`: EMPTY, BODY or APPLE per cell. */
    var data: array2<int>
    /** The body, head first. */
    var player: seq<Cell>
    var apple: seq<Cell>
    var score: int
    var movement: Movement
    var status: Status

    /** The grid has the board's shape. */
    ghost predicate Valid()
      reads this
    {
      data.Length0 == Max0(sizeX) && data.Length1 == Max0(sizeY)
    }

    ghost function Snap(): Snapshot
      reads this
    {
      Snapshot(player, apple, score)
    }

    /** Body and apples are on the board and the grid shows exactly them. */
    ghost predicate Synced()
      reads this, data
    {
      Valid() && AllInBounds(sizeX, sizeY, player) && AllInBounds(sizeX, sizeY, apple) &&
      forall i, j :: 0 <= i < data.Length0 && 0 <= j < data.Length1 ==>
        data[i, j] == CellValue(player, apple, (i, j))
    }

    /** A cell the spawning loop accepts: on the board and EMPTY in `data`. */
    ghost predicate SpawnReady(c: Cell)
      reads this, data
      requires Valid()
    {
      InBounds(sizeX, sizeY, c) && data[c.0, c.1] == EMPTY
    }

    /** `Game(size_x, size_y, bg_color, player_color)`; a None argument is a
        missing one.  Exactly one missing size leaves a dimension None, on
        which building the grid fails, so the sizes come both or neither. */
    constructor (argX: Option<int>, argY: Option<int>, bg: Option<Color>, pc: Option<Color>)
      requires Dimensions(argX, argY).Some?
      ensures (sizeX, sizeY) == Dimensions(argX, argY).value
      ensures (bgColor, playerColor) == Validated(WithDefault(bg, White), WithDefault(pc, Green))
      ensures bgColor != playerColor
      ensures Valid() && fresh(data)
      ensures forall i, j :: 0 <= i < data.Length0 && 0 <= j < data.Length1 ==> data[i, j] == EMPTY
      ensures player == [(0, 2), (0, 1), (0, 0)] && apple == [] && score == 0
      ensures movement == Right && status == Playing
    {
      var dims := Dimensions(argX, argY).value;
      sizeX, sizeY := dims.0, dims.1;
      bgColor := if bg.None? then White else bg.value;
      playerColor := if pc.None? then Green else pc.value;
      data := new int[Max0(dims.0), Max0(dims.1)]((i, j) => EMPTY);
      player := [(0, 2), (0, 1), (0, 0)];
      apple := [];
      score := 0;
      movement := Right;
      status := Playing;
      new;
      ValidateColors();
    }

    /** Equal colours are replaced by white background and green player. */
    method ValidateColors()
      modifies this`bgColor, this`playerColor
      ensures (bgColor, playerColor) == Validated(old(bgColor), old(playerColor))
      ensures bgColor != playerColor
      ensures old(bgColor) != old(playerColor) ==> bgColor == old(bgColor) && playerColor == old(playerColor)
    {
      if bgColor == playerColor {
        bgColor := White;
        playerColor := Green;
      }
    }

    /** The start of `Start`: three apples, then the first grid.  The apples
        are only checked against the grid of the constructor, so they may sit
        on the body or on each other.  `picks` are the accepted random cells. */
    method Start(picks: seq<Cell>)
      requires Valid() && |picks| == 3
      requires forall k :: 0 <= k < |picks| ==> SpawnReady(picks[k])
      requires AllInBounds(sizeX, sizeY, player) && AllInBounds(sizeX, sizeY, apple)
      modifies this`apple, this`data
      ensures apple == old(apple) + picks
      ensures Synced() && fresh(data)
    {
      GenerateApple(3, picks);
      Clear();
    }

    /** A fresh all-EMPTY grid of the board's shape, then `Update`. */
    method Clear()
      requires Valid() && AllInBounds(sizeX, sizeY, player) && AllInBounds(sizeX, sizeY, apple)
      modifies this`data
      ensures Synced() && fresh(data)
    {
      data := new int[Max0(sizeX), Max0(sizeY)]((i, j) => EMPTY);
      Update();
    }

    /** Stamps BODY on every segment, then APPLE on every apple. */
    method Update()
      requires Valid() && AllInBounds(sizeX, sizeY, player) && AllInBounds(sizeX, sizeY, apple)
      modifies data
      ensures forall i, j :: 0 <= i < data.Length0 && 0 <= j < data.Length1 ==>
        data[i, j] == if (i, j) in apple then APPLE else if (i, j) in player then BODY else old(data[i, j])
    {
      for k := 0 to |player|
        invariant forall i, j :: 0 <= i < data.Length0 && 0 <= j < data.Length1 ==>
          data[i, j] == if (i, j) in player[..k] then BODY else old(data[i, j])
      {
        assert player[..k + 1] == player[..k] + [player[k]];
        assert player[k] in player;
        data[player[k].0, player[k].1] := BODY;
      }
      assert player[..|player|] == player;
      for k := 0 to |apple|
        invariant forall i, j :: 0 <= i < data.Length0 && 0 <= j < data.Length1 ==>
          data[i, j] == if (i, j) in apple[..k] then APPLE else if (i, j) in player then BODY else old(data[i, j])
      {
        assert apple[..k + 1] == apple[..k] + [apple[k]];
        assert apple[k] in apple;
        data[apple[k].0, apple[k].1] := APPLE;
      }
      assert apple[..|apple|] == apple;
    }

    /** Appends a copy of the tail. */
    method Grow()
      requires |player| > 0
      modifies this`player
      ensures player == old(player) + [old(player)[|old(player)| - 1]]
    {
      var lastBody := player[|player| - 1];
      player := player + [lastBody];
    }

    /** `any(s == b for b in self.player)`. */
    method BodyContains(s: Cell) returns (found: bool)
      ensures found <==> s in player
    {
      found := false;
      var k := 0;
      while k < |player| && !found
        invariant 0 <= k <= |player|
        invariant found ==> s in player
        invariant !found ==> s !in player[..k]
      {
        assert player[..k + 1] == player[..k] + [player[k]];
        found := s == player[k];
        k := k + 1;
      }
      assert !found ==> player[..k] == player;
    }

    /** Eats the apple at `s`, if any: one more point, that apple removed and
        one new apple appended at `spawn`.  The loop removes from the list
        it walks; with duplicate-free apples (an assumption kept by every
        move) it meets `s` at most once. */
    method CheckIfApple(s: Cell, spawn: Cell) returns (res: bool)
      requires Valid() && Distinct(apple)
      requires forall a :: a in apple ==> InBounds(sizeX, sizeY, a) && data[a.0, a.1] == APPLE
      requires s in apple ==> SpawnReady(spawn)
      modifies this`apple, this`score
      ensures res == (s in old(apple))
      ensures res ==> apple == Remove(old(apple), s) + [spawn] && score == old(score) + 1
      ensures !res ==> apple == old(apple) && score == old(score)
    {
      res := false;
      var k := 0;
      while k < |apple|
        invariant 0 <= k <= |apple|
        invariant !res ==> apple == old(apple) && score == old(score) && s !in apple[..k]
        invariant res ==> (s in old(apple) && apple == Remove(old(apple), s) + [spawn] &&
          score == old(score) + 1 && s !in apple)
        decreases |apple| - k
      {
        var a := apple[k];
        assert apple[..k + 1] == apple[..k] + [a];
        k := k + 1;
        if s == a {
          RemoveFirst(apple, a);
          RemoveDistinct(apple, a);
          score := score + 1;
          apple := Remove(apple, a);
          GenerateApple(1, [spawn]);
          res := true;
        }
      }
      assert !res ==> apple[..k] == apple;
    }

    /** Moves the snake by `(dx, dy)`.  A refused move changes nothing; an
        accepted one is `Step` of the state before it. */
    method Go(dx: int, dy: int, spawn: Cell) returns (cont: bool)
      requires Synced() && Distinct(apple)
      requires Eats(sizeX, sizeY, Snap(), (dx, dy)) ==> SpawnReady(spawn)
      modifies this`player, this`apple, this`score
      ensures var r := Step(sizeX, sizeY, old(Snap()), (dx, dy), spawn);
        cont == r.Some? && Snap() == if cont then r.value else old(Snap())
    {
      ghost var p0, a0, sc0 := player, apple, score;
      ghost var n := |p0|;
      ghost var h: Cell := if n > 0 then NextHead(p0, (dx, dy)) else (0, 0);
      var auxPlayer: seq<Cell> := [];
      cont := true;
      var index := 0;
      while index < |player|
        invariant 0 <= index <= |player|
        invariant cont
        invariant index == 0 ==> player == p0 && apple == a0 && score == sc0 && auxPlayer == []
        invariant index > 0 ==> (n > 0 && !Blocked(sizeX, sizeY, p0, h) &&
          index - 1 <= n && auxPlayer == [h] + p0[..index - 1] &&
          if h in a0 then player == p0 + [p0[n - 1]] && apple == Remove(a0, h) + [spawn] && score == sc0 + 1
          else player == p0 && apple == a0 && score == sc0)
        decreases n + 1 - index
      {
        var s: Cell;
        if index == 0 {
          s := (player[0].0 + dx, player[0].1 + dy);
          var blocked := s.0 < 0 || s.1 < 0 || s.0 >= sizeX || s.1 >= sizeY;
          if !blocked {
            blocked := BodyContains(s);
          }
          if blocked {
            cont := false;
            break;
          }
          forall a | a in apple ensures InBounds(sizeX, sizeY, a) && data[a.0, a.1] == APPLE {
            assert data[a.0, a.1] == CellValue(player, apple, a);
          }
          var ate := CheckIfApple(s, spawn);
          if ate {
            Grow();
          }
        } else {
          s := player[index - 1];
        }
        if cont {
          assert index > 0 ==> p0[..index] == p0[..index - 1] + [p0[index - 1]];
          auxPlayer := auxPlayer + [s];
        }
        index := index + 1;
      }
      if cont {
        assert n > 0 ==> auxPlayer == [h] + (if h in a0 then p0 else p0[..n - 1]);
        for i := 0 to |player|
          invariant |player| == |auxPlayer|
          invariant forall k :: 0 <= k < i ==> player[k] == auxPlayer[k]
          modifies this`player
        {
          player := player[i := auxPlayer[i]];
        }
        assert player == auxPlayer;
      }
    }

    /** Sets the status `Win` stands for. */
    method Win()
      modifies this`status
      ensures status == Won
    {
      status := Won;
    }

    /** Sets the status `GameOver` stands for. */
    method GameOver()
      modifies this`status
      ensures status == Lost
    {
      status := Lost;
    }

    /** Won once the body is at least as long as the board has cells. */
    method CheckIfWin()
      modifies this`status
      ensures status == if |player| >= sizeX * sizeY then Won else old(status)
    {
      if |player| >= sizeX * sizeY {
        Win();
      }
    }

    /** One tick in direction `m`: a refused move loses; an accepted one wins
        when the body covers the board and otherwise rebuilds the grid.  The
        win screen ends the process, so the grid is then left as it was. */
    method MoveSnake(m: Movement, spawn: Cell)
      requires Synced() && Distinct(apple) && status == Playing
      requires Eats(sizeX, sizeY, Snap(), Delta(m)) ==> SpawnReady(spawn)
      modifies this`player, this`apple, this`score, this`status, this`data
      ensures var r := Step(sizeX, sizeY, old(Snap()), Delta(m), spawn);
        (r.None? ==> Snap() == old(Snap()) && status == Lost && data == old(data)) &&
        (r.Some? ==> (Snap() == r.value &&
          (|player| >= sizeX * sizeY ==> status == Won && data == old(data)) &&
          (|player| < sizeX * sizeY ==> status == Playing && Synced() && fresh(data))))
      ensures Distinct(apple) && (old(Distinct(player)) ==> Distinct(player))
      ensures old(Distinct(player)) && |old(player)| > 0 ==> status != Won
    {
      ghost var s0 := Snap();
      ghost var d := Delta(m);
      ghost var eats := Eats(sizeX, sizeY, s0, d);
      assert eats ==> spawn !in s0.apple && spawn !in s0.player by {
        if eats {
          assert data[spawn.0, spawn.1] == CellValue(player, apple, spawn);
        }
      }
      var cont := true;
      match m {
        case Right => cont := Go(0, 1, spawn);
        case Left => cont := Go(0, -1, spawn);
        case Down => cont := Go(1, 0, spawn);
        case Up => cont := Go(-1, 0, spawn);
      }
      if cont {
        StepKeepsBody(sizeX, sizeY, s0, d, spawn);
        StepKeepsApples(sizeX, sizeY, s0, d, spawn);
        if Distinct(s0.player) && |s0.player| > 0 {
          StepNeverFillsBoard(sizeX, sizeY, s0, d, spawn);
        }
        CheckIfWin();
        if status == Playing {
          Clear();
        }
      } else {
        GameOver();
      }
    }

    /** Appends the `amount` cells the random retry loop accepts, each on the
        board and EMPTY in the current grid. */
    method GenerateApple(amount: nat, picks: seq<Cell>)
      requires Valid() && |picks| == amount
      requires forall k :: 0 <= k < |picks| ==> SpawnReady(picks[k])
      modifies this`apple
      ensures apple == old(apple) + picks
    {
      for k := 0 to amount
        invariant apple == old(apple) + picks[..k]
      {
        var randX, randY := picks[k].0, picks[k].1;
        assert data[randX, randY] == EMPTY;
        assert picks[..k + 1] == picks[..k] + [(randX, randY)];
        apple := apple + [(randX, randY)];
      }
      assert picks[..amount] == picks;
    }
  }
}
