/** The main loop of SimpleSnake on the heap: two linked lists, the bonus array and the counters.
    Every tick is proved to compute the function Tick of SnakeModel. */
module SnakeGame {
  import M = SnakeModel
  import I = SnakeInvariants
  import opened SnakeLists

  class SimpleSnake {
    const twoPlayers: bool
    const maxX: int
    const maxY: int
    const a: SnakeList
    const b: SnakeList
    const bonuses: array<M.Bonus>
    const maxBonus: int
    var dirA: int
    var dirB: int
    var nbBonus: int
    var scoreA: int
    var scoreB: int
    ghost var tally: M.Tally

    /** Both lists are linked and not empty; being different objects, they share no cell. */
    ghost predicate Valid()
      reads this, a, b, a.cells, b.cells
    {
      && a != b && a.Valid() && b.Valid()
      && a.cells != [] && b.cells != []
      && bonuses.Length == M.MAX_BONUS && maxBonus <= M.MAX_BONUS
    }

    ghost function Value(): M.Game
      reads this, a, b, a.cells, b.cells, bonuses
    {
      M.Game(twoPlayers, maxX, maxY, a.Value(), b.Value(), dirA, dirB, maxBonus, bonuses[..],
             nbBonus, scoreA, scoreB, tally)
    }

    constructor (twoPlayers: bool, maxX: int, maxY: int, maxBonus: int)
      requires maxBonus <= M.MAX_BONUS
      ensures Valid()
      ensures Value() == M.Initial(twoPlayers, maxX, maxY, maxBonus)
    {
      hide Linked, Positions, SnakeList.Value, SnakeList.Valid, M.InitialSnake;
      this.twoPlayers, this.maxX, this.maxY, this.maxBonus := twoPlayers, maxX, maxY, maxBonus;
      dirA, dirB, nbBonus, scoreA, scoreB, tally := M.RIGHT, M.RIGHT, 0, 0, 0, M.Tally(0, 0, 0);
      a := new SnakeList(2);
      b := new SnakeList(maxY - 3);
      bonuses := new M.Bonus[M.MAX_BONUS](_ => M.Bonus(0, 0, false));
      new;
      assert bonuses[..] == seq(M.MAX_BONUS, _ => M.Bonus(0, 0, false));
    }

    method BonusCreate(spawn: bool, x: int, y: int)
      requires Valid()
      modifies `nbBonus, `tally, bonuses
      ensures Value() == M.BonusCreate(old(Value()), spawn, x, y)
    {
      hide Linked, Positions;
      if spawn && nbBonus < maxBonus {
        ghost var found := false;
        var i := 0;
        while i < maxBonus
          invariant 0 <= i && (i <= maxBonus || maxBonus < 0)
          invariant bonuses[..] == old(bonuses[..])
          invariant maxBonus >= 0 ==> M.FirstFree(bonuses[..], 0, maxBonus) == M.FirstFree(bonuses[..], i, maxBonus)
        {
          if !bonuses[i].activ {
            bonuses[i] := M.Bonus(x, y, true);
            found := true;
            break;
          }
          i := i + 1;
        }
        nbBonus := nbBonus + 1;
        tally := tally.(spawned := tally.spawned + 1, lost := if found then tally.lost else tally.lost + 1);
        assert found ==> bonuses[..] == old(bonuses[..])[i := M.Bonus(x, y, true)];
      }
    }

    /** Index of the first slot at the given head, or -1; slots are compared whether active or not. */
    method FindBonus(head: M.Pos) returns (i: int)
      requires Valid()
      ensures -1 <= i < Value().Slots()
      ensures M.FirstAt(bonuses[..], head, 0, Value().Slots()) == if i < 0 then Value().Slots() else i
    {
      i := 0;
      while i < maxBonus
        invariant 0 <= i && (i <= maxBonus || maxBonus < 0)
        invariant maxBonus >= 0 ==>
          M.FirstAt(bonuses[..], head, 0, maxBonus) == M.FirstAt(bonuses[..], head, i, maxBonus)
      {
        if head.x == bonuses[i].posY && head.y == bonuses[i].posX {
          return i;
        }
        i := i + 1;
      }
      return -1;
    }

    method TakeBonus(i: nat)
      requires Valid() && i < bonuses.Length
      modifies `nbBonus, `tally, bonuses
      ensures Value() == M.TakeBonus(old(Value()), i)
    {
      nbBonus := nbBonus - 1;
      if !bonuses[i].activ {
        tally := tally.(stale := tally.stale + 1);
      }
      bonuses[i] := bonuses[i].(activ := false);
      assert bonuses[..] == old(bonuses[..])[i := old(bonuses[i]).(activ := false)];
    }

    method BonusCheckA()
      requires Valid()
      modifies `nbBonus, `tally, `scoreA, bonuses, a
      ensures Valid()
      ensures forall c | c in a.cells :: c in old(a.cells) || fresh(c)
      ensures Value() == M.BonusCheckA(old(Value()))
    {
      hide M.TakeBonus, M.Grow, M.FirstAt, Linked, Positions, SnakeList.Valid;
      var i := FindBonus(a.end);
      if i >= 0 {
        TakeBonus(i);
        scoreA := scoreA + 1;
        a.SnakeGrow();
      }
    }

    method BonusCheckB()
      requires Valid()
      modifies `nbBonus, `tally, `scoreB, bonuses, b
      ensures Valid()
      ensures forall c | c in b.cells :: c in old(b.cells) || fresh(c)
      ensures Value() == M.BonusCheckB(old(Value()))
    {
      hide M.TakeBonus, M.Grow, M.FirstAt, Linked, Positions, SnakeList.Valid;
      var i := FindBonus(b.end);
      if i >= 0 {
        TakeBonus(i);
        scoreB := scoreB + 1;
        b.SnakeGrow();
      }
    }

    method WallCheck(head: M.Pos) returns (hit: bool)
      ensures hit == M.HitsWall(Value(), head)
    {
      if head.x <= 1 {
        return true;
      }
      if head.x >= maxY - 2 {
        return true;
      }
      if head.y <= 0 {
        return true;
      }
      if head.y >= maxX - 1 {
        return true;
      }
      return false;
    }

    method SetDir(keyA: int, keyB: int)
      modifies `dirA, `dirB
      ensures dirA == M.SetDirA(old(dirA), keyA)
      ensures dirB == if twoPlayers then M.SetDirB(old(dirB), keyB) else old(dirB)
    {
      if keyA == M.USBKEY_LEFT {
        dirA := M.LEFT;
      } else if keyA == M.USBKEY_RIGHT {
        dirA := M.RIGHT;
      } else if keyA == M.USBKEY_UP {
        dirA := M.UP;
      } else if keyA == M.USBKEY_DOWN {
        dirA := M.DOWN;
      }
      if twoPlayers {
        if keyB == M.KEY_LEFT {
          dirB := M.LEFT;
        } else if keyB == M.KEY_RIGHT {
          dirB := M.RIGHT;
        } else if keyB == M.KEY_UP {
          dirB := M.UP;
        } else if keyB == M.KEY_DOWN {
          dirB := M.DOWN;
        }
      }
    }

    method MoveA()
      requires Valid()
      modifies a, a.cells
      ensures Valid()
      ensures forall c | c in a.cells :: c in old(a.cells) || fresh(c)
      ensures Value() == old(Value()).(a := M.Move(old(a.Value()), dirA))
    {
      hide Linked, Positions, M.Move;
      LinkedAreDisjoint(a, a.first, a.cells, a.base, b, b.first, b.cells, b.base);
      a.SnakeMove(dirA);
      assert unchanged(b) && unchanged(b.cells);
    }

    method MoveB()
      requires Valid()
      modifies b, b.cells
      ensures Valid()
      ensures forall c | c in b.cells :: c in old(b.cells) || fresh(c)
      ensures Value() == old(Value()).(b := M.Move(old(b.Value()), dirB))
    {
      hide Linked, Positions, M.Move;
      LinkedAreDisjoint(a, a.first, a.cells, a.base, b, b.first, b.cells, b.base);
      b.SnakeMove(dirB);
      assert unchanged(a) && unchanged(a.cells);
    }

    /** The tick up to the moves. */
    method MoveAll(input: M.Input)
      requires Valid()
      modifies this, a, b, a.cells, b.cells, bonuses
      ensures Valid()
      ensures forall c | c in a.cells :: c in old(a.cells) || fresh(c)
      ensures forall c | c in b.cells :: c in old(b.cells) || fresh(c)
      ensures Value() == M.Moved(old(Value()), input)
    {
      hide Linked, Positions, M.Move, M.BonusCreate, M.SetDirA, M.SetDirB, SnakeList.Value, SnakeList.Valid;
      SetDir(input.keyA, input.keyB);
      BonusCreate(input.spawn, 2 + input.randX, 3 + input.randY);
      MoveA();
      if twoPlayers {
        MoveB();
      }
    }

    /** The checks on player 2 and between the players. */
    method CheckB() returns (outcome: M.Outcome)
      requires Valid()
      modifies `nbBonus, `tally, `scoreB, bonuses, b
      ensures Valid()
      ensures forall c | c in b.cells :: c in old(b.cells) || fresh(c)
      ensures (Value(), outcome) == M.CheckB(old(Value()))
    {
      hide Linked, Positions, M.BonusCheckB, M.HitsWall, M.AllDistinct, M.Covers;
      var hit := WallCheck(b.end);
      if hit {
        return M.Lost(2);
      }
      var crash := b.CrashCheck();
      if crash {
        return M.Lost(2);
      }
      BonusCheckB();
      crash := a.CrashSnakeCheck(b.end);
      if crash {
        return M.Lost(2);
      }
      crash := b.CrashSnakeCheck(a.end);
      if crash {
        return M.Lost(1);
      }
      return M.Running;
    }

    /** One turn of the main loop. */
    method Tick(input: M.Input) returns (outcome: M.Outcome)
      requires Valid()
      modifies this, a, b, a.cells, b.cells, bonuses
      ensures Valid()
      ensures forall c | c in a.cells :: c in old(a.cells) || fresh(c)
      ensures forall c | c in b.cells :: c in old(b.cells) || fresh(c)
      ensures (Value(), outcome) == M.Tick(old(Value()), input)
    {
      hide Linked, Positions, M.Moved, M.CheckB, M.BonusCheckA, M.HitsWall, M.AllDistinct;
      if input.quit {
        return M.GameOver;
      }
      MoveAll(input);
      var hit := WallCheck(a.end);
      if hit {
        return M.Lost(1);
      }
      var crash := a.CrashCheck();
      if crash {
        return M.Lost(1);
      }
      BonusCheckA();
      if twoPlayers {
        outcome := CheckB();
      } else {
        outcome := M.Running;
      }
    }

    /** The main loop, from the start of the game: the lists stay acyclic, share no cell, have at least three
        cells each, and the cached heads are what a walk along the lists finds. */
    method Play(inputs: seq<M.Input>) returns (outcome: M.Outcome)
      requires Valid() && Value() == M.Initial(twoPlayers, maxX, maxY, maxBonus)
      modifies this, a, b, a.cells, b.cells, bonuses
      ensures Valid() && (Value(), outcome) == M.Play(old(Value()), inputs)
      ensures forall i, j | 0 <= i < j < |a.cells| :: a.cells[i] != a.cells[j]
      ensures forall i, j | 0 <= i < j < |b.cells| :: b.cells[i] != b.cells[j]
      ensures forall i, j | 0 <= i < |a.cells| && 0 <= j < |b.cells| :: a.cells[i] != b.cells[j]
      ensures |a.cells| >= 3 && a.end == a.cells[|a.cells| - 1].pos
      ensures |b.cells| >= 3 && b.end == b.cells[|b.cells| - 1].pos
    {
      hide Linked, Positions, M.Play, M.Initial, I.WellFormed, SnakeList.Valid;
      outcome := PlayAll(inputs);
      I.EveryRun(twoPlayers, maxX, maxY, maxBonus, inputs);
      I.EndsAreCached(a.Value());
      I.EndsAreCached(b.Value());
      Separate();
    }

    method PlayAll(inputs: seq<M.Input>) returns (outcome: M.Outcome)
      requires Valid()
      modifies this, a, b, a.cells, b.cells, bonuses
      ensures Valid() && (Value(), outcome) == M.Play(old(Value()), inputs)
    {
      hide Linked, Positions, M.Play, M.Tick, SnakeList.Value, SnakeList.Valid, M.Game.Valid;
      ValueValid();
      ghost var g := Value();
      outcome := M.Running;
      I.PlayNone(g);
      var i := 0;
      assert inputs[..0] == [];
      while i < |inputs| && outcome == M.Running
        invariant 0 <= i <= |inputs| && Valid() && g.Valid()
        invariant forall c | c in a.cells :: c in old(a.cells) || fresh(c)
        invariant forall c | c in b.cells :: c in old(b.cells) || fresh(c)
        invariant (Value(), outcome) == M.Play(g, inputs[..i])
      {
        I.PlayNext(g, inputs, i);
        assert forall k | 0 <= k < |a.cells| :: a.cells[k] in old(a.cells) || fresh(a.cells[k]);
        assert forall k | 0 <= k < |b.cells| :: b.cells[k] in old(b.cells) || fresh(b.cells[k]);
        outcome := Tick(inputs[i]);
        i := i + 1;
      }
      I.PlayOver(g, inputs, i);
    }

    lemma ValueValid()
      requires Valid()
      ensures Value().Valid()
    {
      hide Linked, Positions;
    }

    lemma Separate()
      requires Valid()
      ensures forall i, j | 0 <= i < j < |a.cells| :: a.cells[i] != a.cells[j]
      ensures forall i, j | 0 <= i < j < |b.cells| :: b.cells[i] != b.cells[j]
      ensures forall i, j | 0 <= i < |a.cells| && 0 <= j < |b.cells| :: a.cells[i] != b.cells[j]
    {
      LinkedIsAcyclic(a, a.first, a.cells, a.base);
      LinkedIsAcyclic(b, b.first, b.cells, b.base);
      LinkedAreDisjoint(a, a.first, a.cells, a.base, b, b.first, b.cells, b.base);
    }
  }
}
