/** A snake as a singly linked list of heap cells, relinked in place, with the cached copy of its
    last cell (snake_end or snake_end_b). */
module SnakeLists {
  import opened SnakeModel

  /** A heap cell. Its place in its list and the list it belongs to are recorded for the proof. */
  class Cell {
    var pos: Pos
    var next: Cell?
    ghost const rank: int
    ghost const owner: object

    constructor (pos: Pos, next: Cell?, ghost rank: int, ghost owner: object)
      ensures this.pos == pos && this.next == next && this.rank == rank && this.owner == owner
    {
      this.pos, this.next, this.rank, this.owner := pos, next, rank, owner;
    }
  }

  /** The cell at index i, or null beyond the end. */
  ghost function At(cells: seq<Cell>, i: nat): Cell? {
    if i < |cells| then cells[i] else null
  }

  /** The cells of the owner, in order, are linked from the first one to a null pointer. */
  ghost predicate Linked(owner: object, first: Cell?, cells: seq<Cell>, base: int)
    reads cells
  {
    && first == At(cells, 0)
    && (forall i | 0 <= i < |cells| :: cells[i].next == At(cells, i + 1))
    && (forall i | 0 <= i < |cells| :: cells[i].rank == base + i && cells[i].owner == owner)
  }

  lemma NoCells(owner: object)
    ensures Linked(owner, null, [], 0) && Positions([]) == []
  {
  }

  /** A linked list is acyclic. */
  lemma LinkedIsAcyclic(owner: object, first: Cell?, cells: seq<Cell>, base: int)
    requires Linked(owner, first, cells, base)
    ensures forall i, j | 0 <= i < j < |cells| :: cells[i] != cells[j]
  {
  }

  /** Lists with different owners share no cell. */
  lemma LinkedAreDisjoint(s: object, first: Cell?, cells: seq<Cell>, base: int,
                          t: object, first': Cell?, cells': seq<Cell>, base': int)
    requires s != t && Linked(s, first, cells, base) && Linked(t, first', cells', base')
    ensures forall i, j | 0 <= i < |cells| && 0 <= j < |cells'| :: cells[i] != cells'[j]
  {
  }

  ghost function Positions(cells: seq<Cell>): (s: seq<Pos>)
    reads cells
    ensures |s| == |cells|
    ensures forall i | 0 <= i < |cells| :: s[i] == cells[i].pos
  {
    if cells == [] then [] else [cells[0].pos] + Positions(cells[1..])
  }

  class SnakeList {
    var first: Cell?
    var end: Pos
    ghost var cells: seq<Cell>
    ghost var base: int

    ghost predicate Valid()
      reads this, cells
    {
      Linked(this, first, cells, base)
    }

    ghost function Value(): Snake
      reads this, cells
    {
      Snake(Positions(cells), end)
    }

    /** init_snake: three cells on the given row, heading right. */
    constructor (row: int)
      ensures Valid() && Value() == InitialSnake(row)
      ensures fresh(cells) && |cells| == 3
    {
      hide Linked, Positions;
      first, end, cells, base := null, Pos(0, 0, RIGHT), [], 0;
      new;
      NoCells(this);
      AddThree(row);
      end := GetTail();
    }

    /** Three cells in front of an empty list. */
    method AddThree(row: int)
      requires Valid() && cells == [] && Value().body == []
      modifies this
      ensures Valid() && |cells| == 3 && fresh(cells) && end == old(end)
      ensures Value().body == [Pos(row, 1, RIGHT), Pos(row, 2, RIGHT), Pos(row, 3, RIGHT)]
    {
      hide Linked, Positions, SnakeList.Valid;
      HeadAdd(Pos(row, 3, RIGHT));
      HeadAdd(Pos(row, 2, RIGHT));
      HeadAdd(Pos(row, 1, RIGHT));
    }

    method HeadAdd(pos: Pos)
      requires Valid()
      modifies this
      ensures Valid()
      ensures |cells| == |old(cells)| + 1 && fresh(cells[0]) && cells[1..] == old(cells)
      ensures forall c | c in cells :: c in old(cells) || fresh(c)
      ensures Value() == Snake([pos] + old(Value().body), old(end))
    {
      var c := new Cell(pos, first, base - 1, this);
      first := c;
      cells, base := [c] + cells, base - 1;
    }

    method HeadDel()
      requires Valid() && cells != []
      modifies this
      ensures Valid()
      ensures cells == old(cells)[1..]
      ensures Value() == Snake(old(Value().body)[1..], old(end))
    {
      first := first.next;
      cells, base := cells[1..], base + 1;
    }

    /** The last cell, found by walking the list. */
    method Last() returns (c: Cell)
      requires Valid() && cells != []
      ensures c == cells[|cells| - 1]
    {
      c := first;
      ghost var i := 0;
      while c.next != null
        invariant 0 <= i < |cells| && c == cells[i]
        decreases |cells| - i
      {
        c := c.next;
        i := i + 1;
      }
    }

    method GetTail() returns (pos: Pos)
      requires Valid() && cells != []
      ensures pos == Value().body[|cells| - 1]
    {
      var c := Last();
      pos := c.pos;
    }

    /** Links a new cell behind the last one. */
    method LinkLast(pos: Pos)
      requires Valid() && cells != []
      modifies this, cells
      ensures Valid()
      ensures |cells| == |old(cells)| + 1 && cells[..|old(cells)|] == old(cells) && fresh(cells[|old(cells)|])
      ensures forall i | 0 <= i < |old(cells)| :: cells[i].pos == old(cells[i].pos)
      ensures cells[|old(cells)|].pos == pos && end == pos
    {
      var temp := Last();
      var c := new Cell(pos, null, base + |cells|, this);
      temp.next := c;
      cells := cells + [c];
      end := pos;
    }

    method TailAdd(pos: Pos)
      requires Valid() && cells != []
      modifies this, cells
      ensures Valid()
      ensures |cells| == |old(cells)| + 1 && cells[..|old(cells)|] == old(cells) && fresh(cells[|old(cells)|])
      ensures Value() == Snake(old(Value().body) + [pos], pos)
    {
      hide Positions, Linked;
      LinkLast(pos);
      assert forall i | 0 <= i < |old(cells)| :: cells[i] == cells[..|old(cells)|][i] == old(cells)[i];
      assert Positions(cells) == old(Positions(cells)) + [pos];
    }

    method MoveTo(pos: Pos)
      requires Valid() && cells != []
      modifies this, cells
      ensures Valid()
      ensures |cells| == |old(cells)| && cells[..|cells| - 1] == old(cells)[1..] && fresh(cells[|cells| - 1])
      ensures Value() == Snake(old(Value().body)[1..] + [pos], pos)
    {
      hide Linked, Positions;
      TailAdd(pos);
      HeadDel();
    }

    /** The position and direction of the next head. */
    method NextHead(dir: int) returns (newPos: Pos)
      requires IsDir(dir)
      ensures newPos == Ahead(end, Turn(end.dir, dir))
    {
      var x, y, last := end.x, end.y, end.dir;
      if dir == UP {
        newPos := if last == DOWN then Pos(x + 1, y, DOWN) else Pos(x - 1, y, UP);
      } else if dir == DOWN {
        newPos := if last == UP then Pos(x - 1, y, UP) else Pos(x + 1, y, DOWN);
      } else if dir == RIGHT {
        newPos := if last == LEFT then Pos(x, y - 1, LEFT) else Pos(x, y + 1, RIGHT);
      } else {
        newPos := if last == RIGHT then Pos(x, y + 1, RIGHT) else Pos(x, y - 1, LEFT);
      }
    }

    method SnakeMove(dir: int)
      requires Valid() && cells != []
      modifies this, cells
      ensures Valid() && |cells| == |old(cells)|
      ensures forall c | c in cells :: c in old(cells) || fresh(c)
      ensures Value() == Move(old(Value()), dir)
    {
      hide Linked, Positions, Ahead, Turn;
      if IsDir(dir) {
        var newPos := NextHead(dir);
        MoveTo(newPos);
        assert forall i | 0 <= i < |cells| - 1 :: cells[i] == cells[..|cells| - 1][i] == old(cells)[i + 1];
      }
    }

    method SnakeGrow()
      requires Valid() && cells != []
      modifies this
      ensures Valid() && cells != []
      ensures forall c | c in cells :: c in old(cells) || fresh(c)
      ensures Value() == Grow(old(Value()))
    {
      var pos := first.pos;
      var newPos;
      if pos.dir == UP {
        newPos := Pos(pos.x + 1, pos.y, UP);
      } else if pos.dir == DOWN {
        newPos := Pos(pos.x - 1, pos.y, DOWN);
      } else if pos.dir == RIGHT {
        newPos := Pos(pos.x, pos.y - 1, RIGHT);
      } else if pos.dir == LEFT {
        newPos := Pos(pos.x, pos.y + 1, LEFT);
      } else {
        return;
      }
      assert newPos == Behind(pos);
      HeadAdd(newPos);
    }

    /** A later cell coincides with the cell at index i. */
    static ghost predicate Meets(body: seq<Pos>, i: nat)
      requires i < |body|
    {
      exists j | i < j < |body| :: SameCell(body[i], body[j])
    }

    /** The inner loop of crash_check: a later cell coincides with the cell at index i. */
    method MeetsLater(temp: Cell, ghost i: nat) returns (meets: bool)
      requires Valid() && i < |cells| && temp == cells[i]
      ensures meets <==> Meets(Value().body, i)
    {
      hide Positions;
      ghost var body := Value().body;
      var temp2 := temp.next;
      ghost var j := i + 1;
      while temp2 != null
        invariant i < j <= |cells| && temp2 == At(cells, j)
        invariant forall l | i < l < j :: !SameCell(body[i], body[l])
        decreases |cells| - j
      {
        if temp.pos.x == temp2.pos.x && temp.pos.y == temp2.pos.y {
          assert SameCell(body[i], body[j]);
          return true;
        }
        temp2 := temp2.next;
        j := j + 1;
      }
      return false;
    }

    /** None of the first n cells coincides with a later one. */
    static ghost predicate NoneMeets(body: seq<Pos>, n: nat) {
      forall k, l | 0 <= k < n && k < l < |body| :: !SameCell(body[k], body[l])
    }

    static lemma NextMeets(body: seq<Pos>, n: nat)
      requires NoneMeets(body, n) && n < |body| && !Meets(body, n)
      ensures NoneMeets(body, n + 1)
    {
      hide SameCell;
    }

    static lemma MeetsDecides(body: seq<Pos>, n: nat)
      requires NoneMeets(body, n) && n <= |body|
      ensures n < |body| && Meets(body, n) ==> !AllDistinct(body)
      ensures n == |body| ==> AllDistinct(body)
    {
      hide SameCell;
    }

    /** crash_check: two cells coincide. */
    method CrashCheck() returns (crash: bool)
      requires Valid()
      ensures crash <==> !AllDistinct(Value().body)
    {
      hide Positions, SameCell, Meets, NoneMeets, AllDistinct;
      ghost var body := Value().body;
      var temp := first;
      ghost var i := 0;
      NoneYet(body);
      while temp != null
        invariant 0 <= i <= |cells| && temp == At(cells, i)
        invariant NoneMeets(body, i)
        decreases |cells| - i
      {
        MeetsDecides(body, i);
        var meets := MeetsLater(temp, i);
        if meets {
          return true;
        }
        NextMeets(body, i);
        temp := temp.next;
        i := i + 1;
      }
      MeetsDecides(body, i);
      return false;
    }

    static lemma NoneYet(body: seq<Pos>)
      ensures NoneMeets(body, 0)
    {
    }

    /** crash_snake_check: the given head lies on this snake. */
    method CrashSnakeCheck(head: Pos) returns (crash: bool)
      requires Valid()
      ensures crash <==> Covers(Value().body, head)
    {
      hide Positions;
      ghost var body := Value().body;
      var temp := first;
      ghost var i := 0;
      while temp != null
        invariant 0 <= i <= |cells| && temp == At(cells, i)
        invariant forall k | 0 <= k < i :: !SameCell(body[k], head)
        decreases |cells| - i
      {
        if temp.pos.x == head.x && temp.pos.y == head.y {
          assert SameCell(body[i], head);
          return true;
        }
        temp := temp.next;
        i := i + 1;
      }
      return false;
    }
  }
}
