/** What every run of SimpleSnake keeps. */
module SnakeInvariants {
  import opened SnakeModel

  // The chain of cells.

  /** Each cell is one step from the cell before it, in its own direction, and no two
      consecutive directions are opposite. */
  ghost predicate Chain(body: seq<Pos>) {
    && (forall i | 0 <= i < |body| :: IsDir(body[i].dir))
    && (forall i | 0 < i < |body| :: body[i] == Ahead(body[i - 1], body[i].dir))
    && (forall i | 0 < i < |body| :: !Opposite(body[i - 1].dir, body[i].dir))
  }

  /** The snake is a chain of at least three cells, and the cached head is its last cell. */
  ghost predicate WellFormed(s: Snake) {
    |s.body| >= 3 && Chain(s.body) && s.end == s.body[|s.body| - 1]
  }

  lemma TurnIsLegal(last: int, d: int)
    requires IsDir(last) && IsDir(d)
    ensures IsDir(Turn(last, d)) && !Opposite(last, Turn(last, d))
  {
  }

  lemma MoveWellFormed(s: Snake, d: int)
    requires WellFormed(s) && IsDir(d)
    ensures WellFormed(Move(s, d))
    ensures Move(s, d).body[..|s.body| - 1] == s.body[1..]
  {
    hide Ahead, Opposite, Turn;
    TurnIsLegal(s.end.dir, d);
    AheadDir(s.end, Turn(s.end.dir, d));
    var r := Move(s, d).body;
    forall i | 0 < i < |r|
      ensures r[i] == Ahead(r[i - 1], r[i].dir) && !Opposite(r[i - 1].dir, r[i].dir)
    {
      if i < |r| - 1 {
        assert r[i] == s.body[i + 1] && r[i - 1] == s.body[i];
      }
    }
  }

  lemma AheadDir(p: Pos, d: int)
    ensures Ahead(p, d).dir == d
  {
  }

  lemma BehindAhead(p: Pos, d: int)
    requires IsDir(d)
    ensures SameCell(Behind(Ahead(p, d)), p)
  {
  }

  /** Growing right after a move puts back the position that the move removed. */
  lemma MoveThenGrow(s: Snake, d: int)
    requires WellFormed(s) && IsDir(d)
    ensures WellFormed(Grow(Move(s, d)))
    ensures |Grow(Move(s, d)).body| == |s.body| + 1
    ensures forall i | 0 <= i < |s.body| :: SameCell(Grow(Move(s, d)).body[i], s.body[i])
    ensures Grow(Move(s, d)).body[1..] == Move(s, d).body
  {
    hide Ahead, Behind, Opposite, Turn, Move, Chain;
    MoveWellFormed(s, d);
    var m := Move(s, d);
    FirstStep(s.body);
    assert m.body[0] == s.body[1..][0] == s.body[1];
    GrowChain(m.body);
    var r := [Behind(m.body[0])] + m.body;
    forall i | 0 <= i < |s.body| ensures SameCell(r[i], s.body[i]) {
      if i > 0 {
        assert r[i] == m.body[i - 1] == s.body[1..][i - 1] == s.body[i];
      }
    }
  }

  /** The cell behind the second cell is the first one. */
  lemma FirstStep(body: seq<Pos>)
    requires Chain(body) && |body| >= 2
    ensures SameCell(Behind(body[1]), body[0])
  {
    hide Ahead, Behind, Opposite;
    BehindAhead(body[0], body[1].dir);
  }

  lemma GrowChain(body: seq<Pos>)
    requires Chain(body) && body != []
    ensures IsDir(body[0].dir) && Chain([Behind(body[0])] + body)
  {
    hide Ahead, Behind, Opposite;
    var r := [Behind(body[0])] + body;
    BehindDir(body[0]);
    forall i | 0 < i < |r|
      ensures r[i] == Ahead(r[i - 1], r[i].dir) && !Opposite(r[i - 1].dir, r[i].dir)
    {
      if i > 1 {
        assert r[i] == body[i - 1] && r[i - 1] == body[i - 2];
      }
    }
  }

  lemma BehindDir(p: Pos)
    ensures Behind(p).dir == p.dir && !Opposite(p.dir, p.dir)
    ensures IsDir(p.dir) ==> Ahead(Behind(p), p.dir) == p
  {
  }

  lemma {:induction false} ChainParity(body: seq<Pos>, i: nat, j: nat)
    requires Chain(body) && i <= j < |body|
    ensures (body[j].x + body[j].y - body[i].x - body[i].y - (j - i)) % 2 == 0
    decreases j - i
  {
    if i < j {
      ChainParity(body, i, j - 1);
      StepParity(body[j - 1], body[j].dir);
      EvenSum(body[j - 1].x + body[j - 1].y - body[i].x - body[i].y - (j - 1 - i),
              body[j].x + body[j].y - body[j - 1].x - body[j - 1].y - 1);
    }
  }

  lemma StepParity(p: Pos, d: int)
    requires IsDir(d)
    ensures (Ahead(p, d).x + Ahead(p, d).y - p.x - p.y - 1) % 2 == 0
  {
  }

  lemma EvenSum(a: int, b: int)
    requires a % 2 == 0 && b % 2 == 0
    ensures (a + b) % 2 == 0
  {
  }

  lemma TwoSteps(p: Pos, d: int, e: int)
    requires IsDir(d) && IsDir(e) && !Opposite(d, e)
    ensures !SameCell(Ahead(Ahead(p, d), e), p)
  {
  }

  /** Two cells of a chain can coincide only if they are an even distance of at least four apart. */
  lemma CrashDistance(body: seq<Pos>, i: nat, j: nat)
    requires Chain(body) && i < j < |body|
    ensures SameCell(body[i], body[j]) ==> (j - i) % 2 == 0 && j - i >= 4
  {
    ChainParity(body, i, j);
    if j - i == 2 {
      assert body[i + 1] == Ahead(body[i], body[i + 1].dir);
      assert body[i + 2] == Ahead(body[i + 1], body[i + 2].dir);
      TwoSteps(body[i], body[i + 1].dir, body[i + 2].dir);
    }
  }

  // Bonuses.

  /** Number of active slots among the first n. */
  ghost function Active(bonuses: seq<Bonus>, n: nat): (k: nat)
    requires n <= |bonuses|
    ensures k <= n
  {
    if n == 0 then 0 else Active(bonuses, n - 1) + (if bonuses[n - 1].activ then 1 else 0)
  }

  lemma {:induction false} ActiveUpdate(bonuses: seq<Bonus>, n: nat, i: nat, bonus: Bonus)
    requires n <= |bonuses| && i < |bonuses|
    ensures Active(bonuses[i := bonus], n) == Active(bonuses, n) +
      (if i < n then (if bonus.activ then 1 else 0) - (if bonuses[i].activ then 1 else 0) else 0)
  {
    if n > 0 {
      ActiveUpdate(bonuses, n - 1, i, bonus);
    }
  }

  lemma {:induction false} AllActive(bonuses: seq<Bonus>, n: nat)
    requires n <= |bonuses| && forall k | 0 <= k < n :: bonuses[k].activ
    ensures Active(bonuses, n) == n
  {
    if n > 0 {
      AllActive(bonuses, n - 1);
    }
  }

  /** Every counted bonus is on the board or in a score; the board shows more active slots than are
      counted by exactly the stale bonuses eaten less the spawns that found no slot. */
  ghost predicate BonusLaw(g: Game) {
    && g.Valid()
    && g.scoreA + g.scoreB + g.nbBonus == g.tally.spawned
    && Active(g.bonuses, g.Slots()) - g.nbBonus == g.tally.stale - g.tally.lost
    && (g.maxBonus >= 0 ==> g.nbBonus <= Active(g.bonuses, g.Slots()) <= g.maxBonus)
  }

  lemma CreateKeepsLaw(g: Game, spawn: bool, x: int, y: int)
    requires BonusLaw(g)
    ensures BonusLaw(BonusCreate(g, spawn, x, y))
  {
    hide Active;
    if spawn && g.nbBonus < g.maxBonus {
      var i := FirstFree(g.bonuses, 0, g.Slots());
      if i < g.Slots() {
        ActiveUpdate(g.bonuses, g.Slots(), i, Bonus(x, y, true));
      } else {
        AllActive(g.bonuses, g.Slots());
      }
    }
  }

  lemma TakeKeepsLaw(g: Game, i: nat)
    requires BonusLaw(g) && i < g.Slots()
    ensures BonusLaw(TakeBonus(g, i).(scoreA := g.scoreA + 1))
    ensures BonusLaw(TakeBonus(g, i).(scoreB := g.scoreB + 1))
  {
    hide Active;
    ActiveUpdate(g.bonuses, g.Slots(), i, g.bonuses[i].(activ := false));
  }

  lemma BonusCheckKeepsLaw(g: Game)
    requires BonusLaw(g)
    ensures BonusLaw(BonusCheckA(g)) && BonusLaw(BonusCheckB(g))
  {
    hide Active, TakeBonus;
    var i := FirstAt(g.bonuses, g.a.end, 0, g.Slots());
    if i < g.Slots() {
      TakeKeepsLaw(g, i);
      LawIgnoresSnakes(TakeBonus(g, i).(scoreA := g.scoreA + 1), Grow(g.a), g.b);
    }
    var j := FirstAt(g.bonuses, g.b.end, 0, g.Slots());
    if j < g.Slots() {
      TakeKeepsLaw(g, j);
      LawIgnoresSnakes(TakeBonus(g, j).(scoreB := g.scoreB + 1), g.a, Grow(g.b));
    }
  }

  lemma LawIgnoresSnakes(g: Game, a: Snake, b: Snake)
    requires BonusLaw(g) && a.body != [] && b.body != []
    ensures BonusLaw(g.(a := a)) && BonusLaw(g.(b := b)) && BonusLaw(g.(a := a, b := b))
  {
    hide Active;
  }

  // Shape: what holds in every reachable state, also in the one in which the game is lost.

  ghost predicate Shape(g: Game) {
    && BonusLaw(g)
    && IsDir(g.dirA) && IsDir(g.dirB)
    && WellFormed(g.a) && |g.a.body| == 3 + g.scoreA
    && WellFormed(g.b) && |g.b.body| == 3 + g.scoreB
  }

  lemma CreateKeeps(g: Game, spawn: bool, x: int, y: int)
    requires g.Valid()
    ensures var h := BonusCreate(g, spawn, x, y);
            h == g.(bonuses := h.bonuses, nbBonus := h.nbBonus, tally := h.tally)
  {
  }

  /** The tick up to the moves: the two snakes advance and nothing else changes shape. */
  lemma MovedShape(g: Game, input: Input)
    requires Shape(g)
    ensures Shape(Moved(g, input))
    ensures var m := Moved(g, input);
            && IsDir(m.dirA) && IsDir(m.dirB)
            && m.a == Move(g.a, m.dirA) && m.b == (if g.twoPlayers then Move(g.b, m.dirB) else g.b)
            && m.twoPlayers == g.twoPlayers && m.maxX == g.maxX && m.maxY == g.maxY
            && m.maxBonus == g.maxBonus
  {
    hide BonusCreate, Move, WellFormed, Active;
    var turned := g.(dirA := SetDirA(g.dirA, input.keyA),
                     dirB := if g.twoPlayers then SetDirB(g.dirB, input.keyB) else g.dirB);
    LawIgnoresDirs(g, turned.dirA, turned.dirB);
    CreateKeepsLaw(turned, input.spawn, 2 + input.randX, 3 + input.randY);
    CreateKeeps(turned, input.spawn, 2 + input.randX, 3 + input.randY);
    var h := BonusCreate(turned, input.spawn, 2 + input.randX, 3 + input.randY);
    MoveWellFormed(h.a, h.dirA);
    MoveWellFormed(h.b, h.dirB);
    LawIgnoresSnakes(h, Move(h.a, h.dirA), if h.twoPlayers then Move(h.b, h.dirB) else h.b);
  }

  lemma LawIgnoresDirs(g: Game, dirA: int, dirB: int)
    requires BonusLaw(g)
    ensures BonusLaw(g.(dirA := dirA, dirB := dirB))
  {
    hide Active;
  }

  /** A bonus check on player 1 right after the move. */
  lemma EatA(g: Game, before: Snake, d: int)
    requires Shape(g) && WellFormed(before) && IsDir(d) && g.a == Move(before, d)
    ensures Shape(BonusCheckA(g))
    ensures var h := BonusCheckA(g);
            && (h.a == g.a || h.a == Grow(g.a)) && h.b == g.b
            && h.twoPlayers == g.twoPlayers && h.maxX == g.maxX && h.maxY == g.maxY && h.maxBonus == g.maxBonus
  {
    BonusCheckKeepsLaw(g);
    MoveThenGrow(before, d);
    hide BonusLaw, WellFormed, Move, Grow;
  }

  /** A bonus check on player 2 right after the move. */
  lemma EatB(g: Game, before: Snake, d: int)
    requires Shape(g) && WellFormed(before) && IsDir(d) && g.b == Move(before, d)
    ensures Shape(BonusCheckB(g))
    ensures var h := BonusCheckB(g);
            && (h.b == g.b || h.b == Grow(g.b)) && h.a == g.a
            && h.twoPlayers == g.twoPlayers && h.maxX == g.maxX && h.maxY == g.maxY && h.maxBonus == g.maxBonus
  {
    BonusCheckKeepsLaw(g);
    MoveThenGrow(before, d);
    hide BonusLaw, WellFormed, Move, Grow;
  }

  lemma ShapeSnakes(g: Game)
    requires Shape(g)
    ensures g.Valid() && WellFormed(g.a) && WellFormed(g.b)
  {
  }

  /** Every tick keeps the shape, whatever its outcome. */
  lemma TickShape(g: Game, input: Input)
    requires g.Valid() && Shape(g)
    ensures Shape(Tick(g, input).0)
    ensures Tick(g, input).0.maxX == g.maxX && Tick(g, input).0.maxY == g.maxY
    ensures Tick(g, input).0.maxBonus == g.maxBonus && Tick(g, input).0.twoPlayers == g.twoPlayers
  {
    hide Moved, Shape, WellFormed, Move, Grow, BonusCheckA, BonusCheckB, HitsWall, AllDistinct, Covers, Game.Valid;
    if !input.quit {
      ShapeSnakes(g);
      MovedShape(g, input);
      var m := Moved(g, input);
      EatA(m, g.a, m.dirA);
      if g.twoPlayers {
        EatB(BonusCheckA(m), g.b, m.dirB);
      }
    }
  }

  /** Shape over every run. */
  lemma {:induction false} PlayShape(g: Game, inputs: seq<Input>)
    requires g.Valid() && Shape(g)
    ensures Shape(Play(g, inputs).0)
    decreases |inputs|
  {
    hide Tick, Shape;
    if inputs != [] {
      PlayShape(g, inputs[..|inputs| - 1]);
      TickShape(Play(g, inputs[..|inputs| - 1]).0, inputs[|inputs| - 1]);
    }
  }

  // Legality: what holds as long as the game is running.

  ghost predicate Inside(g: Game, body: seq<Pos>) {
    forall i | 0 <= i < |body| :: !HitsWall(g, body[i])
  }

  /** A snake inside the walls, its cells distinct except possibly the first. */
  ghost predicate SnakeLegal(g: Game, s: Snake) {
    s.body != [] && Inside(g, s.body) && AllDistinct(s.body[1..])
  }

  ghost predicate Legal(g: Game) {
    && g.Valid()
    && SnakeLegal(g, g.a)
    && (g.twoPlayers ==> SnakeLegal(g, g.b) && !Covers(g.a.body, g.b.end) && !Covers(g.b.body, g.a.end))
  }

  lemma WallsOnly(g: Game, h: Game, p: Pos)
    requires g.maxX == h.maxX && g.maxY == h.maxY
    ensures HitsWall(g, p) == HitsWall(h, p)
  {
  }

  lemma SameWalls(g: Game, h: Game, s: Snake)
    requires g.maxX == h.maxX && g.maxY == h.maxY
    ensures SnakeLegal(g, s) == SnakeLegal(h, s)
  {
    hide HitsWall, AllDistinct;
    forall p: Pos ensures HitsWall(g, p) == HitsWall(h, p) {
      WallsOnly(g, h, p);
    }
  }

  /** A move that passes the two checks is legal, and stays so when the snake then grows. */
  lemma AdvanceLegal(g: Game, before: Snake, d: int)
    requires WellFormed(before) && IsDir(d) && SnakeLegal(g, before)
    requires !HitsWall(g, Move(before, d).end) && AllDistinct(Move(before, d).body)
    ensures SnakeLegal(g, Move(before, d)) && SnakeLegal(g, Grow(Move(before, d)))
  {
    var m := Move(before, d);
    MoveWellFormed(before, d);
    MoveThenGrow(before, d);
    hide Chain, Move, Grow;
    forall i | 0 <= i < |m.body| ensures !HitsWall(g, m.body[i]) {
      if i < |m.body| - 1 {
        assert m.body[i] == before.body[1..][i] == before.body[i + 1];
      }
    }
    var r := Grow(m);
    assert forall i | 0 < i < |r.body| :: r.body[i] == m.body[i - 1];
    SameCellSameWall(g, r.body[0], before.body[0]);
  }

  lemma SameCellSameWall(g: Game, p: Pos, q: Pos)
    requires SameCell(p, q)
    ensures HitsWall(g, p) == HitsWall(g, q)
  {
  }

  /** A tick that does not end the game leaves a legal position. */
  lemma TickLegal(g: Game, input: Input)
    requires g.Valid() && Shape(g) && Legal(g) && Tick(g, input).1 == Running
    ensures Legal(Tick(g, input).0)
  {
    hide Shape, WellFormed, Moved, BonusCheckA, BonusCheckB, SnakeLegal, HitsWall, AllDistinct, Covers, Move, Grow;
    ShapeSnakes(g);
    MovedShape(g, input);
    var m := Moved(g, input);
    SnakeLegalAfter(g, m, g.a, m.dirA);
    EatA(m, g.a, m.dirA);
    var h := BonusCheckA(m);
    SameWalls(m, h, h.a);
    if g.twoPlayers {
      SnakeLegalAfter(g, h, g.b, m.dirB);
      EatB(h, g.b, m.dirB);
      SameWalls(h, BonusCheckB(h), h.a);
      SameWalls(h, BonusCheckB(h), BonusCheckB(h).b);
    }
  }

  lemma SnakeLegalAfter(g: Game, m: Game, before: Snake, d: int)
    requires g.maxX == m.maxX && g.maxY == m.maxY
    requires WellFormed(before) && IsDir(d) && SnakeLegal(g, before)
    requires !HitsWall(m, Move(before, d).end) && AllDistinct(Move(before, d).body)
    ensures SnakeLegal(m, Move(before, d)) && SnakeLegal(m, Grow(Move(before, d)))
  {
    SameWalls(g, m, before);
    AdvanceLegal(m, before, d);
  }

  lemma {:induction false} PlayLegal(g: Game, inputs: seq<Input>)
    requires g.Valid() && Shape(g) && Legal(g)
    ensures Play(g, inputs).1 == Running ==> Legal(Play(g, inputs).0)
    decreases |inputs|
  {
    hide Tick, Shape, Legal;
    if inputs != [] {
      var front := inputs[..|inputs| - 1];
      PlayLegal(g, front);
      PlayShape(g, front);
      if Play(g, front).1 == Running && Tick(Play(g, front).0, inputs[|inputs| - 1]).1 == Running {
        TickLegal(Play(g, front).0, inputs[|inputs| - 1]);
      }
    }
  }

  lemma {:induction false} NoneActive(bonuses: seq<Bonus>, n: nat)
    requires n <= |bonuses| && forall k | 0 <= k < n :: !bonuses[k].activ
    ensures Active(bonuses, n) == 0
  {
    if n > 0 {
      NoneActive(bonuses, n - 1);
    }
  }

  lemma InitialShape(twoPlayers: bool, maxX: int, maxY: int, maxBonus: int)
    requires maxBonus <= MAX_BONUS
    ensures Shape(Initial(twoPlayers, maxX, maxY, maxBonus))
  {
    var g := Initial(twoPlayers, maxX, maxY, maxBonus);
    NoneActive(g.bonuses, g.Slots());
  }

  lemma InitialLegal(twoPlayers: bool, maxX: int, maxY: int, maxBonus: int)
    requires maxBonus <= MAX_BONUS && maxX >= 5 && maxY >= 6
    ensures Legal(Initial(twoPlayers, maxX, maxY, maxBonus))
  {
    InitialSnakeLegal(Initial(twoPlayers, maxX, maxY, maxBonus), 2);
    InitialSnakeLegal(Initial(twoPlayers, maxX, maxY, maxBonus), maxY - 3);
  }

  lemma InitialSnakeLegal(g: Game, row: int)
    requires g.maxX >= 5 && 1 < row < g.maxY - 2
    ensures SnakeLegal(g, InitialSnake(row))
  {
    var s := InitialSnake(row);
    assert s.body[1..] == [Pos(row, 2, RIGHT), Pos(row, 3, RIGHT)];
  }

  /** Every run, from the start of the game: the snakes are chains of at least three cells whose cached heads
      are their ends, lengths follow the scores, and bonuses are conserved. */
  lemma EveryRun(twoPlayers: bool, maxX: int, maxY: int, maxBonus: int, inputs: seq<Input>)
    requires maxBonus <= MAX_BONUS
    ensures var g := Play(Initial(twoPlayers, maxX, maxY, maxBonus), inputs).0;
            && WellFormed(g.a) && WellFormed(g.b)
            && |g.a.body| == 3 + g.scoreA && |g.b.body| == 3 + g.scoreB
            && g.scoreA + g.scoreB + g.nbBonus == g.tally.spawned
            && Active(g.bonuses, g.Slots()) - g.nbBonus == g.tally.stale - g.tally.lost
            && (g.maxBonus >= 0 ==> g.nbBonus <= Active(g.bonuses, g.Slots()) <= g.maxBonus)
  {
    hide Play, Initial, Chain, Active;
    InitialShape(twoPlayers, maxX, maxY, maxBonus);
    PlayShape(Initial(twoPlayers, maxX, maxY, maxBonus), inputs);
  }

  /** Every run that is still going: the snakes are inside the walls and off each other. */
  lemma EverySurvivor(twoPlayers: bool, maxX: int, maxY: int, maxBonus: int, inputs: seq<Input>)
    requires maxBonus <= MAX_BONUS && maxX >= 5 && maxY >= 6
    ensures var r := Play(Initial(twoPlayers, maxX, maxY, maxBonus), inputs);
            r.1 == Running ==> Legal(r.0)
  {
    hide Play, Initial, Legal, Shape;
    InitialShape(twoPlayers, maxX, maxY, maxBonus);
    InitialLegal(twoPlayers, maxX, maxY, maxBonus);
    PlayLegal(Initial(twoPlayers, maxX, maxY, maxBonus), inputs);
  }

  // The main loop, one turn at a time.

  lemma PlayNone(g: Game)
    requires g.Valid()
    ensures Play(g, []) == (g, Running)
  {
  }

  lemma PlayLast(g: Game, inputs: seq<Input>)
    requires g.Valid() && inputs != []
    ensures var p := Play(g, inputs[..|inputs| - 1]);
            Play(g, inputs) == if p.1 == Running then Tick(p.0, inputs[|inputs| - 1]) else p
  {
    hide Tick, Game.Valid;
  }

  lemma PlayNext(g: Game, inputs: seq<Input>, i: nat)
    requires g.Valid() && i < |inputs| && Play(g, inputs[..i]).1 == Running
    ensures Play(g, inputs[..i + 1]) == Tick(Play(g, inputs[..i]).0, inputs[i])
  {
    hide Tick, Game.Valid, Play;
    var t := inputs[..i + 1];
    assert t[..i] == inputs[..i];
    PlayLast(g, t);
  }

  /** A game that is over stays as it is. */
  lemma {:induction false} PlayOver(g: Game, inputs: seq<Input>, i: nat)
    requires g.Valid() && i <= |inputs| && (i == |inputs| || Play(g, inputs[..i]).1 != Running)
    ensures Play(g, inputs) == Play(g, inputs[..i])
    decreases |inputs|
  {
    hide Tick, Game.Valid, Play;
    if i < |inputs| {
      var front := inputs[..|inputs| - 1];
      assert front[..i] == inputs[..i];
      PlayOver(g, front, i);
      PlayLast(g, inputs);
    } else {
      assert inputs[..i] == inputs;
    }
  }

  lemma EndsAreCached(s: Snake)
    requires WellFormed(s)
    ensures |s.body| >= 3 && s.end == s.body[|s.body| - 1]
  {
  }

  // Keys.

  /** The direction each key stands for: player 1 has the keys of the USB stick, player 2 the arrow keys. */
  ghost predicate Names(player: int, key: int, d: int) {
    if player == 1 then
      (key, d) in {(USBKEY_LEFT, LEFT), (USBKEY_RIGHT, RIGHT), (USBKEY_UP, UP), (USBKEY_DOWN, DOWN)}
    else
      (key, d) in {(KEY_LEFT, LEFT), (KEY_RIGHT, RIGHT), (KEY_UP, UP), (KEY_DOWN, DOWN)}
  }

  ghost predicate NamesNone(player: int, key: int) {
    !Names(player, key, LEFT) && !Names(player, key, RIGHT) && !Names(player, key, UP) && !Names(player, key, DOWN)
  }

  ghost function Key(player: int, input: Input): int { if player == 1 then input.keyA else input.keyB }

  /** d is named by the last of the inputs that names a direction, or is the direction at the start. */
  ghost predicate LastNamed(player: int, inputs: seq<Input>, d: int) {
    || (d == RIGHT && forall j | 0 <= j < |inputs| :: NamesNone(player, Key(player, inputs[j])))
    || exists i | 0 <= i < |inputs| ::
         && Names(player, Key(player, inputs[i]), d)
         && forall j | i < j < |inputs| :: NamesNone(player, Key(player, inputs[j]))
  }

  lemma NextNamed(player: int, inputs: seq<Input>, d: int, input: Input, e: int)
    requires LastNamed(player, inputs, d)
    requires Names(player, Key(player, input), e) || (e == d && NamesNone(player, Key(player, input)))
    ensures LastNamed(player, inputs + [input], e)
  {
    hide Names, NamesNone, Key;
    var all := inputs + [input];
    if Names(player, Key(player, input), e) {
      assert Names(player, Key(player, all[|inputs|]), e);
    } else if !(d == RIGHT && forall j | 0 <= j < |inputs| :: NamesNone(player, Key(player, inputs[j]))) {
      var i :| 0 <= i < |inputs| && Names(player, Key(player, inputs[i]), d)
               && forall j | i < j < |inputs| :: NamesNone(player, Key(player, inputs[j]));
      assert Names(player, Key(player, all[i]), e);
    }
  }

  lemma SetDirNames(dir: int, key: int)
    ensures var d := SetDirA(dir, key); Names(1, key, d) || (d == dir && NamesNone(1, key))
    ensures var d := SetDirB(dir, key); Names(2, key, d) || (d == dir && NamesNone(2, key))
  {
  }

  lemma TickDirs(g: Game, input: Input)
    requires g.Valid() && Tick(g, input).1 == Running
    ensures var h := Tick(g, input).0;
            && h.twoPlayers == g.twoPlayers && h.dirA == SetDirA(g.dirA, input.keyA)
            && h.dirB == if g.twoPlayers then SetDirB(g.dirB, input.keyB) else g.dirB
  {
    hide SetDirA, SetDirB, Move, Grow, HitsWall, AllDistinct, Covers, FirstAt, FirstFree;
  }

  /** As long as the game runs, each player's direction is the one named by the last direction key the player
      pressed, whatever other keys came after it; player 2 of a one-player game never turns. */
  lemma {:induction false} LastKeyDecides(twoPlayers: bool, maxX: int, maxY: int, maxBonus: int, inputs: seq<Input>)
    requires maxBonus <= MAX_BONUS
    ensures var (g, outcome) := Play(Initial(twoPlayers, maxX, maxY, maxBonus), inputs);
            outcome == Running ==>
              && g.twoPlayers == twoPlayers && LastNamed(1, inputs, g.dirA)
              && (if twoPlayers then LastNamed(2, inputs, g.dirB) else g.dirB == RIGHT)
    decreases |inputs|
  {
    hide Tick, LastNamed, SetDirA, SetDirB, Names, NamesNone;
    if inputs == [] {
      NothingPressed();
    } else {
      var front, last := inputs[..|inputs| - 1], inputs[|inputs| - 1];
      LastKeyDecides(twoPlayers, maxX, maxY, maxBonus, front);
      var (h, outcome) := Play(Initial(twoPlayers, maxX, maxY, maxBonus), front);
      if outcome == Running && Tick(h, last).1 == Running {
        TickDirs(h, last);
        SetDirNames(h.dirA, last.keyA);
        SetDirNames(h.dirB, last.keyB);
        assert front + [last] == inputs;
        NextNamed(1, front, h.dirA, last, SetDirA(h.dirA, last.keyA));
        if twoPlayers {
          NextNamed(2, front, h.dirB, last, SetDirB(h.dirB, last.keyB));
        }
      }
    }
  }

  lemma NothingPressed()
    ensures LastNamed(1, [], RIGHT) && LastNamed(2, [], RIGHT)
  {
  }
}
