/** SimpleSnake on values: what one tick of the game computes. The classes in SnakeGame.dfy are
    the imperative form, with the snakes as linked lists. */
module SnakeModel {

  const UP := 1
  const DOWN := 2
  const RIGHT := 3
  const LEFT := 4

  const USBKEY_LEFT := 48
  const USBKEY_RIGHT := 34
  const USBKEY_UP := 36
  const USBKEY_DOWN := 40

  const KEY_DOWN := 258
  const KEY_UP := 259
  const KEY_LEFT := 260
  const KEY_RIGHT := 261

  const MAX_BONUS: nat := 100

  /** A cell of a snake; x is the row and y the column. */
  datatype Pos = Pos(x: int, y: int, dir: int)

  /** A bonus slot; pos_x is the column and pos_y the row. */
  datatype Bonus = Bonus(posX: int, posY: int, activ: bool)

  predicate IsDir(d: int) { 1 <= d <= 4 }

  predicate SameCell(p: Pos, q: Pos) { p.x == q.x && p.y == q.y }

  predicate Opposite(d: int, e: int) {
    (d == UP && e == DOWN) || (d == DOWN && e == UP) || (d == RIGHT && e == LEFT) || (d == LEFT && e == RIGHT)
  }

  /** The cell one step from p in direction d. */
  function Ahead(p: Pos, d: int): Pos {
    if d == UP then Pos(p.x - 1, p.y, d)
    else if d == DOWN then Pos(p.x + 1, p.y, d)
    else if d == RIGHT then Pos(p.x, p.y + 1, d)
    else Pos(p.x, p.y - 1, d)
  }

  /** The cell from which p was reached in its own direction. */
  function Behind(p: Pos): Pos {
    if p.dir == UP then Pos(p.x + 1, p.y, p.dir)
    else if p.dir == DOWN then Pos(p.x - 1, p.y, p.dir)
    else if p.dir == RIGHT then Pos(p.x, p.y - 1, p.dir)
    else Pos(p.x, p.y + 1, p.dir)
  }

  /** A snake cannot reverse: the opposite of its direction means straight on. */
  function Turn(last: int, d: int): int { if Opposite(last, d) then last else d }

  /** A snake: its cells from the tail end to the head, and the cached copy of the head. */
  datatype Snake = Snake(body: seq<Pos>, end: Pos)

  function Move(s: Snake, d: int): (r: Snake)
    requires s.body != []
    ensures |r.body| == |s.body|
  {
    if IsDir(d) then
      var p := Ahead(s.end, Turn(s.end.dir, d));
      Snake(s.body[1..] + [p], p)
    else s
  }

  function Grow(s: Snake): (r: Snake)
    requires s.body != []
    ensures r.body != []
  {
    if IsDir(s.body[0].dir) then s.(body := [Behind(s.body[0])] + s.body) else s
  }

  function InitialSnake(row: int): Snake {
    Snake([Pos(row, 1, RIGHT), Pos(row, 2, RIGHT), Pos(row, 3, RIGHT)], Pos(row, 3, RIGHT))
  }

  /** Counts of what happened to bonuses: increments of nb_bonus, increments for which no slot was
      free, and bonuses eaten from a slot that was no longer active. */
  datatype Tally = Tally(spawned: nat, lost: nat, stale: nat)

  datatype Game = Game(
    twoPlayers: bool,
    maxX: int,
    maxY: int,
    a: Snake,
    b: Snake,
    dirA: int,
    dirB: int,
    maxBonus: int,
    bonuses: seq<Bonus>,
    nbBonus: int,
    scoreA: int,
    scoreB: int,
    tally: Tally)
  {
    ghost predicate Valid() {
      && a.body != [] && b.body != []
      && |bonuses| == MAX_BONUS && maxBonus <= MAX_BONUS
    }

    /** Number of bonus slots in use. */
    function Slots(): nat { if maxBonus < 0 then 0 else maxBonus }
  }

  /** What the environment supplies in one tick: the keys of the two players, whether the pause menu
      ended the game, and the random draws of bonus_create. */
  datatype Input = Input(keyA: int, keyB: int, quit: bool, spawn: bool, randX: nat, randY: nat)

  datatype Outcome = Running | GameOver | Lost(player: int)

  function SetDirA(dir: int, key: int): int {
    if key == USBKEY_LEFT then LEFT
    else if key == USBKEY_RIGHT then RIGHT
    else if key == USBKEY_UP then UP
    else if key == USBKEY_DOWN then DOWN
    else dir
  }

  function SetDirB(dir: int, key: int): int {
    if key == KEY_LEFT then LEFT
    else if key == KEY_RIGHT then RIGHT
    else if key == KEY_UP then UP
    else if key == KEY_DOWN then DOWN
    else dir
  }

  /** Index of the first inactive slot from i on, or n. */
  function FirstFree(bonuses: seq<Bonus>, i: nat, n: nat): (r: nat)
    requires i <= n <= |bonuses|
    ensures i <= r <= n
    ensures r < n ==> !bonuses[r].activ
    ensures forall k | i <= k < r :: bonuses[k].activ
    decreases n - i
  {
    if i == n || !bonuses[i].activ then i else FirstFree(bonuses, i + 1, n)
  }

  predicate BonusAt(bonus: Bonus, p: Pos) { p.x == bonus.posY && p.y == bonus.posX }

  /** Index of the first slot from i on that holds the position of p, active or not, or n. */
  function FirstAt(bonuses: seq<Bonus>, p: Pos, i: nat, n: nat): (r: nat)
    requires i <= n <= |bonuses|
    ensures i <= r <= n
    ensures r < n ==> BonusAt(bonuses[r], p)
    ensures forall k | i <= k < r :: !BonusAt(bonuses[k], p)
    decreases n - i
  {
    if i == n || BonusAt(bonuses[i], p) then i else FirstAt(bonuses, p, i + 1, n)
  }

  function BonusCreate(g: Game, spawn: bool, x: int, y: int): (r: Game)
    requires g.Valid()
    ensures r.Valid()
  {
    if !spawn || g.nbBonus >= g.maxBonus then g
    else
      var i := FirstFree(g.bonuses, 0, g.Slots());
      if i < g.Slots() then
        g.(bonuses := g.bonuses[i := Bonus(x, y, true)], nbBonus := g.nbBonus + 1,
           tally := g.tally.(spawned := g.tally.spawned + 1))
      else
        g.(nbBonus := g.nbBonus + 1, tally := g.tally.(spawned := g.tally.spawned + 1, lost := g.tally.lost + 1))
  }

  /** Slot i is eaten by a snake. */
  function TakeBonus(g: Game, i: nat): (r: Game)
    requires g.Valid() && i < |g.bonuses|
    ensures r.Valid()
  {
    g.(nbBonus := g.nbBonus - 1, bonuses := g.bonuses[i := g.bonuses[i].(activ := false)],
       tally := if g.bonuses[i].activ then g.tally else g.tally.(stale := g.tally.stale + 1))
  }

  function BonusCheckA(g: Game): (r: Game)
    requires g.Valid()
    ensures r.Valid()
  {
    var i := FirstAt(g.bonuses, g.a.end, 0, g.Slots());
    if i == g.Slots() then g else TakeBonus(g, i).(scoreA := g.scoreA + 1, a := Grow(g.a))
  }

  function BonusCheckB(g: Game): (r: Game)
    requires g.Valid()
    ensures r.Valid()
  {
    var i := FirstAt(g.bonuses, g.b.end, 0, g.Slots());
    if i == g.Slots() then g else TakeBonus(g, i).(scoreB := g.scoreB + 1, b := Grow(g.b))
  }

  /** wall_check. */
  predicate HitsWall(g: Game, p: Pos) {
    p.x <= 1 || p.x >= g.maxY - 2 || p.y <= 0 || p.y >= g.maxX - 1
  }

  /** No two cells of the list coincide. */
  ghost predicate AllDistinct(body: seq<Pos>) {
    forall i, j | 0 <= i < j < |body| :: !SameCell(body[i], body[j])
  }

  /** Some cell of the list lies under p. */
  ghost predicate Covers(body: seq<Pos>, p: Pos) {
    exists i | 0 <= i < |body| :: SameCell(body[i], p)
  }

  /** The tick up to the moves. */
  function Moved(g: Game, input: Input): (r: Game)
    requires g.Valid()
    ensures r.Valid()
  {
    var turned := g.(dirA := SetDirA(g.dirA, input.keyA),
                     dirB := if g.twoPlayers then SetDirB(g.dirB, input.keyB) else g.dirB);
    var h := BonusCreate(turned, input.spawn, 2 + input.randX, 3 + input.randY);
    h.(a := Move(h.a, h.dirA), b := if h.twoPlayers then Move(h.b, h.dirB) else h.b)
  }

  /** The checks on player 2 and between the players. */
  ghost function CheckB(g: Game): (r: (Game, Outcome))
    requires g.Valid()
    ensures r.0.Valid()
  {
    if HitsWall(g, g.b.end) || !AllDistinct(g.b.body) then (g, Lost(2))
    else
      var h := BonusCheckB(g);
      if Covers(h.a.body, h.b.end) then (h, Lost(2))
      else if Covers(h.b.body, h.a.end) then (h, Lost(1))
      else (h, Running)
  }

  ghost function CheckAll(g: Game): (r: (Game, Outcome))
    requires g.Valid()
    ensures r.0.Valid()
  {
    if HitsWall(g, g.a.end) || !AllDistinct(g.a.body) then (g, Lost(1))
    else if g.twoPlayers then CheckB(BonusCheckA(g))
    else (BonusCheckA(g), Running)
  }

  /** One turn of the main loop. */
  ghost function Tick(g: Game, input: Input): (r: (Game, Outcome))
    requires g.Valid()
    ensures r.0.Valid()
  {
    if input.quit then (g, GameOver) else CheckAll(Moved(g, input))
  }

  /** The game at its start, on a terminal of the given size. */
  function Initial(twoPlayers: bool, maxX: int, maxY: int, maxBonus: int): (g: Game)
    requires maxBonus <= MAX_BONUS
    ensures g.Valid()
  {
    Game(twoPlayers, maxX, maxY, InitialSnake(2), InitialSnake(maxY - 3), RIGHT, RIGHT,
         maxBonus, seq(MAX_BONUS, _ => Bonus(0, 0, false)), 0, 0, 0, Tally(0, 0, 0))
  }

  /** The game after the inputs, as long as it is still running. */
  ghost function Play(g: Game, inputs: seq<Input>): (r: (Game, Outcome))
    requires g.Valid()
    ensures r.0.Valid()
    decreases |inputs|
  {
    if inputs == [] then (g, Running)
    else
      var (h, outcome) := Play(g, inputs[..|inputs| - 1]);
      if outcome == Running then Tick(h, inputs[|inputs| - 1]) else (h, outcome)
  }
}
