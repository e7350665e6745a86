/** Two runs of SimpleSnake that show what the tallies of the conservation law count: a bonus slot that feeds the
    snake twice, and a bonus that is counted without a slot to hold it. */
module SnakeRuns {
  import opened SnakeModel
  import opened SnakeInvariants

  /** One player on a terminal of 40 columns and 20 rows, with one bonus slot. */
  ghost function Board(body: seq<Pos>, dir: int, slot: Bonus, count: int, score: int, tally: Tally): Game
    requires body != []
  {
    var g := Initial(false, 40, 20, 1);
    g.(a := Snake(body, body[|body| - 1]), dirA := dir, bonuses := g.bonuses[0 := slot], nbBonus := count,
       scoreA := score, tally := tally)
  }

  ghost function Press(key: int): Input { Input(key, 0, false, false, 0, 0) }

  /** A tick in which a bonus appears in the given column and row. */
  ghost function Spawn(key: int, column: nat, row: nat): Input
    requires column >= 2 && row >= 3
  {
    Input(key, 0, false, true, column - 2, row - 3)
  }

  /** A tick of such a game in which the snake moves ahead and meets no bonus. */
  lemma Advances(body: seq<Pos>, dir: int, slot: Bonus, count: int, score: int, tally: Tally, key: int)
    requires body != [] && IsDir(SetDirA(dir, key))
    requires var p := Ahead(body[|body| - 1], Turn(body[|body| - 1].dir, SetDirA(dir, key)));
             && 1 < p.x < 18 && 0 < p.y < 39 && AllDistinct(body[1..] + [p]) && !BonusAt(slot, p)
    ensures var p := Ahead(body[|body| - 1], Turn(body[|body| - 1].dir, SetDirA(dir, key)));
            Tick(Board(body, dir, slot, count, score, tally), Press(key)) ==
            (Board(body[1..] + [p], SetDirA(dir, key), slot, count, score, tally), Running)
  {
    hide SetDirA, Ahead, Turn, AllDistinct;
    var g := Board(body, dir, slot, count, score, tally);
    assert g.bonuses[0] == slot;
  }

  /** A tick in which it meets the bonus slot, active or not. */
  lemma Eats(body: seq<Pos>, dir: int, slot: Bonus, count: int, score: int, tally: Tally, key: int)
    requires |body| > 1 && IsDir(SetDirA(dir, key)) && IsDir(body[1].dir)
    requires var p := Ahead(body[|body| - 1], Turn(body[|body| - 1].dir, SetDirA(dir, key)));
             && 1 < p.x < 18 && 0 < p.y < 39 && AllDistinct(body[1..] + [p]) && BonusAt(slot, p)
    ensures var p := Ahead(body[|body| - 1], Turn(body[|body| - 1].dir, SetDirA(dir, key)));
            var t := if slot.activ then tally else tally.(stale := tally.stale + 1);
            Tick(Board(body, dir, slot, count, score, tally), Press(key)) ==
            (Board([Behind(body[1])] + body[1..] + [p], SetDirA(dir, key), slot.(activ := false),
                   count - 1, score + 1, t),
             Running)
  {
    hide SetDirA, Ahead, Turn, AllDistinct, Behind;
    var g := Board(body, dir, slot, count, score, tally);
    assert g.bonuses[0] == slot;
    assert g.bonuses[0 := slot.(activ := false)] == Initial(false, 40, 20, 1).bonuses[0 := slot.(activ := false)];
    assert [Behind(body[1])] + (body[1..] + [Ahead(g.a.end, Turn(g.a.end.dir, SetDirA(dir, key)))]) ==
           [Behind(body[1])] + body[1..] + [Ahead(g.a.end, Turn(g.a.end.dir, SetDirA(dir, key)))];
  }

  /** A tick in which a bonus appears that the snake does not meet. */
  lemma Spawns(body: seq<Pos>, dir: int, slot: Bonus,
               count: int, score: int, tally: Tally, key: int, column: nat, row: nat)
    requires body != [] && IsDir(SetDirA(dir, key)) && column >= 2 && row >= 3 && count < 1
    requires var p := Ahead(body[|body| - 1], Turn(body[|body| - 1].dir, SetDirA(dir, key)));
             && 1 < p.x < 18 && 0 < p.y < 39 && AllDistinct(body[1..] + [p])
             && !BonusAt(slot, p) && !BonusAt(Bonus(column, row, true), p)
    ensures var p := Ahead(body[|body| - 1], Turn(body[|body| - 1].dir, SetDirA(dir, key)));
            var t := tally.(spawned := tally.spawned + 1, lost := if slot.activ then tally.lost + 1 else tally.lost);
            Tick(Board(body, dir, slot, count, score, tally), Spawn(key, column, row)) ==
            (Board(body[1..] + [p], SetDirA(dir, key), if slot.activ then slot else Bonus(column, row, true),
                   count + 1, score, t), Running)
  {
    hide SetDirA, Ahead, Turn, AllDistinct;
    var g := Board(body, dir, slot, count, score, tally);
    assert g.bonuses[0] == slot;
    assert FirstFree(g.bonuses, 0, 1) == if slot.activ then 1 else 0;
    var b := Bonus(column, row, true);
    assert g.bonuses[0 := b] == Initial(false, 40, 20, 1).bonuses[0 := b];
    assert g.bonuses[0 := b][0] == b;
  }

  /** The first run: a bonus at row 3 in column 4 is eaten, and eaten again when the snake comes round. */
  ghost function StaleRun(): seq<Input> {
    [Spawn(0, 4, 3), Press(USBKEY_DOWN), Press(USBKEY_RIGHT), Press(USBKEY_DOWN), Press(USBKEY_LEFT), Press(USBKEY_UP)]
  }

  ghost function StaleBody(): seq<Pos> {
    [Pos(3, 4, RIGHT), Pos(3, 5, RIGHT), Pos(4, 5, DOWN), Pos(4, 4, LEFT), Pos(3, 4, UP)]
  }

  lemma FirstMeal()
    ensures Play(Initial(false, 40, 20, 1), StaleRun()[..3]) ==
            (Board([Pos(2, 3, RIGHT), Pos(2, 4, RIGHT), Pos(3, 4, DOWN), Pos(3, 5, RIGHT)], RIGHT, Bonus(4, 3, false),
                   0, 1, Tally(1, 0, 0)), Running)
  {
    hide Tick, Board, Play;
    var g, run := Initial(false, 40, 20, 1), StaleRun();
    PlayNone(g);
    assert run[..0] == [];
    StartBoard();
    var s0 := [Pos(2, 1, RIGHT), Pos(2, 2, RIGHT), Pos(2, 3, RIGHT)];
    var s1 := [Pos(2, 2, RIGHT), Pos(2, 3, RIGHT), Pos(2, 4, RIGHT)];
    var s2 := [Pos(2, 2, RIGHT), Pos(2, 3, RIGHT), Pos(2, 4, RIGHT), Pos(3, 4, DOWN)];
    var s3 := [Pos(2, 3, RIGHT), Pos(2, 4, RIGHT), Pos(3, 4, DOWN), Pos(3, 5, RIGHT)];
    assert s0[1..] + [Pos(2, 4, RIGHT)] == s1;
    Spawns(s0, RIGHT, Bonus(0, 0, false), 0, 0, Tally(0, 0, 0), 0, 4, 3);
    PlayNext(g, run, 0);
    assert [Behind(s1[1])] + s1[1..] + [Pos(3, 4, DOWN)] == s2;
    Eats(s1, RIGHT, Bonus(4, 3, true), 1, 0, Tally(1, 0, 0), USBKEY_DOWN);
    PlayNext(g, run, 1);
    assert s2[1..] + [Pos(3, 5, RIGHT)] == s3;
    Advances(s2, DOWN, Bonus(4, 3, false), 0, 1, Tally(1, 0, 0), USBKEY_RIGHT);
    PlayNext(g, run, 2);
  }

  lemma SecondMeal()
    ensures Play(Initial(false, 40, 20, 1), StaleRun()) ==
            (Board(StaleBody(), UP, Bonus(4, 3, false), -1, 2, Tally(1, 0, 1)), Running)
  {
    hide Tick, Board, Play;
    var g, run, gone := Initial(false, 40, 20, 1), StaleRun(), Bonus(4, 3, false);
    FirstMeal();
    var s3 := [Pos(2, 3, RIGHT), Pos(2, 4, RIGHT), Pos(3, 4, DOWN), Pos(3, 5, RIGHT)];
    var s4 := [Pos(2, 4, RIGHT), Pos(3, 4, DOWN), Pos(3, 5, RIGHT), Pos(4, 5, DOWN)];
    var s5 := [Pos(3, 4, DOWN), Pos(3, 5, RIGHT), Pos(4, 5, DOWN), Pos(4, 4, LEFT)];
    assert s3[1..] + [Pos(4, 5, DOWN)] == s4;
    Advances(s3, RIGHT, gone, 0, 1, Tally(1, 0, 0), USBKEY_DOWN);
    PlayNext(g, run, 3);
    assert s4[1..] + [Pos(4, 4, LEFT)] == s5;
    Advances(s4, DOWN, gone, 0, 1, Tally(1, 0, 0), USBKEY_LEFT);
    PlayNext(g, run, 4);
    assert [Behind(s5[1])] + s5[1..] + [Pos(3, 4, UP)] == StaleBody();
    Eats(s5, LEFT, gone, 0, 1, Tally(1, 0, 0), USBKEY_UP);
    PlayNext(g, run, 5);
    assert run[..6] == run;
  }

  lemma StartBoard()
    ensures Initial(false, 40, 20, 1) ==
            Board([Pos(2, 1, RIGHT), Pos(2, 2, RIGHT), Pos(2, 3, RIGHT)], RIGHT,
                  Bonus(0, 0, false), 0, 0, Tally(0, 0, 0))
  {
    var g := Initial(false, 40, 20, 1);
    assert g.bonuses[0 := Bonus(0, 0, false)] == g.bonuses;
  }

  /** A slot that was eaten feeds the snake again: nb_bonus goes below zero while the game runs. */
  lemma StaleSlotFeeds()
    ensures var (g, outcome) := Play(Initial(false, 40, 20, 1), StaleRun());
            outcome == Running && g.tally.stale == 1 && g.nbBonus == -1 && g.scoreA == 2 && g.tally.spawned == 1
  {
    hide Play;
    SecondMeal();
  }

  /** Two more bonuses: the second finds the only slot taken, and is counted all the same. */
  ghost function LostRun(): seq<Input> { StaleRun() + [Spawn(USBKEY_LEFT, 30, 10), Spawn(USBKEY_LEFT, 31, 10)] }

  lemma SpawnLost()
    ensures var (g, outcome) := Play(Initial(false, 40, 20, 1), LostRun());
            outcome == Running && g.tally.lost == 1 && g.nbBonus == 1 && g.tally.spawned == 3
  {
    hide Tick, Board, Play;
    var g, run := Initial(false, 40, 20, 1), LostRun();
    SecondMeal();
    assert run[..6] == StaleRun();
    var s6 := StaleBody();
    var s7 := [Pos(3, 5, RIGHT), Pos(4, 5, DOWN), Pos(4, 4, LEFT), Pos(3, 4, UP), Pos(3, 3, LEFT)];
    var s8 := [Pos(4, 5, DOWN), Pos(4, 4, LEFT), Pos(3, 4, UP), Pos(3, 3, LEFT), Pos(3, 2, LEFT)];
    assert s6[1..] + [Pos(3, 3, LEFT)] == s7;
    Spawns(s6, UP, Bonus(4, 3, false), -1, 2, Tally(1, 0, 1), USBKEY_LEFT, 30, 10);
    PlayNext(g, run, 6);
    assert s7[1..] + [Pos(3, 2, LEFT)] == s8;
    Spawns(s7, LEFT, Bonus(30, 10, true), 0, 2, Tally(2, 0, 1), USBKEY_LEFT, 31, 10);
    PlayNext(g, run, 7);
    assert run[..8] == run;
    BoardFields(s8, LEFT, Bonus(30, 10, true), 1, 2, Tally(3, 1, 1));
  }

  lemma BoardFields(body: seq<Pos>, dir: int, slot: Bonus, count: int, score: int, tally: Tally)
    requires body != []
    ensures var g := Board(body, dir, slot, count, score, tally); g.nbBonus == count && g.tally == tally && g.Valid()
  {
  }
}
