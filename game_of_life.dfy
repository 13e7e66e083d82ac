// Conway's Game of Life as run by the slideshow widget: one generation step
// on a grid of columns `cells[x][y]`. Positions outside the grid (including
// past the end of a shorter column) count as dead; there is no wrap-around.

module GameOfLife {

  type Grid = seq<seq<bool>>

  /** True when (x, y) lies inside the grid and that cell is alive. A missing
      column or row reads as dead, as an optional-chained lookup does. */
  predicate AliveAt(cells: Grid, x: int, y: int)
  {
    0 <= x < |cells| && 0 <= y < |cells[x]| && cells[x][y]
  }

  function Bit(b: bool): nat
  {
    if b then 1 else 0
  }

  /** The number of live cells among the eight positions around (x, y). */
  function Neighbours(cells: Grid, x: int, y: int): (n: nat)
    ensures n <= 8
  {
    Bit(AliveAt(cells, x - 1, y - 1)) + Bit(AliveAt(cells, x, y - 1)) + Bit(AliveAt(cells, x + 1, y - 1))
    + Bit(AliveAt(cells, x - 1, y)) + Bit(AliveAt(cells, x + 1, y))
    + Bit(AliveAt(cells, x - 1, y + 1)) + Bit(AliveAt(cells, x, y + 1)) + Bit(AliveAt(cells, x + 1, y + 1))
  }

  /** The fate of one cell given its state and its live neighbour count. */
  function NextState(alive: bool, neighbours: nat): bool
  {
    if alive then neighbours == 2 || neighbours == 3 else neighbours == 3
  }

  /** The next generation, built as a fresh grid from the old one only. */
  function NextGeneration(cells: Grid): (next: Grid)
    ensures |next| == |cells|
    ensures forall x :: 0 <= x < |cells| ==> |next[x]| == |cells[x]|
    ensures forall x, y :: 0 <= x < |cells| && 0 <= y < |cells[x]| ==>
      next[x][y] == NextState(cells[x][y], Neighbours(cells, x, y))
  {
    seq(|cells|, x requires 0 <= x < |cells| =>
      seq(|cells[x]|, y requires 0 <= y < |cells[x]| => NextState(cells[x][y], Neighbours(cells, x, y))))
  }

  /** The positions around (x, y): the 3x3 block centred there, minus the centre. */
  function Around(x: int, y: int): set<(int, int)>
  {
    set a: int, b: int | x - 1 <= a <= x + 1 && y - 1 <= b <= y + 1 && (a != x || b != y) :: (a, b)
  }

  /** The eight neighbours of (x, y) listed in the order the step reads them. */
  function NeighbourList(x: int, y: int): seq<(int, int)>
  {
    [(x - 1, y - 1), (x, y - 1), (x + 1, y - 1), (x - 1, y), (x + 1, y),
     (x - 1, y + 1), (x, y + 1), (x + 1, y + 1)]
  }

  /** The neighbour count is exactly the number of distinct live cells around
      (x, y), with off-grid positions dead. */
  lemma NeighboursCountsLiveSet(cells: Grid, x: int, y: int)
    ensures Neighbours(cells, x, y) == |set p | p in Around(x, y) && AliveAt(cells, p.0, p.1)|
  {
    var ps := NeighbourList(x, y);
    AroundIsListed(cells, x, y);
    NeighboursInListOrder(cells, x, y);
    CountOfDistinct(cells, ps, 8);
    assert LivePositions(cells, ps, 8) ==
      set i | 0 <= i < 8 && AliveAt(cells, ps[i].0, ps[i].1) :: ps[i];
  }

  /** The live positions around (x, y) are the live entries of the list. */
  lemma AroundIsListed(cells: Grid, x: int, y: int)
    ensures (set p | p in Around(x, y) && AliveAt(cells, p.0, p.1)) ==
      (set i | 0 <= i < 8 && AliveAt(cells, NeighbourList(x, y)[i].0, NeighbourList(x, y)[i].1) :: NeighbourList(x, y)[i])
  {
    var ps := NeighbourList(x, y);
    var s := set p | p in Around(x, y) && AliveAt(cells, p.0, p.1);
    var t := set i | 0 <= i < 8 && AliveAt(cells, ps[i].0, ps[i].1) :: ps[i];
    forall p | p in s ensures p in t {
      var a, b := p.0, p.1;
      if b == y - 1 {
        if a == x - 1 { assert p == ps[0]; } else if a == x { assert p == ps[1]; } else { assert p == ps[2]; }
      } else if b == y {
        if a == x - 1 { assert p == ps[3]; } else { assert p == ps[4]; }
      } else {
        if a == x - 1 { assert p == ps[5]; } else if a == x { assert p == ps[6]; } else { assert p == ps[7]; }
      }
    }
    forall p | p in t ensures p in s {
      var i :| 0 <= i < 8 && AliveAt(cells, ps[i].0, ps[i].1) && ps[i] == p;
      assert p.0 - x <= 1 && x - p.0 <= 1 && p.1 - y <= 1 && y - p.1 <= 1;
    }
  }

  /** The step's sum reads the list's entries in order. */
  lemma NeighboursInListOrder(cells: Grid, x: int, y: int)
    ensures Neighbours(cells, x, y) == CountPrefix(cells, NeighbourList(x, y), 8)
  {
    var ps := NeighbourList(x, y);
    assert CountPrefix(cells, ps, 1) == Bit(AliveAt(cells, x - 1, y - 1));
    assert CountPrefix(cells, ps, 2) == CountPrefix(cells, ps, 1) + Bit(AliveAt(cells, x, y - 1));
    assert CountPrefix(cells, ps, 3) == CountPrefix(cells, ps, 2) + Bit(AliveAt(cells, x + 1, y - 1));
    assert CountPrefix(cells, ps, 4) == CountPrefix(cells, ps, 3) + Bit(AliveAt(cells, x - 1, y));
    assert CountPrefix(cells, ps, 5) == CountPrefix(cells, ps, 4) + Bit(AliveAt(cells, x + 1, y));
    assert CountPrefix(cells, ps, 6) == CountPrefix(cells, ps, 5) + Bit(AliveAt(cells, x - 1, y + 1));
    assert CountPrefix(cells, ps, 7) == CountPrefix(cells, ps, 6) + Bit(AliveAt(cells, x, y + 1));
    assert CountPrefix(cells, ps, 8) == CountPrefix(cells, ps, 7) + Bit(AliveAt(cells, x + 1, y + 1));
  }

  /** Counting a prefix of a list of distinct positions by their liveness. */
  function CountPrefix(cells: Grid, ps: seq<(int, int)>, k: nat): nat
    requires k <= |ps|
  {
    if k == 0 then 0 else CountPrefix(cells, ps, k - 1) + Bit(AliveAt(cells, ps[k - 1].0, ps[k - 1].1))
  }

  /** The live positions among the first `k` of the list. */
  function LivePositions(cells: Grid, ps: seq<(int, int)>, k: nat): set<(int, int)>
    requires k <= |ps|
  {
    set i | 0 <= i < k && AliveAt(cells, ps[i].0, ps[i].1) :: ps[i]
  }

  /** Taking one more position of the list adds it when it is alive. */
  lemma LivePositionsSnoc(cells: Grid, ps: seq<(int, int)>, k: nat)
    requires 0 < k <= |ps|
    ensures LivePositions(cells, ps, k) ==
      LivePositions(cells, ps, k - 1) + (if AliveAt(cells, ps[k - 1].0, ps[k - 1].1) then {ps[k - 1]} else {})
  {
  }

  lemma {:induction false} CountOfDistinct(cells: Grid, ps: seq<(int, int)>, k: nat)
    requires k <= |ps|
    requires forall i, j :: 0 <= i < j < |ps| ==> ps[i] != ps[j]
    ensures CountPrefix(cells, ps, k) == |LivePositions(cells, ps, k)|
  {
    if k > 0 {
      CountOfDistinct(cells, ps, k - 1);
      LivePositionsSnoc(cells, ps, k);
      assert ps[k - 1] !in LivePositions(cells, ps, k - 1);
    }
  }

  /** A live cell survives exactly when it has two or three live neighbours. */
  lemma Survival(cells: Grid, x: nat, y: nat)
    requires x < |cells| && y < |cells[x]| && cells[x][y]
    ensures NextGeneration(cells)[x][y] <==> (Neighbours(cells, x, y) == 2 || Neighbours(cells, x, y) == 3)
  {
  }

  /** A dead cell comes alive exactly when it has three live neighbours. */
  lemma Birth(cells: Grid, x: nat, y: nat)
    requires x < |cells| && y < |cells[x]| && !cells[x][y]
    ensures NextGeneration(cells)[x][y] <==> Neighbours(cells, x, y) == 3
  {
  }

  predicate AllDead(cells: Grid)
  {
    forall x, y :: 0 <= x < |cells| && 0 <= y < |cells[x]| ==> !cells[x][y]
  }

  /** An empty board stays empty. */
  lemma AllDeadStaysDead(cells: Grid)
    requires AllDead(cells)
    ensures AllDead(NextGeneration(cells))
  {
    var next := NextGeneration(cells);
    forall x, y | 0 <= x < |next| && 0 <= y < |next[x]|
      ensures !next[x][y]
    {
      assert Neighbours(cells, x, y) == 0;
    }
  }

  /** The widget's state: the grid is replaced wholesale by each tick. */
  class ConwaysGameOfLife {
    var cells: Grid

    constructor ()
      ensures cells == []
    {
      cells := [];
    }

    method Tick()
      modifies this`cells
      ensures cells == NextGeneration(old(cells))
    {
      cells := NextGeneration(cells);
    }
  }
}
