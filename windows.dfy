/** Geometry of quadtrees: the cells of a node as a plane, when a node
    shows a square of a plane, and when a node holds the next generation
    of a region of another (the Conway rule B3/S23 on every 3x3
    neighbourhood). The step engine is specified with these. */
module Windows {
  import opened Quadtree

  /** 1 for a live cell, 0 for a dead one. */
  function Bit(b: bool): nat {
    if b then 1 else 0
  }

  /** Conway's rule: a dead cell is born with exactly 3 live neighbours;
      a live cell survives with 2 or 3. */
  predicate ConwayRule(centre: bool, neighbours: nat) {
    if centre then neighbours == 2 || neighbours == 3 else neighbours == 3
  }

  /** The Conway rule on a 3x3 neighbourhood, given row by row. */
  predicate Rule(nw: bool, n: bool, ne: bool, w: bool, c: bool, e: bool, sw: bool, s: bool, se: bool) {
    ConwayRule(c, Bit(nw) + Bit(n) + Bit(ne) + Bit(w) + Bit(e) + Bit(sw) + Bit(s) + Bit(se))
  }

  ghost predicate Interior(p: Node, x: int, y: int) {
    1 <= x && x + 1 < Size(p.Level()) && 1 <= y && y + 1 < Size(p.Level())
  }

  /** The state of cell (x, y) of p one generation later. */
  ghost predicate NextAlive(p: Node, x: int, y: int)
    requires p.WellFormed() && Interior(p, x, y)
  {
    Rule(Alive(p, x - 1, y - 1), Alive(p, x, y - 1), Alive(p, x + 1, y - 1),
         Alive(p, x - 1, y), Alive(p, x, y), Alive(p, x + 1, y),
         Alive(p, x - 1, y + 1), Alive(p, x, y + 1), Alive(p, x + 1, y + 1))
  }

  /** Cell (x, y) of r is cell (x + ox, y + oy) of p one generation later. */
  ghost predicate StepAgrees(r: Node, p: Node, ox: int, oy: int, x: int, y: int)
    requires r.WellFormed() && p.WellFormed()
  {
    InRange(r, x, y) ==> Interior(p, x + ox, y + oy) && Alive(r, x, y) == NextAlive(p, x + ox, y + oy)
  }

  /** r is the square of p at (ox, oy), of r's size, one generation later. */
  ghost predicate IsStep(r: Node, p: Node, ox: int, oy: int)
    requires r.WellFormed() && p.WellFormed()
  {
    && 1 <= ox && ox + Size(r.Level()) + 1 <= Size(p.Level())
    && 1 <= oy && oy + Size(r.Level()) + 1 <= Size(p.Level())
    && forall x, y {:trigger StepAgrees(r, p, ox, oy, x, y)} :: StepAgrees(r, p, ox, oy, x, y)
  }

  /** Cell (X, Y) of p is cell (x, y) of quadrant a; h is the quadrant size. */
  lemma {:induction false} CellA(p: Node, h: nat, X: int, Y: int, x: int, y: int)
    requires p.WellFormed() && p.Inner? && h == Size(p.a.Level())
    requires 0 <= x < h && 0 <= y < h && X == x && Y == y
    ensures InRange(p, X, Y) && Alive(p, X, Y) == Alive(p.a, x, y)
  {
  }

  /** Cell (X, Y) of p is cell (x, y) of quadrant b. */
  lemma {:induction false} CellB(p: Node, h: nat, X: int, Y: int, x: int, y: int)
    requires p.WellFormed() && p.Inner? && h == Size(p.a.Level())
    requires 0 <= x < h && 0 <= y < h && X == x + h && Y == y
    ensures InRange(p, X, Y) && Alive(p, X, Y) == Alive(p.b, x, y)
  {
  }

  /** Cell (X, Y) of p is cell (x, y) of quadrant c. */
  lemma {:induction false} CellC(p: Node, h: nat, X: int, Y: int, x: int, y: int)
    requires p.WellFormed() && p.Inner? && h == Size(p.a.Level())
    requires 0 <= x < h && 0 <= y < h && X == x && Y == y + h
    ensures InRange(p, X, Y) && Alive(p, X, Y) == Alive(p.c, x, y)
  {
  }

  /** Cell (X, Y) of p is cell (x, y) of quadrant d. */
  lemma {:induction false} CellD(p: Node, h: nat, X: int, Y: int, x: int, y: int)
    requires p.WellFormed() && p.Inner? && h == Size(p.a.Level())
    requires 0 <= x < h && 0 <= y < h && X == x + h && Y == y + h
    ensures InRange(p, X, Y) && Alive(p, X, Y) == Alive(p.d, x, y)
  {
  }

  /** The live cells of p drawn with its top-left corner at (ox, oy), as
      (column, row) pairs: those of its quadrants, each drawn at its own
      corner. The union is wrapped in a comprehension so that its size is
      only related to the quadrants' through DisjointCard. */
  ghost function LiveCells(p: Node, ox: int, oy: int): set<(int, int)>
    requires p.WellFormed()
    decreases p
  {
    if p.Leaf? then (if p.alive then {(ox, oy)} else {})
    else
      var h := Size(p.a.Level());
      var all := LiveCells(p.a, ox, oy) + LiveCells(p.b, ox + h, oy) + LiveCells(p.c, ox, oy + h) + LiveCells(p.d, ox + h, oy + h);
      set e | e in all
  }

  /** The cells of LiveCells(q, ox, oy) lie inside q drawn at (ox, oy). */
  lemma {:induction false} LiveBox(q: Node, ox: int, oy: int, x: int, y: int)
    requires q.WellFormed()
    ensures (x, y) in LiveCells(q, ox, oy) ==> ox <= x < ox + Size(q.Level()) && oy <= y < oy + Size(q.Level())
    decreases q
  {
    if q.Inner? {
      var h := Size(q.a.Level());
      assert Size(q.Level()) == h + h;
      LiveBox(q.a, ox, oy, x, y);
      LiveBox(q.b, ox + h, oy, x, y);
      LiveBox(q.c, ox, oy + h, x, y);
      LiveBox(q.d, ox + h, oy + h, x, y);
    }
  }

  /** LiveCells(p, ox, oy) holds exactly the live cells of p, moved by
      (ox, oy). */
  lemma {:induction false} LiveMember(p: Node, ox: int, oy: int, i: int, j: int)
    requires p.WellFormed()
    ensures (ox + i, oy + j) in LiveCells(p, ox, oy) <==> InRange(p, i, j) && Alive(p, i, j)
    decreases p, 1
  {
    if p.Inner? {
      var h := Size(p.a.Level());
      if 0 <= i < h && 0 <= j < h {
        LiveMemberA(p, h, ox, oy, i, j);
      } else if h <= i < h + h && 0 <= j < h {
        LiveMemberB(p, h, ox, oy, i, j);
      } else if 0 <= i < h && h <= j < h + h {
        LiveMemberC(p, h, ox, oy, i, j);
      } else if h <= i < h + h && h <= j < h + h {
        LiveMemberD(p, h, ox, oy, i, j);
      } else {
        assert Size(p.Level()) == h + h;
        LiveBox(p, ox, oy, ox + i, oy + j);
      }
    }
  }

  /** LiveMember for a cell in the top-left quadrant: it is in LiveCells of p
      exactly when it is in LiveCells of a, and in no other quadrant's. */
  lemma {:induction false} LiveMemberA(p: Node, h: nat, ox: int, oy: int, i: int, j: int)
    requires p.WellFormed() && p.Inner? && h == Size(p.a.Level()) && 0 <= i < h && 0 <= j < h
    ensures (ox + i, oy + j) in LiveCells(p, ox, oy) <==> InRange(p, i, j) && Alive(p, i, j)
    decreases p, 0
  {
    LiveMember(p.a, ox, oy, i, j);
    LiveBox(p.b, ox + h, oy, ox + i, oy + j);
    LiveBox(p.c, ox, oy + h, ox + i, oy + j);
    LiveBox(p.d, ox + h, oy + h, ox + i, oy + j);
    LiveQuadrantA(p, h, ox, oy, i, j);
  }

  /** LiveMember for a cell in the top-right quadrant: it is in LiveCells of p
      exactly when it is in LiveCells of b, and in no other quadrant's. */
  lemma {:induction false} LiveMemberB(p: Node, h: nat, ox: int, oy: int, i: int, j: int)
    requires p.WellFormed() && p.Inner? && h == Size(p.a.Level()) && h <= i < h + h && 0 <= j < h
    ensures (ox + i, oy + j) in LiveCells(p, ox, oy) <==> InRange(p, i, j) && Alive(p, i, j)
    decreases p, 0
  {
    LiveMember(p.b, ox + h, oy, i - h, j);
    LiveBox(p.a, ox, oy, ox + i, oy + j);
    LiveBox(p.c, ox, oy + h, ox + i, oy + j);
    LiveBox(p.d, ox + h, oy + h, ox + i, oy + j);
    LiveQuadrantB(p, h, ox, oy, i, j);
  }

  /** LiveMember for a cell in the bottom-left quadrant: it is in LiveCells of p
      exactly when it is in LiveCells of c, and in no other quadrant's. */
  lemma {:induction false} LiveMemberC(p: Node, h: nat, ox: int, oy: int, i: int, j: int)
    requires p.WellFormed() && p.Inner? && h == Size(p.a.Level()) && 0 <= i < h && h <= j < h + h
    ensures (ox + i, oy + j) in LiveCells(p, ox, oy) <==> InRange(p, i, j) && Alive(p, i, j)
    decreases p, 0
  {
    LiveMember(p.c, ox, oy + h, i, j - h);
    LiveBox(p.a, ox, oy, ox + i, oy + j);
    LiveBox(p.b, ox + h, oy, ox + i, oy + j);
    LiveBox(p.d, ox + h, oy + h, ox + i, oy + j);
    LiveQuadrantC(p, h, ox, oy, i, j);
  }

  /** LiveMember for a cell in the bottom-right quadrant: it is in LiveCells of p
      exactly when it is in LiveCells of d, and in no other quadrant's. */
  lemma {:induction false} LiveMemberD(p: Node, h: nat, ox: int, oy: int, i: int, j: int)
    requires p.WellFormed() && p.Inner? && h == Size(p.a.Level()) && h <= i < h + h && h <= j < h + h
    ensures (ox + i, oy + j) in LiveCells(p, ox, oy) <==> InRange(p, i, j) && Alive(p, i, j)
    decreases p, 0
  {
    LiveMember(p.d, ox + h, oy + h, i - h, j - h);
    LiveBox(p.a, ox, oy, ox + i, oy + j);
    LiveBox(p.b, ox + h, oy, ox + i, oy + j);
    LiveBox(p.c, ox, oy + h, ox + i, oy + j);
    LiveQuadrantD(p, h, ox, oy, i, j);
  }

  /** A cell in the top-left quadrant that is in no other quadrant's
      LiveCells is in LiveCells of p exactly when a has it alive. */
  lemma {:induction false} LiveQuadrantA(p: Node, h: nat, ox: int, oy: int, i: int, j: int)
    requires p.WellFormed() && p.Inner? && h == Size(p.a.Level()) && 0 <= i < h && 0 <= j < h
    requires (ox + (i), oy + (j)) in LiveCells(p.a, ox, oy) <==> Alive(p.a, i, j)
    requires (ox + i, oy + j) !in LiveCells(p.b, ox + h, oy) && (ox + i, oy + j) !in LiveCells(p.c, ox, oy + h) && (ox + i, oy + j) !in LiveCells(p.d, ox + h, oy + h)
    ensures (ox + i, oy + j) in LiveCells(p, ox, oy) <==> InRange(p, i, j) && Alive(p, i, j)
  {
    assert (ox + (i), oy + (j)) == (ox + i, oy + j);
    CellA(p, h, i, j, i, j);
  }

  /** A cell in the top-right quadrant that is in no other quadrant's
      LiveCells is in LiveCells of p exactly when b has it alive. */
  lemma {:induction false} LiveQuadrantB(p: Node, h: nat, ox: int, oy: int, i: int, j: int)
    requires p.WellFormed() && p.Inner? && h == Size(p.a.Level()) && h <= i < h + h && 0 <= j < h
    requires (ox + h + (i - h), oy + (j)) in LiveCells(p.b, ox + h, oy) <==> Alive(p.b, i - h, j)
    requires (ox + i, oy + j) !in LiveCells(p.a, ox, oy) && (ox + i, oy + j) !in LiveCells(p.c, ox, oy + h) && (ox + i, oy + j) !in LiveCells(p.d, ox + h, oy + h)
    ensures (ox + i, oy + j) in LiveCells(p, ox, oy) <==> InRange(p, i, j) && Alive(p, i, j)
  {
    LiveQuadrants(p, ox, oy);
    assert (ox + h + (i - h), oy + (j)) == (ox + i, oy + j);
    CellB(p, h, i, j, i - h, j);
  }

  /** A cell in the bottom-left quadrant that is in no other quadrant's
      LiveCells is in LiveCells of p exactly when c has it alive. */
  lemma {:induction false} LiveQuadrantC(p: Node, h: nat, ox: int, oy: int, i: int, j: int)
    requires p.WellFormed() && p.Inner? && h == Size(p.a.Level()) && 0 <= i < h && h <= j < h + h
    requires (ox + (i), oy + h + (j - h)) in LiveCells(p.c, ox, oy + h) <==> Alive(p.c, i, j - h)
    requires (ox + i, oy + j) !in LiveCells(p.a, ox, oy) && (ox + i, oy + j) !in LiveCells(p.b, ox + h, oy) && (ox + i, oy + j) !in LiveCells(p.d, ox + h, oy + h)
    ensures (ox + i, oy + j) in LiveCells(p, ox, oy) <==> InRange(p, i, j) && Alive(p, i, j)
  {
    LiveQuadrants(p, ox, oy);
    assert (ox + (i), oy + h + (j - h)) == (ox + i, oy + j);
    CellC(p, h, i, j, i, j - h);
  }

  /** A cell in the bottom-right quadrant that is in no other quadrant's
      LiveCells is in LiveCells of p exactly when d has it alive. */
  lemma {:induction false} LiveQuadrantD(p: Node, h: nat, ox: int, oy: int, i: int, j: int)
    requires p.WellFormed() && p.Inner? && h == Size(p.a.Level()) && h <= i < h + h && h <= j < h + h
    requires (ox + h + (i - h), oy + h + (j - h)) in LiveCells(p.d, ox + h, oy + h) <==> Alive(p.d, i - h, j - h)
    requires (ox + i, oy + j) !in LiveCells(p.a, ox, oy) && (ox + i, oy + j) !in LiveCells(p.b, ox + h, oy) && (ox + i, oy + j) !in LiveCells(p.c, ox, oy + h)
    ensures (ox + i, oy + j) in LiveCells(p, ox, oy) <==> InRange(p, i, j) && Alive(p, i, j)
  {
    LiveQuadrants(p, ox, oy);
    assert (ox + h + (i - h), oy + h + (j - h)) == (ox + i, oy + j);
    CellD(p, h, i, j, i - h, j - h);
  }

  /** The live cells of p are those of its four quadrants. */
  lemma LiveQuadrants(p: Node, ox: int, oy: int)
    requires p.WellFormed() && p.Inner?
    ensures var h := Size(p.a.Level());
      forall e :: e in LiveCells(p, ox, oy) <==>
        e in LiveCells(p.a, ox, oy) || e in LiveCells(p.b, ox + h, oy) || e in LiveCells(p.c, ox, oy + h) || e in LiveCells(p.d, ox + h, oy + h)
  {
  }

  /** Every cell of LiveCells(q, ox, oy) lies inside q drawn at (ox, oy). */
  lemma LiveBoxed(q: Node, ox: int, oy: int)
    requires q.WellFormed()
    ensures forall e :: e in LiveCells(q, ox, oy) ==> ox <= e.0 < ox + Size(q.Level()) && oy <= e.1 < oy + Size(q.Level())
  {
    forall e | e in LiveCells(q, ox, oy) ensures ox <= e.0 < ox + Size(q.Level()) && oy <= e.1 < oy + Size(q.Level()) {
      LiveBox(q, ox, oy, e.0, e.1);
    }
  }

  /** Sets of cells in the four quadrant boxes of side h at (ox, oy) are
      pairwise disjoint. */
  lemma QuadrantsApart(A: set<(int, int)>, B: set<(int, int)>, C: set<(int, int)>, D: set<(int, int)>, ox: int, oy: int, h: int)
    requires forall e :: e in A ==> ox <= e.0 < ox + h && oy <= e.1 < oy + h
    requires forall e :: e in B ==> ox + h <= e.0 && oy <= e.1 < oy + h
    requires forall e :: e in C ==> e.0 < ox + h && oy + h <= e.1
    requires forall e :: e in D ==> ox + h <= e.0 && oy + h <= e.1
    ensures forall e :: e in A ==> e !in B && e !in C && e !in D
    ensures forall e :: e in B ==> e !in C && e !in D
    ensures forall e :: e in C ==> e !in D
  {
  }

  /** A set that is the union of four pairwise disjoint sets has as many
      elements as the four together. */
  lemma DisjointCard<T>(U: set<T>, A: set<T>, B: set<T>, C: set<T>, D: set<T>)
    requires forall e :: e in U <==> e in A || e in B || e in C || e in D
    requires forall e :: e in A ==> e !in B && e !in C && e !in D
    requires forall e :: e in B ==> e !in C && e !in D
    requires forall e :: e in C ==> e !in D
    ensures |U| == |A| + |B| + |C| + |D|
  {
    assert U == A + B + C + D;
    assert A * B == {};
    assert (A + B) * C == {};
    assert (A + B + C) * D == {};
  }

  /** The quadrants' live cells are disjoint, so LiveCells of p has as many
      cells as theirs together. */
  lemma QuadrantsCount(p: Node, ox: int, oy: int)
    requires p.WellFormed() && p.Inner?
    requires var h := Size(p.a.Level());
      && p.a.Pop() == |LiveCells(p.a, ox, oy)| && p.b.Pop() == |LiveCells(p.b, ox + h, oy)|
      && p.c.Pop() == |LiveCells(p.c, ox, oy + h)| && p.d.Pop() == |LiveCells(p.d, ox + h, oy + h)|
    ensures p.Pop() == |LiveCells(p, ox, oy)|
  {
    var h := Size(p.a.Level());
    var A, B, C, D := LiveCells(p.a, ox, oy), LiveCells(p.b, ox + h, oy), LiveCells(p.c, ox, oy + h), LiveCells(p.d, ox + h, oy + h);
    LiveBoxed(p.a, ox, oy);
    LiveBoxed(p.b, ox + h, oy);
    LiveBoxed(p.c, ox, oy + h);
    LiveBoxed(p.d, ox + h, oy + h);
    QuadrantsApart(A, B, C, D, ox, oy, h);
    LiveQuadrants(p, ox, oy);
    DisjointCard(LiveCells(p, ox, oy), A, B, C, D);
    assert p.Pop() == p.a.Pop() + p.b.Pop() + p.c.Pop() + p.d.Pop();
  }

  /** The population is the number of cells in LiveCells. */
  lemma {:induction false} PopIsLiveCount(p: Node, ox: int, oy: int)
    requires p.WellFormed()
    ensures p.Pop() == |LiveCells(p, ox, oy)|
    decreases p
  {
    if p.Inner? {
      var h := Size(p.a.Level());
      PopIsLiveCount(p.a, ox, oy);
      PopIsLiveCount(p.b, ox + h, oy);
      PopIsLiveCount(p.c, ox, oy + h);
      PopIsLiveCount(p.d, ox + h, oy + h);
      QuadrantsCount(p, ox, oy);
    }
  }

  /** The live cells of p, as (column, row) pairs. */
  ghost function AliveCells(p: Node): set<(int, int)>
    requires p.WellFormed()
  {
    set x, y | 0 <= x < Size(p.Level()) && 0 <= y < Size(p.Level()) && Alive(p, x, y) :: (x, y)
  }

  /** A pair is in AliveCells(p) exactly when it is a live cell of p. */
  lemma AliveCellsMember(p: Node, e: (int, int))
    requires p.WellFormed()
    ensures e in AliveCells(p) <==> InRange(p, e.0, e.1) && Alive(p, e.0, e.1)
  {
    if InRange(p, e.0, e.1) && Alive(p, e.0, e.1) {
      assert (e.0, e.1) == e;
    }
  }

  /** AliveCells(p) is LiveCells of p drawn at the origin. */
  lemma AliveIsLive(p: Node, e: (int, int))
    requires p.WellFormed()
    ensures e in AliveCells(p) <==> e in LiveCells(p, 0, 0)
  {
    AliveCellsMember(p, e);
    LiveMember(p, 0, 0, e.0, e.1);
    assert (0 + e.0, 0 + e.1) == e;
  }

  /** Sets with the same members have the same size. */
  lemma SameCard<T>(S: set<T>, L: set<T>)
    requires forall e :: e in S <==> e in L
    ensures |S| == |L|
  {
    assert S == L;
  }

  /** The population field counts the live cells of the node. */
  lemma PopCounts(p: Node)
    requires p.WellFormed()
    ensures p.Pop() == |AliveCells(p)|
  {
    PopIsLiveCount(p, 0, 0);
    forall e ensures e in AliveCells(p) <==> e in LiveCells(p, 0, 0) {
      AliveIsLive(p, e);
    }
    SameCard(AliveCells(p), LiveCells(p, 0, 0));
  }

  /** A region with no live cells stays empty: its next generation is all dead. */
  lemma {:induction false} DeadNext(p: Node, x: int, y: int)
    requires p.WellFormed() && p.Pop() == 0 && Interior(p, x, y)
    ensures !NextAlive(p, x, y)
  {
    DeadIfEmpty(p, x - 1, y - 1); DeadIfEmpty(p, x, y - 1); DeadIfEmpty(p, x + 1, y - 1);
    DeadIfEmpty(p, x - 1, y); DeadIfEmpty(p, x, y); DeadIfEmpty(p, x + 1, y);
    DeadIfEmpty(p, x - 1, y + 1); DeadIfEmpty(p, x, y + 1); DeadIfEmpty(p, x + 1, y + 1);
  }

  /** An empty node is the next generation of any empty node it fits inside. */
  lemma {:induction false} DeadStep(r: Node, p: Node, ox: int, oy: int)
    requires r.WellFormed() && p.WellFormed() && r.Pop() == 0 && p.Pop() == 0
    requires 1 <= ox && ox + Size(r.Level()) + 1 <= Size(p.Level())
    requires 1 <= oy && oy + Size(r.Level()) + 1 <= Size(p.Level())
    ensures IsStep(r, p, ox, oy)
  {
    forall x, y ensures StepAgrees(r, p, ox, oy, x, y) {
      if InRange(r, x, y) {
        DeadIfEmpty(r, x, y);
        DeadNext(p, x + ox, y + oy);
      }
    }
  }

  /** An unbounded plane of cells, true for a live cell. */
  type Grid = (int, int) -> bool

  /** The plane holding the cells of p from (0, 0), dead elsewhere. */
  ghost function Cells(p: Node): Grid {
    (x: int, y: int) => p.WellFormed() && InRange(p, x, y) && Alive(p, x, y)
  }

  /** Cell (x, y) of g. */
  ghost predicate At(g: Grid, x: int, y: int) {
    g(x, y)
  }

  /** Cell (x, y) of g one generation later. This is NextAlive on a plane
      instead of a node: IsStep, the statement about `successor`, is kept
      on the node's own cells, while the proofs compare the successors of
      overlapping sub-squares, each at its own offset, on one plane.
      NextCells shows the two agree inside a node. */
  ghost predicate NextOf(g: Grid, x: int, y: int) {
    Rule(At(g, x - 1, y - 1), At(g, x, y - 1), At(g, x + 1, y - 1),
         At(g, x - 1, y), At(g, x, y), At(g, x + 1, y),
         At(g, x - 1, y + 1), At(g, x, y + 1), At(g, x + 1, y + 1))
  }

  /** The plane g one generation later. */
  ghost function Next(g: Grid): Grid {
    (x: int, y: int) => NextOf(g, x, y)
  }

  /** q, laid on g with its top-left corner at (ox, oy), shows the cells
      of g it covers: each cell of q is the cell of g it lands on. */
  ghost predicate Shows(q: Node, g: Grid, ox: int, oy: int)
    requires q.WellFormed()
  {
    forall x, y {:trigger CellOf(q, x, y)} :: InRange(q, x, y) ==> CellOf(q, x, y) == At(g, x + ox, y + oy)
  }

  /** Cell (x, y) of q under a name of its own, so that a fact about every
      cell of q is used only where a proof names one of them. */
  ghost predicate CellOf(q: Node, x: int, y: int)
    requires q.WellFormed() && InRange(q, x, y)
  {
    Alive(q, x, y)
  }

  /** The quadrants of a node that shows a layer show it at their own corners. */
  lemma {:induction false} ShowsA(q: Node, g: Grid, ox: int, oy: int, h: nat)
    requires q.WellFormed() && q.Inner? && h == Size(q.a.Level()) && Shows(q, g, ox, oy)
    ensures Shows(q.a, g, ox, oy)
  {
    forall x, y | InRange(q.a, x, y) ensures CellOf(q.a, x, y) == At(g, x + ox, y + oy) {
      CellA(q, h, x, y, x, y);
      assert CellOf(q, x, y) == At(g, x + ox, y + oy);
    }
  }

  lemma {:induction false} ShowsB(q: Node, g: Grid, ox: int, oy: int, h: nat, X: int)
    requires q.WellFormed() && q.Inner? && h == Size(q.a.Level()) && Shows(q, g, ox, oy)
    requires X == ox + h
    ensures Shows(q.b, g, X, oy)
  {
    forall x, y | InRange(q.b, x, y) ensures CellOf(q.b, x, y) == At(g, x + X, y + oy) {
      CellB(q, h, x + h, y, x, y);
      assert CellOf(q, x + h, y) == At(g, (x + h) + ox, y + oy);
      assert (x + h) + ox == x + X;
    }
  }

  lemma {:induction false} ShowsC(q: Node, g: Grid, ox: int, oy: int, h: nat, Y: int)
    requires q.WellFormed() && q.Inner? && h == Size(q.a.Level()) && Shows(q, g, ox, oy)
    requires Y == oy + h
    ensures Shows(q.c, g, ox, Y)
  {
    forall x, y | InRange(q.c, x, y) ensures CellOf(q.c, x, y) == At(g, x + ox, y + Y) {
      CellC(q, h, x, y + h, x, y);
      assert CellOf(q, x, y + h) == At(g, x + ox, (y + h) + oy);
      assert (y + h) + oy == y + Y;
    }
  }

  lemma {:induction false} ShowsD(q: Node, g: Grid, ox: int, oy: int, h: nat, X: int, Y: int)
    requires q.WellFormed() && q.Inner? && h == Size(q.a.Level()) && Shows(q, g, ox, oy)
    requires X == ox + h && Y == oy + h
    ensures Shows(q.d, g, X, Y)
  {
    forall x, y | InRange(q.d, x, y) ensures CellOf(q.d, x, y) == At(g, x + X, y + Y) {
      CellD(q, h, x + h, y + h, x, y);
      assert CellOf(q, x + h, y + h) == At(g, (x + h) + ox, (y + h) + oy);
      assert (x + h) + ox == x + X && (y + h) + oy == y + Y;
    }
  }

  /** A node of level at least 1 that shows a layer is the join of four
      quadrants that show it at their own corners. */
  lemma {:induction false} Split(t: Node, g: Grid, ox: int, oy: int, h: nat, X: int, Y: int)
    returns (a: Node, b: Node, c: Node, d: Node)
    requires t.WellFormed() && t.Level() >= 1 && h == Size(t.Level() - 1) && Shows(t, g, ox, oy)
    requires X == ox + h && Y == oy + h
    ensures a.WellFormed() && b.WellFormed() && c.WellFormed() && d.WellFormed()
    ensures a.Level() == b.Level() == c.Level() == d.Level() == t.Level() - 1
    ensures t == Join(a, b, c, d)
    ensures Shows(a, g, ox, oy) && Shows(b, g, X, oy) && Shows(c, g, ox, Y) && Shows(d, g, X, Y)
  {
    a, b, c, d := t.a, t.b, t.c, t.d;
    ShowsA(t, g, ox, oy, h);
    ShowsB(t, g, ox, oy, h, X);
    ShowsC(t, g, ox, oy, h, Y);
    ShowsD(t, g, ox, oy, h, X, Y);
  }

  /** Four nodes that show a layer side by side join into a node that shows it. */
  lemma {:induction false} JoinShows(a: Node, b: Node, c: Node, d: Node, g: Grid, ox: int, oy: int, h: nat, X: int, Y: int)
    requires a.WellFormed() && b.WellFormed() && c.WellFormed() && d.WellFormed()
    requires a.Level() == b.Level() == c.Level() == d.Level() && h == Size(a.Level())
    requires X == ox + h && Y == oy + h
    requires Shows(a, g, ox, oy) && Shows(b, g, X, oy)
    requires Shows(c, g, ox, Y) && Shows(d, g, X, Y)
    ensures Shows(Join(a, b, c, d), g, ox, oy)
  {
    var p := Join(a, b, c, d);
    forall x, y | InRange(p, x, y) ensures CellOf(p, x, y) == At(g, x + ox, y + oy) {
      if y < h {
        if x < h {
          CellA(p, h, x, y, x, y);
          assert CellOf(a, x, y) == At(g, x + ox, y + oy);
        } else {
          CellB(p, h, x, y, x - h, y);
          assert CellOf(b, x - h, y) == At(g, (x - h) + X, y + oy);
          assert (x - h) + X == x + ox;
        }
      } else {
        if x < h {
          CellC(p, h, x, y, x, y - h);
          assert CellOf(c, x, y - h) == At(g, x + ox, (y - h) + Y);
          assert (y - h) + Y == y + oy;
        } else {
          CellD(p, h, x, y, x - h, y - h);
          assert CellOf(d, x - h, y - h) == At(g, (x - h) + X, (y - h) + Y);
          assert (x - h) + X == x + ox && (y - h) + Y == y + oy;
        }
      }
    }
  }

  /** Every node shows its own cells from the origin. */
  lemma {:induction false} ShowsSelf(p: Node)
    requires p.WellFormed()
    ensures Shows(p, Cells(p), 0, 0)
  {
    forall x, y | InRange(p, x, y) ensures CellOf(p, x, y) == At(Cells(p), x + 0, y + 0) {
      assert x + 0 == x && y + 0 == y;
    }
  }

  /** On the square [lo, hi) x [lo, hi), g1 is g2 moved by (dx, dy). */
  ghost predicate GridsAgree(g1: Grid, g2: Grid, dx: int, dy: int, lo: int, hi: int) {
    forall x, y :: lo <= x < hi && lo <= y < hi ==> At(g1, x, y) == At(g2, x + dx, y + dy)
  }

  /** A node that shows the plane of p at (dx, dy) agrees with p on its whole square. */
  lemma {:induction false} CellsAgree(s: Node, p: Node, dx: int, dy: int)
    requires s.WellFormed() && p.WellFormed() && Shows(s, Cells(p), dx, dy)
    ensures GridsAgree(Cells(s), Cells(p), dx, dy, 0, Size(s.Level()))
  {
    forall x, y | 0 <= x < Size(s.Level()) && 0 <= y < Size(s.Level())
      ensures At(Cells(s), x, y) == At(Cells(p), x + dx, y + dy)
    {
      assert InRange(s, x, y) && CellOf(s, x, y) == At(Cells(p), x + dx, y + dy);
    }
  }

  lemma {:induction false} NextAgreeAt(g1: Grid, g2: Grid, dx: int, dy: int, lo: int, hi: int, x: int, y: int)
    requires GridsAgree(g1, g2, dx, dy, lo, hi)
    requires lo + 1 <= x < hi - 1 && lo + 1 <= y < hi - 1
    ensures At(Next(g1), x, y) == At(Next(g2), x + dx, y + dy)
  {
    assert (x - 1) + dx == (x + dx) - 1 && (x + 1) + dx == (x + dx) + 1;
    assert (y - 1) + dy == (y + dy) - 1 && (y + 1) + dy == (y + dy) + 1;
    assert At(g1, x - 1, y - 1) == At(g2, (x - 1) + dx, (y - 1) + dy);
    assert At(g1, x, y - 1) == At(g2, x + dx, (y - 1) + dy);
    assert At(g1, x + 1, y - 1) == At(g2, (x + 1) + dx, (y - 1) + dy);
    assert At(g1, x - 1, y) == At(g2, (x - 1) + dx, y + dy);
    assert At(g1, x, y) == At(g2, x + dx, y + dy);
    assert At(g1, x + 1, y) == At(g2, (x + 1) + dx, y + dy);
    assert At(g1, x - 1, y + 1) == At(g2, (x - 1) + dx, (y + 1) + dy);
    assert At(g1, x, y + 1) == At(g2, x + dx, (y + 1) + dy);
    assert At(g1, x + 1, y + 1) == At(g2, (x + 1) + dx, (y + 1) + dy);
    assert At(Next(g1), x, y) == NextOf(g1, x, y);
    assert At(Next(g2), x + dx, y + dy) == NextOf(g2, x + dx, y + dy);
  }

  /** Planes that agree on a square agree one generation later on the
      square one cell smaller on every side. */
  lemma {:induction false} NextAgree(g1: Grid, g2: Grid, dx: int, dy: int, lo: int, hi: int)
    requires GridsAgree(g1, g2, dx, dy, lo, hi)
    ensures GridsAgree(Next(g1), Next(g2), dx, dy, lo + 1, hi - 1)
  {
    forall x, y | lo + 1 <= x < hi - 1 && lo + 1 <= y < hi - 1
      ensures At(Next(g1), x, y) == At(Next(g2), x + dx, y + dy)
    {
      NextAgreeAt(g1, g2, dx, dy, lo, hi, x, y);
    }
  }

  /** A node showing g1 shows g2 at the moved corner when the two planes
      agree on its square. */
  lemma {:induction false} ShowsMoved(r: Node, g1: Grid, g2: Grid, ox: int, oy: int, dx: int, dy: int, lo: int, hi: int, X: int, Y: int)
    requires r.WellFormed() && Shows(r, g1, ox, oy) && GridsAgree(g1, g2, dx, dy, lo, hi)
    requires lo <= ox && ox + Size(r.Level()) <= hi && lo <= oy && oy + Size(r.Level()) <= hi
    requires X == ox + dx && Y == oy + dy
    ensures Shows(r, g2, X, Y)
  {
    forall x, y | InRange(r, x, y) ensures CellOf(r, x, y) == At(g2, x + X, y + Y) {
      assert CellOf(r, x, y) == At(g1, x + ox, y + oy);
      assert lo <= x + ox < hi && lo <= y + oy < hi;
      assert At(g1, x + ox, y + oy) == At(g2, (x + ox) + dx, (y + oy) + dy);
      assert (x + ox) + dx == x + X && (y + oy) + dy == y + Y;
    }
  }

  /** Inside p, the next generation of p's plane is the Conway rule on p. */
  lemma {:induction false} NextCells(p: Node, x: int, y: int)
    requires p.WellFormed() && Interior(p, x, y)
    ensures At(Next(Cells(p)), x, y) == NextAlive(p, x, y)
  {
    var g := Cells(p);
    assert At(Next(g), x, y) == NextOf(g, x, y);
    RowCells(p, x, y - 1); RowCells(p, x, y); RowCells(p, x, y + 1);
    RuleOf(g, x, y, Alive(p, x - 1, y - 1), Alive(p, x, y - 1), Alive(p, x + 1, y - 1),
           Alive(p, x - 1, y), Alive(p, x, y), Alive(p, x + 1, y),
           Alive(p, x - 1, y + 1), Alive(p, x, y + 1), Alive(p, x + 1, y + 1));
  }

  /** The three cells of row y around column x of the grid of p's cells
      are p's own cells. */
  lemma RowCells(p: Node, x: int, y: int)
    requires p.WellFormed() && 1 <= x && x + 1 < Size(p.Level()) && 0 <= y < Size(p.Level())
    ensures At(Cells(p), x - 1, y) == Alive(p, x - 1, y)
    ensures At(Cells(p), x, y) == Alive(p, x, y)
    ensures At(Cells(p), x + 1, y) == Alive(p, x + 1, y)
  {
    CellsAt(p, x - 1, y); CellsAt(p, x, y); CellsAt(p, x + 1, y);
  }

  /** The next state of a cell of a grid is the rule on the nine cells
      around it, whatever names they are given. */
  lemma RuleOf(g: Grid, x: int, y: int, nw: bool, n: bool, ne: bool, w: bool, c: bool, e: bool, sw: bool, s: bool, se: bool)
    requires At(g, x - 1, y - 1) == nw && At(g, x, y - 1) == n && At(g, x + 1, y - 1) == ne
    requires At(g, x - 1, y) == w && At(g, x, y) == c && At(g, x + 1, y) == e
    requires At(g, x - 1, y + 1) == sw && At(g, x, y + 1) == s && At(g, x + 1, y + 1) == se
    ensures NextOf(g, x, y) == Rule(nw, n, ne, w, c, e, sw, s, se)
  {
  }

  /** Inside p, p's plane holds p's cells. */
  lemma CellsAt(p: Node, x: int, y: int)
    requires p.WellFormed() && InRange(p, x, y)
    ensures At(Cells(p), x, y) == Alive(p, x, y)
  {
  }

  /** A step of p shows the next generation of p's plane. */
  lemma {:induction false} StepShows(r: Node, p: Node, ox: int, oy: int)
    requires r.WellFormed() && p.WellFormed() && IsStep(r, p, ox, oy)
    ensures Shows(r, Next(Cells(p)), ox, oy)
  {
    forall x, y | InRange(r, x, y) ensures CellOf(r, x, y) == At(Next(Cells(p)), x + ox, y + oy) {
      assert StepAgrees(r, p, ox, oy, x, y);
      StepCell(r, p, ox, oy, x, y);
    }
  }

  /** A node inside p that shows the next generation of p's plane is a step of p. */
  lemma {:induction false} ShowsStep(r: Node, p: Node, ox: int, oy: int)
    requires r.WellFormed() && p.WellFormed() && Shows(r, Next(Cells(p)), ox, oy)
    requires 1 <= ox && ox + Size(r.Level()) + 1 <= Size(p.Level())
    requires 1 <= oy && oy + Size(r.Level()) + 1 <= Size(p.Level())
    ensures IsStep(r, p, ox, oy)
  {
    forall x, y ensures StepAgrees(r, p, ox, oy, x, y) {
      ShowsStepAt(r, p, ox, oy, x, y);
    }
  }

  lemma {:induction false} ShowsStepAt(r: Node, p: Node, ox: int, oy: int, x: int, y: int)
    requires r.WellFormed() && p.WellFormed() && Shows(r, Next(Cells(p)), ox, oy)
    requires 1 <= ox && ox + Size(r.Level()) + 1 <= Size(p.Level())
    requires 1 <= oy && oy + Size(r.Level()) + 1 <= Size(p.Level())
    ensures StepAgrees(r, p, ox, oy, x, y)
  {
    if InRange(r, x, y) {
      assert CellOf(r, x, y) == At(Next(Cells(p)), x + ox, y + oy);
      NextCells(p, x + ox, y + oy);
    }
  }

  /** One cell of a step of p is the cell of the next generation of p's plane. */
  lemma {:induction false} StepCell(r: Node, p: Node, ox: int, oy: int, x: int, y: int)
    requires r.WellFormed() && p.WellFormed() && InRange(r, x, y) && StepAgrees(r, p, ox, oy, x, y)
    ensures Alive(r, x, y) == At(Next(Cells(p)), x + ox, y + oy)
  {
    NextCells(p, x + ox, y + oy);
  }
}
