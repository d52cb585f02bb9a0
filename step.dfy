/** The generation step of the engine (hashlife.c:196-308): `life` on one
    3x3 neighbourhood of cells, `life4x4` on a level-2 node and the
    recursive `successor` that computes the centre of a node one
    generation later. */
module Step {
  import opened Quadtree
  import opened Windows

  /** `life`: the next state of the centre cell c from the populations of
      its eight neighbours; the result is the leaf ON when c is live with
      two neighbours or has three, OFF otherwise. */
  function Life(n1: Node, n2: Node, n3: Node, n4: Node, c: Node, n6: Node, n7: Node, n8: Node, n9: Node): (r: Node)
    requires n1.Leaf? && n2.Leaf? && n3.Leaf? && n4.Leaf? && c.Leaf?
    requires n6.Leaf? && n7.Leaf? && n8.Leaf? && n9.Leaf?
    ensures r.Leaf? && r.WellFormed() && r.Level() == 0
  {
    var nb := n1.Pop() + n2.Pop() + n3.Pop() + n4.Pop() + n6.Pop() + n7.Pop() + n8.Pop() + n9.Pop();
    Leaf((c.Pop() == 1 && nb == 2) || nb == 3)
  }

  /** `life` applies Conway's rule: a live cell survives with two or three
      live neighbours, a dead cell is born with exactly three. */
  lemma LifeRule(n1: Node, n2: Node, n3: Node, n4: Node, c: Node, n6: Node, n7: Node, n8: Node, n9: Node)
    requires n1.Leaf? && n2.Leaf? && n3.Leaf? && n4.Leaf? && c.Leaf?
    requires n6.Leaf? && n7.Leaf? && n8.Leaf? && n9.Leaf?
    ensures Life(n1, n2, n3, n4, c, n6, n7, n8, n9).alive
      == Rule(n1.alive, n2.alive, n3.alive, n4.alive, c.alive, n6.alive, n7.alive, n8.alive, n9.alive)
  {
  }

  /** The guard `life` asserts on the nine levels, as C parses it: `==`
      binds tighter than `^`, so the last operand of the XOR chain is the
      0/1 value of `n9->k == 0`, and the chain is tested for being non-zero. */
  predicate LifeGuardAsWritten(k1: bv16, k2: bv16, k3: bv16, k4: bv16, kc: bv16, k6: bv16, k7: bv16, k8: bv16, k9: bv16) {
    var last: bv16 := if k9 == 0 then 1 else 0;
    (k1 ^ k2 ^ k3 ^ k4 ^ kc ^ k6 ^ k7 ^ k8 ^ last) != 0 && k1 == 0
  }

  /** The guard the comment above it describes: all nine nodes are leaves. */
  predicate LifeGuard(k1: bv16, k2: bv16, k3: bv16, k4: bv16, kc: bv16, k6: bv16, k7: bv16, k8: bv16, k9: bv16) {
    k1 == 0 && k2 == 0 && k3 == 0 && k4 == 0 && kc == 0 && k6 == 0 && k7 == 0 && k8 == 0 && k9 == 0
  }

  /** The guard as written lets every all-leaf call through ... */
  lemma LifeGuardAcceptsLeaves(k1: bv16, k2: bv16, k3: bv16, k4: bv16, kc: bv16, k6: bv16, k7: bv16, k8: bv16, k9: bv16)
    requires LifeGuard(k1, k2, k3, k4, kc, k6, k7, k8, k9)
    ensures LifeGuardAsWritten(k1, k2, k3, k4, kc, k6, k7, k8, k9)
  {
  }

  /** ... but also a call whose second and third neighbours are level-1 nodes. */
  lemma LifeGuardAdmitsLevelOne()
    ensures LifeGuardAsWritten(0, 1, 1, 0, 0, 0, 0, 0, 0)
    ensures !LifeGuard(0, 1, 1, 0, 0, 0, 0, 0, 0)
  {
  }

  /** `life4x4`: the centre 2x2 square of a level-2 node one generation
      later, as a level-1 node. */
  function Life4x4(p: Node): (r: Node)
    requires p.WellFormed() && p.Level() == 2
    ensures r.WellFormed() && r.Level() == 1
  {
    LevelTwoShape(p);
    var ad := Life(p.a.a, p.a.b, p.b.a, p.a.c, p.a.d, p.b.c, p.c.a, p.c.b, p.d.a);
    var bc := Life(p.a.b, p.b.a, p.b.b, p.a.d, p.b.c, p.b.d, p.c.b, p.d.a, p.d.b);
    var cb := Life(p.a.c, p.a.d, p.b.c, p.c.a, p.c.b, p.d.a, p.c.c, p.c.d, p.d.c);
    var da := Life(p.a.d, p.b.c, p.b.d, p.c.b, p.d.a, p.d.b, p.c.d, p.d.c, p.d.d);
    Join(ad, bc, cb, da)
  }

  /** A level-1 node is made of four leaves. */
  lemma {:induction false} LevelOneShape(q: Node)
    requires q.WellFormed() && q.Level() == 1
    ensures q.Inner? && q.a.Leaf? && q.b.Leaf? && q.c.Leaf? && q.d.Leaf?
  {
  }

  /** A level-2 node is made of four level-1 nodes of leaves. */
  lemma {:induction false} LevelTwoShape(p: Node)
    requires p.WellFormed() && p.Level() == 2
    ensures p.Inner? && p.a.WellFormed() && p.b.WellFormed() && p.c.WellFormed() && p.d.WellFormed()
    ensures p.a.Level() == 1 && p.b.Level() == 1 && p.c.Level() == 1 && p.d.Level() == 1
    ensures p.a.Inner? && p.a.a.Leaf? && p.a.b.Leaf? && p.a.c.Leaf? && p.a.d.Leaf?
    ensures p.b.Inner? && p.b.a.Leaf? && p.b.b.Leaf? && p.b.c.Leaf? && p.b.d.Leaf?
    ensures p.c.Inner? && p.c.a.Leaf? && p.c.b.Leaf? && p.c.c.Leaf? && p.c.d.Leaf?
    ensures p.d.Inner? && p.d.a.Leaf? && p.d.b.Leaf? && p.d.c.Leaf? && p.d.d.Leaf?
  {
    LevelOneShape(p.a); LevelOneShape(p.b); LevelOneShape(p.c); LevelOneShape(p.d);
  }

  /** The four cells of a level-1 node. */
  lemma {:induction false} Cells2x2(q: Node)
    requires q.WellFormed() && q.Level() == 1
    ensures q.Inner? && q.a.Leaf? && q.b.Leaf? && q.c.Leaf? && q.d.Leaf?
    ensures InRange(q, 1, 1)
    ensures Alive(q, 0, 0) == q.a.alive && Alive(q, 1, 0) == q.b.alive
    ensures Alive(q, 0, 1) == q.c.alive && Alive(q, 1, 1) == q.d.alive
  {
    LevelOneShape(q);
  }

  /** The sixteen cells of a level-2 node, each the leaf it is made of. */
  lemma {:induction false} Cells4x4(p: Node)
    requires p.WellFormed() && p.Level() == 2
    ensures p.Inner? && p.a.Inner? && p.b.Inner? && p.c.Inner? && p.d.Inner?
    ensures p.a.a.Leaf? && p.a.b.Leaf? && p.a.c.Leaf? && p.a.d.Leaf?
    ensures p.b.a.Leaf? && p.b.b.Leaf? && p.b.c.Leaf? && p.b.d.Leaf?
    ensures p.c.a.Leaf? && p.c.b.Leaf? && p.c.c.Leaf? && p.c.d.Leaf?
    ensures p.d.a.Leaf? && p.d.b.Leaf? && p.d.c.Leaf? && p.d.d.Leaf?
    ensures InRange(p, 3, 3)
    ensures Alive(p, 0, 0) == p.a.a.alive && Alive(p, 1, 0) == p.a.b.alive
    ensures Alive(p, 2, 0) == p.b.a.alive && Alive(p, 3, 0) == p.b.b.alive
    ensures Alive(p, 0, 1) == p.a.c.alive && Alive(p, 1, 1) == p.a.d.alive
    ensures Alive(p, 2, 1) == p.b.c.alive && Alive(p, 3, 1) == p.b.d.alive
    ensures Alive(p, 0, 2) == p.c.a.alive && Alive(p, 1, 2) == p.c.b.alive
    ensures Alive(p, 2, 2) == p.d.a.alive && Alive(p, 3, 2) == p.d.b.alive
    ensures Alive(p, 0, 3) == p.c.c.alive && Alive(p, 1, 3) == p.c.d.alive
    ensures Alive(p, 2, 3) == p.d.c.alive && Alive(p, 3, 3) == p.d.d.alive
  {
    LevelTwoShape(p);
    Cells2x2(p.a); Cells2x2(p.b); Cells2x2(p.c); Cells2x2(p.d);
    CellA(p, 2, 0, 0, 0, 0); CellA(p, 2, 1, 0, 1, 0); CellA(p, 2, 0, 1, 0, 1); CellA(p, 2, 1, 1, 1, 1);
    CellB(p, 2, 2, 0, 0, 0); CellB(p, 2, 3, 0, 1, 0); CellB(p, 2, 2, 1, 0, 1); CellB(p, 2, 3, 1, 1, 1);
    CellC(p, 2, 0, 2, 0, 0); CellC(p, 2, 1, 2, 1, 0); CellC(p, 2, 0, 3, 0, 1); CellC(p, 2, 1, 3, 1, 1);
    CellD(p, 2, 2, 2, 0, 0); CellD(p, 2, 3, 2, 1, 0); CellD(p, 2, 2, 3, 0, 1); CellD(p, 2, 3, 3, 1, 1);
  }

  /** `life` on the nine cells around (x, y) gives that cell's next state. */
  lemma {:induction false} LifeOfNeighbourhood(p: Node, x: int, y: int,
                                               n1: Node, n2: Node, n3: Node, n4: Node, c: Node,
                                               n6: Node, n7: Node, n8: Node, n9: Node)
    requires p.WellFormed() && Interior(p, x, y)
    requires n1.Leaf? && n2.Leaf? && n3.Leaf? && n4.Leaf? && c.Leaf?
    requires n6.Leaf? && n7.Leaf? && n8.Leaf? && n9.Leaf?
    requires Alive(p, x - 1, y - 1) == n1.alive && Alive(p, x, y - 1) == n2.alive
    requires Alive(p, x + 1, y - 1) == n3.alive && Alive(p, x - 1, y) == n4.alive
    requires Alive(p, x, y) == c.alive && Alive(p, x + 1, y) == n6.alive
    requires Alive(p, x - 1, y + 1) == n7.alive && Alive(p, x, y + 1) == n8.alive
    requires Alive(p, x + 1, y + 1) == n9.alive
    ensures NextAlive(p, x, y) == Life(n1, n2, n3, n4, c, n6, n7, n8, n9).alive
  {
    LifeRule(n1, n2, n3, n4, c, n6, n7, n8, n9);
  }

  /** The four cells `life4x4` computes, each one generation after the
      cell at offset (1, 1) from it. */
  lemma {:induction false} Life4x4TopLeft(p: Node)
    requires p.WellFormed() && p.Level() == 2
    ensures StepAgrees(Life4x4(p), p, 1, 1, 0, 0)
  {
    Cells4x4(p);
    Cells2x2(Life4x4(p));
    LifeOfNeighbourhood(p, 1, 1, p.a.a, p.a.b, p.b.a, p.a.c, p.a.d, p.b.c, p.c.a, p.c.b, p.d.a);
  }

  lemma {:induction false} Life4x4TopRight(p: Node)
    requires p.WellFormed() && p.Level() == 2
    ensures StepAgrees(Life4x4(p), p, 1, 1, 1, 0)
  {
    Cells4x4(p);
    Cells2x2(Life4x4(p));
    LifeOfNeighbourhood(p, 2, 1, p.a.b, p.b.a, p.b.b, p.a.d, p.b.c, p.b.d, p.c.b, p.d.a, p.d.b);
  }

  lemma {:induction false} Life4x4BottomLeft(p: Node)
    requires p.WellFormed() && p.Level() == 2
    ensures StepAgrees(Life4x4(p), p, 1, 1, 0, 1)
  {
    Cells4x4(p);
    Cells2x2(Life4x4(p));
    LifeOfNeighbourhood(p, 1, 2, p.a.c, p.a.d, p.b.c, p.c.a, p.c.b, p.d.a, p.c.c, p.c.d, p.d.c);
  }

  lemma {:induction false} Life4x4BottomRight(p: Node)
    requires p.WellFormed() && p.Level() == 2
    ensures StepAgrees(Life4x4(p), p, 1, 1, 1, 1)
  {
    Cells4x4(p);
    Cells2x2(Life4x4(p));
    LifeOfNeighbourhood(p, 2, 2, p.a.d, p.b.c, p.b.d, p.c.b, p.d.a, p.d.b, p.c.d, p.d.c, p.d.d);
  }

  /** `life4x4` computes the centre 2x2 square one generation later. */
  lemma {:induction false} Life4x4Step(p: Node)
    requires p.WellFormed() && p.Level() == 2
    ensures IsStep(Life4x4(p), p, 1, 1)
  {
    var r := Life4x4(p);
    Life4x4TopLeft(p);
    Life4x4TopRight(p);
    Life4x4BottomLeft(p);
    Life4x4BottomRight(p);
    forall x, y ensures StepAgrees(r, p, 1, 1, x, y) {
      if InRange(r, x, y) {
        assert x == 0 || x == 1;
        assert y == 0 || y == 1;
      }
    }
  }

  /** p has sixteen well-formed grandchildren, all of level p.Level() - 2. */
  ghost predicate HasGrandchildren(p: Node) {
    && p.Inner? && p.a.Inner? && p.b.Inner? && p.c.Inner? && p.d.Inner?
    && p.a.a.WellFormed() && p.a.b.WellFormed() && p.a.c.WellFormed() && p.a.d.WellFormed()
    && p.b.a.WellFormed() && p.b.b.WellFormed() && p.b.c.WellFormed() && p.b.d.WellFormed()
    && p.c.a.WellFormed() && p.c.b.WellFormed() && p.c.c.WellFormed() && p.c.d.WellFormed()
    && p.d.a.WellFormed() && p.d.b.WellFormed() && p.d.c.WellFormed() && p.d.d.WellFormed()
    && p.a.a.Level() == p.a.b.Level() == p.a.c.Level() == p.a.d.Level() == p.Level() - 2
    && p.b.a.Level() == p.b.b.Level() == p.b.c.Level() == p.b.d.Level() == p.Level() - 2
    && p.c.a.Level() == p.c.b.Level() == p.c.c.Level() == p.c.d.Level() == p.Level() - 2
    && p.d.a.Level() == p.d.b.Level() == p.d.c.Level() == p.d.d.Level() == p.Level() - 2
  }

  /** A node of level k >= 2 has sixteen well-formed grandchildren of level k - 2. */
  lemma {:induction false} Grandchildren(p: Node)
    requires p.WellFormed() && p.Level() >= 2
    ensures HasGrandchildren(p)
    ensures p.a.WellFormed() && p.b.WellFormed() && p.c.WellFormed() && p.d.WellFormed()
    ensures p.a.Level() == p.b.Level() == p.c.Level() == p.d.Level() == p.Level() - 1
  {
  }

  /** `successor`: the centre half of p one generation later. An empty
      node gives its (empty) first quadrant, a node with live cells goes
      to LiveSuccessor. The argument j is not used by the code (the branch
      that would use it is commented out), so every level advances by one
      generation. */
  function Successor(p: Node, j: int): (r: Node)
    requires p.WellFormed() && p.Level() >= 2
    ensures r.WellFormed() && r.Level() == p.Level() - 1
    decreases p.Level(), 1
  {
    if p.Pop() == 0 then p.a else LiveSuccessor(p, j)
  }

  /** `successor` on a node with live cells: a level-2 node goes to
      `life4x4`; a larger node is covered by nine overlapping sub-squares
      of half its size, and the centres of their successors are
      re-assembled into the centre half of p. */
  function LiveSuccessor(p: Node, j: int): (r: Node)
    requires p.WellFormed() && p.Level() >= 2
    ensures r.WellFormed() && r.Level() == p.Level() - 1
    decreases p.Level(), 0
  {
    if p.Level() == 2 then Life4x4(p)
    else
      Grandchildren(p);
      var c1 := Successor(Join(p.a.a, p.a.b, p.a.c, p.a.d), j);
      var c2 := Successor(Join(p.a.b, p.b.a, p.a.d, p.b.c), j);
      var c3 := Successor(Join(p.b.a, p.b.b, p.b.c, p.b.d), j);
      var c4 := Successor(Join(p.a.c, p.a.d, p.c.a, p.c.b), j);
      var c5 := Successor(Join(p.a.d, p.b.c, p.c.b, p.d.a), j);
      var c6 := Successor(Join(p.b.c, p.b.d, p.d.a, p.d.b), j);
      var c7 := Successor(Join(p.c.a, p.c.b, p.c.c, p.c.d), j);
      var c8 := Successor(Join(p.c.b, p.d.a, p.c.d, p.d.c), j);
      var c9 := Successor(Join(p.d.a, p.d.b, p.d.c, p.d.d), j);
      Join(Join(c1.d, c2.c, c4.b, c5.a),
           Join(c2.d, c3.c, c5.b, c6.a),
           Join(c4.d, c5.c, c7.b, c8.a),
           Join(c5.d, c6.c, c8.b, c9.a))
  }

  /** `successor` shows the next generation of p's plane on the centre
      half of p, at offset g, a quarter of p's side. */
  lemma {:induction false} SuccessorShows(p: Node, j: int, g: nat)
    requires p.WellFormed() && p.Level() >= 2 && g == Size(p.Level() - 2)
    ensures Shows(Successor(p, j), Next(Cells(p)), g, g)
    decreases p.Level(), 2
  {
    var k := p.Level();
    if p.Pop() == 0 {
      assert Size(k) == g + g + g + g && Size(p.a.Level()) == g + g;
      DeadStep(p.a, p, g, g);
      StepShows(p.a, p, g, g);
    } else {
      LiveSuccessorShows(p, j, g);
    }
  }

  /** LiveSuccessor shows the next generation of p's plane at offset g. */
  lemma {:induction false} LiveSuccessorShows(p: Node, j: int, g: nat)
    requires p.WellFormed() && p.Level() >= 2 && g == Size(p.Level() - 2)
    ensures Shows(LiveSuccessor(p, j), Next(Cells(p)), g, g)
    decreases p.Level(), 1
  {
    if p.Level() == 2 {
      Life4x4Step(p);
      StepShows(Life4x4(p), p, 1, 1);
    } else {
      NineShows(p, j, g);
    }
  }

  /** The nine sub-square successors LiveSuccessor re-assembles show the
      next generation of p's plane at offset g. */
  lemma {:induction false} NineShows(p: Node, j: int, g: nat)
    requires p.WellFormed() && p.Level() >= 3 && g == Size(p.Level() - 2)
    ensures Shows(LiveSuccessor(p, j), Next(Cells(p)), g, g)
    decreases p.Level(), 0
  {
    var N := Next(Cells(p));
    var q := Size(p.Level() - 3);
    assert g == q + q;
    var G2 := g + g;
    var G3 := G2 + g;
    ShowsSelf(p);
    var a, b, c, d := Split(p, Cells(p), 0, 0, G2, G2, G2);
    var aa, ab, ac, ad := Split(a, Cells(p), 0, 0, g, g, g);
    var ba, bb, bc, bd := Split(b, Cells(p), G2, 0, g, G3, g);
    var ca, cb, cc, cd := Split(c, Cells(p), 0, G2, g, g, G3);
    var da, db, dc, dd := Split(d, Cells(p), G2, G2, g, G3, G3);
    var u1, u2 := g + q, G2 + q;
    var c1 := SubStep(aa, ab, ac, ad, p, j, g, q, 0, 0, g, g, q, q);
    var c2 := SubStep(ab, ba, ad, bc, p, j, g, q, g, 0, G2, g, u1, q);
    var c3 := SubStep(ba, bb, bc, bd, p, j, g, q, G2, 0, G3, g, u2, q);
    var c4 := SubStep(ac, ad, ca, cb, p, j, g, q, 0, g, g, G2, q, u1);
    var c5 := SubStep(ad, bc, cb, da, p, j, g, q, g, g, G2, G2, u1, u1);
    var c6 := SubStep(bc, bd, da, db, p, j, g, q, G2, g, G3, G2, u2, u1);
    var c7 := SubStep(ca, cb, cc, cd, p, j, g, q, 0, G2, g, G3, q, u2);
    var c8 := SubStep(cb, da, cd, dc, p, j, g, q, g, G2, G2, G3, u1, u2);
    var c9 := SubStep(da, db, dc, dd, p, j, g, q, G2, G2, G3, G3, u2, u2);
    AssembleShows(c1, c2, c3, c4, c5, c6, c7, c8, c9, N, q, g, q, u1, u2, g, G2);
  }

  /** The successor of the sub-square joined from four grandchildren that
      show p's plane from (wx, wy) shows p's next generation from (ox, oy),
      a quarter of the sub-square's side further in. */
  lemma {:induction false} SubStep(g1: Node, g2: Node, g3: Node, g4: Node, p: Node, j: int, g: nat, q: nat,
                                   wx: int, wy: int, X: int, Y: int, ox: int, oy: int)
    returns (c: Node)
    requires g1.WellFormed() && g2.WellFormed() && g3.WellFormed() && g4.WellFormed() && p.WellFormed()
    requires g1.Level() == g2.Level() == g3.Level() == g4.Level() >= 1
    requires g == Size(g1.Level()) && q == Size(g1.Level() - 1) && X == wx + g && Y == wy + g
    requires ox == wx + q && oy == wy + q
    requires Shows(g1, Cells(p), wx, wy) && Shows(g2, Cells(p), X, wy)
    requires Shows(g3, Cells(p), wx, Y) && Shows(g4, Cells(p), X, Y)
    ensures c == Successor(Join(g1, g2, g3, g4), j)
    ensures c.WellFormed() && c.Level() == g1.Level() && Shows(c, Next(Cells(p)), ox, oy)
    decreases g1.Level() + 1, 4
  {
    JoinShows(g1, g2, g3, g4, Cells(p), wx, wy, g, X, Y);
    SubShows(Join(g1, g2, g3, g4), p, j, q, wx, wy, ox, oy);
    c := Successor(Join(g1, g2, g3, g4), j);
  }

  /** The inner corners of four squares two quadrants apart, each showing
      a layer of G, form a square that shows it, centred between them. */
  lemma {:induction false} CrossShows(tl: Node, tr: Node, bl: Node, br: Node, G: Grid,
                                      x0: int, y0: int, x1: int, y1: int, q: nat, X: int, Y: int)
    requires tl.WellFormed() && tr.WellFormed() && bl.WellFormed() && br.WellFormed()
    requires tl.Level() == tr.Level() == bl.Level() == br.Level() >= 1
    requires q == Size(tl.Level() - 1) && X == x0 + q && Y == y0 + q && x1 == X + q && y1 == Y + q
    requires Shows(tl, G, x0, y0) && Shows(tr, G, x1, y0)
    requires Shows(bl, G, x0, y1) && Shows(br, G, x1, y1)
    ensures tl.Inner? && tr.Inner? && bl.Inner? && br.Inner?
    ensures tl.d.WellFormed() && tr.c.WellFormed() && bl.b.WellFormed() && br.a.WellFormed()
    ensures tl.d.Level() == tr.c.Level() == bl.b.Level() == br.a.Level() == tl.Level() - 1
    ensures Shows(Join(tl.d, tr.c, bl.b, br.a), G, X, Y)
  {
    var _, _, _, d1 := Split(tl, G, x0, y0, q, X, Y);
    var X1, Y1 := x1 + q, y1 + q;
    var _, _, c2, _ := Split(tr, G, x1, y0, q, X1, Y);
    var _, b3, _, _ := Split(bl, G, x0, y1, q, X, Y1);
    var a4, _, _, _ := Split(br, G, x1, y1, q, X1, Y1);
    JoinShows(d1, c2, b3, a4, G, X, Y, q, x1, y1);
  }

  /** Nine squares on a 3x3 grid of step 2q, each showing a layer of G,
      re-assemble as `successor` does into one square of twice their size
      that shows it, centred on the grid. */
  lemma {:induction false} AssembleShows(c1: Node, c2: Node, c3: Node, c4: Node, c5: Node,
                                         c6: Node, c7: Node, c8: Node, c9: Node, G: Grid,
                                         q: nat, g: nat, u0: int, u1: int, u2: int, v1: int, v2: int)
    requires c1.WellFormed() && c2.WellFormed() && c3.WellFormed() && c4.WellFormed() && c5.WellFormed()
    requires c6.WellFormed() && c7.WellFormed() && c8.WellFormed() && c9.WellFormed()
    requires c1.Level() == c2.Level() == c3.Level() == c4.Level() == c5.Level() >= 1
    requires c5.Level() == c6.Level() == c7.Level() == c8.Level() == c9.Level()
    requires g == Size(c1.Level()) && q == Size(c1.Level() - 1)
    requires v1 == u0 + q && u1 == v1 + q && v2 == u1 + q && u2 == v2 + q && v2 == v1 + g
    requires Shows(c1, G, u0, u0) && Shows(c2, G, u1, u0) && Shows(c3, G, u2, u0)
    requires Shows(c4, G, u0, u1) && Shows(c5, G, u1, u1) && Shows(c6, G, u2, u1)
    requires Shows(c7, G, u0, u2) && Shows(c8, G, u1, u2) && Shows(c9, G, u2, u2)
    ensures c1.Inner? && c2.Inner? && c3.Inner? && c4.Inner? && c5.Inner?
    ensures c6.Inner? && c7.Inner? && c8.Inner? && c9.Inner?
    ensures Shows(Join(Join(c1.d, c2.c, c4.b, c5.a),
                       Join(c2.d, c3.c, c5.b, c6.a),
                       Join(c4.d, c5.c, c7.b, c8.a),
                       Join(c5.d, c6.c, c8.b, c9.a)), G, v1, v1)
  {
    CrossShows(c1, c2, c4, c5, G, u0, u0, u1, u1, q, v1, v1);
    CrossShows(c2, c3, c5, c6, G, u1, u0, u2, u1, q, v2, v1);
    CrossShows(c4, c5, c7, c8, G, u0, u1, u1, u2, q, v1, v2);
    CrossShows(c5, c6, c8, c9, G, u1, u1, u2, u2, q, v2, v2);
    JoinShows(Join(c1.d, c2.c, c4.b, c5.a), Join(c2.d, c3.c, c5.b, c6.a),
              Join(c4.d, c5.c, c7.b, c8.a), Join(c5.d, c6.c, c8.b, c9.a), G, v1, v1, g, v2, v2);
  }

  /** The successor of a sub-square s showing p's plane at (wx, wy) shows
      p's next generation a quarter of s's side further in: inside s, one
      cell away from its border, s and p have the same next generation. */
  lemma {:induction false} SubShows(s: Node, p: Node, j: int, q: nat, wx: int, wy: int, ox: int, oy: int)
    requires s.WellFormed() && p.WellFormed() && s.Level() >= 2 && q == Size(s.Level() - 2)
    requires Shows(s, Cells(p), wx, wy) && ox == q + wx && oy == q + wy
    ensures Shows(Successor(s, j), Next(Cells(p)), ox, oy)
    decreases s.Level(), 3
  {
    SuccessorShows(s, j, q);
    CellsAgree(s, p, wx, wy);
    assert Size(s.Level()) == q + q + q + q;
    NextAgree(Cells(s), Cells(p), wx, wy, 0, q + q + q + q);
    ShowsMoved(Successor(s, j), Next(Cells(s)), Next(Cells(p)), q, q, wx, wy, 1, q + q + q + q - 1, ox, oy);
  }

  /** `successor` is correct: its result is the centre half of p, at offset
      g, a quarter of p's side, one generation later. */
  lemma {:induction false} SuccessorStep(p: Node, j: int, g: nat)
    requires p.WellFormed() && p.Level() >= 2 && g == Size(p.Level() - 2)
    ensures IsStep(Successor(p, j), p, g, g)
  {
    SuccessorShows(p, j, g);
    assert Size(p.Level()) == g + g + g + g && Size(p.Level() - 1) == g + g;
    ShowsStep(Successor(p, j), p, g, g);
  }
}
