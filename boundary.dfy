/** Boundary management of hashlife.c: `is_padded`, `inner`, `crop`,
    `centre` and `pad`, which grow a node with empty margins before it
    is stepped and shrink it again afterwards, without moving or changing
    the pattern it holds. */
module Boundary {
  import opened Quadtree
  import opened Windows
  import opened Step
  import NodeStore

  /** Every live cell of q lies in the box [x0, x1) x [y0, y1) of q's coordinates. */
  ghost predicate Confined(q: Node, x0: int, x1: int, y0: int, y1: int)
    requires q.WellFormed()
  {
    forall x, y {:trigger CellOf(q, x, y)} :: InRange(q, x, y) && CellOf(q, x, y) ==> x0 <= x < x1 && y0 <= y < y1
  }

  /** r, with its top-left corner at (o, o) of the plane g, holds the whole
      of g: it shows the cells it covers and no live cell lies outside it. */
  ghost predicate Holds(r: Node, g: Grid, o: int)
    requires r.WellFormed()
  {
    && Shows(r, g, o, o)
    && forall x, y {:trigger At(g, x, y)} :: At(g, x, y) ==> InRange(r, x - o, y - o)
  }

  /** A confined node has confined quadrants, each box seen from the quadrant's corner. */
  lemma {:induction false} ConfinedQuadrants(t: Node, h: nat, x0: int, x1: int, y0: int, y1: int,
                                             X0: int, X1: int, Y0: int, Y1: int)
    requires t.WellFormed() && t.Inner? && h == Size(t.Level() - 1)
    requires X0 == x0 - h && X1 == x1 - h && Y0 == y0 - h && Y1 == y1 - h
    requires Confined(t, x0, x1, y0, y1)
    ensures Confined(t.a, x0, x1, y0, y1) && Confined(t.b, X0, X1, y0, y1)
    ensures Confined(t.c, x0, x1, Y0, Y1) && Confined(t.d, X0, X1, Y0, Y1)
  {
    forall x, y | InRange(t.a, x, y) && CellOf(t.a, x, y) ensures x0 <= x < x1 && y0 <= y < y1 {
      CellA(t, h, x, y, x, y);
      assert CellOf(t, x, y);
    }
    forall x, y | InRange(t.b, x, y) && CellOf(t.b, x, y) ensures X0 <= x < X1 && y0 <= y < y1 {
      var X := x + h;
      CellB(t, h, X, y, x, y);
      assert CellOf(t, X, y);
    }
    forall x, y | InRange(t.c, x, y) && CellOf(t.c, x, y) ensures x0 <= x < x1 && Y0 <= y < Y1 {
      var Y := y + h;
      CellC(t, h, x, Y, x, y);
      assert CellOf(t, x, Y);
    }
    forall x, y | InRange(t.d, x, y) && CellOf(t.d, x, y) ensures X0 <= x < X1 && Y0 <= y < Y1 {
      var X, Y := x + h, y + h;
      CellD(t, h, X, Y, x, y);
      assert CellOf(t, X, Y);
    }
  }

  /** A node whose quadrants are confined is confined. */
  lemma {:induction false} QuadrantsConfined(t: Node, h: nat, x0: int, x1: int, y0: int, y1: int,
                                             X0: int, X1: int, Y0: int, Y1: int)
    requires t.WellFormed() && t.Inner? && h == Size(t.Level() - 1)
    requires X0 == x0 - h && X1 == x1 - h && Y0 == y0 - h && Y1 == y1 - h
    requires Confined(t.a, x0, x1, y0, y1) && Confined(t.b, X0, X1, y0, y1)
    requires Confined(t.c, x0, x1, Y0, Y1) && Confined(t.d, X0, X1, Y0, Y1)
    ensures Confined(t, x0, x1, y0, y1)
  {
    forall x, y | InRange(t, x, y) && CellOf(t, x, y) ensures x0 <= x < x1 && y0 <= y < y1 {
      if y < h {
        if x < h {
          CellA(t, h, x, y, x, y);
          assert CellOf(t.a, x, y);
        } else {
          var X := x - h;
          CellB(t, h, x, y, X, y);
          assert CellOf(t.b, X, y);
        }
      } else {
        var Y := y - h;
        if x < h {
          CellC(t, h, x, y, x, Y);
          assert CellOf(t.c, x, Y);
        } else {
          var X := x - h;
          CellD(t, h, x, y, X, Y);
          assert CellOf(t.d, X, Y);
        }
      }
    }
  }

  /** A node is confined to a box exactly when each quadrant is confined
      to the same box, seen from the quadrant's own corner. */
  lemma {:induction false} QuadConfined(t: Node, h: nat, x0: int, x1: int, y0: int, y1: int,
                                        X0: int, X1: int, Y0: int, Y1: int)
    requires t.WellFormed() && t.Inner? && h == Size(t.Level() - 1)
    requires X0 == x0 - h && X1 == x1 - h && Y0 == y0 - h && Y1 == y1 - h
    ensures Confined(t, x0, x1, y0, y1) <==>
              Confined(t.a, x0, x1, y0, y1) && Confined(t.b, X0, X1, y0, y1) &&
              Confined(t.c, x0, x1, Y0, Y1) && Confined(t.d, X0, X1, Y0, Y1)
  {
    if Confined(t, x0, x1, y0, y1) {
      ConfinedQuadrants(t, h, x0, x1, y0, y1, X0, X1, Y0, Y1);
    }
    if Confined(t.a, x0, x1, y0, y1) && Confined(t.b, X0, X1, y0, y1) &&
       Confined(t.c, x0, x1, Y0, Y1) && Confined(t.d, X0, X1, Y0, Y1) {
      QuadrantsConfined(t, h, x0, x1, y0, y1, X0, X1, Y0, Y1);
    }
  }

  /** A node is confined to a box that misses its square exactly when it is empty. */
  lemma {:induction false} EmptyConfined(q: Node, x0: int, x1: int, y0: int, y1: int)
    requires q.WellFormed()
    requires x1 <= 0 || Size(q.Level()) <= x0 || y1 <= 0 || Size(q.Level()) <= y0
    ensures Confined(q, x0, x1, y0, y1) <==> q.Pop() == 0
  {
    if q.Pop() == 0 {
      forall x, y | InRange(q, x, y) ensures !CellOf(q, x, y) {
        DeadIfEmpty(q, x, y);
      }
    } else {
      var x, y := SomeLiveCell(q);
      assert CellOf(q, x, y);
    }
  }

  /** Every node is confined to a box that covers its square. */
  lemma CoverConfined(q: Node, x0: int, x1: int, y0: int, y1: int)
    requires q.WellFormed()
    requires x0 <= 0 && Size(q.Level()) <= x1 && y0 <= 0 && Size(q.Level()) <= y1
    ensures Confined(q, x0, x1, y0, y1)
  {
  }

  /** The populations of a node's sixteen grandchildren add up to its own. */
  lemma {:induction false} GrandchildPops(p: Node)
    requires p.WellFormed() && p.Level() >= 2
    ensures HasGrandchildren(p)
    ensures p.a.Pop() == p.a.a.Pop() + p.a.b.Pop() + p.a.c.Pop() + p.a.d.Pop()
    ensures p.b.Pop() == p.b.a.Pop() + p.b.b.Pop() + p.b.c.Pop() + p.b.d.Pop()
    ensures p.c.Pop() == p.c.a.Pop() + p.c.b.Pop() + p.c.c.Pop() + p.c.d.Pop()
    ensures p.d.Pop() == p.d.a.Pop() + p.d.b.Pop() + p.d.c.Pop() + p.d.d.Pop()
    ensures p.Pop() == p.a.Pop() + p.b.Pop() + p.c.Pop() + p.d.Pop()
  {
    Grandchildren(p);
  }

  /** `is_padded`: a node of level 3 or more whose every quadrant has all
      its population in the grandchild at the centre of p. */
  predicate IsPadded(p: Node)
    requires p.WellFormed()
  {
    p.Level() >= 3 &&
    (GrandchildPops(p); GrandchildPops(p.a); GrandchildPops(p.b); GrandchildPops(p.c); GrandchildPops(p.d);
     p.a.Pop() == p.a.d.d.Pop() && p.b.Pop() == p.b.c.c.Pop() &&
     p.c.Pop() == p.c.b.b.Pop() && p.d.Pop() == p.d.a.a.Pop())
  }

  /** The top-left quadrant a of a padded node (of side 4e) is confined to
      the central square of the node exactly when all its population is
      in a.d.d. */
  lemma {:induction false} QuadrantAPadded(a: Node, e: int)
    requires a.WellFormed() && a.Level() >= 2 && e == Size(a.Level() - 2)
    ensures (GrandchildPops(a); Confined(a, 3 * e, 5 * e, 3 * e, 5 * e) <==> a.Pop() == a.d.d.Pop())
  {
    GrandchildPops(a);
    var h, H := e, e + e;
    QuadConfined(a, H, 3 * e, 5 * e, 3 * e, 5 * e, e, 3 * e, e, 3 * e);
    EmptyConfined(a.a, 3 * e, 5 * e, 3 * e, 5 * e);
    EmptyConfined(a.b, e, 3 * e, 3 * e, 5 * e);
    EmptyConfined(a.c, 3 * e, 5 * e, e, 3 * e);
    QuadConfined(a.d, h, e, 3 * e, e, 3 * e, 0, H, 0, H);
    EmptyConfined(a.d.a, e, 3 * e, e, 3 * e);
    EmptyConfined(a.d.b, 0, H, e, 3 * e);
    EmptyConfined(a.d.c, e, 3 * e, 0, H);
    CoverConfined(a.d.d, 0, H, 0, H);
  }

  /** The top-right quadrant b: its central grandchild is b.c.c. */
  lemma {:induction false} QuadrantBPadded(b: Node, e: int)
    requires b.WellFormed() && b.Level() >= 2 && e == Size(b.Level() - 2)
    ensures (GrandchildPops(b); Confined(b, -e, e, 3 * e, 5 * e) <==> b.Pop() == b.c.c.Pop())
  {
    GrandchildPops(b);
    var h, H := e, e + e;
    QuadConfined(b, H, -e, e, 3 * e, 5 * e, -3 * e, -e, e, 3 * e);
    EmptyConfined(b.a, -e, e, 3 * e, 5 * e);
    EmptyConfined(b.b, -3 * e, -e, 3 * e, 5 * e);
    QuadConfined(b.c, h, -e, e, e, 3 * e, -H, 0, 0, H);
    EmptyConfined(b.d, -3 * e, -e, e, 3 * e);
    EmptyConfined(b.c.a, -e, e, e, 3 * e);
    EmptyConfined(b.c.b, -H, 0, e, 3 * e);
    CoverConfined(b.c.c, -e, e, 0, H);
    EmptyConfined(b.c.d, -H, 0, 0, H);
  }

  /** The bottom-left quadrant c: its central grandchild is c.b.b. */
  lemma {:induction false} QuadrantCPadded(c: Node, e: int)
    requires c.WellFormed() && c.Level() >= 2 && e == Size(c.Level() - 2)
    ensures (GrandchildPops(c); Confined(c, 3 * e, 5 * e, -e, e) <==> c.Pop() == c.b.b.Pop())
  {
    GrandchildPops(c);
    var h, H := e, e + e;
    QuadConfined(c, H, 3 * e, 5 * e, -e, e, e, 3 * e, -3 * e, -e);
    EmptyConfined(c.a, 3 * e, 5 * e, -e, e);
    QuadConfined(c.b, h, e, 3 * e, -e, e, 0, H, -H, 0);
    EmptyConfined(c.c, 3 * e, 5 * e, -3 * e, -e);
    EmptyConfined(c.d, e, 3 * e, -3 * e, -e);
    EmptyConfined(c.b.a, e, 3 * e, -e, e);
    CoverConfined(c.b.b, 0, H, -e, e);
    EmptyConfined(c.b.c, e, 3 * e, -H, 0);
    EmptyConfined(c.b.d, 0, H, -H, 0);
  }

  /** The bottom-right quadrant d: its central grandchild is d.a.a. */
  lemma {:induction false} QuadrantDPadded(d: Node, e: int)
    requires d.WellFormed() && d.Level() >= 2 && e == Size(d.Level() - 2)
    ensures (GrandchildPops(d); Confined(d, -e, e, -e, e) <==> d.Pop() == d.a.a.Pop())
  {
    GrandchildPops(d);
    var h, H := e, e + e;
    QuadConfined(d, H, -e, e, -e, e, -3 * e, -e, -3 * e, -e);
    QuadConfined(d.a, h, -e, e, -e, e, -H, 0, -H, 0);
    EmptyConfined(d.b, -3 * e, -e, -e, e);
    EmptyConfined(d.c, -e, e, -3 * e, -e);
    EmptyConfined(d.d, -3 * e, -e, -3 * e, -e);
    CoverConfined(d.a.a, -e, e, -e, e);
    EmptyConfined(d.a.b, -H, 0, -e, e);
    EmptyConfined(d.a.c, -e, e, -H, 0);
    EmptyConfined(d.a.d, -H, 0, -H, 0);
  }

  /** A node of level k >= 3 is padded exactly when all its live cells lie
      in its central square of side 2^(k-2): the margins around it are empty. */
  lemma {:induction false} PaddedIffCentral(p: Node)
    requires p.WellFormed() && p.Level() >= 3
    ensures var e := Size(p.Level() - 3);
            IsPadded(p) <==> Confined(p, 3 * e, 5 * e, 3 * e, 5 * e)
  {
    var e: int := Size(p.Level() - 3);
    GrandchildPops(p);
    QuadConfined(p, 4 * e, 3 * e, 5 * e, 3 * e, 5 * e, -e, e, -e, e);
    QuadrantAPadded(p.a, e);
    QuadrantBPadded(p.b, e);
    QuadrantCPadded(p.c, e);
    QuadrantDPadded(p.d, e);
  }

  /** `inner`: the central half of p, joined from the innermost grandchildren. */
  function Inner(p: Node): (r: Node)
    requires p.WellFormed() && p.Level() >= 2
    ensures r.WellFormed() && r.Level() == p.Level() - 1
  {
    Grandchildren(p);
    Join(p.a.d, p.b.c, p.c.b, p.d.a)
  }

  /** The inner node is the window of p at a quarter of p's side. */
  lemma {:induction false} InnerShows(p: Node)
    requires p.WellFormed() && p.Level() >= 2
    ensures Shows(Inner(p), Cells(p), Size(p.Level() - 2), Size(p.Level() - 2))
  {
    var s := Size(p.Level() - 2);
    var S, S3 := s + s, s + s + s;
    ShowsSelf(p);
    var a, b, c, d := Split(p, Cells(p), 0, 0, S, S, S);
    var _, _, _, ad := Split(a, Cells(p), 0, 0, s, s, s);
    var _, _, bc, _ := Split(b, Cells(p), S, 0, s, S3, s);
    var _, cb, _, _ := Split(c, Cells(p), 0, S, s, s, S3);
    var da, _, _, _ := Split(d, Cells(p), S, S, s, S3, S3);
    JoinShows(ad, bc, cb, da, Cells(p), s, s, s, S, S);
  }

  /** The inner node of a padded node keeps all its population and holds its whole pattern. */
  lemma {:induction false} InnerHolds(p: Node)
    requires p.WellFormed() && IsPadded(p)
    ensures Inner(p).Pop() == p.Pop()
    ensures Holds(Inner(p), Cells(p), Size(p.Level() - 2))
  {
    var e: int := Size(p.Level() - 3);
    var s: int := Size(p.Level() - 2);
    assert s == e + e;
    GrandchildPops(p);
    InnerShows(p);
    PaddedIffCentral(p);
    forall x, y | At(Cells(p), x, y) ensures InRange(Inner(p), x - s, y - s) {
      assert CellOf(p, x, y);
    }
  }

  /** Every node holds its own pattern. */
  lemma {:induction false} HoldsSelf(p: Node)
    requires p.WellFormed()
    ensures Holds(p, Cells(p), 0)
  {
    ShowsSelf(p);
  }

  /** One cell of the composition below. */
  lemma {:induction false} ComposeCell(r: Node, q: Node, g: Grid, o1: int, o2: int, o: int, x: int, y: int)
    requires r.WellFormed() && q.WellFormed()
    requires Holds(r, Cells(q), o1) && Holds(q, g, o2) && o == o1 + o2
    requires InRange(r, x, y)
    ensures CellOf(r, x, y) == At(g, x + o, y + o)
  {
    var X, Y := x + o1, y + o1;
    var U, V := x + o, y + o;
    assert CellOf(r, x, y) == At(Cells(q), X, Y);
    assert At(g, U, V) ==> InRange(q, U - o2, V - o2);
    if InRange(q, X, Y) {
      assert CellOf(q, X, Y) == At(g, U, V);
    }
  }

  /** One live cell of the composition below. */
  lemma {:induction false} ComposeLive(r: Node, q: Node, g: Grid, o1: int, o2: int, o: int, x: int, y: int)
    requires r.WellFormed() && q.WellFormed()
    requires Holds(r, Cells(q), o1) && Holds(q, g, o2) && o == o1 + o2
    requires At(g, x, y)
    ensures InRange(r, x - o, y - o)
  {
    var X, Y := x - o2, y - o2;
    assert InRange(q, X, Y);
    assert CellOf(q, X, Y) == At(g, x, y);
    assert At(Cells(q), X, Y);
    assert InRange(r, X - o1, Y - o1);
  }

  /** A node holding the pattern of a node that holds g holds g. */
  lemma {:induction false} HoldsCompose(r: Node, q: Node, g: Grid, o1: int, o2: int, o: int)
    requires r.WellFormed() && q.WellFormed()
    requires Holds(r, Cells(q), o1) && Holds(q, g, o2) && o == o1 + o2
    ensures Holds(r, g, o)
  {
    forall x, y | InRange(r, x, y) ensures CellOf(r, x, y) == At(g, x + o, y + o) {
      ComposeCell(r, q, g, o1, o2, o, x, y);
    }
    forall x, y | At(g, x, y) ensures InRange(r, x - o, y - o) {
      ComposeLive(r, q, g, o1, o2, o, x, y);
    }
  }

  /** `crop`: strips empty margins, taking the inner node while the node
      is above level 3 and padded. The result has the population of p, is
      no larger, and is level 3 or below or not padded. */
  function Crop(p: Node): (r: Node)
    requires p.WellFormed()
    ensures r.WellFormed() && r.Level() <= p.Level() && r.Pop() == p.Pop()
    ensures r.Level() <= 3 || !IsPadded(r)
    decreases p.Level()
  {
    if p.Level() <= 3 || !IsPadded(p) then p
    else
      InnerHolds(p);
      Crop(Inner(p))
  }

  /** Where the result of `crop` sits inside p. */
  ghost function CropOffset(p: Node): int
    requires p.WellFormed()
    decreases p.Level()
  {
    if p.Level() <= 3 || !IsPadded(p) then 0 else Size(p.Level() - 2) + CropOffset(Inner(p))
  }

  /** `crop` does not move or change the pattern: its result, at CropOffset(p), holds all of p. */
  lemma {:induction false} CropHolds(p: Node)
    requires p.WellFormed()
    ensures Holds(Crop(p), Cells(p), CropOffset(p))
    decreases p.Level()
  {
    if p.Level() <= 3 || !IsPadded(p) {
      HoldsSelf(p);
    } else {
      InnerHolds(p);
      CropHolds(Inner(p));
      HoldsCompose(Crop(Inner(p)), Inner(p), Cells(p), CropOffset(Inner(p)), Size(p.Level() - 2), CropOffset(p));
    }
  }

  /** `centre`: p, one level up, with its quadrants placed at the inner
      corners of empty quadrants, so that p sits in the middle. The outer
      `join` builds a node from children of p's level, so p must be below
      the level `newnode` refuses. */
  function Centre(p: Node): (r: Node)
    requires p.WellFormed() && 1 <= p.Level() < NodeStore.MaxLevel
    ensures r.WellFormed() && r.Level() == p.Level() + 1 && r.Pop() == p.Pop()
  {
    var z := Zero(p.Level() - 1);
    Join(Join(z, z, z, p.a),
         Join(z, z, p.b, z),
         Join(z, p.c, z, z),
         Join(p.d, z, z, z))
  }

  /** An empty node shows any part of a plane that has no live cell. */
  lemma {:induction false} EmptyShows(z: Node, g: Grid, ox: int, oy: int)
    requires z.WellFormed() && z.Pop() == 0
    requires forall x, y :: InRange(z, x, y) ==> !At(g, x + ox, y + oy)
    ensures Shows(z, g, ox, oy)
  {
    forall x, y | InRange(z, x, y) ensures CellOf(z, x, y) == At(g, x + ox, y + oy) {
      DeadIfEmpty(z, x, y);
    }
  }

  /** An empty node laid outside p's square shows the plane of p. */
  lemma {:induction false} ZeroOutside(z: Node, p: Node, ox: int, oy: int)
    requires z.WellFormed() && z.Pop() == 0 && p.WellFormed()
    requires ox + Size(z.Level()) <= 0 || Size(p.Level()) <= ox || oy + Size(z.Level()) <= 0 || Size(p.Level()) <= oy
    ensures Shows(z, Cells(p), ox, oy)
  {
    EmptyShows(z, Cells(p), ox, oy);
  }

  /** The four quadrants of `centre`'s result, each an empty frame around
      one quadrant of p, show the plane of p from a quarter of the new side
      outside p's corner; s is the side of p's quadrants and m == -s, S == 2s. */
  lemma {:induction false} CentreShowsA(p: Node, z: Node, a: Node, s: int, m: int)
    requires p.WellFormed() && z.WellFormed() && a.WellFormed() && z.Pop() == 0
    requires z.Level() == a.Level() && s == Size(a.Level()) && Size(p.Level()) == s + s && m == -s
    requires Shows(a, Cells(p), 0, 0)
    ensures Shows(Join(z, z, z, a), Cells(p), m, m)
  {
    ZeroOutside(z, p, m, m); ZeroOutside(z, p, 0, m); ZeroOutside(z, p, m, 0);
    JoinShows(z, z, z, a, Cells(p), m, m, s, 0, 0);
  }

  lemma {:induction false} CentreShowsB(p: Node, z: Node, b: Node, s: int, m: int, S: int)
    requires p.WellFormed() && z.WellFormed() && b.WellFormed() && z.Pop() == 0
    requires z.Level() == b.Level() && s == Size(b.Level()) && S == s + s && Size(p.Level()) == S && m == -s
    requires Shows(b, Cells(p), s, 0)
    ensures Shows(Join(z, z, b, z), Cells(p), s, m)
  {
    ZeroOutside(z, p, s, m); ZeroOutside(z, p, S, m); ZeroOutside(z, p, S, 0);
    JoinShows(z, z, b, z, Cells(p), s, m, s, S, 0);
  }

  lemma {:induction false} CentreShowsC(p: Node, z: Node, c: Node, s: int, m: int, S: int)
    requires p.WellFormed() && z.WellFormed() && c.WellFormed() && z.Pop() == 0
    requires z.Level() == c.Level() && s == Size(c.Level()) && S == s + s && Size(p.Level()) == S && m == -s
    requires Shows(c, Cells(p), 0, s)
    ensures Shows(Join(z, c, z, z), Cells(p), m, s)
  {
    ZeroOutside(z, p, m, s); ZeroOutside(z, p, m, S); ZeroOutside(z, p, 0, S);
    JoinShows(z, c, z, z, Cells(p), m, s, s, 0, S);
  }

  lemma {:induction false} CentreShowsD(p: Node, z: Node, d: Node, s: int, S: int)
    requires p.WellFormed() && z.WellFormed() && d.WellFormed() && z.Pop() == 0
    requires z.Level() == d.Level() && s == Size(d.Level()) && S == s + s && Size(p.Level()) == S
    requires Shows(d, Cells(p), s, s)
    ensures Shows(Join(d, z, z, z), Cells(p), s, s)
  {
    ZeroOutside(z, p, S, s); ZeroOutside(z, p, s, S); ZeroOutside(z, p, S, S);
    JoinShows(d, z, z, z, Cells(p), s, s, s, S, S);
  }

  /** `centre` keeps the pattern: p's cells sit a quarter of the new side in. */
  lemma {:induction false} CentreHolds(p: Node)
    requires p.WellFormed() && 1 <= p.Level() < NodeStore.MaxLevel
    ensures Holds(Centre(p), Cells(p), -(Size(p.Level() - 1) as int))
  {
    CentreShows(p);
    CentreContains(p, Centre(p), -(Size(p.Level() - 1) as int));
  }

  /** A node two levels above p's quadrants holds p's cells a quarter of its side in. */
  lemma {:induction false} CentreContains(p: Node, r: Node, o: int)
    requires p.WellFormed() && p.Level() >= 1 && r.Level() == p.Level() + 1 && o == -(Size(p.Level() - 1) as int)
    ensures forall x, y {:trigger At(Cells(p), x, y)} :: At(Cells(p), x, y) ==> InRange(r, x - o, y - o)
  {
    assert Size(r.Level()) == 4 * Size(p.Level() - 1);
    forall x, y | At(Cells(p), x, y) ensures InRange(r, x - o, y - o) {
      assert InRange(p, x, y);
    }
  }

  /** The centred node shows p's plane from a quarter of its side out. */
  lemma {:induction false} CentreShows(p: Node)
    requires p.WellFormed() && 1 <= p.Level() < NodeStore.MaxLevel
    ensures Shows(Centre(p), Cells(p), -(Size(p.Level() - 1) as int), -(Size(p.Level() - 1) as int))
  {
    var s: int := Size(p.Level() - 1);
    var z := Zero(p.Level() - 1);
    var m, S := -s, s + s;
    ShowsSelf(p);
    var a, b, c, d := Split(p, Cells(p), 0, 0, s, s, s);
    CentreShowsA(p, z, a, s, m);
    CentreShowsB(p, z, b, s, m, S);
    CentreShowsC(p, z, c, s, m, S);
    CentreShowsD(p, z, d, s, S);
    JoinShows(Join(z, z, z, a), Join(z, z, b, z), Join(z, c, z, z), Join(d, z, z, z), Cells(p), m, m, S, s, s);
  }

  /** Every quadrant of p has all its population in its innermost child. */
  predicate InnerHeavy(p: Node)
    requires p.WellFormed() && p.Level() >= 2
  {
    Grandchildren(p);
    p.a.Pop() == p.a.d.Pop() && p.b.Pop() == p.b.c.Pop() &&
    p.c.Pop() == p.c.b.Pop() && p.d.Pop() == p.d.a.Pop()
  }

  /** The centred node of p is padded exactly when p is inner-heavy; and
      a centred node is always inner-heavy. */
  lemma {:induction false} CentrePadded(p: Node)
    requires p.WellFormed() && 1 <= p.Level() < NodeStore.MaxLevel
    ensures InnerHeavy(Centre(p))
    ensures p.Level() >= 2 ==> (IsPadded(Centre(p)) <==> InnerHeavy(p))
  {
    var z := Zero(p.Level() - 1);
    CentredPops(Centre(p), z, p.a, p.b, p.c, p.d);
    if p.Level() >= 2 {
      GrandchildPops(p);
    }
  }

  /** The node of quadrants (z, z, z, a), (z, z, b, z), (z, c, z, z),
      (d, z, z, z), z empty, has each quadrant's population in its inner
      child, and is padded exactly when a, b, c and d have all theirs in
      their inner children. */
  lemma {:induction false} CentredPops(r: Node, z: Node, a: Node, b: Node, c: Node, d: Node)
    requires z.WellFormed() && a.WellFormed() && b.WellFormed() && c.WellFormed() && d.WellFormed()
    requires z.Level() == a.Level() == b.Level() == c.Level() == d.Level() && z.Pop() == 0
    requires r == Join(Join(z, z, z, a), Join(z, z, b, z), Join(z, c, z, z), Join(d, z, z, z))
    ensures r.WellFormed() && r.Level() >= 2 && InnerHeavy(r)
    ensures a.Level() >= 1 ==> (IsPadded(r) <==>
              (Grandchildren(r); a.Pop() == a.d.Pop() && b.Pop() == b.c.Pop() && c.Pop() == c.b.Pop() && d.Pop() == d.a.Pop()))
  {
    var A, B, C, D := Join(z, z, z, a), Join(z, z, b, z), Join(z, c, z, z), Join(d, z, z, z);
    assert A.Pop() == a.Pop() && B.Pop() == b.Pop() && C.Pop() == c.Pop() && D.Pop() == d.Pop();
  }

  /** `pad` never centres a node of the level `newnode` refuses: p is
      below level 29, or padded already, or of level 29 and inner-heavy, so
      that one centring makes it padded. */
  predicate PadFits(p: Node)
    requires p.WellFormed()
  {
    p.Level() + 2 <= NodeStore.MaxLevel || IsPadded(p) || (p.Level() + 1 == NodeStore.MaxLevel && InnerHeavy(p))
  }

  /** How far `pad` still has to go: it reaches a padded node above level
      3 in at most two centrings once past level 3. */
  ghost function PadRank(p: Node): nat
    requires p.WellFormed()
  {
    if p.Level() < 3 then 5 - p.Level()
    else if p.Level() > 3 && IsPadded(p) then 0
    else if InnerHeavy(p) then 1
    else 2
  }

  /** One centring step of `pad` stays below the level `newnode` refuses,
      keeps PadFits and brings `pad` closer to its end. */
  lemma {:induction false} CentreFits(p: Node)
    requires p.WellFormed() && p.Level() >= 1 && PadFits(p) && (p.Level() <= 3 || !IsPadded(p))
    ensures p.Level() < NodeStore.MaxLevel
    ensures PadFits(Centre(p)) && PadRank(Centre(p)) < PadRank(p)
  {
    CentrePadded(p);
    RankStep(p, Centre(p));
  }

  /** The facts about a centred node c that CentreFits needs, on c itself. */
  lemma {:induction false} RankStep(p: Node, c: Node)
    requires p.WellFormed() && p.Level() >= 1 && PadFits(p) && (p.Level() <= 3 || !IsPadded(p))
    requires c.WellFormed() && c.Level() == p.Level() + 1 && InnerHeavy(c)
    requires p.Level() >= 2 ==> (IsPadded(c) <==> InnerHeavy(p))
    ensures PadFits(c) && PadRank(c) < PadRank(p)
  {
    if p.Level() >= 3 && InnerHeavy(p) {
      assert IsPadded(c);
    }
  }

  /** `pad`: centres p until it is padded and above level 3. The result
      is padded, above level 3, no smaller than p, and has p's population. */
  function Pad(p: Node): (r: Node)
    requires p.WellFormed() && p.Level() >= 1 && PadFits(p)
    ensures r.WellFormed() && r.Level() > 3 && r.Level() >= p.Level() && IsPadded(r) && r.Pop() == p.Pop()
    decreases PadRank(p)
  {
    if p.Level() <= 3 || !IsPadded(p) then
      CentreFits(p);
      Pad(Centre(p))
    else p
  }

  /** Where the corner of `pad`'s result sits in p's coordinates: up and
      to the left of p's own corner, by a quarter side per centring. */
  ghost function PadCorner(p: Node): int
    requires p.WellFormed() && p.Level() >= 1 && PadFits(p)
    decreases PadRank(p)
  {
    if p.Level() <= 3 || !IsPadded(p) then
      CentreFits(p);
      PadCorner(Centre(p)) - Size(p.Level() - 1)
    else 0
  }

  /** One centring of `pad`: if the result for Centre(p) holds the
      pattern of Centre(p), the result for p holds the pattern of p. */
  lemma {:induction false} PadCentred(p: Node)
    requires p.WellFormed() && p.Level() >= 1 && PadFits(p) && (p.Level() <= 3 || !IsPadded(p))
    requires (CentreFits(p); Holds(Pad(Centre(p)), Cells(Centre(p)), PadCorner(Centre(p))))
    ensures Holds(Pad(p), Cells(p), PadCorner(p))
  {
    CentreFits(p);
    var c := Centre(p);
    var o1, o2, o := PadCorner(c), -(Size(p.Level() - 1) as int), PadCorner(p);
    assert Holds(c, Cells(p), o2) by { CentreHolds(p); }
    HoldsCompose(Pad(c), c, Cells(p), o1, o2, o);
  }

  /** `pad` does not move or change the pattern: its result, with its
      corner at PadCorner(p), holds all of p. */
  lemma {:induction false} PadHolds(p: Node)
    requires p.WellFormed() && p.Level() >= 1 && PadFits(p)
    ensures Holds(Pad(p), Cells(p), PadCorner(p))
    decreases PadRank(p)
  {
    if p.Level() <= 3 || !IsPadded(p) {
      CentreFits(p);
      PadHolds(Centre(p));
      PadCentred(p);
    } else {
      HoldsSelf(p);
    }
  }

  /** Taking the inner node undoes `centre`. */
  lemma {:induction false} InnerOfCentre(p: Node)
    requires p.WellFormed() && 1 <= p.Level() < NodeStore.MaxLevel
    ensures Inner(Centre(p)) == p
  {
    var z := Zero(p.Level() - 1);
    var A, B, C, D := Join(z, z, z, p.a), Join(z, z, p.b, z), Join(z, p.c, z, z), Join(p.d, z, z, z);
    assert Centre(p) == Join(A, B, C, D);
    assert Inner(Join(A, B, C, D)) == Join(p.a, p.b, p.c, p.d);
  }

  /** Where the corner of `crop(pad(p))` sits in p's coordinates. */
  ghost function CropPadCorner(p: Node): int
    requires p.WellFormed() && p.Level() >= 1 && PadFits(p)
  {
    CropOffset(Pad(p)) + PadCorner(p)
  }

  /** Padding and then cropping keeps the pattern: the result, with its
      corner at CropPadCorner(p), holds all of p. */
  lemma {:induction false} CropPadHolds(p: Node)
    requires p.WellFormed() && p.Level() >= 1 && PadFits(p)
    ensures Holds(Crop(Pad(p)), Cells(p), CropPadCorner(p))
  {
    var q := Pad(p);
    PadHolds(p);
    CropHolds(q);
    var o1, o2, o := CropOffset(q), PadCorner(p), CropPadCorner(p);
    HoldsCompose(Crop(q), q, Cells(p), o1, o2, o);
  }

  /** The node of level k whose one live cell is its top-left corner. */
  function CornerCell(k: nat): (r: Node)
    ensures r.WellFormed() && r.Level() == k && r.Pop() == 1
  {
    if k == 0 then ON else var z := Zero(k - 1); Join(CornerCell(k - 1), z, z, z)
  }

  /** `crop(pad(p))` need not be `crop(p)`: for a node of level 4 to 28
      with one live cell in its corner, `crop` leaves it as it is, while
      `pad` centres it twice and `crop` takes back only one of the two
      centrings. */
  lemma CropPadNotCrop(k: nat)
    requires 4 <= k <= 28
    ensures Crop(CornerCell(k)) == CornerCell(k)
    ensures Crop(Pad(CornerCell(k))) == Centre(CornerCell(k))
    ensures Crop(Pad(CornerCell(k))) != Crop(CornerCell(k))
  {
    var p := CornerCell(k);
    CornerUnpadded(k);
    var c := Centre(p);
    CentrePadded(p);
    assert Pad(p) == Pad(c);
    var c2 := Centre(c);
    CentrePadded(c);
    assert Pad(c) == c2;
    InnerOfCentre(c);
    assert Crop(c2) == Crop(c);
  }

  /** The corner cell of a node of level 3 or more lies outside the
      innermost grandchild of its top-left quadrant. */
  lemma CornerUnpadded(k: nat)
    requires k >= 3
    ensures !IsPadded(CornerCell(k)) && !InnerHeavy(CornerCell(k))
  {
    var p := CornerCell(k);
    assert p.a == CornerCell(k - 1) && p.a.d == Zero(k - 2) && p.a.d.d == Zero(k - 3);
  }
}
