/** `construct` of hashlife.c: builds the node of a list of live cells.
    The points are moved so that the smallest x and the smallest y are 0;
    each becomes an `on` leaf in a list of (node, x, y) entries, and each
    pass over the list joins the entries of every 2x2 block of one level
    into one entry of the next level, filling missing quadrants with the
    empty node, until one entry is left. */
module Construction {
  import opened Quadtree
  import opened NodeStore
  import opened Windows
  import opened Display

  /** `INT_MAX`, where the search for the smallest coordinate starts. */
  const IntMax: int := 0x7fff_ffff

  /** A value of C's `int`. */
  predicate IsInt(c: int) {
    -0x8000_0000 <= c <= IntMax
  }

  /** The side of a node of level 30, the largest `newnode` builds. */
  const Span: nat := 0x4000_0000

  lemma SpanIsSize()
    ensures Size(30) == Span
  {
    assert Size(6) == 0x40;
    assert Size(12) == 0x1000;
    assert Size(18) == 0x4_0000;
    assert Size(24) == 0x100_0000;
  }

  /** `MapNode`: a node and the block coordinates it stands for. A `None`
      node is an entry already taken into a block of the next level. */
  datatype MapNode = MapNode(p: Option<Node>, x: int, y: int)

  type Point = (int, int)

  /** The smallest x among the first n points and INT_MAX. */
  function MinXUpTo(points: seq<Point>, n: nat): (m: int)
    requires n <= |points|
    ensures m <= IntMax && forall t :: 0 <= t < n ==> m <= points[t].0
    ensures m == IntMax || exists t :: 0 <= t < n && points[t].0 == m
  {
    if n == 0 then IntMax
    else
      var r := MinXUpTo(points, n - 1);
      if points[n - 1].0 < r then points[n - 1].0 else r
  }

  /** The smallest y among the first n points and INT_MAX. */
  function MinYUpTo(points: seq<Point>, n: nat): (m: int)
    requires n <= |points|
    ensures m <= IntMax && forall t :: 0 <= t < n ==> m <= points[t].1
    ensures m == IntMax || exists t :: 0 <= t < n && points[t].1 == m
  {
    if n == 0 then IntMax
    else
      var r := MinYUpTo(points, n - 1);
      if points[n - 1].1 < r then points[n - 1].1 else r
  }

  /** The smallest x of the points (INT_MAX at most, where the search starts). */
  function MinX(points: seq<Point>): (m: int)
    ensures m <= IntMax && forall u, v {:trigger (u, v) in points} :: (u, v) in points ==> m <= u
    ensures m == IntMax || exists i :: 0 <= i < |points| && points[i].0 == m
  {
    var m := MinXUpTo(points, |points|);
    assert forall u, v {:trigger (u, v) in points} :: (u, v) in points ==> m <= u by {
      forall u, v {:trigger (u, v) in points} | (u, v) in points ensures m <= u {
        var i :| 0 <= i < |points| && points[i] == (u, v);
      }
    }
    m
  }

  /** The smallest y of the points (INT_MAX at most, where the search starts). */
  function MinY(points: seq<Point>): (m: int)
    ensures m <= IntMax && forall u, v {:trigger (u, v) in points} :: (u, v) in points ==> m <= v
    ensures m == IntMax || exists i :: 0 <= i < |points| && points[i].1 == m
  {
    var m := MinYUpTo(points, |points|);
    assert forall u, v {:trigger (u, v) in points} :: (u, v) in points ==> m <= v by {
      forall u, v {:trigger (u, v) in points} | (u, v) in points ensures m <= v {
        var i :| 0 <= i < |points| && points[i] == (u, v);
      }
    }
    m
  }

  /** Among points that are C `int`s, each minimum is some point's coordinate. */
  lemma MinAttained(points: seq<Point>)
    requires |points| >= 1 && forall u, v {:trigger (u, v) in points} :: (u, v) in points ==> IsInt(u) && IsInt(v)
    ensures exists v {:trigger (MinX(points), v) in points} :: (MinX(points), v) in points
    ensures exists u {:trigger (u, MinY(points)) in points} :: (u, MinY(points)) in points
  {
    var u, v := points[0].0, points[0].1;
    assert (u, v) == points[0];
    assert (u, v) in points;
    if MinX(points) != IntMax {
      var i :| 0 <= i < |points| && points[i].0 == MinX(points);
      assert (MinX(points), points[i].1) == points[i];
      assert (MinX(points), points[i].1) in points;
    }
    if MinY(points) != IntMax {
      var j :| 0 <= j < |points| && points[j].1 == MinY(points);
      assert (points[j].0, MinY(points)) == points[j];
      assert (points[j].0, MinY(points)) in points;
    }
  }

  /** The first loop of `construct`: the smallest x and the smallest y,
      searched from INT_MAX down. */
  method MinCorner(points: seq<Point>) returns (minx: int, miny: int)
    ensures minx == MinX(points) && miny == MinY(points)
  {
    minx, miny := IntMax, IntMax;
    var i := 0;
    while i < |points|
      invariant 0 <= i <= |points|
      invariant minx == MinXUpTo(points, i) && miny == MinYUpTo(points, i)
    {
      if points[i].0 < minx {
        minx := points[i].0;
      }
      if points[i].1 < miny {
        miny := points[i].1;
      }
      i := i + 1;
    }
  }

  /** P is the set of the points moved by (-mx, -my). */
  ghost predicate Moved(P: set<Point>, points: seq<Point>, mx: int, my: int) {
    forall u, v {:trigger (u, v) in P} :: (u, v) in P <==> (u + mx, v + my) in points
  }

  /** The points moved by (-mx, -my) form a set. */
  lemma MovedSet(points: seq<Point>, mx: int, my: int) returns (P: set<Point>)
    ensures Moved(P, points, mx, my)
  {
    P := set t {:trigger t in points} | t in points :: (t.0 - mx, t.1 - my);
    forall u, v {:trigger (u, v) in P} ensures (u, v) in P <==> (u + mx, v + my) in points {
      if (u + mx, v + my) in points {
        var t := (u + mx, v + my);
        assert (t.0 - mx, t.1 - my) in P;
      }
    }
  }

  /** A coordinate at level k: halved k times, as each pass's `x >> 1` does. */
  function Shift(u: int, k: nat): int {
    if k == 0 then u else Shift(u, k - 1) / 2
  }

  /** The first column of block b of level k, `b * 2^k`. */
  function Corner(b: int, k: nat): int
    decreases k
  {
    if k == 0 then b else Corner(2 * b, k - 1)
  }

  /** The next block of a level starts one side length further on. */
  lemma {:induction false} CornerNext(b: int, k: nat)
    ensures Corner(b + 1, k) == Corner(b, k) + Size(k)
    decreases k
  {
    if k > 0 {
      CornerNext(2 * b + 1, k - 1);
      CornerNext(2 * b, k - 1);
    }
  }

  /** Block 0 starts at column 0 on every level. */
  lemma {:induction false} CornerZero(k: nat)
    ensures Corner(0, k) == 0
  {
    if k > 0 {
      CornerZero(k - 1);
    }
  }

  /** Column i2 of the half c of block b, one level down, is column i of b. */
  lemma BlockOrigin(b: int, c: int, k: nat, i: int, i2: int)
    requires (c == 2 * b && i == i2) || (c == 2 * b + 1 && i == i2 + Size(k))
    ensures Corner(c, k) + i2 == Corner(b, k + 1) + i
  {
    if c == 2 * b + 1 {
      CornerNext(2 * b, k);
    }
  }

  /** A column of block b of level k lies in block b at level k. */
  lemma {:induction false} ShiftCorner(b: int, k: nat, i: int)
    requires 0 <= i < Size(k)
    ensures Shift(Corner(b, k) + i, k) == b
    decreases k
  {
    if k > 0 {
      var h := Size(k - 1);
      var c, i2 := 2 * b, i;
      if i >= h {
        c, i2 := 2 * b + 1, i - h;
      }
      BlockOrigin(b, c, k - 1, i, i2);
      ShiftCorner(c, k - 1, i2);
    }
  }

  /** A non-negative coordinate lies before the block after its own. */
  lemma {:induction false} ShiftBound(u: int, k: nat)
    requires 0 <= u
    ensures 0 <= Shift(u, k) && u < Corner(Shift(u, k) + 1, k)
  {
    if k > 0 {
      ShiftBound(u, k - 1);
      var s, q := Shift(u, k - 1), Shift(u, k) * 2;
      if s == q {
        CornerNext(q + 1, k - 1);
      }
    }
  }

  /** Halving keeps 0 at 0. */
  lemma {:induction false} ShiftZero(k: nat)
    ensures Shift(0, k) == 0
  {
    if k > 0 {
      ShiftZero(k - 1);
    }
  }

  /** A block coordinate of level k in the square of level 30 halves to
      one of level k + 1. */
  lemma HalfRange(u: int, k: nat)
    requires k < 30 && 0 <= u < Size(30 - k)
    ensures 0 <= u / 2 < Size(30 - (k + 1))
  {
  }


  /** n is the node of the block (bi, bj) of level k of the point set P:
      its live cells are exactly the points of that block. */
  ghost predicate Depicts(n: Node, P: set<Point>, bi: int, bj: int, k: nat) {
    && n.WellFormed() && n.Level() == k
    && forall i, j {:trigger Alive(n, i, j)} :: InRange(n, i, j) ==> (Alive(n, i, j) <==> (Corner(bi, k) + i, Corner(bj, k) + j) in P)
  }

  /** No point lies in the block (bi, bj) of level k. */
  ghost predicate EmptyBlock(P: set<Point>, bi: int, bj: int, k: nat) {
    forall u, v {:trigger (u, v) in P} :: (u, v) in P ==> Shift(u, k) != bi || Shift(v, k) != bj
  }

  /** An empty node of level k, such as `get_zero`'s, is the node of every
      block of level k without points. */
  lemma EmptyDepicts(P: set<Point>, bi: int, bj: int, k: nat, z: Node)
    requires EmptyBlock(P, bi, bj, k) && z.WellFormed() && z.Level() == k && z.Pop() == 0
    ensures Depicts(z, P, bi, bj, k)
  {
    forall i, j | InRange(z, i, j) ensures !Alive(z, i, j) && (Corner(bi, k) + i, Corner(bj, k) + j) !in P {
      DeadIfEmpty(z, i, j);
      ShiftCorner(bi, k, i);
      ShiftCorner(bj, k, j);
    }
  }

  /** Cell (i, j) of the block (bi, bj) of level k + 1 is cell (i2, j2) of
      its quadrant (ci, cj) of level k, whose node is q. */
  lemma QuadrantCell(P: set<Point>, bi: int, bj: int, k: nat, q: Node, i: int, j: int, ci: int, cj: int, i2: int, j2: int)
    requires Depicts(q, P, ci, cj, k) && 0 <= i2 < Size(k) && 0 <= j2 < Size(k)
    requires (ci == 2 * bi && i == i2) || (ci == 2 * bi + 1 && i == i2 + Size(k))
    requires (cj == 2 * bj && j == j2) || (cj == 2 * bj + 1 && j == j2 + Size(k))
    ensures InRange(q, i2, j2) && (Alive(q, i2, j2) <==> (Corner(bi, k + 1) + i, Corner(bj, k + 1) + j) in P)
  {
    BlockOrigin(bi, ci, k, i, i2);
    BlockOrigin(bj, cj, k, j, j2);
  }

  /** The join of the nodes of the four quadrants of a block is the node of
      the block: the quadrants of block (bi, bj) are the blocks (2bi, 2bj),
      (2bi + 1, 2bj), (2bi, 2bj + 1) and (2bi + 1, 2bj + 1) one level down. */
  lemma JoinDepicts(P: set<Point>, bi: int, bj: int, k: nat, a: Node, b: Node, c: Node, d: Node,
                    x0: int, y0: int, x1: int, y1: int)
    requires x0 == 2 * bi && y0 == 2 * bj && x1 == x0 + 1 && y1 == y0 + 1
    requires Depicts(a, P, x0, y0, k) && Depicts(b, P, x1, y0, k)
    requires Depicts(c, P, x0, y1, k) && Depicts(d, P, x1, y1, k)
    ensures Depicts(Join(a, b, c, d), P, bi, bj, k + 1)
  {
    var r, h := Join(a, b, c, d), Size(k);
    forall i: int, j: int | InRange(r, i, j) ensures Alive(r, i, j) <==> (Corner(bi, k + 1) + i, Corner(bj, k + 1) + j) in P {
      var i1: int, j1: int := i - h, j - h;
      if i < h && j < h {
        CellA(r, h, i, j, i, j);
        QuadrantCell(P, bi, bj, k, a, i, j, x0, y0, i, j);
      } else if j < h {
        CellB(r, h, i, j, i1, j);
        QuadrantCell(P, bi, bj, k, b, i, j, x1, y0, i1, j);
      } else if i < h {
        CellC(r, h, i, j, i, j1);
        QuadrantCell(P, bi, bj, k, c, i, j, x0, y1, i, j1);
      } else {
        CellD(r, h, i, j, i1, j1);
        QuadrantCell(P, bi, bj, k, d, i, j, x1, y1, i1, j1);
      }
    }
  }

  /** Every entry with a node holds the node of its block, and its block
      coordinates lie in the square of level 30 seen at level k. */
  ghost predicate Canonical(P: set<Point>, s: seq<MapNode>, k: nat)
    requires k <= 30
  {
    forall t :: 0 <= t < |s| && s[t].p.Some? ==>
      && Depicts(s[t].p.value, P, s[t].x, s[t].y, k)
      && 0 <= s[t].x < Size(30 - k) && 0 <= s[t].y < Size(30 - k)
  }

  /** Some entry with a node stands for the block (bi, bj). */
  ghost predicate Listed(s: seq<MapNode>, bi: int, bj: int) {
    exists t :: Entry(s, t, bi, bj)
  }

  /** Entry t has a node and stands for the block (bi, bj). */
  predicate Entry(s: seq<MapNode>, t: int, bi: int, bj: int) {
    0 <= t < |s| && s[t].p.Some? && s[t].x == bi && s[t].y == bj
  }

  /** Entry t holds the node q and stands for the block (bi, bj). */
  predicate EntryOf(s: seq<MapNode>, t: int, q: Node, bi: int, bj: int) {
    0 <= t < |s| && s[t] == MapNode(Some(q), bi, bj)
  }

  /** Every point's block of level k has an entry. */
  ghost predicate Covers(P: set<Point>, s: seq<MapNode>, k: nat) {
    forall u, v {:trigger (u, v) in P} :: (u, v) in P ==> Listed(s, Shift(u, k), Shift(v, k))
  }

  predicate AllSome(s: seq<MapNode>) {
    forall t :: 0 <= t < |s| ==> s[t].p.Some?
  }

  /** No two entries stand for the same block. */
  predicate Distinct(s: seq<MapNode>) {
    forall t1, t2 :: 0 <= t1 < t2 < |s| ==> s[t1].x != s[t2].x || s[t1].y != s[t2].y
  }

  /** Entry e lies in the 2x2 block whose top-left entry is (x, y). */
  predicate InQuad(e: MapNode, x: int, y: int) {
    (e.x == x || e.x == x + 1) && (e.y == y || e.y == y + 1)
  }

  /** Some entry at position i up to j - 1 stands for the block (bi, bj). */
  ghost predicate FoundIn(s: seq<MapNode>, i: int, j: int, bi: int, bj: int)
    requires 0 <= i <= j <= |s|
  {
    exists t :: i <= t < j && Entry(s, t, bi, bj)
  }

  lemma FoundInStep(s: seq<MapNode>, i: int, j: int, bi: int, bj: int)
    requires 0 <= i <= j < |s|
    ensures FoundIn(s, i, j + 1, bi, bj) <==> FoundIn(s, i, j, bi, bj) || Entry(s, j, bi, bj)
  {
    if FoundIn(s, i, j + 1, bi, bj) {
      var t :| i <= t < j + 1 && Entry(s, t, bi, bj);
      if t < j {
        assert FoundIn(s, i, j, bi, bj);
      }
    }
  }

  /** An entry listed in a list whose first i entries are taken is found from i on. */
  lemma ListedFrom(s: seq<MapNode>, i: int, bi: int, bj: int)
    requires 0 <= i <= |s| && forall t :: 0 <= t < i ==> s[t].p.None?
    ensures Listed(s, bi, bj) <==> FoundIn(s, i, |s|, bi, bj)
  {
    if Listed(s, bi, bj) {
      var t :| Entry(s, t, bi, bj);
      assert i <= t;
    }
  }

  /** `after` is `before` with the entries of the block at (x, y) among
      positions i up to j - 1 taken: their nodes are set to `None`. */
  ghost predicate TakenUpTo(after: seq<MapNode>, before: seq<MapNode>, i: int, j: int, x: int, y: int) {
    && |after| == |before|
    && forall t :: 0 <= t < |before| ==>
         after[t] == if i <= t < j && before[t].p.Some? && InQuad(before[t], x, y) then before[t].(p := None) else before[t]
  }

  /** What the loop over j keeps for one quadrant (bi, bj): the node of an
      entry for that block among positions i up to j - 1 once one has been
      found, `z` until then. */
  ghost predicate Gathered(q: Node, z: Node, s: seq<MapNode>, i: int, j: int, bi: int, bj: int)
    requires 0 <= i <= j <= |s|
  {
    if FoundIn(s, i, j, bi, bj) then exists t :: i <= t < j && EntryOf(s, t, q, bi, bj) else q == z
  }

  /** Entry e after the loop over j has looked at it for the block at
      (x, y): taken if it has a node and lies in that block. */
  function Taken(e: MapNode, x: int, y: int): MapNode {
    if e.p.Some? && InQuad(e, x, y) then e.(p := None) else e
  }

  /** One step of the loop over j keeps what `TakenUpTo` says. */
  lemma TakeStep(before: seq<MapNode>, cur: seq<MapNode>, i: int, j: int, x: int, y: int)
    requires 0 <= i <= j < |before| && TakenUpTo(cur, before, i, j, x, y)
    ensures cur[j] == before[j]
    ensures TakenUpTo(cur[j := Taken(before[j], x, y)], before, i, j + 1, x, y)
  {
  }

  /** One step of the loop over j keeps what `Gathered` says of the
      quadrant (bi, bj): q' is the node of entry j if it stands for that
      block, q otherwise. */
  lemma GatherStep(s: seq<MapNode>, i: int, j: int, bi: int, bj: int, z: Node, q: Node, q': Node)
    requires 0 <= i <= j < |s| && Gathered(q, z, s, i, j, bi, bj)
    requires if Entry(s, j, bi, bj) then q' == s[j].p.value else q' == q
    ensures Gathered(q', z, s, i, j + 1, bi, bj)
  {
    FoundInStep(s, i, j, bi, bj);
    if FoundIn(s, i, j, bi, bj) && q' == q {
      var t :| i <= t < j && EntryOf(s, t, q, bi, bj);
      assert i <= t < j + 1;
    }
    if Entry(s, j, bi, bj) {
      assert EntryOf(s, j, q', bi, bj);
    }
  }

  /** `GatherStep` for the four quadrants of the block at (x, y), with the
      nodes `TakeEntry` hands back for entry j. */
  lemma GatherQuadrants(s: seq<MapNode>, i: int, j: int, x: int, y: int, z: Node,
                        a: Node, b: Node, c: Node, d: Node, a': Node, b': Node, c': Node, d': Node)
    requires 0 <= i <= j < |s|
    requires Gathered(a, z, s, i, j, x, y) && Gathered(b, z, s, i, j, x + 1, y)
    requires Gathered(c, z, s, i, j, x, y + 1) && Gathered(d, z, s, i, j, x + 1, y + 1)
    requires var e := s[j];
             && a' == (if e.p.Some? && e.x == x && e.y == y then e.p.value else a)
             && b' == (if e.p.Some? && e.x == x + 1 && e.y == y then e.p.value else b)
             && c' == (if e.p.Some? && e.x == x && e.y == y + 1 then e.p.value else c)
             && d' == (if e.p.Some? && e.x == x + 1 && e.y == y + 1 then e.p.value else d)
    ensures Gathered(a', z, s, i, j + 1, x, y) && Gathered(b', z, s, i, j + 1, x + 1, y)
    ensures Gathered(c', z, s, i, j + 1, x, y + 1) && Gathered(d', z, s, i, j + 1, x + 1, y + 1)
  {
    GatherStep(s, i, j, x, y, z, a, a');
    GatherStep(s, i, j, x + 1, y, z, b, b');
    GatherStep(s, i, j, x, y + 1, z, c, c');
    GatherStep(s, i, j, x + 1, y + 1, z, d, d');
  }

  /** The body of the loop over j of `construct`: entry j, if it has a
      node and stands for a quadrant of the block at (x, y), hands its node
      to that quadrant and is taken. */
  method TakeEntry(pattern: array<MapNode>, n: int, j: int, x: int, y: int, a: Node, b: Node, c: Node, d: Node)
    returns (a': Node, b': Node, c': Node, d': Node)
    requires 0 <= j < n <= pattern.Length
    modifies pattern
    ensures pattern[..n] == old(pattern[..n])[j := Taken(old(pattern[j]), x, y)]
    ensures var e := old(pattern[j]);
            && a' == (if e.p.Some? && e.x == x && e.y == y then e.p.value else a)
            && b' == (if e.p.Some? && e.x == x + 1 && e.y == y then e.p.value else b)
            && c' == (if e.p.Some? && e.x == x && e.y == y + 1 then e.p.value else c)
            && d' == (if e.p.Some? && e.x == x + 1 && e.y == y + 1 then e.p.value else d)
  {
    a', b', c', d' := a, b, c, d;
    var pp := pattern[j];
    if pp.p.Some? {
      if pp.x == x && pp.y == y {
        a' := pp.p.value;
        pattern[j] := pattern[j].(p := None);
      } else if pp.x == x + 1 && pp.y == y {
        b' := pp.p.value;
        pattern[j] := pattern[j].(p := None);
      } else if pp.x == x && pp.y == y + 1 {
        c' := pp.p.value;
        pattern[j] := pattern[j].(p := None);
      } else if pp.x == x + 1 && pp.y == y + 1 {
        d' := pp.p.value;
        pattern[j] := pattern[j].(p := None);
      }
    }
  }

  /** The loop over j of `construct`: gathers the quadrants of the 2x2
      block whose top-left entry is (x, y) from the entries at position i
      onwards, takes them out of the list, and leaves `z` for the quadrants
      no entry stands for. */
  method TakeBlock(pattern: array<MapNode>, n: int, i: int, x: int, y: int, z: Node)
    returns (a: Node, b: Node, c: Node, d: Node)
    requires 0 <= i < n <= pattern.Length
    modifies pattern
    ensures TakenUpTo(pattern[..n], old(pattern[..n]), i, n, x, y)
    ensures Gathered(a, z, old(pattern[..n]), i, n, x, y)
    ensures Gathered(b, z, old(pattern[..n]), i, n, x + 1, y)
    ensures Gathered(c, z, old(pattern[..n]), i, n, x, y + 1)
    ensures Gathered(d, z, old(pattern[..n]), i, n, x + 1, y + 1)
  {
    ghost var before := pattern[..n];
    a, b, c, d := z, z, z, z;
    var j := i;
    TakeStart(before, i, x, y, z);
    while j < n
      invariant i <= j <= n && TakeInv(pattern[..n], before, i, j, x, y, z, a, b, c, d)
    {
      ghost var cur, a0, b0, c0, d0 := pattern[..n], a, b, c, d;
      a, b, c, d := TakeEntry(pattern, n, j, x, y, a, b, c, d);
      TakeNext(cur, pattern[..n], before, i, j, x, y, z, a0, b0, c0, d0, a, b, c, d);
      j := j + 1;
    }
  }

  /** What the loop over j keeps: entries i up to j - 1 of the block at
      (x, y) are taken, and a, b, c, d are the quadrant nodes found so far. */
  ghost predicate TakeInv(cur: seq<MapNode>, before: seq<MapNode>, i: int, j: int, x: int, y: int, z: Node,
                          a: Node, b: Node, c: Node, d: Node)
  {
    && 0 <= i <= j <= |before|
    && TakenUpTo(cur, before, i, j, x, y)
    && Gathered(a, z, before, i, j, x, y) && Gathered(b, z, before, i, j, x + 1, y)
    && Gathered(c, z, before, i, j, x, y + 1) && Gathered(d, z, before, i, j, x + 1, y + 1)
  }

  /** Before the loop over j nothing is taken and every quadrant node is `z`. */
  lemma TakeStart(before: seq<MapNode>, i: int, x: int, y: int, z: Node)
    requires 0 <= i <= |before|
    ensures TakeInv(before, before, i, i, x, y, z, z, z, z, z)
  {
  }

  /** One step of the loop over j, with what `TakeEntry` does to entry j. */
  lemma TakeNext(cur: seq<MapNode>, after: seq<MapNode>, before: seq<MapNode>, i: int, j: int, x: int, y: int, z: Node,
                 a: Node, b: Node, c: Node, d: Node, a': Node, b': Node, c': Node, d': Node)
    requires j < |before| && TakeInv(cur, before, i, j, x, y, z, a, b, c, d)
    requires after == cur[j := Taken(cur[j], x, y)]
    requires var e := cur[j];
             && a' == (if e.p.Some? && e.x == x && e.y == y then e.p.value else a)
             && b' == (if e.p.Some? && e.x == x + 1 && e.y == y then e.p.value else b)
             && c' == (if e.p.Some? && e.x == x && e.y == y + 1 then e.p.value else c)
             && d' == (if e.p.Some? && e.x == x + 1 && e.y == y + 1 then e.p.value else d)
    ensures TakeInv(after, before, i, j + 1, x, y, z, a', b', c', d')
  {
    TakeStep(before, cur, i, j, x, y);
    GatherQuadrants(before, i, j, x, y, z, a, b, c, d, a', b', c', d');
  }


  /** The state of one pass at entry i: `pat` is the list of level k with
      the entries before i taken, `nxt` the entries of level k + 1 built so
      far. Every point is in a block listed in one of the two, and no entry
      still in `pat` belongs to a block already in `nxt`. */
  ghost predicate PassInv(P: set<Point>, pat: seq<MapNode>, nxt: seq<MapNode>, i: int, k: nat)
    requires k < 30
  {
    && 0 <= i <= |pat|
    && Canonical(P, pat, k) && Canonical(P, nxt, k + 1) && AllSome(nxt) && Distinct(nxt)
    && (forall t :: 0 <= t < i ==> pat[t].p.None?)
    && (forall u, v {:trigger (u, v) in P} :: (u, v) in P ==> Listed(nxt, Shift(u, k + 1), Shift(v, k + 1)) || Listed(pat, Shift(u, k), Shift(v, k)))
    && (forall t :: 0 <= t < |pat| && pat[t].p.Some? ==> !Listed(nxt, pat[t].x / 2, pat[t].y / 2))
  }

  lemma PassStart(P: set<Point>, pat: seq<MapNode>, k: nat)
    requires k < 30 && Canonical(P, pat, k) && Covers(P, pat, k)
    ensures PassInv(P, pat, [], 0, k)
  {
  }

  lemma PassSkip(P: set<Point>, pat: seq<MapNode>, nxt: seq<MapNode>, i: int, k: nat)
    requires k < 30 && PassInv(P, pat, nxt, i, k) && i < |pat| && pat[i].p.None?
    ensures PassInv(P, pat, nxt, i + 1, k)
  {
  }

  /** The node gathered for a quadrant of the block of entry i is the node
      of that quadrant: the node of its entry, or, when no entry from i on
      stands for it, `get_zero`'s node, since the quadrant has no points. */
  lemma {:induction false} QuadrantNode(P: set<Point>, pat: seq<MapNode>, nxt: seq<MapNode>, i: int, k: nat,
                                        bi: int, bj: int, q: Node, z: Node)
    requires k < 30 && PassInv(P, pat, nxt, i, k) && i < |pat| && pat[i].p.Some?
    requires bi / 2 == pat[i].x / 2 && bj / 2 == pat[i].y / 2
    requires z.WellFormed() && z.Level() == k && z.Pop() == 0
    requires Gathered(q, z, pat, i, |pat|, bi, bj)
    ensures Depicts(q, P, bi, bj, k)
  {
    if FoundIn(pat, i, |pat|, bi, bj) {
      var t :| i <= t < |pat| && EntryOf(pat, t, q, bi, bj);
      assert Entry(pat, t, bi, bj);
    } else {
      ListedFrom(pat, i, bi, bj);
      forall u, v {:trigger (u, v) in P} | (u, v) in P ensures Shift(u, k) != bi || Shift(v, k) != bj {
        assert Shift(u, k + 1) == Shift(u, k) / 2 && Shift(v, k + 1) == Shift(v, k) / 2;
      }
      EmptyDepicts(P, bi, bj, k, z);
    }
  }

  /** A block is listed after appending e exactly when it was listed
      before or e stands for it. */
  lemma ListedAppend(s: seq<MapNode>, e: MapNode, bi: int, bj: int)
    ensures Listed(s + [e], bi, bj) <==> Listed(s, bi, bj) || (e.p.Some? && e.x == bi && e.y == bj)
  {
    if Listed(s, bi, bj) {
      var t :| Entry(s, t, bi, bj);
      assert Entry(s + [e], t, bi, bj);
    }
    if e.p.Some? && e.x == bi && e.y == bj {
      assert Entry(s + [e], |s|, bi, bj);
    }
    if Listed(s + [e], bi, bj) {
      var t :| Entry(s + [e], t, bi, bj);
      if t < |s| {
        assert Entry(s, t, bi, bj);
      }
    }
  }

  /** Appending an entry for a block not yet listed keeps the entries distinct. */
  lemma DistinctAppend(s: seq<MapNode>, e: MapNode)
    requires Distinct(s) && AllSome(s) && !Listed(s, e.x, e.y)
    ensures Distinct(s + [e])
  {
    forall t | 0 <= t < |s| ensures s[t].x != e.x || s[t].y != e.y {
      assert !Entry(s, t, e.x, e.y);
    }
  }

  /** The block (ci, cj) of a point, listed in the list of level k or its
      block (ci / 2, cj / 2) in the next level, stays listed in one of them
      when the block at (x, y) is taken and its entry e appended. */
  lemma CoverStep(before: seq<MapNode>, after: seq<MapNode>, nxt: seq<MapNode>, e: MapNode,
                  i: int, x: int, y: int, ci: int, cj: int)
    requires 0 <= i <= |before| && TakenUpTo(after, before, i, |before|, x, y) && x % 2 == 0 && y % 2 == 0
    requires e.p.Some? && e.x == x / 2 && e.y == y / 2
    requires Listed(nxt, ci / 2, cj / 2) || Listed(before, ci, cj)
    ensures Listed(nxt + [e], ci / 2, cj / 2) || Listed(after, ci, cj)
  {
    ListedAppend(nxt, e, ci / 2, cj / 2);
    if !Listed(nxt, ci / 2, cj / 2) {
      var s :| Entry(before, s, ci, cj);
      if after[s].p.Some? {
        assert Entry(after, s, ci, cj);
      }
    }
  }

  /** An entry left after the block at (x, y) is taken is not in that
      block, so its block of the next level is not e's. */
  lemma FreshStep(before: seq<MapNode>, after: seq<MapNode>, nxt: seq<MapNode>, e: MapNode,
                  i: int, x: int, y: int, t: int)
    requires 0 <= i <= |before| && TakenUpTo(after, before, i, |before|, x, y) && x % 2 == 0 && y % 2 == 0
    requires e.x == x / 2 && e.y == y / 2
    requires 0 <= t < |after| && after[t].p.Some? && (t < i ==> before[t].p.None?)
    requires before[t].p.Some? ==> !Listed(nxt, before[t].x / 2, before[t].y / 2)
    ensures !Listed(nxt + [e], after[t].x / 2, after[t].y / 2)
  {
    ListedAppend(nxt, e, after[t].x / 2, after[t].y / 2);
    assert before[t] == after[t];
  }

  /** Taking the block of entry i out of the list and appending its node
      to the next level keeps the state of the pass. */
  lemma {:induction false} PassBlock(P: set<Point>, before: seq<MapNode>, after: seq<MapNode>, nxt: seq<MapNode>,
                                     i: int, k: nat, x: int, y: int, node: Node)
    requires k < 30 && PassInv(P, before, nxt, i, k) && i < |before| && before[i].p.Some?
    requires x == before[i].x - before[i].x % 2 && y == before[i].y - before[i].y % 2
    requires TakenUpTo(after, before, i, |before|, x, y)
    requires Depicts(node, P, x / 2, y / 2, k + 1)
    ensures PassInv(P, after, nxt + [MapNode(Some(node), x / 2, y / 2)], i + 1, k)
  {
    var e := MapNode(Some(node), x / 2, y / 2);
    assert InQuad(before[i], x, y) && !Listed(nxt, before[i].x / 2, before[i].y / 2);
    TakenKeeps(P, before, after, i, k, x, y);
    assert x / 2 == before[i].x / 2 && y / 2 == before[i].y / 2;
    AppendBlock(P, nxt, k, before[i], node);
    CoverAll(P, before, after, nxt, e, i, k, x, y);
    FreshAll(before, after, nxt, e, i, x, y);
  }

  /** Every point stays covered by the list of level k or the next one. */
  lemma CoverAll(P: set<Point>, before: seq<MapNode>, after: seq<MapNode>, nxt: seq<MapNode>, e: MapNode,
                 i: int, k: nat, x: int, y: int)
    requires 0 <= i <= |before| && TakenUpTo(after, before, i, |before|, x, y) && x % 2 == 0 && y % 2 == 0
    requires e.p.Some? && e.x == x / 2 && e.y == y / 2
    requires forall u, v {:trigger (u, v) in P} :: (u, v) in P ==>
               Listed(nxt, Shift(u, k + 1), Shift(v, k + 1)) || Listed(before, Shift(u, k), Shift(v, k))
    ensures forall u, v {:trigger (u, v) in P} :: (u, v) in P ==>
              Listed(nxt + [e], Shift(u, k + 1), Shift(v, k + 1)) || Listed(after, Shift(u, k), Shift(v, k))
  {
    forall u, v {:trigger (u, v) in P} | (u, v) in P
      ensures Listed(nxt + [e], Shift(u, k + 1), Shift(v, k + 1)) || Listed(after, Shift(u, k), Shift(v, k))
    {
      assert Shift(u, k + 1) == Shift(u, k) / 2 && Shift(v, k + 1) == Shift(v, k) / 2;
      CoverStep(before, after, nxt, e, i, x, y, Shift(u, k), Shift(v, k));
    }
  }

  /** No entry left in the list of level k stands for a block already
      listed in the next level. */
  lemma FreshAll(before: seq<MapNode>, after: seq<MapNode>, nxt: seq<MapNode>, e: MapNode, i: int, x: int, y: int)
    requires 0 <= i <= |before| && TakenUpTo(after, before, i, |before|, x, y) && x % 2 == 0 && y % 2 == 0
    requires e.x == x / 2 && e.y == y / 2 && forall t :: 0 <= t < i ==> before[t].p.None?
    requires forall t :: 0 <= t < |before| && before[t].p.Some? ==> !Listed(nxt, before[t].x / 2, before[t].y / 2)
    ensures forall t :: 0 <= t < |after| && after[t].p.Some? ==> !Listed(nxt + [e], after[t].x / 2, after[t].y / 2)
  {
    forall t | 0 <= t < |after| && after[t].p.Some? ensures !Listed(nxt + [e], after[t].x / 2, after[t].y / 2) {
      FreshStep(before, after, nxt, e, i, x, y, t);
    }
  }


  /** Taking the block at (x, y) from entry i on leaves entries of nodes
      that stand for their blocks, and none before i + 1. */
  lemma TakenKeeps(P: set<Point>, before: seq<MapNode>, after: seq<MapNode>, i: int, k: nat, x: int, y: int)
    requires k <= 30 && 0 <= i < |before| && Canonical(P, before, k) && TakenUpTo(after, before, i, |before|, x, y)
    requires (forall t :: 0 <= t < i ==> before[t].p.None?) && before[i].p.Some? && InQuad(before[i], x, y)
    ensures Canonical(P, after, k) && forall t :: 0 <= t < i + 1 ==> after[t].p.None?
  {
  }

  /** Appending the entry of the block of level k + 1 that holds the block
      of b, when it is not yet listed and holds that block's node, keeps
      the list of the next level canonical and distinct. */
  lemma AppendBlock(P: set<Point>, nxt: seq<MapNode>, k: nat, b: MapNode, node: Node)
    requires k < 30 && 0 <= b.x < Size(30 - k) && 0 <= b.y < Size(30 - k)
    requires Canonical(P, nxt, k + 1) && AllSome(nxt) && Distinct(nxt) && !Listed(nxt, b.x / 2, b.y / 2)
    requires Depicts(node, P, b.x / 2, b.y / 2, k + 1)
    ensures var nxt' := nxt + [MapNode(Some(node), b.x / 2, b.y / 2)];
            Canonical(P, nxt', k + 1) && AllSome(nxt') && Distinct(nxt')
  {
    var e := MapNode(Some(node), b.x / 2, b.y / 2);
    HalfRange(b.x, k);
    HalfRange(b.y, k);
    DistinctAppend(nxt, e);
  }


  /** No entry is listed in a list whose entries are all taken. */
  lemma NoneListed(s: seq<MapNode>, bi: int, bj: int)
    requires forall t :: 0 <= t < |s| ==> s[t].p.None?
    ensures !Listed(s, bi, bj)
  {
  }

  /** At the end of a pass every point's block of level k + 1 has an entry. */
  lemma PassEnd(P: set<Point>, pat: seq<MapNode>, nxt: seq<MapNode>, k: nat)
    requires k < 30 && PassInv(P, pat, nxt, |pat|, k)
    ensures Covers(P, nxt, k + 1)
  {
    forall u, v {:trigger (u, v) in P} | (u, v) in P ensures Listed(nxt, Shift(u, k + 1), Shift(v, k + 1)) {
      NoneListed(pat, Shift(u, k), Shift(v, k));
    }
  }

  /** The body of the `for (j ...)` loop of `construct` for entry i and
      the `find_node`/`newnode` after it: takes the entries of the 2x2 block
      of entry i out of the list and returns the interned node of that
      block, with its coordinates at level k + 1. */
  method BlockNode(store: Store, pattern: array<MapNode>, n: int, i: int, k: nat, z: Node,
                   ghost P: set<Point>, ghost nxt: seq<MapNode>)
    returns (node: Node, bi: int, bj: int)
    requires store.Valid() && 0 <= i < n <= pattern.Length && k < 30 && z == Zero(k)
    requires PassInv(P, pattern[..n], nxt, i, k) && pattern[i].p.Some?
    modifies pattern, store.table
    ensures store.Valid()
    ensures PassInv(P, pattern[..n], nxt + [MapNode(Some(node), bi, bj)], i + 1, k)
  {
    var e := pattern[i];
    var x := e.x - e.x % 2;
    var y := e.y - e.y % 2;
    ghost var before := pattern[..n];
    var a, b, c, d := TakeBlock(pattern, n, i, x, y, z);
    bi, bj := x / 2, y / 2;
    BlockDepicts(P, before, nxt, i, k, x, y, z, a, b, c, d);
    var found := store.FindNode(a, b, c, d);
    if found.None? {
      node := store.NewNode(a, b, c, d);
    } else {
      FoundIsJoin(found.value, a, b, c, d);
      node := found.value;
    }
    PassBlock(P, before, pattern[..n], nxt, i, k, x, y, node);
  }

  /** The four quadrant nodes gathered for the block of entry i join
      into the node of that block one level up. */
  lemma BlockDepicts(P: set<Point>, pat: seq<MapNode>, nxt: seq<MapNode>, i: int, k: nat, x: int, y: int, z: Node,
                     a: Node, b: Node, c: Node, d: Node)
    requires k < 30 && PassInv(P, pat, nxt, i, k) && i < |pat| && pat[i].p.Some? && z == Zero(k)
    requires x == pat[i].x - pat[i].x % 2 && y == pat[i].y - pat[i].y % 2
    requires Gathered(a, z, pat, i, |pat|, x, y) && Gathered(b, z, pat, i, |pat|, x + 1, y)
    requires Gathered(c, z, pat, i, |pat|, x, y + 1) && Gathered(d, z, pat, i, |pat|, x + 1, y + 1)
    ensures a.WellFormed() && b.WellFormed() && c.WellFormed() && d.WellFormed()
    ensures a.Level() == b.Level() == c.Level() == d.Level() == k
    ensures Depicts(Join(a, b, c, d), P, x / 2, y / 2, k + 1)
  {
    QuadrantsDepict(P, pat, nxt, i, k, x, y, z, a, b, c, d);
    EvenHalf(pat[i].x, x);
    EvenHalf(pat[i].y, y);
    JoinDepicts(P, x / 2, y / 2, k, a, b, c, d, x, y, x + 1, y + 1);
  }

  /** A coordinate rounded down to even is twice its half. */
  lemma EvenHalf(u: int, x: int)
    requires x == u - u % 2
    ensures x == 2 * (x / 2)
  {
  }

  /** Both columns of the pair u lies in halve to u's half. */
  lemma SameHalf(u: int, x: int)
    requires x == u - u % 2
    ensures x / 2 == u / 2 && (x + 1) / 2 == u / 2
  {
  }

  /** Each of the four gathered nodes is the node of its quadrant. */
  lemma QuadrantsDepict(P: set<Point>, pat: seq<MapNode>, nxt: seq<MapNode>, i: int, k: nat, x: int, y: int, z: Node,
                        a: Node, b: Node, c: Node, d: Node)
    requires k < 30 && PassInv(P, pat, nxt, i, k) && i < |pat| && pat[i].p.Some? && z == Zero(k)
    requires x == pat[i].x - pat[i].x % 2 && y == pat[i].y - pat[i].y % 2
    requires Gathered(a, z, pat, i, |pat|, x, y) && Gathered(b, z, pat, i, |pat|, x + 1, y)
    requires Gathered(c, z, pat, i, |pat|, x, y + 1) && Gathered(d, z, pat, i, |pat|, x + 1, y + 1)
    ensures Depicts(a, P, x, y, k) && Depicts(b, P, x + 1, y, k)
    ensures Depicts(c, P, x, y + 1, k) && Depicts(d, P, x + 1, y + 1, k)
  {
    SameHalf(pat[i].x, x);
    SameHalf(pat[i].y, y);
    QuadrantNode(P, pat, nxt, i, k, x, y, a, z);
    QuadrantNode(P, pat, nxt, i, k, x + 1, y, b, z);
    QuadrantNode(P, pat, nxt, i, k, x, y + 1, c, z);
    QuadrantNode(P, pat, nxt, i, k, x + 1, y + 1, d, z);
  }

  /** One pass of the `while (n > 1)` loop of `construct`: joins the
      entries of every 2x2 block of level k into one entry of level k + 1,
      using the nodes interned in the store. Afterwards every point's block
      of level k + 1 has exactly one entry, holding the node of that block. */
  method NextLevel(store: Store, pattern: array<MapNode>, n: int, k: nat, ghost P: set<Point>)
    returns (next: array<MapNode>, m: int)
    requires store.Valid() && 0 <= n <= pattern.Length && k < 30
    requires Canonical(P, pattern[..n], k) && Covers(P, pattern[..n], k)
    modifies pattern, store.table
    ensures store.Valid() && fresh(next) && 0 <= m <= next.Length
    ensures Canonical(P, next[..m], k + 1) && Covers(P, next[..m], k + 1)
    ensures AllSome(next[..m]) && Distinct(next[..m])
  {
    var z := store.GetZero(k);
    next := new MapNode[n];
    m := 0;
    PassStart(P, pattern[..n], k);
    var i := 0;
    while i < n
      invariant 0 <= m <= i <= n && next.Length == n
      invariant store.Valid() && z == Zero(k)
      invariant PassInv(P, pattern[..n], next[..m], i, k)
    {
      var e := pattern[i];
      if e.p.None? {
        PassSkip(P, pattern[..n], next[..m], i, k);
      } else {
        ghost var done := next[..m];
        var node, bi, bj := BlockNode(store, pattern, n, i, k, z, P, done);
        next[m] := MapNode(Some(node), bi, bj);
        assert next[..m + 1] == done + [MapNode(Some(node), bi, bj)];
        m := m + 1;
      }
      i := i + 1;
    }
    PassEnd(P, pattern[..n], next[..m], k);
  }

  /** While more than one entry is left, the level is below 30: distinct
      blocks of level 30 would all be the block (0, 0). */
  lemma LevelBelowTop(P: set<Point>, s: seq<MapNode>, k: nat)
    requires k <= 30 && |s| > 1 && Canonical(P, s, k) && AllSome(s) && (k >= 1 ==> Distinct(s))
    ensures k < 30
  {
    var e0, e1 := s[0], s[1];
    assert k == 30 ==> e0.x == 0 == e1.x && e0.y == 0 == e1.y;
  }

  /** The list of level 0: one `on` entry per point, moved by (-minx, -miny). */
  method FirstLevel(points: seq<Point>, minx: int, miny: int) returns (pattern: array<MapNode>)
    ensures fresh(pattern) && pattern.Length == |points|
    ensures forall i :: 0 <= i < |points| ==> pattern[i] == MapNode(Some(ON), points[i].0 - minx, points[i].1 - miny)
  {
    pattern := new MapNode[|points|];
    var i := 0;
    while i < |points|
      invariant 0 <= i <= |points|
      invariant forall t :: 0 <= t < i ==> pattern[t] == MapNode(Some(ON), points[t].0 - minx, points[t].1 - miny)
    {
      pattern[i] := MapNode(Some(ON), points[i].0 - minx, points[i].1 - miny);
      i := i + 1;
    }
  }

  /** `on` is the node of the block of level 0 of each point. */
  lemma OnDepicts(P: set<Point>, bi: int, bj: int)
    requires (bi, bj) in P
    ensures Depicts(ON, P, bi, bj, 0)
  {
  }

  /** The list of level 0 holds the node of each point's block and covers every point. */
  lemma FirstLevelCanonical(points: seq<Point>, s: seq<MapNode>, P: set<Point>)
    requires |points| >= 1 && |s| == |points| && Moved(P, points, MinX(points), MinY(points))
    requires forall u, v {:trigger (u, v) in points} :: (u, v) in points ==> u - MinX(points) < Span && v - MinY(points) < Span
    requires forall i :: 0 <= i < |points| ==> s[i] == MapNode(Some(ON), points[i].0 - MinX(points), points[i].1 - MinY(points))
    ensures Canonical(P, s, 0) && Covers(P, s, 0) && AllSome(s)
  {
    FirstLevelDepicts(points, s, P);
    FirstLevelCovers(points, s, P);
  }

  lemma FirstLevelDepicts(points: seq<Point>, s: seq<MapNode>, P: set<Point>)
    requires |s| == |points| && Moved(P, points, MinX(points), MinY(points))
    requires forall u, v {:trigger (u, v) in points} :: (u, v) in points ==> u - MinX(points) < Span && v - MinY(points) < Span
    requires forall i :: 0 <= i < |points| ==> s[i] == MapNode(Some(ON), points[i].0 - MinX(points), points[i].1 - MinY(points))
    ensures Canonical(P, s, 0)
  {
    SpanIsSize();
    forall t | 0 <= t < |s|
      ensures Depicts(s[t].p.value, P, s[t].x, s[t].y, 0) && 0 <= s[t].x < Span && 0 <= s[t].y < Span
    {
      FirstEntry(points, s[t], P, MinX(points), MinY(points), t);
    }
  }

  /** Entry t of the list of level 0 is `on` at the moved point t. */
  lemma FirstEntry(points: seq<Point>, e: MapNode, P: set<Point>, mx: int, my: int, t: int)
    requires 0 <= t < |points| && Moved(P, points, mx, my) && mx == MinX(points) && my == MinY(points)
    requires forall u, v {:trigger (u, v) in points} :: (u, v) in points ==> u - mx < Span && v - my < Span
    requires e == MapNode(Some(ON), points[t].0 - mx, points[t].1 - my)
    ensures Depicts(e.p.value, P, e.x, e.y, 0) && 0 <= e.x < Span && 0 <= e.y < Span
  {
    MovedMember(points, P, mx, my, t);
    OnDepicts(P, e.x, e.y);
    assert (points[t].0, points[t].1) in points;
  }

  lemma FirstLevelCovers(points: seq<Point>, s: seq<MapNode>, P: set<Point>)
    requires |s| == |points| && Moved(P, points, MinX(points), MinY(points))
    requires forall i :: 0 <= i < |points| ==> s[i] == MapNode(Some(ON), points[i].0 - MinX(points), points[i].1 - MinY(points))
    ensures Covers(P, s, 0) && AllSome(s)
  {
    var mx, my := MinX(points), MinY(points);
    forall u, v {:trigger (u, v) in P} | (u, v) in P ensures Listed(s, Shift(u, 0), Shift(v, 0)) {
      var i :| 0 <= i < |points| && points[i] == (u + mx, v + my);
      assert Entry(s, i, u, v);
    }
  }


  /** A list of one entry that covers a set of non-negative points, one
      with x = 0 and one with y = 0, holds the node of block (0, 0), and
      every point lies inside that node. */
  lemma SoleEntry(P: set<Point>, s: seq<MapNode>, k: nat, ax: int, ay: int)
    requires |s| == 1 && k <= 30 && Canonical(P, s, k) && Covers(P, s, k)
    requires (0, ay) in P && (ax, 0) in P
    requires forall u, v {:trigger (u, v) in P} :: (u, v) in P ==> 0 <= u && 0 <= v
    ensures s[0].p.Some? && Depicts(s[0].p.value, P, 0, 0, k)
    ensures forall u, v {:trigger (u, v) in P} :: (u, v) in P ==> InRange(s[0].p.value, u, v)
  {
    ShiftZero(k);
    assert Listed(s, Shift(0, k), Shift(ay, k));
    assert Listed(s, Shift(ax, k), Shift(0, k));
    assert s[0].x == 0 == s[0].y;
    forall u, v {:trigger (u, v) in P} | (u, v) in P ensures InRange(s[0].p.value, u, v) {
      assert Listed(s, Shift(u, k), Shift(v, k));
      FirstBlock(u, k);
      FirstBlock(v, k);
    }
  }

  /** A non-negative coordinate in block 0 of level k is below 2^k. */
  lemma FirstBlock(u: int, k: nat)
    requires 0 <= u && Shift(u, k) == 0
    ensures u < Size(k)
  {
    ShiftBound(u, k);
    CornerZero(k);
    CornerNext(0, k);
  }

  /** The moved points are non-negative, and one has x = 0 and one y = 0. */
  lemma MovedCorner(points: seq<Point>, P: set<Point>) returns (ax: int, ay: int)
    requires |points| >= 1 && forall u, v {:trigger (u, v) in points} :: (u, v) in points ==> IsInt(u) && IsInt(v)
    requires Moved(P, points, MinX(points), MinY(points))
    ensures (0, ay) in P && (ax, 0) in P && forall u, v {:trigger (u, v) in P} :: (u, v) in P ==> 0 <= u && 0 <= v
  {
    var mx, my := MinX(points), MinY(points);
    MinAttained(points);
    var vx :| (mx, vx) in points;
    var uy :| (uy, my) in points;
    ax, ay := uy - mx, vx - my;
    assert (0, ay) in P && (ax, 0) in P;
  }

  /** r draws the points moved by (-mx, -my): every moved point lies
      inside r, and the live cells of r are exactly the moved points. */
  ghost predicate Draws(r: Node, points: seq<Point>, mx: int, my: int)
    requires r.WellFormed()
  {
    && (forall u, v {:trigger (u, v) in points} :: (u, v) in points ==> InRange(r, u - mx, v - my))
    && (forall u, v {:trigger Alive(r, u, v)} :: InRange(r, u, v) ==> (Alive(r, u, v) <==> (u + mx, v + my) in points))
  }

  /** The single entry left at the end is the node of block (0, 0), and
      it draws the moved points. */
  lemma LastLevel(points: seq<Point>, s: seq<MapNode>, k: nat, P: set<Point>)
    requires |points| >= 1 && |s| == 1 && k <= 30
    requires forall u, v {:trigger (u, v) in points} :: (u, v) in points ==> IsInt(u) && IsInt(v)
    requires Moved(P, points, MinX(points), MinY(points)) && Canonical(P, s, k) && Covers(P, s, k)
    ensures s[0].p.Some? && s[0].p.value.WellFormed()
    ensures Draws(s[0].p.value, points, MinX(points), MinY(points))
  {
    var ax, ay := MovedCorner(points, P);
    SoleEntry(P, s, k, ax, ay);
    MovedCells(s[0].p.value, P, k, points, MinX(points), MinY(points));
  }

  /** The node of block (0, 0) of the moved points, when every moved point
      lies inside it, draws the points. */
  lemma MovedCells(r: Node, P: set<Point>, k: nat, points: seq<Point>, mx: int, my: int)
    requires Depicts(r, P, 0, 0, k) && Moved(P, points, mx, my)
    requires forall u, v {:trigger (u, v) in P} :: (u, v) in P ==> InRange(r, u, v)
    ensures Draws(r, points, mx, my)
  {
    forall u, v {:trigger (u, v) in points} | (u, v) in points ensures InRange(r, u - mx, v - my) {
      assert (u - mx, v - my) in P;
    }
    CornerZero(k);
    forall u, v {:trigger Alive(r, u, v)} | InRange(r, u, v) ensures Alive(r, u, v) <==> (u + mx, v + my) in points {
      assert (Corner(0, k) + u, Corner(0, k) + v) == (u, v);
    }
  }

  /** Lines 76-93 of `construct`: the smallest coordinates and the list of
      level 0, which holds the node of each moved point's block, covers
      every moved point, and lists the block of the first one. */
  method Start(points: seq<Point>) returns (pattern: array<MapNode>, ghost P: set<Point>)
    requires |points| >= 1
    requires forall u, v {:trigger (u, v) in points} :: (u, v) in points ==> IsInt(u) && IsInt(v)
    requires forall u, v {:trigger (u, v) in points} :: (u, v) in points ==> u - MinX(points) < Span && v - MinY(points) < Span
    ensures fresh(pattern) && pattern.Length == |points| && Moved(P, points, MinX(points), MinY(points))
    ensures Canonical(P, pattern[..], 0) && Covers(P, pattern[..], 0) && AllSome(pattern[..])
    ensures (points[0].0 - MinX(points), points[0].1 - MinY(points)) in P
  {
    var minx, miny := MinCorner(points);
    pattern := FirstLevel(points, minx, miny);
    P := MovedSet(points, minx, miny);
    FirstLevelCanonical(points, pattern[..], P);
    MovedMember(points, P, minx, miny, 0);
  }

  /** Each point, moved, is in the set of moved points. */
  lemma MovedMember(points: seq<Point>, P: set<Point>, mx: int, my: int, i: int)
    requires Moved(P, points, mx, my) && 0 <= i < |points|
    ensures (points[i].0 - mx, points[i].1 - my) in P
  {
    assert (points[i].0 - mx + mx, points[i].1 - my + my) == points[i];
  }

  /** The `while (n > 1)` loop of `construct`, from the list of level k0:
      one pass per level until a single entry is left. The block of the
      point (qu, qv) keeps every list non-empty. */
  method Passes(store: Store, pattern: array<MapNode>, k0: nat, ghost P: set<Point>, ghost qu: int, ghost qv: int)
    returns (last: array<MapNode>, k: nat)
    requires store.Valid() && 1 <= pattern.Length && k0 <= 30 && (qu, qv) in P
    requires Canonical(P, pattern[..], k0) && Covers(P, pattern[..], k0) && AllSome(pattern[..])
    requires k0 >= 1 ==> Distinct(pattern[..])
    modifies pattern, store.table
    ensures store.Valid() && 1 <= last.Length && k <= 30
    ensures Canonical(P, last[..1], k) && Covers(P, last[..1], k)
  {
    last, k := pattern, k0;
    var m := pattern.Length;
    assert last[..m] == pattern[..];
    while m > 1
      invariant 1 <= m <= last.Length && k <= 30 && store.Valid()
      invariant last == pattern || fresh(last)
      invariant Canonical(P, last[..m], k) && Covers(P, last[..m], k) && AllSome(last[..m])
      invariant k >= 1 ==> Distinct(last[..m])
      decreases 30 - k
    {
      LevelBelowTop(P, last[..m], k);
      var next, m' := NextLevel(store, last, m, k, P);
      assert Listed(next[..m'], Shift(qu, k + 1), Shift(qv, k + 1));
      last, m, k := next, m', k + 1;
    }
  }

  /** `construct`: the node whose live cells are the given points, moved
      so that the smallest x and the smallest y are 0. It needs at least
      one point, and the moved points must fit the square of level 30,
      the largest `newnode` builds. */
  method Construct(store: Store, points: seq<Point>) returns (r: Node)
    requires store.Valid() && |points| >= 1
    requires forall u, v {:trigger (u, v) in points} :: (u, v) in points ==> IsInt(u) && IsInt(v)
    requires forall u, v {:trigger (u, v) in points} :: (u, v) in points ==> u - MinX(points) < Span && v - MinY(points) < Span
    modifies store.table
    ensures store.Valid() && r.WellFormed() && Draws(r, points, MinX(points), MinY(points))
    ensures r.Pop() == |MovedPoints(points, MinX(points), MinY(points))|
  {
    var pattern, P := Start(points);
    var last, k := Passes(store, pattern, 0, P, points[0].0 - MinX(points), points[0].1 - MinY(points));
    LastLevel(points, last[..1], k, P);
    r := last[0].p.value;
    DrawsCount(r, points, MinX(points), MinY(points));
  }

  /** The points moved by (-mx, -my), as a set: repeated points count once. */
  ghost function MovedPoints(points: seq<Point>, mx: int, my: int): set<Point> {
    set t {:trigger t in points} | t in points :: (t.0 - mx, t.1 - my)
  }

  /** A node that draws the points has one live cell per distinct point:
      its population is the number of distinct moved points. */
  lemma DrawsCount(r: Node, points: seq<Point>, mx: int, my: int)
    requires r.WellFormed() && Draws(r, points, mx, my)
    ensures r.Pop() == |MovedPoints(points, mx, my)|
  {
    forall e ensures e in AliveCells(r) <==> e in MovedPoints(points, mx, my) {
      AliveCellsMember(r, e);
      if (e.0 + mx, e.1 + my) in points {
        var t := (e.0 + mx, e.1 + my);
        assert (t.0 - mx, t.1 - my) == e;
      }
    }
    PopCounts(r);
    SameCard(AliveCells(r), MovedPoints(points, mx, my));
  }

  /** Drawing the node that draws the points paints exactly the points in
      view: cell (u, v) is painted when it is in the view and the point it
      shows, (u - x + mx, v - y + my), is one of the input points. */
  lemma DrawnPainted(r: Node, points: seq<Point>, mx: int, my: int, x: int, y: int,
                     vx: int, vy: int, cols: int, rows: int, u: int, v: int)
    requires r.WellFormed() && Draws(r, points, mx, my)
    ensures Painted(r, x, y, vx, vy, cols, rows, u, v) <==> InView(vx, vy, cols, rows, u, v) && (u - x + mx, v - y + my) in points
  {
    if (u - x + mx, v - y + my) in points {
      assert InRange(r, (u - x + mx) - mx, (v - y + my) - my);
    }
  }
}
