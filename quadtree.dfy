/** The quadtree node of the HashLife engine (hashlife.h:14-21): a live or
    dead cell at level 0, or a square made of four equal-level quadrants
    a (top-left), b (top-right), c (bottom-left) and d (bottom-right).
    Nodes are immutable values, so two structurally equal nodes are the
    same node: the value-level Join below is the canonical `join`. */
module Quadtree {

  datatype Option<T> = None | Some(value: T)

  datatype Node =
    | Leaf(alive: bool)
    | Inner(k: nat, n: nat, a: Node, b: Node, c: Node, d: Node)
  {
    /** The level k: log2 of the side length. */
    function Level(): nat {
      if Leaf? then 0 else k
    }

    /** The population n: live cells beneath the node. */
    function Pop(): nat {
      if Leaf? then (if alive then 1 else 0) else n
    }

    /** The invariant every node built by `newnode` has: four children of
        one level, a level one above theirs and the summed population. */
    predicate WellFormed()
      decreases this
    {
      match this
      case Leaf(_) => true
      case Inner(k, n, a, b, c, d) =>
        && a.WellFormed() && b.WellFormed() && c.WellFormed() && d.WellFormed()
        && a.Level() == b.Level() == c.Level() == d.Level()
        && k == a.Level() + 1
        && n == a.Pop() + b.Pop() + c.Pop() + d.Pop()
    }
  }

  /** The two level-0 singletons `on` and `off`. */
  const ON: Node := Leaf(true)
  const OFF: Node := Leaf(false)

  /** Side length of a level-k node, `1 << k`. */
  function Size(k: nat): (s: nat)
    ensures s >= 1
  {
    if k == 0 then 1 else 2 * Size(k - 1)
  }

  /** The node `join` yields for four children of one level. */
  function Join(a: Node, b: Node, c: Node, d: Node): (r: Node)
    requires a.WellFormed() && b.WellFormed() && c.WellFormed() && d.WellFormed()
    requires a.Level() == b.Level() == c.Level() == d.Level()
    ensures r.WellFormed() && r.Level() == a.Level() + 1
  {
    Inner(a.Level() + 1, a.Pop() + b.Pop() + c.Pop() + d.Pop(), a, b, c, d)
  }

  /** The all-dead node of level k: OFF joined with itself level by level. */
  function Zero(k: nat): (r: Node)
    ensures r.WellFormed() && r.Level() == k && r.Pop() == 0
  {
    if k == 0 then OFF else var z := Zero(k - 1); Join(z, z, z, z)
  }

  ghost predicate InRange(p: Node, x: int, y: int) {
    0 <= x < Size(p.Level()) && 0 <= y < Size(p.Level())
  }

  /** The cell at column x, row y of p, (0, 0) being the top-left corner. */
  function Alive(p: Node, x: int, y: int): bool
    requires p.WellFormed() && InRange(p, x, y)
    decreases p
  {
    match p
    case Leaf(alive) => alive
    case Inner(k, _, a, b, c, d) =>
      var h := Size(k - 1);
      if y < h then
        (if x < h then Alive(a, x, y) else Alive(b, x - h, y))
      else
        (if x < h then Alive(c, x, y - h) else Alive(d, x - h, y - h))
  }

  /** A node of population 0 has no live cell. */
  lemma {:induction false} DeadIfEmpty(p: Node, x: int, y: int)
    requires p.WellFormed() && p.Pop() == 0 && InRange(p, x, y)
    ensures !Alive(p, x, y)
    decreases p
  {
    match p
    case Leaf(_) =>
    case Inner(k, _, a, b, c, d) =>
      var h := Size(k - 1);
      if y < h {
        if x < h { DeadIfEmpty(a, x, y); } else { DeadIfEmpty(b, x - h, y); }
      } else {
        if x < h { DeadIfEmpty(c, x, y - h); } else { DeadIfEmpty(d, x - h, y - h); }
      }
  }

  /** A node of positive population has a live cell. */
  lemma {:induction false} SomeLiveCell(p: Node) returns (x: int, y: int)
    requires p.WellFormed() && p.Pop() > 0
    ensures InRange(p, x, y) && Alive(p, x, y)
    decreases p
  {
    match p
    case Leaf(_) =>
      x, y := 0, 0;
    case Inner(k, _, a, b, c, d) =>
      var h := Size(k - 1);
      if a.Pop() > 0 {
        x, y := SomeLiveCell(a);
      } else if b.Pop() > 0 {
        var u, v := SomeLiveCell(b);
        x, y := u + h, v;
      } else if c.Pop() > 0 {
        var u, v := SomeLiveCell(c);
        x, y := u, v + h;
      } else {
        var u, v := SomeLiveCell(d);
        x, y := u + h, v + h;
      }
  }

  /** There is one all-dead node per level: a well-formed node of population 0 is Zero. */
  lemma {:induction false} EmptyIsZero(p: Node)
    requires p.WellFormed() && p.Pop() == 0
    ensures p == Zero(p.Level())
    decreases p
  {
    if p.Inner? {
      EmptyIsZero(p.a);
      EmptyIsZero(p.b);
      EmptyIsZero(p.c);
      EmptyIsZero(p.d);
      ZeroStep(p.k);
    }
  }

  /** Zero of a positive level is the join of four Zeros one level down. */
  lemma ZeroStep(k: nat)
    requires k >= 1
    ensures var z := Zero(k - 1); Zero(k) == Inner(k, 0, z, z, z, z)
  {
  }

}
