/** The node store of hashlife.c: `hashtab`, a direct-mapped table of
    MAX_NODES slots, indexed by a hash of the four children, through which
    `join`, `find_node`, `newnode` and `get_zero` intern nodes. The hash
    the source computes from the children's addresses is a parameter of
    the store here (`hash`); everything else follows the source. */
module NodeStore {
  import opened Quadtree

  /** `MAX_NODES`, `(1 << 2*8) - 1` (hashlife.h:63), the number of slots `init` allocates. */
  const MaxNodes: nat := 65535

  /** `newnode` refuses children of this level or above (hashlife.c:30). */
  const MaxLevel: nat := 30

  /** An `unsigned int`, the type of the hash and of node_hash's result. */
  newtype Word = h: int | 0 <= h < 0x1_0000_0000

  /** The `int` an `unsigned int` converts to (two's complement). */
  function AsInt(u: Word): int {
    if u < 0x8000_0000 then u as int else u as int - 0x1_0000_0000
  }

  /** `h % MAX_NODES` in node_hash as the preprocessor expands it:
      `h % (1 << 2*8) - 1`, that is `(h % 65536) - 1`, in unsigned arithmetic. */
  function NodeHashAsWritten(h: Word): Word {
    ((h as int % 65536 - 1) % 0x1_0000_0000) as Word
  }

  /** The slot `find_node` and `newnode` index with the hash as written:
      node_hash's result stored in an `int`. It falls outside the table
      exactly when the hash is a multiple of 65536, and then it is -1. */
  lemma SlotAsWrittenOutOfBounds(h: Word)
    ensures AsInt(NodeHashAsWritten(h)) < MaxNodes
    ensures AsInt(NodeHashAsWritten(h)) < 0 <==> h as int % 65536 == 0
    ensures h as int % 65536 == 0 ==> AsInt(NodeHashAsWritten(h)) == -1
  {
  }

  /** The slot of a hash as evidently intended, `h % 65535`: always a slot of the table. */
  function Slot(h: Word): (s: int)
    ensures 0 <= s < MaxNodes
  {
    h as int % MaxNodes
  }

  /** The guard `join` and `newnode` assert, `(a->k ^ b->k ^ c->k ^ d->k) == 0`,
      on the `unsigned short` levels. */
  predicate JoinGuardAsWritten(ka: bv16, kb: bv16, kc: bv16, kd: bv16) {
    ka ^ kb ^ kc ^ kd == 0
  }

  /** The guard lets four equal levels through, as intended, but also two
      pairs of different levels, which the comment beside it means to refuse. */
  lemma JoinGuardAdmitsMixedLevels()
    ensures forall k: bv16 :: JoinGuardAsWritten(k, k, k, k)
    ensures JoinGuardAsWritten(1, 1, 2, 2)
  {
  }

  /** The node `n` holds exactly the children a, b, c, d. */
  predicate HasChildren(n: Node, a: Node, b: Node, c: Node, d: Node) {
    n.Inner? && n.a == a && n.b == b && n.c == c && n.d == d
  }

  /** What `join` returns as written: whatever node the slot of the key
      holds, without comparing its children, or a new node when it is empty.
      It indexes the table with the corrected `Slot(h)`, not with
      NodeHashAsWritten, so it carries only the first of the two defects:
      the missing comparison of children, not the slot -1. */
  function JoinAsWritten(t: seq<Option<Node>>, h: Word, a: Node, b: Node, c: Node, d: Node): Node
    requires |t| == MaxNodes
    requires a.WellFormed() && b.WellFormed() && c.WellFormed() && d.WellFormed()
    requires a.Level() == b.Level() == c.Level() == d.Level()
  {
    match t[Slot(h)]
    case Some(n) => n
    case None => Join(a, b, c, d)
  }

  /** `join` as written returns the right node exactly when the slot of
      the key is empty or already holds that node: on a collision with
      another node it returns the other node. */
  lemma JoinAsWrittenCorrectIff(t: seq<Option<Node>>, h: Word, a: Node, b: Node, c: Node, d: Node)
    requires |t| == MaxNodes
    requires a.WellFormed() && b.WellFormed() && c.WellFormed() && d.WellFormed()
    requires a.Level() == b.Level() == c.Level() == d.Level()
    ensures JoinAsWritten(t, h, a, b, c, d) == Join(a, b, c, d)
            <==> t[Slot(h)].None? || t[Slot(h)] == Some(Join(a, b, c, d))
  {
  }

  /** A collision: the slot of the key h of (on, off, off, off) already
      holds the node of four `off` leaves, and `join` as written hands that
      node back. */
  lemma JoinAsWrittenCollision(t: seq<Option<Node>>, h: Word, on: Node, off: Node)
    requires on.Leaf? && on.alive && off.Leaf? && !off.alive
    requires |t| == MaxNodes && t[Slot(h)] == Some(Join(off, off, off, off))
    ensures JoinAsWritten(t, h, on, off, off, off) != Join(on, off, off, off)
  {
    assert Join(off, off, off, off).a != Join(on, off, off, off).a;
  }

  /** A well-formed node with children a, b, c, d is the node `join` builds from them. */
  lemma FoundIsJoin(n: Node, a: Node, b: Node, c: Node, d: Node)
    requires n.WellFormed() && HasChildren(n, a, b, c, d)
    ensures a.WellFormed() && b.WellFormed() && c.WellFormed() && d.WellFormed()
    ensures a.Level() == b.Level() == c.Level() == d.Level()
    ensures n == Join(a, b, c, d)
  {
  }

  /** `newnode` overwrites the slot of its key: a node m held there with
      other children is evicted, so a lookup of m's children that found m
      before finds nothing afterwards, and a later `join` of those children
      builds a second node for them. The table is a direct-mapped cache,
      not a set of all nodes built. */
  lemma NewNodeEvicts(hash: (Node, Node, Node, Node) -> Word, t: seq<Option<Node>>,
                      a: Node, b: Node, c: Node, d: Node, m: Node)
    requires |t| == MaxNodes
    requires a.WellFormed() && b.WellFormed() && c.WellFormed() && d.WellFormed()
    requires a.Level() == b.Level() == c.Level() == d.Level()
    requires m.Inner? && !HasChildren(m, a, b, c, d)
    requires t[Slot(hash(a, b, c, d))] == Some(m) && Slot(hash(m.a, m.b, m.c, m.d)) == Slot(hash(a, b, c, d))
    ensures exists n :: t[Slot(hash(m.a, m.b, m.c, m.d))] == Some(n) && HasChildren(n, m.a, m.b, m.c, m.d)
    ensures var t' := t[Slot(hash(a, b, c, d)) := Some(Join(a, b, c, d))];
            !exists n :: t'[Slot(hash(m.a, m.b, m.c, m.d))] == Some(n) && HasChildren(n, m.a, m.b, m.c, m.d)
  {
    assert t[Slot(hash(m.a, m.b, m.c, m.d))] == Some(m) && HasChildren(m, m.a, m.b, m.c, m.d);
  }

  /** `hashtab` with the hash it is indexed by. */
  class Store {
    /** node_hash's value before reduction, for four children. */
    const hash: (Node, Node, Node, Node) -> Word
    const table: array<Option<Node>>

    /** The table has MAX_NODES slots, and every node in it is a
        well-formed inner node stored in the slot of its own children. */
    ghost predicate Valid()
      reads this, table
    {
      && table.Length == MaxNodes
      && forall i :: 0 <= i < table.Length && table[i].Some? ==>
           var n := table[i].value;
           n.WellFormed() && n.Inner? && Slot(hash(n.a, n.b, n.c, n.d)) == i
    }

    /** `init`: a table of empty slots. */
    constructor (hash: (Node, Node, Node, Node) -> Word)
      ensures Valid() && this.hash == hash && fresh(table)
      ensures forall i :: 0 <= i < table.Length ==> table[i].None?
    {
      this.hash := hash;
      table := new Option<Node>[MaxNodes](_ => None);
    }

    /** `find_node`, comparing the children of the node in the slot:
        a node is found only if it is the node of these children. */
    method FindNode(a: Node, b: Node, c: Node, d: Node) returns (r: Option<Node>)
      requires Valid()
      ensures r.Some? <==> exists n :: table[Slot(hash(a, b, c, d))] == Some(n) && HasChildren(n, a, b, c, d)
      ensures r.Some? ==> r.value.WellFormed() && r == table[Slot(hash(a, b, c, d))]
      ensures r.Some? ==> HasChildren(r.value, a, b, c, d)
    {
      var s := Slot(hash(a, b, c, d));
      r := table[s];
      if r.Some? && !HasChildren(r.value, a, b, c, d) {
        r := None;
      }
    }

    /** `newnode`: the node of four equal-level children, with the summed
        population and a level one higher, stored in its slot. */
    method NewNode(a: Node, b: Node, c: Node, d: Node) returns (r: Node)
      requires Valid()
      requires a.WellFormed() && b.WellFormed() && c.WellFormed() && d.WellFormed()
      requires a.Level() == b.Level() == c.Level() == d.Level() < MaxLevel
      modifies table
      ensures Valid()
      ensures r == Quadtree.Join(a, b, c, d)
      ensures r.Pop() == a.Pop() + b.Pop() + c.Pop() + d.Pop() && r.Level() == a.Level() + 1
      ensures HasChildren(r, a, b, c, d)
      ensures table[..] == old(table[..])[Slot(hash(a, b, c, d)) := Some(r)]
    {
      r := Inner(a.Level() + 1, a.Pop() + b.Pop() + c.Pop() + d.Pop(), a, b, c, d);
      table[Slot(hash(a, b, c, d))] := Some(r);
    }

    /** `join`: the interned node of four equal-level children. The
        result is the node of those children whether it was found or
        built; a new node needs children below MaxLevel. Afterwards the
        slot of the key holds it. */
    method Join(a: Node, b: Node, c: Node, d: Node) returns (r: Node)
      requires Valid()
      requires a.WellFormed() && b.WellFormed() && c.WellFormed() && d.WellFormed()
      requires a.Level() == b.Level() == c.Level() == d.Level()
      requires a.Level() < MaxLevel || table[Slot(hash(a, b, c, d))] == Some(Quadtree.Join(a, b, c, d))
      modifies table
      ensures Valid()
      ensures r == Quadtree.Join(a, b, c, d)
      ensures table[Slot(hash(a, b, c, d))] == Some(r)
      ensures forall i :: 0 <= i < table.Length && i != Slot(hash(a, b, c, d)) ==> table[i] == old(table[i])
    {
      var found := FindNode(a, b, c, d);
      if found.Some? {
        FoundIsJoin(found.value, a, b, c, d);
        r := found.value;
      } else {
        r := NewNode(a, b, c, d);
      }
    }

    /** `get_zero`: the all-dead node of level k, built from OFF by k
        self-joins. Every slot it touches ends up holding an empty node. */
    method GetZero(k: nat) returns (r: Node)
      requires Valid() && k <= MaxLevel
      modifies table
      ensures Valid()
      ensures r == Zero(k) && r.Level() == k && r.Pop() == 0
      ensures forall i :: 0 <= i < table.Length ==> table[i] == old(table[i]) || (table[i].Some? && table[i].value.Pop() == 0)
    {
      var c := 0;
      r := OFF;
      while c != k
        invariant Valid() && 0 <= c <= k && r == Zero(c)
        invariant forall i :: 0 <= i < table.Length ==> table[i] == old(table[i]) || (table[i].Some? && table[i].value.Pop() == 0)
      {
        r := Join(r, r, r, r);
        c := c + 1;
      }
    }
  }
}
