# HashLife quadtree engine, modelled in Dafny

This project models the quadtree engine of `hashlife.c`. That engine runs
Conway's Game of Life on a canonical quadtree. A node is a leaf (one live
or dead cell) or a square of four equal-level quadrants a (top-left),
b (top-right), c (bottom-left) and d (bottom-right). Each node records its
level k, with side 2^k, and its population n.

The model covers these parts:

- **Node store** (`store.dfy`, module `NodeStore`). The `hashtab` table is
  a class holding an array of 65535 slots. The methods `join`, `newnode`
  and `get_zero` update it in place; `find_node` only reads it. The address
  hash of `node_hash` is a parameter of the store.
- **Nodes as values** (`quadtree.dfy`, module `Quadtree`). Nodes are
  immutable values, so two structurally equal nodes are the same node.
  The value-level `Join` is the node `join` interns, and `Zero(k)` is the
  node `get_zero(k)` returns.
- **Construction** (`construct.dfy`, module `Construction`). This is
  `construct` with its arrays and loops:
  - the search for the smallest coordinates;
  - the list of level 0;
  - the passes that join every 2x2 block into one entry of the next level.
- **Step engine** (`step.dfy`, module `Step`). The pure functions `life`,
  `life4x4` and `successor`. They are specified against the Conway rule
  applied to every cell of the node's plane (`windows.dfy`, module
  `Windows`).
- **Boundary** (`boundary.dfy`, module `Boundary`). The pure functions
  `is_padded`, `inner`, `crop`, `centre` and `pad`. `is_padded` is a
  predicate, proved to hold exactly when the live cells lie in the central
  square. `inner` keeps the live pattern of a padded node. `crop`, `centre`
  and `pad` keep the live pattern of any node they accept: only where it
  sits moves.
- **Drawing** (`expand.dfy`, module `Display`). `expand` writes a node's
  live cells into a two-dimensional grid. The view rectangle and the grid
  are parameters.

What is proved, in short:

- A node's population is the number of its live cells.
- `construct` returns a node whose live cells are exactly the input
  points, moved so that the smallest x and the smallest y are 0. Its
  population is the number of distinct points, and `expand` paints exactly
  the points that fall in the view.
- `successor` returns the centre half of its argument one generation
  later.
- `crop`, `centre`, `pad` and `crop(pad(p))` keep the pattern. `pad`'s
  result is padded. `inner` undoes `centre`.
- `is_padded` holds exactly when every live cell lies in the central
  square of side 2^(k-2).
- The store always returns the node of the children it was given. This
  holds for the corrected `find_node`; see the Findings below.

## Model

| member | source | states |
|---|---|---|
| Quadtree.Join | hashlife.c:34-40 | The node of four equal-level children is well-formed and one level above them. |
| Quadtree.Zero | hashlife.c:57-69 | `get_zero(k)` is a well-formed node of level k with population 0. |
| Quadtree.DeadIfEmpty | hashlife.c:231-232 | A node of population 0 has no live cell. |
| Quadtree.SomeLiveCell | hashlife.c:34-35 | A node of positive population has a live cell. With DeadIfEmpty, the population is 0 exactly when no cell is alive. |
| Quadtree.EmptyIsZero | hashlife.c:57-69 | Every well-formed empty node equals `get_zero` of its level: there is one empty node per level. |
| NodeStore.NodeHashAsWritten | hashlife.c:24 | The slot reduction as the preprocessor expands it, `(h % 65536) - 1` in unsigned arithmetic; SlotAsWrittenOutOfBounds states what it gives. |
| NodeStore.SlotAsWrittenOutOfBounds | hashlife.c:17-25 | The unparenthesised `h % MAX_NODES` gives the slot -1 exactly when the hash is a multiple of 65536, and never a slot past the table. |
| NodeStore.Slot | hashlife.c:24 | The evidently intended reduction `h % 65535` always gives a slot inside the table. |
| NodeStore.JoinGuardAsWritten | hashlife.c:6 | The XOR test on the four `unsigned short` levels, as written; JoinGuardAdmitsMixedLevels states what it admits. |
| NodeStore.JoinGuardAdmitsMixedLevels | hashlife.c:6 | The XOR guard accepts four equal levels, and also levels (1, 1, 2, 2). |
| NodeStore.JoinAsWritten | hashlife.c:51-55 | `join` as written: the node in the key's slot, whatever its children, or a new node when the slot is empty. It indexes with the corrected slot, so it carries only the missing child comparison. |
| NodeStore.JoinAsWrittenCorrectIff | hashlife.c:51-55 | `join` as written returns the right node exactly when the key's slot is empty or already holds that node. |
| NodeStore.JoinAsWrittenCollision | hashlife.c:5-12 | On a collision, `join` as written returns a node with different children. |
| NodeStore.FoundIsJoin | hashlife.c:8-11 | A stored node whose children are the given four is the node `join` builds from them. |
| NodeStore.Store.constructor | hashlife.c:15 | `init`: every slot of a table of MAX_NODES slots is empty. |
| NodeStore.Store.FindNode | hashlife.c:51-55 | The result is a node exactly when the key's slot holds a node with these children, and it is that node. |
| NodeStore.Store.NewNode | hashlife.c:28-49 | The new node has the summed population, is one level above its children and holds them. It is written to its slot and nothing else changes. |
| NodeStore.NewNodeEvicts | hashlife.c:42-43 | When another node m sits in the new node's slot, m is found by its children before `newnode` and no longer after: the slot is overwritten, not chained. |
| NodeStore.Store.Join | hashlife.c:5-12 | Found or built, the result is the node of the four children. Afterwards the key's slot holds it and every other slot is unchanged. |
| NodeStore.Store.GetZero | hashlife.c:57-69 | The result is the all-dead node of level k. Every slot it touches ends up holding an empty node. |
| Windows.CellA | hashlife.c:189-193 | A cell in the top-left quadrant of a node is the same cell of child a. |
| Windows.CellB | hashlife.c:189-193 | A cell in the top-right quadrant is the cell of child b, moved left by half the side. |
| Windows.CellC | hashlife.c:189-193 | A cell in the bottom-left quadrant is the cell of child c, moved up by half the side. |
| Windows.CellD | hashlife.c:189-193 | A cell in the bottom-right quadrant is the cell of child d, moved by half the side both ways. |
| Windows.JoinShows | hashlife.c:37-40 | Four nodes showing the four quadrants of a square of a plane join into a node showing that square. |
| Windows.Split | hashlife.c:37-40 | A node showing a square of a plane has four children, one level down, each showing its quadrant. |
| Windows.ShowsStep | hashlife.c:196-261 | A node showing the next generation of p's plane, placed inside p away from its border, is p's step at that offset. |
| Windows.NextCells | hashlife.c:280-286 | A cell of the next-generation plane of p is Conway's rule applied to p's 3x3 neighbourhood around that cell. |
| Windows.LiveMember | hashlife.h:17-20 | The cells collected quadrant by quadrant, each child at its own corner, are exactly the live cells of the node. |
| Windows.QuadrantsCount | hashlife.c:34-35 | The quadrants' live cells are disjoint, so a node whose children's populations count their live cells has as many live cells as its population. |
| Windows.PopIsLiveCount | hashlife.c:34-35 | The population summed by `newnode` is the number of the node's live cells, wherever the node is drawn. |
| Windows.PopCounts | hashlife.h:15 | The population field `n` is the number of live cells of the node. |
| Windows.DeadStep | hashlife.c:231-232 | An empty node is the next generation of any region of an empty node. |
| Step.Life | hashlife.c:268-287 | `life` returns a leaf of level 0. |
| Step.LifeRule | hashlife.c:280-286 | A live centre survives with 2 or 3 live neighbours; a dead one is born with exactly 3. |
| Step.LifeGuardAsWritten | hashlife.c:280 | The guard as C parses it: the XOR chain ends in the 0/1 value of `n9->k == 0` and is tested for non-zero. |
| Step.LifeGuardAcceptsLeaves | hashlife.c:280 | The guard as written lets every call on nine leaves through. |
| Step.LifeGuardAdmitsLevelOne | hashlife.c:280 | The guard as written also accepts two level-1 neighbours, which the intended all-leaves guard refuses. |
| Step.Life4x4 | hashlife.c:289-308 | `life4x4` of a level-2 node is a well-formed level-1 node. |
| Step.Life4x4Step | hashlife.c:302-307 | `life4x4` returns the central 2x2 square of its 4x4 argument one generation later. |
| Step.Cells4x4 | hashlife.c:289-300 | The sixteen cells of a level-2 node are the leaves laid out in the diagram. |
| Step.LifeOfNeighbourhood | hashlife.c:303-306 | `life` on the nine leaves around a cell gives that cell's next state. |
| Step.Grandchildren | hashlife.c:237-245 | A node of level k >= 2 has sixteen well-formed grandchildren of level k-2. |
| Step.Successor | hashlife.c:230-260 | `successor` of a node of level k >= 2 is a well-formed node of level k-1. |
| Step.LiveSuccessor | hashlife.c:233-258 | On a node with live cells, the nine-sub-square case returns a well-formed node of level k-1. |
| Step.SubStep | hashlife.c:237-245 | Each of the nine successors c1..c9 shows p's next generation, a quarter of its sub-square's side inside that sub-square. |
| Step.CrossShows | hashlife.c:247-251 | Joining the inner corners of four successors shows the next generation on the square between them. |
| Step.AssembleShows | hashlife.c:247-251 | The four joins of c1..c9 assemble into one node that shows the next generation centred on the grid. |
| Step.SubShows | hashlife.c:237-245 | Inside a sub-square and away from its border, the sub-square and p have the same next generation. |
| Step.NineShows | hashlife.c:236-251 | The level k >= 3 case shows p's next generation at a quarter of p's side. |
| Step.SuccessorShows | hashlife.c:196-261 | `successor` shows p's next generation at a quarter of p's side, empty nodes included. |
| Step.LiveSuccessorShows | hashlife.c:233-258 | The same property for a node with live cells: the level-2 and the level k >= 3 cases. |
| Step.SuccessorStep | hashlife.c:196-261 | `successor(p, j)` is exactly the centre half of p one generation later, for every j. |
| Boundary.GrandchildPops | hashlife.c:316-320 | The grandchildren's populations add up to the children's, and those to the node's. |
| Boundary.IsPadded | hashlife.c:312-321 | `is_padded`: level 3 or more, and each quadrant's population lies in its grandchild at the centre; PaddedIffCentral states what it means. |
| Boundary.QuadrantAPadded | hashlife.c:317 | Quadrant a has all its population in a.d.d exactly when its live cells lie in the node's central square. |
| Boundary.QuadrantBPadded | hashlife.c:318 | The same for quadrant b and b.c.c. |
| Boundary.QuadrantCPadded | hashlife.c:319 | The same for quadrant c and c.b.b. |
| Boundary.QuadrantDPadded | hashlife.c:320 | The same for quadrant d and d.a.a. |
| Boundary.PaddedIffCentral | hashlife.c:312-321 | A node of level k >= 3 is padded exactly when all its live cells lie in the central square of side 2^(k-2). |
| Boundary.Inner | hashlife.c:323-325 | `inner` is a well-formed node one level below its argument. |
| Boundary.InnerShows | hashlife.c:323-325 | `inner` is the central half of its argument, at a quarter of the side. |
| Boundary.InnerHolds | hashlife.c:323-331 | The inner node of a padded node keeps the whole population and all of its live cells. |
| Boundary.Crop | hashlife.c:327-332 | `crop` keeps the population and never raises the level. Its result is at level 3 or below, or not padded. |
| Boundary.CropHolds | hashlife.c:327-332 | The result of `crop` holds exactly p's live cells, at a known offset inside p. |
| Boundary.Centre | hashlife.c:334-341 | For a node below level 30, where `newnode` accepts the outer join, `centre` is one level up and keeps the population. |
| Boundary.CentreShows | hashlife.c:334-341 | The centred node shows p's plane, with p a quarter of the new side in. |
| Boundary.CentreContains | hashlife.c:334-341 | Every live cell of p lies inside the centred node. |
| Boundary.CentreHolds | hashlife.c:334-341 | `centre` keeps the pattern: p's live cells are exactly the centred node's, moved a quarter side in. |
| Boundary.CentredPops | hashlife.c:336-340 | The centred node always has each quadrant's population in its inner child. It is padded exactly when p's quadrants have theirs in their inner children. |
| Boundary.CentrePadded | hashlife.c:334-348 | Centring once gives a node whose quadrants are inner-heavy; centring that node again gives a padded node. |
| Boundary.CentreFits | hashlife.c:343-348 | Each centring `pad` does is of a node below level 30, and the centred node again meets Pad's precondition, one step closer to the end. |
| Boundary.RankStep | hashlife.c:343-348 | The same, stated on any node with the properties CentrePadded proves of the centred node. |
| Boundary.Pad | hashlife.c:343-348 | For a node that `pad` never centres at level 30, `pad` terminates with a padded node above level 3. The result is no smaller than p and has p's population. |
| Boundary.PadCentred | hashlife.c:344-345 | One centring step of `pad` keeps the pattern whenever the rest of the recursion does. |
| Boundary.PadHolds | hashlife.c:343-348 | The result of `pad` holds exactly p's live cells, at a known offset. |
| Boundary.InnerOfCentre | hashlife.c:323-341 | `inner(centre(p)) == p`. |
| Boundary.HoldsCompose | hashlife.c:327-348 | Holding the pattern is transitive, with the offsets added. |
| Boundary.CropPadHolds | hashlife.c:327-348 | `crop(pad(p))` holds exactly p's live cells, at a known offset. |
| Boundary.CornerUnpadded | hashlife.c:312-321 | A node of level k >= 3 whose one live cell is its corner cell is neither padded nor inner-heavy. |
| Boundary.CropPadNotCrop | hashlife.c:327-348 | For that node at any level 4..28, `crop` returns it unchanged, while `crop(pad(p))` is `centre(p)`, so the two differ. |
| Display.LiveSplit | hashlife.c:189-193 | A live cell of a node is a live cell of exactly the quadrant it lies in, drawn at that quadrant's corner. |
| Display.Expand | hashlife.c:168-194 | Exactly the grid cells that are in the view and are live cells of the node drawn at (x, y) are set to 1. Every other cell keeps its value. |
| Construction.SpanIsSize | hashlife.c:30 | The side of the largest node `newnode` builds, level 30, is 2^30. |
| Construction.MinXUpTo | hashlife.c:76-81 | The running minimum of x is at most INT_MAX and every x seen so far. It is INT_MAX or one of them. |
| Construction.MinYUpTo | hashlife.c:76-81 | The running minimum of y, likewise. |
| Construction.MinX | hashlife.c:74-82 | The smallest x is a lower bound of every point's x. It is INT_MAX or some point's x. |
| Construction.MinY | hashlife.c:74-82 | The smallest y, likewise. |
| Construction.MinAttained | hashlife.c:74-82 | For points that are C ints, some point has the smallest x and some point has the smallest y. |
| Construction.MinCorner | hashlife.c:74-82 | The first loop computes the smallest x and the smallest y. |
| Construction.MovedSet | hashlife.c:86-87 | The points moved by (-min_x, -min_y) form a set P. |
| Construction.MovedMember | hashlife.c:86-87 | Every input point, moved, is in P. |
| Construction.FirstLevel | hashlife.c:84-92 | Entry i of the level-0 list is `on` at point i, moved. |
| Construction.OnDepicts | hashlife.c:91 | `on` is the node of the level-0 block of each moved point. |
| Construction.FirstEntry | hashlife.c:85-92 | Each level-0 entry holds the node of its block, within the level-30 square. |
| Construction.FirstLevelDepicts | hashlife.c:85-92 | Every level-0 entry holds the node of its block. |
| Construction.FirstLevelCovers | hashlife.c:85-92 | Every moved point has a level-0 entry, and every entry holds a node. |
| Construction.FirstLevelCanonical | hashlife.c:85-92 | The level-0 list is canonical, covers every point, and holds a node in every entry. |
| Construction.Start | hashlife.c:73-93 | Lines 76-93 give a level-0 list that is canonical and covers every moved point. |
| Construction.TakeEntry | hashlife.c:107-124 | Entry j is taken and hands its node to its quadrant exactly when it has a node and stands for a quadrant of the block at (x, y). |
| Construction.TakeStart | hashlife.c:104 | Before the loop over j, nothing is taken and every quadrant is `get_zero`'s node. |
| Construction.TakeStep | hashlife.c:107-124 | One step of the loop over j keeps "exactly the block's entries from i on are taken". |
| Construction.GatherStep | hashlife.c:111-124 | After one step, a quadrant node is the node of some entry so far for that quadrant, or z if there is none. |
| Construction.GatherQuadrants | hashlife.c:111-124 | The previous property, for all four quadrants at once. |
| Construction.TakeNext | hashlife.c:106-125 | One iteration of the loop over j keeps its invariant. |
| Construction.TakeBlock | hashlife.c:104-125 | The loop over j takes exactly the block's entries from i on. It returns for each quadrant the node of some entry for it, or z when there is none. |
| Construction.EmptyDepicts | hashlife.c:96 | `get_zero(k)` is the node of any block of level k that holds no point. |
| Construction.QuadrantNode | hashlife.c:104-125 | Each gathered quadrant node is the node of its quadrant block, whether found or filled with zero. |
| Construction.QuadrantsDepict | hashlife.c:104-125 | The four gathered nodes are the nodes of the block's four quadrants. |
| Construction.EvenHalf | hashlife.c:105 | A coordinate rounded down to even is twice its half. |
| Construction.SameHalf | hashlife.c:105 | Both columns of a pair halve to the same block column (`x >> 1`). |
| Construction.BlockOrigin | hashlife.c:130 | A column of a half-block, one level down, is the matching column of the block. |
| Construction.ShiftCorner | hashlife.c:130 | A column of block b of level k is shifted k times back to b. |
| Construction.QuadrantCell | hashlife.c:127-130 | A cell of a block is the matching cell of the quadrant node it lies in. |
| Construction.JoinDepicts | hashlife.c:127-130 | The join of the four quadrant nodes of a block is the node of the block one level up. |
| Construction.BlockDepicts | hashlife.c:104-129 | The gathered quadrant nodes are well-formed, of level k, and join into the node of the block at (x >> 1, y >> 1). |
| Construction.HalfRange | hashlife.c:130 | Halving keeps block coordinates inside the level-30 square. |
| Construction.PassStart | hashlife.c:96-99 | At the start of a pass, the pass invariant holds with an empty next list. |
| Construction.PassSkip | hashlife.c:101-102 | Skipping a taken entry keeps the pass invariant. |
| Construction.TakenKeeps | hashlife.c:106-125 | Taking a block's entries keeps the level-k list canonical, and entries up to i are taken. |
| Construction.AppendBlock | hashlife.c:130-131 | Appending the block's node keeps the next list canonical, node-holding and free of duplicate blocks. |
| Construction.ListedAppend | hashlife.c:130-131 | A block is listed after an append exactly when it was listed before or is the appended entry's block. |
| Construction.DistinctAppend | hashlife.c:130-131 | Appending a block not yet listed keeps the list free of duplicate blocks. |
| Construction.CoverAll | hashlife.c:127-131 | After the append, every point is still covered by the next list or by an untaken entry. |
| Construction.FreshAll | hashlife.c:127-131 | After the append, no untaken entry belongs to a block already in the next list. |
| Construction.PassBlock | hashlife.c:127-131 | Building one block's node and appending it keeps the pass invariant, one entry further on. |
| Construction.BlockNode | hashlife.c:100-131 | One iteration of the loop over i keeps the pass invariant, with the block's interned node appended. |
| Construction.PassEnd | hashlife.c:133 | At the end of a pass, every point's block of the next level has an entry. |
| Construction.NextLevel | hashlife.c:96-135 | One pass gives a next-level list that is canonical, covers every point, holds nodes and lists no block twice. |
| Construction.LevelBelowTop | hashlife.c:95 | While more than one entry remains, the level is below 30, so `newnode`'s level bound holds. |
| Construction.Passes | hashlife.c:94-136 | The `while (n > 1)` loop ends with one entry that is canonical and covers every point. |
| Construction.SoleEntry | hashlife.c:138 | The one remaining entry holds the node of block (0, 0), and every moved point lies inside it. |
| Construction.FirstBlock | hashlife.c:138 | A non-negative coordinate in block 0 of level k is below 2^k. |
| Construction.MovedCorner | hashlife.c:73-87 | The moved points are non-negative, one has x = 0 and one has y = 0. |
| Construction.MovedCells | hashlife.c:138-140 | The node of block (0, 0) draws exactly the moved points. |
| Construction.LastLevel | hashlife.c:138-140 | The final entry's node is well-formed and draws the moved points. |
| Construction.Construct | hashlife.c:71-141 | `construct` returns a well-formed node whose live cells are exactly the input points moved by (-min_x, -min_y). Every moved point lies inside the node, and the population is the number of distinct points. |
| Construction.DrawsCount | hashlife.c:138-140 | A node that draws the points has a population equal to the number of distinct moved points. |
| Construction.DrawnPainted | hashlife.c:168-194 | Expanding the node that draws the points paints cell (u, v) exactly when it is in the view and the point it shows is one of the input points. |

## Left out

- `lifeterm.c`, the pattern-file reader, `test_hash.c`, the `DEBUG` printing, `mark`, `reset`, `render`, `print_node` and the `test_*` functions are not part of this model.
- `advance` is a stub in the source that returns its argument unchanged, so there is nothing to model. The binary-decomposition stepping described for it does not exist in the code.
- `node_hash`'s arithmetic on node addresses is left out, because nodes have no addresses here. The hash before reduction is a function parameter of the store (`Store.hash`). Only its reduction to a slot is modelled.
- Sharing and identity: nodes are values, so pointer identity and sharing are not represented. Equal values stand for equal nodes, not for one instance: `hashtab` is a direct-mapped cache, and `newnode` overwrites whatever its slot held (hashlife.c:42-43). A later `join` of the evicted node's children builds a second instance of it (NodeStore.NewNodeEvicts). The model cannot tell the two instances apart.
- The pure functions (`successor`, `life4x4`, `inner`, `centre`, `pad`) use the value-level `Join` and `Zero`. The entries their `join` and `get_zero` calls add to `hashtab` are not threaded through. The store's methods show that an interned join is that same value.
- `malloc`, `free` and allocation failure are not modelled. `assert` failures become preconditions, among them `newnode`'s level bound (hashlife.c:30) wherever `centre`, `pad` and `construct` reach it.
- Step.Successor: follows the code, not the described doubling. The doubling branch is commented out and `j` is unused, so every level advances exactly one generation.
- Boundary.CropPadHolds: states that `crop(pad(p))` keeps p's pattern, not that it equals `crop(p)`. That equality does not hold for the code, because `crop` stops at the first unpadded node. For example, a node of level 4 to 28 with one live cell at its corner is its own `crop`, while `crop(pad(p))` is `centre(p)`, one level above p (Boundary.CropPadNotCrop).
- Construction.Construct: requires at least one point. With zero points the source reads an entry of an empty array.
- Construction.Construct: requires coordinates that are C ints. It also requires moved coordinates below 2^30: beyond that, `newnode`'s level assertion fails.
- Construction.Construct: does not state the level of the result. Duplicate points can make the passes run one level past the smallest level that fits.
- Construction.Construct: the body of the `for (j ...)` loop, the `find_node`/`newnode` step and the `while` loop are separate methods (TakeEntry, TakeBlock, BlockNode, NextLevel, Passes). They do the same reads and writes on the same arrays in the same order.
- Construction.Construct: `free(pattern)` is not modelled, and neither is integer overflow in `x >> 1` on negative values (moved coordinates are never negative).
- Display.Expand: requires a non-negative view that fits inside the grid. The source indexes `E.grid` without a bounds check.
- Quadtree.Join: population and level are unbounded integers. The 32-bit wrap of the `unsigned int` population and the `unsigned short` level are not modelled; `newnode` stops at level 30 anyway. Its `assert(a->k < 30)` is a precondition of NodeStore.Store.NewNode, Construction.Construct, Boundary.Centre and Boundary.Pad.
- Boundary.Centre: requires level >= 1. For a leaf the source reads children a leaf does not have and calls `get_zero(-1)`, which never returns. It also requires level < 30: the outer `join` is built from children of p's own level, and `newnode` aborts at level 30 (hashlife.c:30).
- Boundary.Pad: requires level >= 1, for the same reason. It also requires PadFits: p is below level 29, already padded, or of level 29 with each quadrant's population in its inner child. Otherwise `pad` centres a node of level 30 and aborts as above.

## Findings

| source | as written | input that shows it | evidently intended | confidence | as-written member | corrected member |
|---|---|---|---|---|---|---|
| hashlife.c:24 | `h % MAX_NODES` expands to `h % (1 << 2*8) - 1`, that is `(h % 65536) - 1` | any hash h that is a multiple of 65536 gives slot -1, an index before `hashtab` | `h % 65535`, a slot inside the table | not executed | NodeStore.SlotAsWrittenOutOfBounds | NodeStore.Slot |
| hashlife.c:6 | the guard `(a->k ^ b->k ^ c->k ^ d->k) == 0` | levels (1, 1, 2, 2) pass the guard | all four levels equal, as the comment says | not executed | NodeStore.JoinGuardAdmitsMixedLevels | NodeStore.Store.NewNode |
| hashlife.c:280 | `==` binds tighter than `^`, so the XOR chain ends in `(n9->k == 0)` and is tested for non-zero | levels (0, 1, 1, 0, 0, 0, 0, 0, 0) pass the guard | all nine nodes are leaves | not executed | Step.LifeGuardAdmitsLevelOne | Step.Life |
| hashlife.c:51-55 | `find_node` returns whatever the key's slot holds, without comparing children; `join`, `get_zero` and `construct` use its result | slot of (on, off, off, off) already holding the join of four `off` leaves: `join` returns that empty node | a node is found only when its children are the given four | not executed | NodeStore.JoinAsWrittenCollision | NodeStore.Store.Join |
