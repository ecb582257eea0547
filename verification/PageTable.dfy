/**
 * The four-level radix page table (src/page_table.c): nodes of 512 entries that are
 * made on demand, pruned when they become empty, and searched for the next mapped
 * page.  Nodes are named by numbers; the table means a map from pages to entries.
 */
module PageTable {
  import opened Base
  import opened Sharing
  import opened Tables

  /** MINIMM_PAGE_TABLE_ENTRIES and the level of the root */
  const ENTRIES: nat := 512
  const TOP: nat := 3
  const ROOT: nat := 0

  /** minimm_page_table_node_t: child nodes, or entries at level 0. */
  datatype Node = Inner(kids: map<nat, nat>) | Leaf(ptes: map<nat, Pte>)

  /** The node of level `level` for the pages p with Block(p, level + 1) == prefix. */
  datatype Place = Place(level: nat, prefix: nat)

  /** The nodes.  `at` and `place` say where each of them is; the operations below never search them. */
  datatype Tree = Tree(nodes: map<nat, Node>, at: map<Place, nat>, place: map<nat, Place>)

  /** Which entry of level `level` a page belongs to, counted over all nodes of that level. */
  function Block(page: nat, level: nat): nat {
    if level == 0 then page else Block(page, level - 1) / ENTRIES
  }

  /** minimm_page_table_index */
  function Index(page: nat, level: nat): (i: nat)
    ensures i < ENTRIES
  {
    Block(page, level) % ENTRIES
  }

  predicate Empty(n: Node) {
    match n
    case Inner(kids) => kids == map[]
    case Leaf(ptes) => ptes == map[]
  }

  ghost predicate KidOk(t: Tree, pl: Place, i: nat)
    requires pl in t.at && t.at[pl] in t.nodes && t.nodes[t.at[pl]].Inner? && i in t.nodes[t.at[pl]].kids
    requires pl.level > 0
  {
    && i < ENTRIES
    && Place(pl.level - 1, pl.prefix * ENTRIES + i) in t.at
    && t.at[Place(pl.level - 1, pl.prefix * ENTRIES + i)] == t.nodes[t.at[pl]].kids[i]
  }

  /** The parent of the node at `pl` leads to it. */
  ghost predicate ParentOk(t: Tree, pl: Place)
    requires pl in t.at
  {
    var up := Place(pl.level + 1, pl.prefix / ENTRIES);
    && up in t.at && t.at[up] in t.nodes && t.nodes[t.at[up]].Inner?
    && pl.prefix % ENTRIES in t.nodes[t.at[up]].kids
    && t.nodes[t.at[up]].kids[pl.prefix % ENTRIES] == t.at[pl]
  }

  /** The node at a place is right; only the root and `spare` may be empty. */
  ghost predicate NodeOk(t: Tree, pl: Place, spare: Option<nat>)
    requires pl in t.at
  {
    && t.at[pl] in t.nodes && pl.level <= TOP
    && t.at[pl] in t.place && t.place[t.at[pl]] == pl
    && (t.nodes[t.at[pl]].Leaf? <==> pl.level == 0)
    && (pl.level == 0 ==> forall i :: i in t.nodes[t.at[pl]].ptes ==> i < ENTRIES)
    && (pl.level > 0 ==> forall i {:trigger KidOk(t, pl, i)} :: i in t.nodes[t.at[pl]].kids ==> KidOk(t, pl, i))
    && (if pl.level == TOP then pl.prefix == 0 else ParentOk(t, pl))
    && (Empty(t.nodes[t.at[pl]]) ==> pl.level == TOP || Some(t.at[pl]) == spare)
  }

  ghost predicate TreeOk(t: Tree, spare: Option<nat>) {
    && Place(TOP, 0) in t.at && t.at[Place(TOP, 0)] == ROOT
    && t.place.Keys == t.nodes.Keys
    && (forall n :: n in t.place ==> t.place[n] in t.at && t.at[t.place[n]] == n)
    && (forall pl {:trigger NodeOk(t, pl, spare)} :: pl in t.at ==> NodeOk(t, pl, spare))
  }

  /** What the tree says about a page. */
  ghost function EntryOf(t: Tree, page: nat): Option<Pte> {
    var pl := Place(0, Block(page, 1));
    if pl in t.at && t.at[pl] in t.nodes && t.nodes[t.at[pl]].Leaf? && Index(page, 0) in t.nodes[t.at[pl]].ptes
    then Some(t.nodes[t.at[pl]].ptes[Index(page, 0)])
    else None
  }

  ghost predicate Means(t: Tree, table: map<nat, Pte>) {
    forall page: nat :: EntryOf(t, page) == if page in table then Some(table[page]) else None
  }

  // ------------------------------------------------------------------
  // Walking down
  // ------------------------------------------------------------------

  lemma TopBlock(page: nat)
    requires page < MAX_PAGE
    ensures Block(page, TOP + 1) == 0
  {
    assert Block(page, 1) == page / 512;
    assert Block(page, 2) == page / 512 / 512;
    assert Block(page, 3) == page / 512 / 512 / 512;
  }

  lemma BlockSplit(page: nat, level: nat)
    ensures Block(page, level) == Block(page, level + 1) * ENTRIES + Index(page, level)
    ensures Block(page, level + 1) == Block(page, level) / ENTRIES
  {
  }

  /** A node below the root is reached from the node above it. */
  lemma StepDown(t: Tree, spare: Option<nat>, page: nat, level: nat)
    requires TreeOk(t, spare) && 0 < level <= TOP && Place(level, Block(page, level + 1)) in t.at
    ensures var n := t.at[Place(level, Block(page, level + 1))];
            && n in t.nodes && t.nodes[n].Inner?
            && (Index(page, level) in t.nodes[n].kids <==> Place(level - 1, Block(page, level)) in t.at)
            && (Index(page, level) in t.nodes[n].kids ==>
                  t.nodes[n].kids[Index(page, level)] == t.at[Place(level - 1, Block(page, level))])
  {
    hide Block;
    BlockSplit(page, level);
    var pl, down := Place(level, Block(page, level + 1)), Place(level - 1, Block(page, level));
    assert NodeOk(t, pl, spare);
    if Index(page, level) in t.nodes[t.at[pl]].kids {
      assert KidOk(t, pl, Index(page, level));
    }
    if down in t.at {
      assert NodeOk(t, down, spare);
    }
  }

  /** The node above a node is there. */
  lemma StepUp(t: Tree, spare: Option<nat>, page: nat, level: nat)
    requires TreeOk(t, spare) && 0 < level <= TOP
    ensures Place(level - 1, Block(page, level)) in t.at ==> Place(level, Block(page, level + 1)) in t.at
  {
    var down := Place(level - 1, Block(page, level));
    if down in t.at {
      assert NodeOk(t, down, spare);
      BlockSplit(page, level);
    }
  }

  /** Where a node is missing, everything below it is missing. */
  lemma {:induction false} NothingBelow(t: Tree, spare: Option<nat>, page: nat, level: nat)
    requires TreeOk(t, spare) && level <= TOP && Place(level, Block(page, level + 1)) !in t.at
    ensures EntryOf(t, page) == None
    decreases level
  {
    if level > 0 {
      StepUp(t, spare, page, level);
      NothingBelow(t, spare, page, level - 1);
    }
  }

  // ------------------------------------------------------------------
  // Nodes made, filled, emptied and freed
  // ------------------------------------------------------------------

  function WithKid(t: Tree, n: nat, i: nat, kid: nat): map<nat, Node>
    requires n in t.nodes && t.nodes[n].Inner?
  {
    t.nodes[n := Inner(t.nodes[n].kids[i := kid])]
  }

  /** A new empty node `kid` under entry `i` of the node at `pl` */
  function Grow(t: Tree, pl: Place, i: nat, kid: nat): Tree
    requires pl in t.at && t.at[pl] in t.nodes && t.nodes[t.at[pl]].Inner? && pl.level > 0
  {
    var down := Place(pl.level - 1, pl.prefix * ENTRIES + i);
    Tree(WithKid(t, t.at[pl], i, kid)[kid := if pl.level == 1 then Leaf(map[]) else Inner(map[])],
         t.at[down := kid], t.place[kid := down])
  }

  /** The node under entry `i` of the node at `pl` freed again */
  function Shrink(t: Tree, pl: Place, i: nat): Tree
    requires pl in t.at && t.at[pl] in t.nodes && t.nodes[t.at[pl]].Inner? && pl.level > 0
    requires i in t.nodes[t.at[pl]].kids
  {
    var kid, down := t.nodes[t.at[pl]].kids[i], Place(pl.level - 1, pl.prefix * ENTRIES + i);
    Tree((t.nodes - {kid})[t.at[pl] := Inner(t.nodes[t.at[pl]].kids - {i})], t.at - {down}, t.place - {kid})
  }

  /** Freeing the node that was just made gives the tree before. */
  lemma ShrinkUndoesGrow(t: Tree, pl: Place, i: nat, kid: nat)
    requires pl in t.at && t.at[pl] in t.nodes && t.nodes[t.at[pl]].Inner? && pl.level > 0
    requires i !in t.nodes[t.at[pl]].kids
    requires kid !in t.nodes && kid !in t.place && Place(pl.level - 1, pl.prefix * ENTRIES + i) !in t.at
    ensures Shrink(Grow(t, pl, i, kid), pl, i) == t
  {
    var g := Grow(t, pl, i, kid);
    var n := t.at[pl];
    assert g.nodes[n].kids - {i} == t.nodes[n].kids;
    assert (g.nodes - {kid})[n := Inner(g.nodes[n].kids - {i})] == t.nodes;
    assert g.at - {Place(pl.level - 1, pl.prefix * ENTRIES + i)} == t.at;
    assert g.place - {kid} == t.place;
  }

  /** A node below another one is one of its children. */
  lemma ParentLeads(t: Tree, spare: Option<nat>, pl: Place, i: nat)
    requires TreeOk(t, spare) && pl in t.at && 0 < pl.level <= TOP && i < ENTRIES
    requires t.at[pl] in t.nodes && t.nodes[t.at[pl]].Inner?
    ensures Place(pl.level - 1, pl.prefix * ENTRIES + i) in t.at ==> i in t.nodes[t.at[pl]].kids
  {
    var down := Place(pl.level - 1, pl.prefix * ENTRIES + i);
    if down in t.at {
      assert NodeOk(t, down, spare);
      assert down.prefix / ENTRIES == pl.prefix && down.prefix % ENTRIES == i;
    }
  }

  lemma GrowKeeps(t: Tree, spare: Option<nat>, pl: Place, i: nat, kid: nat)
    requires TreeOk(t, spare) && pl in t.at && 0 < pl.level <= TOP && i < ENTRIES && kid !in t.nodes
    requires t.at[pl] in t.nodes && t.nodes[t.at[pl]].Inner? && i !in t.nodes[t.at[pl]].kids
    requires spare.None? || spare == Some(t.at[pl])
    ensures TreeOk(Grow(t, pl, i, kid), Some(kid))
  {
    hide NodeOk;
    var g, down := Grow(t, pl, i, kid), Place(pl.level - 1, pl.prefix * ENTRIES + i);
    assert NodeOk(t, pl, spare);
    ParentLeads(t, spare, pl, i);
    RootThere(t, spare);
    forall q | q in g.at ensures NodeOk(g, q, Some(kid)) {
      if q == down {
        GrowNew(t, spare, pl, i, kid);
      } else {
        assert NodeOk(t, q, spare);
        GrowNode(t, spare, pl, i, kid, q);
      }
    }
  }

  lemma GrowNew(t: Tree, spare: Option<nat>, pl: Place, i: nat, kid: nat)
    requires pl in t.at && NodeOk(t, pl, spare) && 0 < pl.level <= TOP && i < ENTRIES && kid !in t.nodes
    requires t.nodes[t.at[pl]].Inner? && Place(pl.level - 1, pl.prefix * ENTRIES + i) !in t.at
    ensures var g := Grow(t, pl, i, kid);
            Place(pl.level - 1, pl.prefix * ENTRIES + i) in g.at
            && NodeOk(g, Place(pl.level - 1, pl.prefix * ENTRIES + i), Some(kid))
  {
    var down := Place(pl.level - 1, pl.prefix * ENTRIES + i);
    assert down.prefix / ENTRIES == pl.prefix && down.prefix % ENTRIES == i;
  }

  lemma GrowNode(t: Tree, spare: Option<nat>, pl: Place, i: nat, kid: nat, q: Place)
    requires pl in t.at && NodeOk(t, pl, spare) && 0 < pl.level <= TOP && i < ENTRIES && kid !in t.nodes
    requires q in t.at && NodeOk(t, q, spare)
    requires t.nodes[t.at[pl]].Inner? && i !in t.nodes[t.at[pl]].kids
    requires Place(pl.level - 1, pl.prefix * ENTRIES + i) !in t.at
    requires spare.None? || spare == Some(t.at[pl])
    ensures NodeOk(Grow(t, pl, i, kid), q, Some(kid))
  {
    var g := Grow(t, pl, i, kid);
    assert i in g.nodes[g.at[pl]].kids;
    assert q != pl ==> g.nodes[g.at[q]] == t.nodes[t.at[q]];
    if q.level > 0 {
      forall j | j in g.nodes[g.at[q]].kids ensures KidOk(g, q, j) {
        if !(q == pl && j == i) {
          assert KidOk(t, q, j);
        }
      }
    }
  }

  /** A new node holds nothing yet. */
  lemma GrowMeans(t: Tree, spare: Option<nat>, pl: Place, i: nat, kid: nat, table: map<nat, Pte>)
    requires TreeOk(t, spare) && Means(t, table) && pl in t.at && 0 < pl.level <= TOP && kid !in t.nodes
    requires t.at[pl] in t.nodes && t.nodes[t.at[pl]].Inner?
    requires Place(pl.level - 1, pl.prefix * ENTRIES + i) !in t.at
    ensures Means(Grow(t, pl, i, kid), table)
  {
    hide Block;
    var g := Grow(t, pl, i, kid);
    forall page: nat ensures EntryOf(g, page) == EntryOf(t, page) {
      var leaf := Place(0, Block(page, 1));
      if leaf in t.at {
        assert NodeOk(t, leaf, spare);
      }
    }
  }

  function SetLeaf(t: Tree, n: nat, ptes: map<nat, Pte>): Tree {
    t.(nodes := t.nodes[n := Leaf(ptes)])
  }

  lemma SetLeafKeeps(t: Tree, spare: Option<nat>, pl: Place, ptes: map<nat, Pte>)
    requires TreeOk(t, spare) && pl in t.at && pl.level == 0 && (forall i :: i in ptes ==> i < ENTRIES)
    requires spare.None? || spare == Some(t.at[pl])
    ensures TreeOk(SetLeaf(t, t.at[pl], ptes), if ptes == map[] then Some(t.at[pl]) else None)
  {
    hide NodeOk;
    NodeThere(t, spare, pl);
    var to, n := SetLeaf(t, t.at[pl], ptes), t.at[pl];
    assert NodeOk(t, pl, spare);
    forall q | q in to.at ensures NodeOk(to, q, if ptes == map[] then Some(n) else None) {
      assert NodeOk(t, q, spare);
      SetLeafNode(t, spare, pl, ptes, q);
    }
  }

  lemma SetLeafNode(t: Tree, spare: Option<nat>, pl: Place, ptes: map<nat, Pte>, q: Place)
    requires pl in t.at && pl.level == 0 && (forall i :: i in ptes ==> i < ENTRIES) && NodeOk(t, pl, spare)
    requires q in t.at && NodeOk(t, q, spare) && (spare.None? || spare == Some(t.at[pl]))
    ensures NodeOk(SetLeaf(t, t.at[pl], ptes), q, if ptes == map[] then Some(t.at[pl]) else None)
  {
    var to := SetLeaf(t, t.at[pl], ptes);
    assert q != pl ==> to.nodes[to.at[q]] == t.nodes[t.at[q]];
    if q.level > 0 {
      forall j | j in to.nodes[to.at[q]].kids ensures KidOk(to, q, j) {
        assert KidOk(t, q, j);
      }
    }
  }

  lemma SetLeafMeans(t: Tree, spare: Option<nat>, page: nat, ptes: map<nat, Pte>)
    requires TreeOk(t, spare) && Place(0, Block(page, 1)) in t.at
    requires var n := t.at[Place(0, Block(page, 1))];
             n in t.nodes && t.nodes[n].Leaf? &&
             forall i :: i != Index(page, 0) ==>
                           (i in ptes <==> i in t.nodes[n].ptes) && (i in ptes ==> ptes[i] == t.nodes[n].ptes[i])
    ensures var to := SetLeaf(t, t.at[Place(0, Block(page, 1))], ptes);
            && (forall q: nat :: q != page ==> EntryOf(to, q) == EntryOf(t, q))
            && EntryOf(to, page) == if Index(page, 0) in ptes then Some(ptes[Index(page, 0)]) else None
  {
    var pl := Place(0, Block(page, 1));
    var n, to := t.at[pl], SetLeaf(t, t.at[pl], ptes);
    forall q: nat | q != page ensures EntryOf(to, q) == EntryOf(t, q) {
      BlockSplit(q, 0);
      BlockSplit(page, 0);
      var leaf := Place(0, Block(q, 1));
      if leaf in t.at {
        assert NodeOk(t, leaf, spare) && NodeOk(t, pl, spare);
      }
    }
  }

  /** Freeing an empty node: its parent may now be the empty one. */
  lemma ShrinkKeeps(t: Tree, pl: Place, i: nat)
    requires pl in t.at && 0 < pl.level <= TOP && t.at[pl] in t.nodes && t.nodes[t.at[pl]].Inner?
    requires i in t.nodes[t.at[pl]].kids
    requires TreeOk(t, Some(t.nodes[t.at[pl]].kids[i]))
    requires t.nodes[t.at[pl]].kids[i] in t.nodes && Empty(t.nodes[t.nodes[t.at[pl]].kids[i]])
    ensures TreeOk(Shrink(t, pl, i), Some(t.at[pl]))
    ensures forall page: nat :: EntryOf(Shrink(t, pl, i), page) == EntryOf(t, page)
  {
    var n, kid := t.at[pl], t.nodes[t.at[pl]].kids[i];
    var spare, to, down := Some(kid), Shrink(t, pl, i), Place(pl.level - 1, pl.prefix * ENTRIES + i);
    assert NodeOk(t, pl, spare);
    assert KidOk(t, pl, i);
    ShrinkMeans(t, pl, i);
    hide NodeOk, EntryOf;
    RootThere(t, spare);
    NodeThere(t, spare, down);
    forall q | q in to.at ensures NodeOk(to, q, Some(n)) {
      assert NodeOk(t, q, spare) && NodeOk(t, down, spare);
      ShrinkNode(t, pl, i, q);
    }
  }

  /** An empty node means nothing. */
  lemma ShrinkMeans(t: Tree, pl: Place, i: nat)
    requires pl in t.at && 0 < pl.level <= TOP && t.at[pl] in t.nodes && t.nodes[t.at[pl]].Inner?
    requires i in t.nodes[t.at[pl]].kids
    requires TreeOk(t, Some(t.nodes[t.at[pl]].kids[i])) && KidOk(t, pl, i)
    requires t.nodes[t.at[pl]].kids[i] in t.nodes && Empty(t.nodes[t.nodes[t.at[pl]].kids[i]])
    ensures forall page: nat :: EntryOf(Shrink(t, pl, i), page) == EntryOf(t, page)
  {
    hide Block;
    var spare, to := Some(t.nodes[t.at[pl]].kids[i]), Shrink(t, pl, i);
    assert NodeOk(t, pl, spare);
    forall page: nat ensures EntryOf(to, page) == EntryOf(t, page) {
      var leaf := Place(0, Block(page, 1));
      if leaf in t.at {
        assert NodeOk(t, leaf, spare);
      }
    }
  }

  lemma ShrinkNode(t: Tree, pl: Place, i: nat, q: Place)
    requires pl in t.at && 0 < pl.level <= TOP && t.at[pl] in t.nodes && t.nodes[t.at[pl]].Inner?
    requires i in t.nodes[t.at[pl]].kids
    requires var spare := Some(t.nodes[t.at[pl]].kids[i]);
             && NodeOk(t, pl, spare) && KidOk(t, pl, i)
             && q in t.at && NodeOk(t, q, spare) && q != Place(pl.level - 1, pl.prefix * ENTRIES + i)
             && NodeOk(t, Place(pl.level - 1, pl.prefix * ENTRIES + i), spare)
    requires Empty(t.nodes[t.nodes[t.at[pl]].kids[i]])
    ensures NodeOk(Shrink(t, pl, i), q, Some(t.at[pl]))
  {
    var to := Shrink(t, pl, i);
    assert t.at[q] != t.nodes[t.at[pl]].kids[i];
    if q.level > 0 {
      forall j | j in to.nodes[to.at[q]].kids ensures KidOk(to, q, j) {
        assert KidOk(t, q, j);
        assert j < ENTRIES && i < ENTRIES;
      }
    }
  }

  // ------------------------------------------------------------------
  // The table
  // ------------------------------------------------------------------

  /** A node made by the current call, and where. */
  datatype Made = Made(parent: Place, index: nat)

  class RadixTable {
    var tree: Tree
    var nextNode: nat
    var mappingCount: nat
    var generation: nat
    /** What the table means. */
    ghost var table: map<nat, Pte>

    ghost predicate Valid()
      reads this
    {
      && TreeOk(tree, None) && Means(tree, table) && (forall n :: n in tree.nodes ==> n < nextNode)
      && mappingCount == |table| && forall page :: page in table ==> page < MAX_PAGE
    }

    /** minimm_page_table_create */
    constructor ()
      ensures Valid() && table == map[]
    {
      tree := Tree(map[ROOT := Inner(map[])], map[Place(TOP, 0) := ROOT], map[ROOT := Place(TOP, 0)]);
      nextNode, mappingCount, generation, table := 1, 0, 1, map[];
    }

    /** minimm_page_table_lookup_internal */
    method Lookup(page: nat) returns (pte: Option<Pte>)
      requires Valid()
      ensures pte == if page in table then Some(table[page]) else None
    {
      hide Block, Index, NodeOk;
      if page >= MAX_PAGE {
        return None;
      }
      TopBlock(page);
      var level: nat, node := TOP, ROOT;
      while level > 0
        invariant level <= TOP && Place(level, Block(page, level + 1)) in tree.at
        invariant node == tree.at[Place(level, Block(page, level + 1))]
      {
        StepDown(tree, None, page, level);
        var index := Index(page, level);
        if index !in tree.nodes[node].kids {
          NothingBelow(tree, None, page, level - 1);
          return None;
        }
        node, level := tree.nodes[node].kids[index], level - 1;
      }
      LeafHere(tree, None, page);
      return if Index(page, 0) in tree.nodes[node].ptes then Some(tree.nodes[node].ptes[Index(page, 0)]) else None;
    }

    /** minimm_page_table_map: a failed allocation gives back the very tree there was. */
    method Map(page: nat, pte: Pte) returns (status: Status)
      requires Valid()
      modifies this
      ensures Valid()
      ensures status == InvalidArgument <==> page >= MAX_PAGE
      ensures status == AddressInUse <==> page < MAX_PAGE && page in old(table)
      ensures status in {Ok, InvalidArgument, AddressInUse, OutOfMemory}
      ensures status == Ok ==> table == old(table)[page := pte] && generation == old(generation) + 1
      ensures status != Ok ==> tree == old(tree) && table == old(table) && generation == old(generation)
    {
      hide Block, Index, NodeOk, TreeOk, Means, SetLeaf, EntryOf;
      if page >= MAX_PAGE {
        return InvalidArgument;
      }
      var found := Lookup(page);
      if found.Some? {
        return AddressInUse;
      }
      var node;
      ghost var spare;
      status, node, spare := MakePath(page);
      if status != Ok {
        return;
      }
      LeafHere(tree, spare, page);
      FillLeaf(tree, spare, page, pte, table);
      tree := SetLeaf(tree, node, tree.nodes[node].ptes[Index(page, 0) := pte]);
      table, mappingCount, generation := table[page := pte], mappingCount + 1, generation + 1;
    }

    /** The loop of minimm_page_table_map: missing nodes are made on the way down, or none at all. */
    method MakePath(page: nat) returns (status: Status, node: nat, ghost spare: Option<nat>)
      requires TreeOk(tree, None) && Means(tree, table) && (forall n :: n in tree.nodes ==> n < nextNode)
      requires page < MAX_PAGE
      modifies `tree, `nextNode
      ensures status in {Ok, OutOfMemory} && forall n :: n in tree.nodes ==> n < nextNode
      ensures status != Ok ==> tree == old(tree)
      ensures status == Ok ==>
                && TreeOk(tree, spare) && Means(tree, table) && (spare.None? || spare == Some(node))
                && Place(0, Block(page, 1)) in tree.at && node == tree.at[Place(0, Block(page, 1))]
    {
      hide Block, Index, NodeOk, TreeOk, Means, Grow, EntryOf, UndoneBy;
      TopBlock(page);
      RootThere(tree, None);
      var level: nat, made := TOP, [];
      node, spare := ROOT, None;
      ghost var states := [tree];
      while level > 0
        invariant level <= TOP && TreeOk(tree, spare) && Means(tree, table) && (spare.None? || spare == Some(node))
        invariant Place(level, Block(page, level + 1)) in tree.at
        invariant node == tree.at[Place(level, Block(page, level + 1))]
        invariant forall n :: n in tree.nodes ==> n < nextNode
        invariant Undoable(states, made, tree) && states[0] == old(tree) && nextNode >= old(nextNode)
      {
        hide Undoable;
        StepDown(tree, spare, page, level);
        var pl, index := Place(level, Block(page, level + 1)), Index(page, level);
        if index !in tree.nodes[node].kids {
          var available: bool := *;
          if !available {
            Rollback(made, states);
            status := OutOfMemory;
            return;
          }
          MakeNode(tree, spare, page, level, nextNode, table);
          OneMoreMade(states, made, tree, Made(pl, index), nextNode);
          tree, made, spare := Grow(tree, pl, index, nextNode), made + [Made(pl, index)], Some(nextNode);
          states, node, nextNode := states + [tree], nextNode, nextNode + 1;
        } else {
          NotSpare(tree, spare, pl);
          spare, node := None, tree.nodes[node].kids[index];
        }
        level := level - 1;
      }
      var available: bool := *;
      if !available {
        // The entry itself cannot be allocated.
        Rollback(made, states);
        status := OutOfMemory;
        return;
      }
      status := Ok;
    }

    /** The allocation_failed path: the nodes made by this call are freed in reverse order. */
    method Rollback(made: seq<Made>, ghost states: seq<Tree>)
      requires Undoable(states, made, tree)
      modifies `tree
      ensures tree == states[0]
    {
      var todo := made;
      while todo != []
        invariant |todo| <= |made| && todo == made[..|todo|] && tree == states[|todo|]
        decreases |todo|
      {
        var last := todo[|todo| - 1];
        assert UndoneBy(states[|todo|], last, states[|todo| - 1]);
        tree := Shrink(tree, last.parent, last.index);
        todo := todo[..|todo| - 1];
      }
    }

    /** The walk of minimm_page_table_unmap: the nodes on the way to a page, from level 0 up. */
    method Path(page: nat) returns (path: seq<nat>)
      requires Valid() && page < MAX_PAGE
      ensures path == [] || IsPath(tree, page, path, 0)
      ensures path == [] ==> page !in table
    {
      hide Block, Index, NodeOk;
      TopBlock(page);
      path := [ROOT, ROOT, ROOT, ROOT];
      var level: nat := TOP;
      assert OnPath(tree, page, path, TOP);
      while level > 0
        invariant level <= TOP && IsPath(tree, page, path, level)
      {
        assert OnPath(tree, page, path, level);
        StepDown(tree, None, page, level);
        var index := Index(page, level);
        if index !in tree.nodes[path[level]].kids {
          NothingBelow(tree, None, page, level - 1);
          return [];
        }
        PathDown(tree, page, path, level, tree.nodes[path[level]].kids[index]);
        path := path[level - 1 := tree.nodes[path[level]].kids[index]];
        level := level - 1;
      }
    }

    /** minimm_page_table_unmap: the entry goes, and with it every node that it leaves empty. */
    method Unmap(page: nat) returns (status: Status)
      requires Valid()
      modifies this
      ensures Valid()
      ensures status == if page >= MAX_PAGE then InvalidArgument else if page in old(table) then Ok else NotFound
      ensures table == old(table) - {page}
      ensures status != Ok ==> tree == old(tree) && generation == old(generation)
      ensures status == Ok ==> generation == old(generation) + 1
    {
      hide Block, Index, NodeOk, TreeOk, Means, SetLeaf, EntryOf;
      if page >= MAX_PAGE {
        assert table - {page} == table;
        return InvalidArgument;
      }
      var found := Lookup(page);
      var path := Path(page);
      if path == [] || found.None? {
        assert table - {page} == table;
        return NotFound;
      }
      assert OnPath(tree, page, path, 0);
      ClearEntry(page, path);
      Prune(page, path);
      return Ok;
    }

    method ClearEntry(page: nat, path: seq<nat>)
      requires Valid() && page in table && IsPath(tree, page, path, 0)
      modifies this
      ensures IsPath(tree, page, path, 0) && TreeOk(tree, Some(path[0])) && Means(tree, table)
      ensures nextNode == old(nextNode) && (forall n :: n in tree.nodes ==> n < nextNode)
      ensures table == old(table) - {page} && mappingCount == |table| && generation == old(generation) + 1
    {
      hide Block, Index, NodeOk, TreeOk, Means, SetLeaf, EntryOf;
      assert OnPath(tree, page, path, 0);
      LeafHere(tree, None, page);
      ClearLeaf(tree, page, table);
      PathStays(tree, page, path, path[0], tree.nodes[path[0]].ptes - {Index(page, 0)});
      tree := SetLeaf(tree, path[0], tree.nodes[path[0]].ptes - {Index(page, 0)});
      assert (table - {page}).Keys == table.Keys - {page};
      table, mappingCount, generation := table - {page}, mappingCount - 1, generation + 1;
    }

    /** The pruning loop: empty nodes go from the bottom up, the root stays. */
    method Prune(page: nat, path: seq<nat>)
      requires IsPath(tree, page, path, 0) && TreeOk(tree, Some(path[0])) && Means(tree, table) && page < MAX_PAGE
      requires forall n :: n in tree.nodes ==> n < nextNode
      modifies `tree
      ensures TreeOk(tree, None) && Means(tree, table) && forall n :: n in tree.nodes ==> n < nextNode
    {
      hide Block, Index, NodeOk, TreeOk, Means, Shrink, EntryOf;
      var level: nat := 0;
      while level < TOP
        invariant level <= TOP && IsPath(tree, page, path, level) && TreeOk(tree, Some(path[level]))
        invariant Means(tree, table)
        invariant forall n :: n in tree.nodes ==> n < nextNode
      {
        assert OnPath(tree, page, path, level);
        NodeThere(tree, Some(path[level]), Place(level, Block(page, level + 1)));
        if !Empty(tree.nodes[path[level]]) {
          NotSpare(tree, Some(path[level]), Place(level, Block(page, level + 1)));
          return;
        }
        FreeNode(tree, page, path, level, table);
        tree := Shrink(tree, Place(level + 1, Block(page, level + 2)), Index(page, level + 1));
        level := level + 1;
      }
      assert OnPath(tree, page, path, TOP);
      NodeThere(tree, Some(path[TOP]), Place(TOP, Block(page, TOP + 1)));
      NotSpare(tree, Some(path[TOP]), Place(TOP, Block(page, TOP + 1)));
    }

    /**
     * minimm_page_table_update_attributes, update_flags and replace_frame: one entry in
     * place.  Attributes that stay the same do not count as a change, a new frame does.
     */
    method Update(page: nat, pte: Pte, replacing: bool) returns (status: Status)
      requires Valid()
      modifies this
      ensures Valid()
      ensures status == if page >= MAX_PAGE then InvalidArgument else if page in old(table) then Ok else NotFound
      ensures table == if status == Ok then old(table)[page := pte] else old(table)
      ensures generation == old(generation)
                            + if status == Ok && (replacing || old(table)[page] != pte) then 1 else 0
    {
      hide Block, Index, NodeOk, TreeOk, Means, SetLeaf, EntryOf;
      if page >= MAX_PAGE {
        return InvalidArgument;
      }
      var found := Lookup(page);
      var path := Path(page);
      if path == [] || found.None? {
        return NotFound;
      }
      if !replacing && found.value == pte {
        assert table[page := pte] == table;
        return Ok;
      }
      assert OnPath(tree, page, path, 0);
      LeafHere(tree, None, page);
      FillLeaf(tree, None, page, pte, table);
      assert table[page := pte].Keys == table.Keys;
      tree := SetLeaf(tree, path[0], tree.nodes[path[0]].ptes[Index(page, 0) := pte]);
      table, generation := table[page := pte], generation + 1;
      return Ok;
    }

    /** minimm_page_table_find_next_node: the first mapped page below one node that lies in [start, end). */
    method FindNextNode(node: nat, level: nat, prefix: nat, start: nat, end: nat) returns (found: Option<nat>)
      requires Valid() && level <= TOP && Place(level, prefix) in tree.at && node == tree.at[Place(level, prefix)]
      ensures found.Some? ==> IsFirst(table, level, prefix, start, end, found.value)
      ensures found.None? ==> forall p :: p in table && Block(p, level + 1) == prefix ==> !(start <= p < end)
      decreases level
    {
      hide Block, NodeOk, TreeOk, Means, EntryOf, Span, Low;
      NodeThere(tree, None, Place(level, prefix));
      AllEntries(table, level, prefix);
      var i := 0;
      while i < ENTRIES
        invariant i <= ENTRIES
        invariant forall p :: p in table && Block(p, level + 1) == prefix && Block(p, level) < prefix * ENTRIES + i ==>
                    !(start <= p < end)
      {
        var entry := prefix * ENTRIES + i;
        EntryRange(table, level, entry);
        if Low(level, entry) + Span(level) <= start || Low(level, entry) >= end {
          i := i + 1;
          continue;
        }
        EntryLeads(tree, level, prefix, i, table);
        if level == 0 {
          if i in tree.nodes[node].ptes {
            SpanZero(entry);
            FoundHere(table, prefix, i, start, end);
            return Some(Low(level, entry));
          }
        } else if i in tree.nodes[node].kids {
          found := FindNextNode(tree.nodes[node].kids[i], level - 1, entry, start, end);
          if found.Some? {
            FoundBelow(table, level, prefix, i, start, end, found.value);
            return;
          }
        }
        i := i + 1;
      }
      return None;
    }

    /** minimm_page_table_find_next: the least mapped page of the range */
    method FindNext(start: nat, end: nat) returns (status: Status, page: nat)
      requires Valid()
      ensures status == InvalidArgument <==> start > end || end > MAX_PAGE
      ensures status in {Ok, InvalidArgument, NotFound}
      ensures status == Ok ==>
                page in table && start <= page < end && forall p :: p in table && start <= p < end ==> page <= p
      ensures status == NotFound ==> forall p :: p in table ==> !(start <= p < end)
    {
      hide Block, NodeOk, TreeOk, Means;
      page := 0;
      if start > end || end > MAX_PAGE {
        return InvalidArgument, 0;
      }
      if start == end {
        return NotFound, 0;
      }
      RootThere(tree, None);
      forall p | p in table ensures Block(p, TOP + 1) == 0 {
        TopBlock(p);
      }
      var found := FindNextNode(ROOT, TOP, 0, start, end);
      if found.None? {
        return NotFound, 0;
      }
      return Ok, found.value;
    }

    /** minimm_mapping_unmap_pages_locked over this table: exactly the range goes. */
    method UnmapRange(start: nat, end: nat)
      requires Valid()
      modifies this
      ensures Valid()
      ensures table == if end <= MAX_PAGE then Outside(old(table), start, end) else old(table)
    {
      hide NodeOk, TreeOk, Means, Outside;
      var cursor := start;
      NothingOutside(table, start);
      while true
        invariant Valid() && start <= cursor && table == Outside(old(table), start, cursor)
        invariant cursor == start || cursor <= end <= MAX_PAGE
        decreases end - cursor
      {
        var status, page := FindNext(cursor, end);
        if status != Ok {
          if end <= MAX_PAGE {
            OutsideRest(old(table), table, start, cursor, end);
          }
          break;
        }
        OutsideOne(old(table), table, start, cursor, page);
        var _ := Unmap(page);
        cursor := page + 1;
      }
    }
  }

  /** The entries that do not lie in [start, end) */
  ghost function Outside(table: map<nat, Pte>, start: nat, end: nat): map<nat, Pte> {
    map p | p in table && !(start <= p < end) :: table[p]
  }

  lemma NothingOutside(table: map<nat, Pte>, start: nat)
    ensures Outside(table, start, start) == table
  {
  }

  lemma OutsideOne(was: map<nat, Pte>, table: map<nat, Pte>, start: nat, cursor: nat, page: nat)
    requires table == Outside(was, start, cursor) && start <= cursor <= page
    requires forall p :: p in table ==> !(cursor <= p < page)
    ensures table - {page} == Outside(was, start, page + 1)
  {
  }

  lemma OutsideRest(was: map<nat, Pte>, table: map<nat, Pte>, start: nat, cursor: nat, end: nat)
    requires table == Outside(was, start, cursor) && start <= cursor && (cursor == start || cursor <= end)
    requires cursor <= end ==> forall p :: p in table ==> !(cursor <= p < end)
    ensures table == Outside(was, start, end)
  {
  }

  lemma LeafHere(t: Tree, spare: Option<nat>, page: nat)
    requires TreeOk(t, spare) && Place(0, Block(page, 1)) in t.at
    ensures var n := t.at[Place(0, Block(page, 1))];
            && n in t.nodes && t.nodes[n].Leaf?
            && EntryOf(t, page) == if Index(page, 0) in t.nodes[n].ptes then Some(t.nodes[n].ptes[Index(page, 0)])
                                   else None
  {
    assert NodeOk(t, Place(0, Block(page, 1)), spare);
  }

  lemma RootThere(t: Tree, spare: Option<nat>)
    requires TreeOk(t, spare)
    ensures Place(TOP, 0) in t.at && t.at[Place(TOP, 0)] == ROOT
  {
  }

  /** Freeing what `made` names leads from one tree back to the other. */
  ghost predicate UndoneBy(now: Tree, made: Made, was: Tree) {
    && made.parent in now.at && now.at[made.parent] in now.nodes && now.nodes[now.at[made.parent]].Inner?
    && made.parent.level > 0 && made.index in now.nodes[now.at[made.parent]].kids
    && Shrink(now, made.parent, made.index) == was
  }

  ghost predicate Undoable(states: seq<Tree>, made: seq<Made>, now: Tree) {
    && |states| == |made| + 1 && states[|made|] == now
    && forall i {:trigger made[i]} :: 0 <= i < |made| ==> UndoneBy(states[i + 1], made[i], states[i])
  }

  lemma MakeNode(t: Tree, spare: Option<nat>, page: nat, level: nat, kid: nat, table: map<nat, Pte>)
    requires TreeOk(t, spare) && Means(t, table) && 0 < level <= TOP && Place(level, Block(page, level + 1)) in t.at
    requires spare.None? || spare == Some(t.at[Place(level, Block(page, level + 1))])
    requires t.at[Place(level, Block(page, level + 1))] in t.nodes
    requires t.nodes[t.at[Place(level, Block(page, level + 1))]].Inner?
    requires Index(page, level) !in t.nodes[t.at[Place(level, Block(page, level + 1))]].kids
    requires forall n :: n in t.nodes ==> n < kid
    ensures var g := Grow(t, Place(level, Block(page, level + 1)), Index(page, level), kid);
            && TreeOk(g, Some(kid)) && Means(g, table) && (forall n :: n in g.nodes ==> n < kid + 1)
            && Place(level - 1, Block(page, level)) in g.at && g.at[Place(level - 1, Block(page, level))] == kid
            && UndoneBy(g, Made(Place(level, Block(page, level + 1)), Index(page, level)), t)
  {
    hide Block;
    var pl, i := Place(level, Block(page, level + 1)), Index(page, level);
    BlockSplit(page, level);
    hide Index;
    ParentLeads(t, spare, pl, i);
    GrowKeeps(t, spare, pl, i, kid);
    GrowMeans(t, spare, pl, i, kid, table);
    assert kid !in t.place by { PlacesAreNodes(t, spare); }
    ShrinkUndoesGrow(t, pl, i, kid);
  }

  lemma PlacesAreNodes(t: Tree, spare: Option<nat>)
    requires TreeOk(t, spare)
    ensures t.place.Keys == t.nodes.Keys
  {
  }

  lemma OneMoreMade(states: seq<Tree>, made: seq<Made>, now: Tree, next: Made, kid: nat)
    requires Undoable(states, made, now)
    requires next.parent in now.at && now.at[next.parent] in now.nodes && now.nodes[now.at[next.parent]].Inner?
    requires next.parent.level > 0
    requires UndoneBy(Grow(now, next.parent, next.index, kid), next, now)
    ensures Undoable(states + [Grow(now, next.parent, next.index, kid)], made + [next],
                     Grow(now, next.parent, next.index, kid))
  {
    hide Grow, UndoneBy;
    var states', made' := states + [Grow(now, next.parent, next.index, kid)], made + [next];
    forall i | 0 <= i < |made'| ensures UndoneBy(states'[i + 1], made'[i], states'[i]) {
      if i < |made| {
        assert made'[i] == made[i];
      }
    }
  }

  /** A node with an entry is not the empty one. */
  lemma NotSpare(t: Tree, spare: Option<nat>, pl: Place)
    requires TreeOk(t, spare) && pl in t.at && t.at[pl] in t.nodes && (spare.None? || spare == Some(t.at[pl]))
    requires !Empty(t.nodes[t.at[pl]]) || pl.level == TOP
    ensures TreeOk(t, None)
  {
    forall q | q in t.at ensures NodeOk(t, q, None) {
      assert NodeOk(t, q, spare) && NodeOk(t, pl, spare);
    }
  }

  lemma FillLeaf(t: Tree, spare: Option<nat>, page: nat, pte: Pte, table: map<nat, Pte>)
    requires TreeOk(t, spare) && Means(t, table) && Place(0, Block(page, 1)) in t.at
    requires spare.None? || spare == Some(t.at[Place(0, Block(page, 1))])
    requires t.at[Place(0, Block(page, 1))] in t.nodes && t.nodes[t.at[Place(0, Block(page, 1))]].Leaf?
    ensures var n := t.at[Place(0, Block(page, 1))];
            var to := SetLeaf(t, n, t.nodes[n].ptes[Index(page, 0) := pte]);
            TreeOk(to, None) && Means(to, table[page := pte]) && to.nodes.Keys == t.nodes.Keys
  {
    hide Block, Index;
    var pl := Place(0, Block(page, 1));
    var n := t.at[pl];
    var ptes := t.nodes[n].ptes[Index(page, 0) := pte];
    assert NodeOk(t, pl, spare);
    hide NodeOk;
    assert Index(page, 0) in ptes;
    SetLeafKeeps(t, spare, pl, ptes);
    SetLeafMeans(t, spare, page, ptes);
    hide SetLeaf, EntryOf, TreeOk;
  }

  /** path[l] is the node of level l for a page, from level `from` on. */
  ghost predicate IsPath(t: Tree, page: nat, path: seq<nat>, from: nat) {
    && |path| == TOP + 1
    && forall l: nat {:trigger OnPath(t, page, path, l)} :: from <= l <= TOP ==> OnPath(t, page, path, l)
  }

  ghost predicate OnPath(t: Tree, page: nat, path: seq<nat>, l: nat)
    requires l < |path|
  {
    Place(l, Block(page, l + 1)) in t.at && t.at[Place(l, Block(page, l + 1))] == path[l]
  }

  lemma PathStays(t: Tree, page: nat, path: seq<nat>, n: nat, ptes: map<nat, Pte>)
    requires IsPath(t, page, path, 0)
    ensures IsPath(SetLeaf(t, n, ptes), page, path, 0)
  {
    forall l: nat | l <= TOP ensures OnPath(SetLeaf(t, n, ptes), page, path, l) {
      assert OnPath(t, page, path, l);
    }
  }

  /** One level further down the path */
  lemma PathDown(t: Tree, page: nat, path: seq<nat>, level: nat, kid: nat)
    requires 0 < level <= TOP && IsPath(t, page, path, level)
    requires Place(level - 1, Block(page, level)) in t.at && t.at[Place(level - 1, Block(page, level))] == kid
    ensures IsPath(t, page, path[level - 1 := kid], level - 1)
  {
    var longer := path[level - 1 := kid];
    forall l: nat | level - 1 <= l <= TOP ensures OnPath(t, page, longer, l) {
      assert l >= level ==> OnPath(t, page, path, l);
    }
  }

  lemma NodeThere(t: Tree, spare: Option<nat>, pl: Place)
    requires TreeOk(t, spare) && pl in t.at
    ensures t.at[pl] in t.nodes && pl.level <= TOP && (pl.level > 0 ==> t.nodes[t.at[pl]].Inner?)
  {
    assert NodeOk(t, pl, spare);
  }

  lemma ClearLeaf(t: Tree, page: nat, table: map<nat, Pte>)
    requires TreeOk(t, None) && Means(t, table) && Place(0, Block(page, 1)) in t.at
    requires t.at[Place(0, Block(page, 1))] in t.nodes && t.nodes[t.at[Place(0, Block(page, 1))]].Leaf?
    ensures var n := t.at[Place(0, Block(page, 1))];
            var to := SetLeaf(t, n, t.nodes[n].ptes - {Index(page, 0)});
            TreeOk(to, Some(n)) && Means(to, table - {page}) && to.nodes.Keys == t.nodes.Keys
  {
    hide Block, Index;
    var pl := Place(0, Block(page, 1));
    var n := t.at[pl];
    var ptes := t.nodes[n].ptes - {Index(page, 0)};
    assert NodeOk(t, pl, None);
    SetLeafKeeps(t, None, pl, ptes);
    SetLeafMeans(t, None, page, ptes);
    var to := SetLeaf(t, n, ptes);
    if ptes != map[] {
      SpareAllowed(to, n);
    }
    hide SetLeaf, EntryOf, TreeOk, NodeOk;
  }

  lemma SpareAllowed(t: Tree, n: nat)
    requires TreeOk(t, None)
    ensures TreeOk(t, Some(n))
  {
    forall q | q in t.at ensures NodeOk(t, q, Some(n)) {
      assert NodeOk(t, q, None);
    }
  }

  /** Freeing an empty node of the path keeps the rest of the path. */
  lemma FreeNode(t: Tree, page: nat, path: seq<nat>, level: nat, table: map<nat, Pte>)
    requires level < TOP && IsPath(t, page, path, level) && TreeOk(t, Some(path[level])) && Means(t, table)
    requires path[level] in t.nodes && Empty(t.nodes[path[level]])
    ensures var up := Place(level + 1, Block(page, level + 2));
            && up in t.at && t.at[up] in t.nodes && t.nodes[t.at[up]].Inner?
            && Index(page, level + 1) in t.nodes[t.at[up]].kids
            && var to := Shrink(t, up, Index(page, level + 1));
               && TreeOk(to, Some(path[level + 1])) && Means(to, table) && IsPath(to, page, path, level + 1)
               && to.nodes.Keys <= t.nodes.Keys
  {
    hide Block, Index;
    var up, i := Place(level + 1, Block(page, level + 2)), Index(page, level + 1);
    assert OnPath(t, page, path, level) && OnPath(t, page, path, level + 1);
    StepDown(t, Some(path[level]), page, level + 1);
    BlockSplit(page, level + 1);
    ShrinkKeeps(t, up, i);
    var to := Shrink(t, up, i);
    forall l: nat | level + 1 <= l <= TOP ensures OnPath(to, page, path, l) {
      assert OnPath(t, page, path, l);
    }
    hide TreeOk, EntryOf;
  }

  // ------------------------------------------------------------------
  // The search for the next mapped page
  // ------------------------------------------------------------------

  /** How many pages one entry of a level spans. */
  function Span(level: nat): (n: nat)
    ensures n > 0
  {
    if level == 0 then 1 else ENTRIES * Span(level - 1)
  }

  /** The first page of an entry */
  function Low(level: nat, entry: nat): nat {
    entry * Span(level)
  }

  lemma SpanZero(entry: nat)
    ensures Span(0) == 1 && Low(0, entry) == entry
  {
  }

  /** The least mapped page in the window below the node. */
  ghost predicate IsFirst(table: map<nat, Pte>, level: nat, prefix: nat, start: nat, end: nat, page: nat) {
    && page in table && start <= page < end && Block(page, level + 1) == prefix
    && forall p :: p in table && start <= p < end && Block(p, level + 1) == prefix ==> page <= p
  }

  /** The pages of one entry are an interval. */
  lemma {:induction false} BlockRange(page: nat, level: nat)
    ensures Block(page, level) * Span(level) <= page < Block(page, level) * Span(level) + Span(level)
  {
    if level > 0 {
      BlockRange(page, level - 1);
      var b, s := Block(page, level - 1), Span(level - 1);
      assert b == Block(page, level) * ENTRIES + b % ENTRIES;
      assert b * s == Block(page, level) * Span(level) + (b % ENTRIES) * s by {
        Distribute(Block(page, level), b % ENTRIES, s);
      }
      Bounded(b % ENTRIES, s);
    }
  }

  lemma Distribute(q: nat, r: nat, s: nat)
    ensures (q * ENTRIES + r) * s == q * (ENTRIES * s) + r * s
  {
  }

  lemma Bounded(r: nat, s: nat)
    requires r < ENTRIES
    ensures 0 <= r * s && r * s + s <= ENTRIES * s
  {
    TimesGrows(r + 1, ENTRIES, s);
  }

  lemma {:induction false} TimesGrows(a: nat, b: nat, s: nat)
    requires a <= b
    ensures a * s <= b * s
  {
    if s > 0 {
      TimesGrows(a, b, s - 1);
    }
  }

  lemma EntryRange(table: map<nat, Pte>, level: nat, entry: nat)
    ensures forall p :: p in table && Block(p, level) == entry ==>
              Low(level, entry) <= p < Low(level, entry) + Span(level)
  {
    forall p | p in table && Block(p, level) == entry ensures Low(level, entry) <= p < Low(level, entry) + Span(level) {
      BlockRange(p, level);
    }
  }

  /** A page of an entry is mapped only if the entry is there. */
  lemma EntryLeads(t: Tree, level: nat, prefix: nat, i: nat, table: map<nat, Pte>)
    requires TreeOk(t, None) && Means(t, table) && level <= TOP && Place(level, prefix) in t.at && i < ENTRIES
    requires t.at[Place(level, prefix)] in t.nodes && (level > 0 ==> t.nodes[t.at[Place(level, prefix)]].Inner?)
    ensures level == 0 ==> t.nodes[t.at[Place(level, prefix)]].Leaf?
    ensures level == 0 ==> (i in t.nodes[t.at[Place(0, prefix)]].ptes <==> prefix * ENTRIES + i in table)
    ensures level > 0 && i in t.nodes[t.at[Place(level, prefix)]].kids ==>
              && Place(level - 1, prefix * ENTRIES + i) in t.at
              && t.at[Place(level - 1, prefix * ENTRIES + i)] == t.nodes[t.at[Place(level, prefix)]].kids[i]
    ensures level > 0 && i !in t.nodes[t.at[Place(level, prefix)]].kids ==>
              forall p :: p in table ==> Block(p, level) != prefix * ENTRIES + i
    ensures level == 0 && i !in t.nodes[t.at[Place(0, prefix)]].ptes ==>
              forall p :: p in table ==> Block(p, 0) != prefix * ENTRIES + i
  {
    var pl := Place(level, prefix);
    assert NodeOk(t, pl, None);
    if level == 0 {
      var page := prefix * ENTRIES + i;
      assert Block(page, 0) == page && page % ENTRIES == i && page / ENTRIES == prefix;
      assert EntryOf(t, page) == if page in table then Some(table[page]) else None;
    } else if i in t.nodes[t.at[pl]].kids {
      assert KidOk(t, pl, i);
    } else {
      hide Block;
      ParentLeads(t, None, pl, i);
      forall p | p in table ensures Block(p, level) != prefix * ENTRIES + i {
        if Place(level - 1, Block(p, level)) !in t.at {
          NothingBelow(t, None, p, level - 1);
        }
        assert EntryOf(t, p) == Some(table[p]);
      }
    }
  }

  /** The blocks of a node's pages are its entries. */
  lemma AllEntries(table: map<nat, Pte>, level: nat, prefix: nat)
    ensures forall p :: p in table && Block(p, level + 1) == prefix ==>
              prefix * ENTRIES <= Block(p, level) < prefix * ENTRIES + ENTRIES
  {
    forall p | p in table && Block(p, level + 1) == prefix
      ensures prefix * ENTRIES <= Block(p, level) < prefix * ENTRIES + ENTRIES
    {
      BlockSplit(p, level);
    }
  }

  lemma FoundHere(table: map<nat, Pte>, prefix: nat, i: nat, start: nat, end: nat)
    requires i < ENTRIES && prefix * ENTRIES + i in table && start <= prefix * ENTRIES + i < end
    requires forall p :: p in table && Block(p, 1) == prefix && Block(p, 0) < prefix * ENTRIES + i ==>
               !(start <= p < end)
    ensures IsFirst(table, 0, prefix, start, end, prefix * ENTRIES + i)
  {
    assert Block(prefix * ENTRIES + i, 1) == prefix;
  }

  lemma FoundBelow(table: map<nat, Pte>, level: nat, prefix: nat, i: nat, start: nat, end: nat, page: nat)
    requires 0 < level && i < ENTRIES && IsFirst(table, level - 1, prefix * ENTRIES + i, start, end, page)
    requires forall p :: p in table && Block(p, level + 1) == prefix && Block(p, level) < prefix * ENTRIES + i ==>
               !(start <= p < end)
    ensures IsFirst(table, level, prefix, start, end, page)
  {
    hide Block;
    BlockSplit(page, level);
    assert Block(page, level + 1) == prefix;
    forall p | p in table && start <= p < end && Block(p, level + 1) == prefix ensures page <= p {
      if Block(p, level) != prefix * ENTRIES + i {
        Ordered(page, p, level);
      }
    }
  }

  lemma {:induction false} Ordered(p: nat, q: nat, level: nat)
    requires Block(p, level) < Block(q, level)
    ensures p < q
  {
    if level > 0 {
      Ordered(p, q, level - 1);
    }
  }
}
