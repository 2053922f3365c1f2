/**
  Four-level page tables as a value: which frames hold tables, what each entry
  says, and, beside that, the finite map the tables stand for.

  `at` and `pos` are inverse to each other and give every table frame its place
  in the tree: the address space that owns it and the indices that lead to it.
  Slots 256..511 of every root point to tables of the kernel space (owner 0),
  which all spaces share. `model` maps a place four levels deep to the page
  mapped there.
 */
module PageTree {
  import opened Basics
  import opened Frames

  const ENTRIES: nat := 512
  const SHARED_SLOT: nat := 256
  const KERNEL: nat := 0

  datatype Entry = Entry(present: bool, writable: bool, user: bool, huge: bool, nx: bool, frame: nat)

  datatype Leaf = Leaf(frame: nat, writable: bool, user: bool, nx: bool)

  /** A place in the tree: the root of a space, or entry `index` of the table at `up`. */
  datatype Pos = Root(space: nat) | Sub(up: Pos, index: nat)

  datatype Tree = Tree(
    tables: map<nat, seq<Entry>>,
    roots: map<nat, nat>,
    at: map<Pos, nat>,
    pos: map<nat, Pos>,
    model: map<Pos, Leaf>)

  const NO_ENTRY := Entry(false, false, false, false, false, 0)

  function EmptyTable(): (t: seq<Entry>)
    ensures |t| == ENTRIES && forall i :: 0 <= i < ENTRIES ==> t[i] == NO_ENTRY
  {
    seq(ENTRIES, _ => NO_ENTRY)
  }

  function LeafOf(e: Entry): Leaf {
    Leaf(e.frame, e.writable, e.user, e.nx)
  }

  function Depth(p: Pos): nat {
    match p
    case Root(_) => 0
    case Sub(up, _) => 1 + Depth(up)
  }

  /** The space whose tree the place belongs to. */
  ghost function SpaceOf(p: Pos): nat {
    match p
    case Root(s) => s
    case Sub(up, _) => SpaceOf(up)
  }

  /** The slot of the root through which the place is reached. */
  ghost function SlotOf(p: Pos): nat {
    match p
    case Root(_) => 0
    case Sub(up, i) => if up.Root? then i else SlotOf(up)
  }

  /** The root slots `lo`, ..., `hi - 1` of a space. */
  datatype Zone = Zone(space: nat, lo: nat, hi: nat)

  ghost predicate InZone(p: Pos, z: Zone) {
    p.Sub? && SpaceOf(p) == z.space && z.lo <= SlotOf(p) < z.hi
  }

  /** An entry of a table at this depth leads to another table; only page directories know large pages. */
  predicate IsLink(depth: nat, e: Entry) {
    e.present && !(depth == 2 && e.huge)
  }

  /** The place that entry `i` of the table at `p` leads to: upper root slots lead to kernel tables. */
  function Child(p: Pos, i: nat): Pos {
    if p.Root? && i >= SHARED_SLOT then Sub(Root(KERNEL), i) else Sub(p, i)
  }

  // ----- the invariant

  ghost predicate Shape(t: Tree) {
    && t.tables.Keys == t.pos.Keys
    && (forall f :: f in t.tables ==> |t.tables[f]| == ENTRIES)
    && (forall f :: f in t.pos ==> t.pos[f] in t.at && t.at[t.pos[f]] == f && Depth(t.pos[f]) <= 3)
    && (forall p :: p in t.at ==> t.at[p] in t.pos && t.pos[t.at[p]] == p)
    && KERNEL in t.roots
    && (forall a :: Root(a) in t.at <==> a in t.roots)
    && (forall a :: a in t.roots ==> t.at[Root(a)] == t.roots[a])
  }

  /** Every link leads to the table whose place it names. */
  ghost predicate Down(t: Tree)
    requires Shape(t)
  {
    forall f, i {:trigger Child(t.pos[f], i)} ::
      f in t.tables && 0 <= i < ENTRIES && Depth(t.pos[f]) < 3 && IsLink(Depth(t.pos[f]), t.tables[f][i]) ==>
        Child(t.pos[f], i) in t.at && t.at[Child(t.pos[f], i)] == t.tables[f][i].frame
  }

  /** Every table other than a root is linked from its parent. */
  ghost predicate Up(t: Tree)
    requires Shape(t)
  {
    forall q, i: nat {:trigger Sub(q, i)} :: Sub(q, i) in t.at ==>
      q in t.at && i < ENTRIES && Child(q, i) == Sub(q, i)
      && IsLink(Depth(q), t.tables[t.at[q]][i]) && t.tables[t.at[q]][i].frame == t.at[Sub(q, i)]
  }

  /** The entries of the last-level tables are the map. */
  ghost predicate Leaves(t: Tree)
    requires Shape(t)
  {
    && (forall f, i {:trigger Sub(t.pos[f], i)} :: f in t.tables && 0 <= i < ENTRIES && Depth(t.pos[f]) == 3 ==>
        (t.tables[f][i].present <==> Sub(t.pos[f], i) in t.model)
        && (t.tables[f][i].present ==> t.model[Sub(t.pos[f], i)] == LeafOf(t.tables[f][i])))
    && (forall k :: k in t.model ==> Depth(k) == 4 && k.index < ENTRIES && k.up in t.at)
  }

  ghost predicate Inv(t: Tree) {
    Shape(t) && Down(t) && Up(t) && Leaves(t)
  }

  /** A link is writable and executable, and open to user code or not. */
  predicate LinkFlags(e: Entry, user: bool) {
    e.writable && !e.nx && e.user == user
  }

  /** Links are open to user code exactly below the lower half of the root. */
  ghost predicate Perms(t: Tree)
    requires Shape(t)
  {
    forall f, i {:trigger t.tables[f][i]} ::
      f in t.tables && 0 <= i < ENTRIES && Depth(t.pos[f]) < 3 && IsLink(Depth(t.pos[f]), t.tables[f][i]) ==>
        LinkFlags(t.tables[f][i], SlotOf(Sub(t.pos[f], i)) < SHARED_SLOT)
  }

  lemma TableSize(t: Tree, u: nat)
    requires Shape(t) && u in t.tables
    ensures |t.tables[u]| == ENTRIES && u in t.pos && t.pos[u] in t.at && t.at[t.pos[u]] == u
  {
  }

  /** Following a link: the table it names is where it says. */
  lemma FollowLink(t: Tree, u: nat, i: nat)
    requires Inv(t) && u in t.tables && i < ENTRIES && Depth(t.pos[u]) < 3 && IsLink(Depth(t.pos[u]), t.tables[u][i])
    ensures var f := t.tables[u][i].frame;
            && f in t.tables && f in t.pos && |t.tables[f]| == ENTRIES && t.pos[f] == Child(t.pos[u], i)
            && Child(t.pos[u], i) in t.at && t.at[Child(t.pos[u], i)] == f && |t.tables[u]| == ENTRIES
  {
    assert Child(t.pos[u], i) in t.at;
  }

  lemma RootTableAt(t: Tree, a: nat)
    requires Shape(t) && a in t.roots
    ensures t.tables.Keys == t.pos.Keys
    ensures t.roots[a] in t.tables && |t.tables[t.roots[a]]| == ENTRIES && t.pos[t.roots[a]] == Root(a)
  {
  }

  /** Which shared slots the other spaces hold; nothing but creating a space changes this. */
  ghost function Slots(t: Tree): set<(nat, nat)> {
    set a: nat, i: nat | a in t.roots && i < ENTRIES && a != KERNEL && i >= SHARED_SLOT && t.roots[a] in t.tables
      && i < |t.tables[t.roots[a]]| && t.tables[t.roots[a]][i].present :: (a, i)
  }

  /** The kernel's root has this shared slot. */
  ghost predicate KernelSlot(t: Tree, i: nat) {
    && SHARED_SLOT <= i < ENTRIES && KERNEL in t.roots && t.roots[KERNEL] in t.tables
    && i < |t.tables[t.roots[KERNEL]]| && t.tables[t.roots[KERNEL]][i].present
  }

  // ----- the four ways the kernel changes the tree

  /** Link a freshly zeroed table `f` under entry `i` of table `u`. */
  ghost function LinkEmpty(t: Tree, u: nat, i: nat, f: nat, user: bool): Tree
    requires Shape(t) && u in t.tables && i < ENTRIES
  {
    var p := Child(t.pos[u], i);
    Tree(t.tables[f := EmptyTable()][u := t.tables[u][i := Entry(true, true, user, false, false, f)]],
         t.roots, t.at[p := f], t.pos[f := p], t.model)
  }

  ghost predicate CanLink(t: Tree, u: nat, i: nat, f: nat) {
    && Inv(t) && u in t.tables && i < ENTRIES && f !in t.tables
    && Depth(t.pos[u]) < 3 && !t.tables[u][i].present
    && Child(t.pos[u], i) == Sub(t.pos[u], i)
  }

  lemma LinkEmptyInv(t: Tree, u: nat, i: nat, f: nat, user: bool)
    requires CanLink(t, u, i, f)
    ensures Inv(LinkEmpty(t, u, i, f, user)) && Slots(LinkEmpty(t, u, i, f, user)) == Slots(t)
    ensures var s := LinkEmpty(t, u, i, f, user);
            && u in s.tables && s.pos[u] == t.pos[u] && |s.tables[u]| == ENTRIES
            && s.tables[u][i] == Entry(true, true, user, false, false, f)
            && Sub(t.pos[u], i) in s.at && s.at[Sub(t.pos[u], i)] == f
  {
    LinkEmptyShape(t, u, i, f, user);
    LinkEmptyDown(t, u, i, f, user);
    LinkEmptyUp(t, u, i, f, user);
    LinkEmptyLeaves(t, u, i, f, user);
    LinkEmptySlots(t, u, i, f, user);
  }

  lemma LinkEmptyPerms(t: Tree, u: nat, i: nat, f: nat, user: bool)
    requires CanLink(t, u, i, f) && Perms(t) && (user <==> SlotOf(Sub(t.pos[u], i)) < SHARED_SLOT)
    ensures Shape(LinkEmpty(t, u, i, f, user)) && Perms(LinkEmpty(t, u, i, f, user))
  {
    hide Down, Up, Leaves;
    LinkEmptyShape(t, u, i, f, user);
    var s := LinkEmpty(t, u, i, f, user);
    forall g, j | g in s.tables && 0 <= j < ENTRIES && Depth(s.pos[g]) < 3 && IsLink(Depth(s.pos[g]), s.tables[g][j])
      ensures LinkFlags(s.tables[g][j], SlotOf(Sub(s.pos[g], j)) < SHARED_SLOT)
    {
      if g != f && (g, j) != (u, i) {
        assert s.tables[g][j] == t.tables[g][j] && s.pos[g] == t.pos[g];
      }
    }
  }

  lemma LinkEmptySlots(t: Tree, u: nat, i: nat, f: nat, user: bool)
    requires CanLink(t, u, i, f)
    ensures Slots(LinkEmpty(t, u, i, f, user)) == Slots(t)
  {
    var s := LinkEmpty(t, u, i, f, user);
    forall a: nat, j: nat | a in t.roots && j < ENTRIES && a != KERNEL && j >= SHARED_SLOT
      ensures (a, j) in Slots(s) <==> (a, j) in Slots(t)
    {
      assert t.pos[t.roots[a]] == Root(a);
    }
  }

  lemma LinkEmptyShape(t: Tree, u: nat, i: nat, f: nat, user: bool)
    requires CanLink(t, u, i, f)
    ensures Shape(LinkEmpty(t, u, i, f, user))
  {
    assert Sub(t.pos[u], i) !in t.at;
  }

  lemma LinkEmptyDown(t: Tree, u: nat, i: nat, f: nat, user: bool)
    requires CanLink(t, u, i, f) && Shape(LinkEmpty(t, u, i, f, user))
    ensures Down(LinkEmpty(t, u, i, f, user))
  {
    var s := LinkEmpty(t, u, i, f, user);
    forall g, j | g in s.tables && 0 <= j < ENTRIES && Depth(s.pos[g]) < 3 && IsLink(Depth(s.pos[g]), s.tables[g][j])
      ensures Child(s.pos[g], j) in s.at && s.at[Child(s.pos[g], j)] == s.tables[g][j].frame
    {
      if g != f && (g, j) != (u, i) {
        assert s.tables[g][j] == t.tables[g][j];
        assert Child(t.pos[g], j) in t.at;
      }
    }
  }

  lemma LinkEmptyUp(t: Tree, u: nat, i: nat, f: nat, user: bool)
    requires CanLink(t, u, i, f) && Shape(LinkEmpty(t, u, i, f, user))
    ensures Up(LinkEmpty(t, u, i, f, user))
  {
  }

  lemma LinkEmptyLeaves(t: Tree, u: nat, i: nat, f: nat, user: bool)
    requires CanLink(t, u, i, f) && Shape(LinkEmpty(t, u, i, f, user))
    ensures Leaves(LinkEmpty(t, u, i, f, user))
  {
    var s := LinkEmpty(t, u, i, f, user);
    assert Sub(t.pos[u], i) !in t.at;
    forall g, j | g in s.tables && 0 <= j < ENTRIES && Depth(s.pos[g]) == 3
      ensures s.tables[g][j].present <==> Sub(s.pos[g], j) in s.model
      ensures s.tables[g][j].present ==> s.model[Sub(s.pos[g], j)] == LeafOf(s.tables[g][j])
    {
      if g != f {
        assert s.tables[g] == t.tables[g];
      }
    }
  }

  ghost predicate NoneUsed(table: seq<Entry>) {
    forall i :: 0 <= i < |table| ==> !table[i].present
  }

  /** Drop the table under entry `i` of table `u`. */
  ghost function UnlinkEmpty(t: Tree, u: nat, i: nat): Tree
    requires Shape(t) && u in t.tables && i < ENTRIES
  {
    var f := t.tables[u][i].frame;
    Tree(t.tables[u := t.tables[u][i := NO_ENTRY]] - {f}, t.roots, t.at - {Child(t.pos[u], i)}, t.pos - {f}, t.model)
  }

  ghost predicate CanUnlink(t: Tree, u: nat, i: nat) {
    && Inv(t) && u in t.tables && i < ENTRIES
    && Depth(t.pos[u]) < 3 && IsLink(Depth(t.pos[u]), t.tables[u][i])
    && (t.pos[u].Root? ==> i < SHARED_SLOT)
    && t.tables[u][i].frame in t.tables && NoneUsed(t.tables[t.tables[u][i].frame])
  }

  lemma UnlinkEmptyInv(t: Tree, u: nat, i: nat)
    requires CanUnlink(t, u, i)
    ensures Inv(UnlinkEmpty(t, u, i)) && Slots(UnlinkEmpty(t, u, i)) == Slots(t)
  {
    UnlinkEmptyShape(t, u, i);
    UnlinkEmptyDown(t, u, i);
    UnlinkEmptyUp(t, u, i);
    UnlinkEmptyLeaves(t, u, i);
    UnlinkEmptySlots(t, u, i);
  }

  lemma UnlinkEmptyPerms(t: Tree, u: nat, i: nat)
    requires CanUnlink(t, u, i) && Perms(t)
    ensures Shape(UnlinkEmpty(t, u, i)) && Perms(UnlinkEmpty(t, u, i))
  {
    hide Down, Up, Leaves;
    UnlinkEmptyShape(t, u, i);
    var s := UnlinkEmpty(t, u, i);
    forall g, j | g in s.tables && 0 <= j < ENTRIES && Depth(s.pos[g]) < 3 && IsLink(Depth(s.pos[g]), s.tables[g][j])
      ensures LinkFlags(s.tables[g][j], SlotOf(Sub(s.pos[g], j)) < SHARED_SLOT)
    {
      assert s.tables[g][j] == t.tables[g][j] && s.pos[g] == t.pos[g];
    }
  }

  lemma UnlinkEmptySlots(t: Tree, u: nat, i: nat)
    requires CanUnlink(t, u, i)
    ensures Slots(UnlinkEmpty(t, u, i)) == Slots(t)
  {
    UnlinkEmptyShape(t, u, i);
    var s := UnlinkEmpty(t, u, i);
    forall a: nat, j: nat | a in t.roots && j < ENTRIES && a != KERNEL && j >= SHARED_SLOT
      ensures (a, j) in Slots(s) <==> (a, j) in Slots(t)
    {
      assert t.pos[t.roots[a]] == Root(a);
    }
  }

  lemma UnlinkEmptyShape(t: Tree, u: nat, i: nat)
    requires CanUnlink(t, u, i)
    ensures Shape(UnlinkEmpty(t, u, i))
    ensures t.pos[t.tables[u][i].frame] == Sub(t.pos[u], i) && t.tables[u][i].frame != u
  {
    assert Child(t.pos[u], i) == Sub(t.pos[u], i);
  }

  lemma UnlinkEmptyDown(t: Tree, u: nat, i: nat)
    requires CanUnlink(t, u, i) && Shape(UnlinkEmpty(t, u, i))
    ensures Down(UnlinkEmpty(t, u, i))
  {
    hide Up, Leaves, NoneUsed;
    UnlinkEmptyShape(t, u, i);
    var s := UnlinkEmpty(t, u, i);
    forall g, j | g in s.tables && 0 <= j < ENTRIES && Depth(s.pos[g]) < 3 && IsLink(Depth(s.pos[g]), s.tables[g][j])
      ensures Child(s.pos[g], j) in s.at && s.at[Child(s.pos[g], j)] == s.tables[g][j].frame
    {
      assert Child(t.pos[g], j) in t.at;
    }
  }

  lemma UnlinkEmptyUp(t: Tree, u: nat, i: nat)
    requires CanUnlink(t, u, i) && Shape(UnlinkEmpty(t, u, i))
    ensures Up(UnlinkEmpty(t, u, i))
  {
    UnlinkEmptyShape(t, u, i);
  }

  lemma UnlinkEmptyLeaves(t: Tree, u: nat, i: nat)
    requires CanUnlink(t, u, i) && Shape(UnlinkEmpty(t, u, i))
    ensures Leaves(UnlinkEmpty(t, u, i))
  {
    UnlinkEmptyShape(t, u, i);
    var s := UnlinkEmpty(t, u, i);
    forall k | k in s.model
      ensures k.up in s.at
    {
      assert k == Sub(t.pos[t.at[k.up]], k.index);
    }
  }

  /** Write entry `e` at index `i` of the last-level table `u`. */
  ghost function SetLeaf(t: Tree, u: nat, i: nat, e: Entry): Tree
    requires Shape(t) && u in t.tables && i < ENTRIES
  {
    var k := Sub(t.pos[u], i);
    t.(tables := t.tables[u := t.tables[u][i := e]],
       model := if e.present then t.model[k := LeafOf(e)] else t.model - {k})
  }

  lemma SetLeafInv(t: Tree, u: nat, i: nat, e: Entry)
    requires Inv(t) && u in t.tables && i < ENTRIES && Depth(t.pos[u]) == 3
    ensures Inv(SetLeaf(t, u, i, e)) && Slots(SetLeaf(t, u, i, e)) == Slots(t)
  {
    SetLeafLinks(t, u, i, e);
    SetLeafLeaves(t, u, i, e);
    SetLeafSlots(t, u, i, e);
  }

  lemma SetLeafPerms(t: Tree, u: nat, i: nat, e: Entry)
    requires Shape(t) && Perms(t) && u in t.tables && i < ENTRIES && Depth(t.pos[u]) == 3
    requires Shape(SetLeaf(t, u, i, e))
    ensures Perms(SetLeaf(t, u, i, e))
  {
    var s := SetLeaf(t, u, i, e);
    forall g, j | g in s.tables && 0 <= j < ENTRIES && Depth(s.pos[g]) < 3 && IsLink(Depth(s.pos[g]), s.tables[g][j])
      ensures LinkFlags(s.tables[g][j], SlotOf(Sub(s.pos[g], j)) < SHARED_SLOT)
    {
      assert s.tables[g][j] == t.tables[g][j];
    }
  }

  lemma SetLeafSlots(t: Tree, u: nat, i: nat, e: Entry)
    requires Inv(t) && u in t.tables && i < ENTRIES && Depth(t.pos[u]) == 3
    ensures Slots(SetLeaf(t, u, i, e)) == Slots(t)
  {
    var s := SetLeaf(t, u, i, e);
    forall a: nat, j: nat | a in t.roots && j < ENTRIES && a != KERNEL && j >= SHARED_SLOT
      ensures (a, j) in Slots(s) <==> (a, j) in Slots(t)
    {
      assert t.pos[t.roots[a]] == Root(a);
    }
  }

  lemma SetLeafLinks(t: Tree, u: nat, i: nat, e: Entry)
    requires Inv(t) && u in t.tables && i < ENTRIES && Depth(t.pos[u]) == 3
    ensures Shape(SetLeaf(t, u, i, e)) && Down(SetLeaf(t, u, i, e)) && Up(SetLeaf(t, u, i, e))
  {
    var s := SetLeaf(t, u, i, e);
    assert forall f :: f in t.tables && f != u ==> s.tables[f] == t.tables[f];
    forall q, j: nat | Sub(q, j) in s.at
      ensures q in s.at && s.at[q] != u
    {
      assert t.pos[t.at[Sub(q, j)]] == Sub(q, j);
    }
  }

  lemma SetLeafLeaves(t: Tree, u: nat, i: nat, e: Entry)
    requires Inv(t) && u in t.tables && i < ENTRIES && Depth(t.pos[u]) == 3
    requires Shape(SetLeaf(t, u, i, e))
    ensures Leaves(SetLeaf(t, u, i, e))
  {
    var s := SetLeaf(t, u, i, e);
    forall g, j | g in s.tables && 0 <= j < ENTRIES && Depth(s.pos[g]) == 3
      ensures s.tables[g][j].present <==> Sub(s.pos[g], j) in s.model
      ensures s.tables[g][j].present ==> s.model[Sub(s.pos[g], j)] == LeafOf(s.tables[g][j])
    {
      if g == u && j == i {
        assert s.tables[g][j] == e;
      } else {
        assert s.tables[g][j] == t.tables[g][j];
        assert Sub(t.pos[g], j) != Sub(t.pos[u], i);
      }
    }
  }

  /** The root of a new space: the kernel's upper half, nothing below. */
  function RootTable(kernel: seq<Entry>): (r: seq<Entry>)
    requires |kernel| == ENTRIES
    ensures |r| == ENTRIES
  {
    seq(ENTRIES, i requires 0 <= i < ENTRIES => if i >= SHARED_SLOT then kernel[i] else NO_ENTRY)
  }

  ghost function AddRoot(t: Tree, a: nat, f: nat): Tree
    requires Shape(t)
  {
    Tree(t.tables[f := RootTable(t.tables[t.roots[KERNEL]])], t.roots[a := f],
         t.at[Root(a) := f], t.pos[f := Root(a)], t.model)
  }

  lemma AddRootInv(t: Tree, a: nat, f: nat)
    requires Inv(t) && a !in t.roots && f !in t.tables
    ensures Inv(AddRoot(t, a, f))
  {
    hide Shape, Down, Up, Leaves, AddRoot;
    AddRootShape(t, a, f);
    AddRootDown(t, a, f);
    AddRootUp(t, a, f);
    AddRootLeaves(t, a, f);
  }

  lemma AddRootShape(t: Tree, a: nat, f: nat)
    requires Inv(t) && a !in t.roots && f !in t.tables
    ensures Shape(AddRoot(t, a, f))
  {
    hide Down, Up, Leaves;
  }

  lemma AddRootDown(t: Tree, a: nat, f: nat)
    requires Inv(t) && a !in t.roots && f !in t.tables && Shape(AddRoot(t, a, f))
    ensures Down(AddRoot(t, a, f))
  {
    hide Up, Leaves;
    var s := AddRoot(t, a, f);
    forall g, j | g in s.tables && 0 <= j < ENTRIES && Depth(s.pos[g]) < 3 && IsLink(Depth(s.pos[g]), s.tables[g][j])
      ensures Child(s.pos[g], j) in s.at && s.at[Child(s.pos[g], j)] == s.tables[g][j].frame
    {
      if g == f {
        assert Child(s.pos[f], j) == Child(t.pos[t.roots[KERNEL]], j);
      }
    }
  }

  lemma AddRootUp(t: Tree, a: nat, f: nat)
    requires Inv(t) && a !in t.roots && f !in t.tables && Shape(AddRoot(t, a, f))
    ensures Up(AddRoot(t, a, f))
  {
    hide Down, Leaves;
  }

  lemma AddRootLeaves(t: Tree, a: nat, f: nat)
    requires Inv(t) && a !in t.roots && f !in t.tables && Shape(AddRoot(t, a, f))
    ensures Leaves(AddRoot(t, a, f))
  {
    hide Down, Up;
  }

  lemma AddRootPerms(t: Tree, a: nat, f: nat)
    requires Shape(t) && Perms(t) && a !in t.roots && f !in t.tables && Shape(AddRoot(t, a, f))
    ensures Perms(AddRoot(t, a, f))
  {
    var s, k := AddRoot(t, a, f), t.roots[KERNEL];
    forall g, j | g in s.tables && 0 <= j < ENTRIES && Depth(s.pos[g]) < 3 && IsLink(Depth(s.pos[g]), s.tables[g][j])
      ensures LinkFlags(s.tables[g][j], SlotOf(Sub(s.pos[g], j)) < SHARED_SLOT)
    {
      if g == f {
        assert s.tables[f][j] == t.tables[k][j] && t.pos[k] == Root(KERNEL);
        assert SlotOf(Sub(Root(a), j)) == SlotOf(Sub(Root(KERNEL), j)) == j;
      } else {
        assert s.tables[g][j] == t.tables[g][j] && s.pos[g] == t.pos[g];
      }
    }
  }

  /** The space holds exactly the kernel's shared slots, and the others what they held. */
  ghost predicate SlotsAdded(t: Tree, s: Tree, a: nat) {
    forall b: nat, i: nat :: (b, i) in Slots(s) <==> (b, i) in Slots(t) || (b == a && KernelSlot(t, i))
  }

  lemma AddRootSlots(t: Tree, a: nat, f: nat)
    requires Inv(t) && a !in t.roots && f !in t.tables
    ensures SlotsAdded(t, AddRoot(t, a, f), a)
  {
    hide Down, Up, Leaves;
    assert forall b: nat :: b in t.roots ==> t.roots[b] in t.tables && t.roots[b] != f;
  }

  /** Every page in the map belongs to a space that exists. */
  lemma OwnSpaceOnly(t: Tree, a: nat)
    requires Inv(t) && a !in t.roots
    ensures forall k :: k in t.model ==> SpaceOf(k) != a
  {
    hide Down;
    forall k | k in t.model
      ensures SpaceOf(k) != a
    {
      assert k.up in t.at;
      PlaceInSpace(t, k.up);
    }
  }

  lemma {:induction false} PlaceInSpace(t: Tree, p: Pos)
    requires Inv(t) && p in t.at
    ensures SpaceOf(p) in t.roots
  {
    hide Down, Leaves;
    if p.Sub? {
      assert p == Sub(p.up, p.index);
      PlaceInSpace(t, p.up);
    }
  }

  // ----- what a walk sees

  /** The table that walking the entries from a root reaches at `p`. */
  function Resolve(tables: map<nat, seq<Entry>>, roots: map<nat, nat>, p: Pos): Option<nat> {
    match p
    case Root(a) => if a in roots then Some(roots[a]) else None
    case Sub(up, i) =>
      match Resolve(tables, roots, up)
      case None => None
      case Some(f) =>
        if f in tables && i < |tables[f]| && IsLink(Depth(up), tables[f][i]) then Some(tables[f][i].frame) else None
  }

  /** Reading the tables: the page a full walk finds at entry `i` below `p`. */
  function Translate(tables: map<nat, seq<Entry>>, roots: map<nat, nat>, p: Pos, i: nat): Option<Leaf> {
    match Resolve(tables, roots, p)
    case None => None
    case Some(f) => if f in tables && i < |tables[f]| && tables[f][i].present then Some(LeafOf(tables[f][i])) else None
  }

  /** The place in the tree that walking `p` leads to, the shared slots being the kernel's. */
  ghost function Canon(p: Pos): Pos {
    match p
    case Root(_) => p
    case Sub(up, i) => Child(Canon(up), i)
  }

  /** The slot of the root that a walk to `p` starts with is present. */
  ghost predicate Sees(t: Tree, p: Pos)
    requires Shape(t)
  {
    match p
    case Root(a) => a in t.roots
    case Sub(up, i) =>
      if up.Root? then up.space in t.roots && i < ENTRIES && t.tables[t.roots[up.space]][i].present else Sees(t, up)
  }

  lemma {:induction false} ResolveCanon(t: Tree, p: Pos)
    requires Inv(t) && Depth(p) <= 3
    ensures Resolve(t.tables, t.roots, p) ==
            if Sees(t, p) && Canon(p) in t.at then Some(t.at[Canon(p)]) else None
    ensures Depth(Canon(p)) == Depth(p)
  {
    match p {
      case Root(a) =>
      case Sub(up, i) =>
        ResolveCanon(t, up);
        var q := Canon(up);
        if up.Root? {
          if up.space in t.roots {
            assert t.pos[t.roots[up.space]] == up;
            assert Child(t.pos[t.roots[up.space]], i) == Canon(p);
          }
        } else {
          assert Canon(p) == Sub(q, i);
          if q in t.at {
            assert Child(t.pos[t.at[q]], i) == Canon(p);
          }
        }
    }
  }

  /**
    Walking the tables is looking up the map: in the lower half each space has
    its own part, in the upper half every space that holds the slot sees the
    kernel's part.
   */
  lemma TranslateIsModel(t: Tree, p: Pos, i: nat)
    requires Inv(t) && Depth(p) == 3 && i < ENTRIES
    ensures Translate(t.tables, t.roots, p, i) ==
            if Sees(t, p) && Sub(Canon(p), i) in t.model then Some(t.model[Sub(Canon(p), i)]) else None
  {
    ResolveCanon(t, p);
    var q := Canon(p);
    if q in t.at {
      assert Sub(t.pos[t.at[q]], i) == Sub(q, i);
    }
  }

  /**
    What the hardware makes of a walk to `p`: where it ends, and the access that all
    entries on the way grant together. Writing and user access need every entry's
    leave; one entry is enough to forbid execution.
   */
  function Walk(tables: map<nat, seq<Entry>>, roots: map<nat, nat>, p: Pos): Option<Leaf> {
    match p
    case Root(a) => if a in roots then Some(Leaf(roots[a], true, true, false)) else None
    case Sub(up, i) =>
      match Walk(tables, roots, up)
      case None => None
      case Some(l) =>
        if l.frame in tables && i < |tables[l.frame]| && IsLink(Depth(up), tables[l.frame][i])
        then
          var e := tables[l.frame][i];
          Some(Leaf(e.frame, l.writable && e.writable, l.user && e.user, l.nx || e.nx))
        else None
  }

  lemma {:induction false} CanonSlot(p: Pos)
    requires p.Sub?
    ensures Canon(p).Sub? && SlotOf(Canon(p)) == SlotOf(p)
  {
    if p.up.Sub? {
      CanonSlot(p.up);
    }
  }

  /** On the way to a last-level table a walk loses user access exactly in the upper half, and nothing else. */
  lemma {:induction false} WalkToTable(t: Tree, p: Pos)
    requires Inv(t) && Perms(t) && Depth(p) <= 3
    ensures var r := Resolve(t.tables, t.roots, p);
            Walk(t.tables, t.roots, p) ==
            if r.None? then None else Some(Leaf(r.value, true, p.Root? || SlotOf(p) < SHARED_SLOT, false))
  {
    hide Down, Up, Leaves;
    if p.Sub? {
      WalkToTable(t, p.up);
      ResolveCanon(t, p.up);
      if p.up.Sub? {
        CanonSlot(p.up);
      }
      var r := Resolve(t.tables, t.roots, p.up);
      if r.Some? && Resolve(t.tables, t.roots, p).Some? {
        assert t.pos[r.value] == Canon(p.up);
        assert LinkFlags(t.tables[r.value][p.index], SlotOf(Sub(Canon(p.up), p.index)) < SHARED_SLOT);
      }
    }
  }

  /** The access a full walk grants is the page's own, but that the upper half is closed to user code. */
  lemma WalkIsTranslate(t: Tree, p: Pos, i: nat)
    requires Inv(t) && Perms(t) && Depth(p) == 3 && i < ENTRIES
    ensures var r := Translate(t.tables, t.roots, p, i);
            Walk(t.tables, t.roots, Sub(p, i)) ==
            if r.None? then None
            else Some(Leaf(r.value.frame, r.value.writable, r.value.user && SlotOf(p) < SHARED_SLOT, r.value.nx))
  {
    hide Inv, Perms, Resolve;
    WalkToTable(t, p);
  }

  // ----- reference counts

  ghost function LeafRefs(model: map<Pos, Leaf>, f: nat): set<Pos> {
    set k | k in model && model[k].frame == f
  }

  /** How often the tree itself refers to frame `f`: mapped pages, and one for a live table. */
  ghost function Uses(t: Tree, f: nat): nat {
    |LeafRefs(t.model, f)| + (if f in t.tables then 1 else 0)
  }

  /** Every managed frame's count is the holds outside the tree plus the uses inside it. */
  ghost predicate Exact(refs: seq<nat>, ext: seq<nat>, t: Tree) {
    && |ext| == |refs|
    && forall f: nat :: f < |refs| && refs[f] != UNMANAGED ==> refs[f] == ext[f] + Uses(t, f)
  }

  lemma LeafRefsAdd(model: map<Pos, Leaf>, k: Pos, l: Leaf)
    requires k !in model
    ensures forall f :: |LeafRefs(model[k := l], f)| == |LeafRefs(model, f)| + (if l.frame == f then 1 else 0)
  {
    forall f
      ensures |LeafRefs(model[k := l], f)| == |LeafRefs(model, f)| + (if l.frame == f then 1 else 0)
    {
      assert LeafRefs(model[k := l], f) == if l.frame == f then LeafRefs(model, f) + {k} else LeafRefs(model, f);
    }
  }

  lemma LeafRefsDrop(model: map<Pos, Leaf>, k: Pos)
    requires k in model
    ensures forall f :: |LeafRefs(model - {k}, f)| == |LeafRefs(model, f)| - (if model[k].frame == f then 1 else 0)
  {
    forall f
      ensures |LeafRefs(model - {k}, f)| == |LeafRefs(model, f)| - (if model[k].frame == f then 1 else 0)
    {
      LeafRefsAdd(model - {k}, k, model[k]);
      assert (model - {k})[k := model[k]] == model;
    }
  }

  lemma LeafRefsSame(model: map<Pos, Leaf>, k: Pos, l: Leaf)
    requires k in model && model[k].frame == l.frame
    ensures forall f :: LeafRefs(model[k := l], f) == LeafRefs(model, f)
  {
  }

  /** The counts after one more (or one fewer) reference on `f`, if `f` is managed. */
  ghost function Counted(refs: seq<nat>, f: nat, delta: int): seq<nat> {
    if f < |refs| && refs[f] != UNMANAGED && refs[f] + delta >= 0 then refs[f := refs[f] + delta] else refs
  }

  lemma ExactLink(refs: seq<nat>, ext: seq<nat>, t: Tree, u: nat, i: nat, f: nat, user: bool)
    requires CanLink(t, u, i, f) && Exact(refs, ext, t) && f < |refs| && refs[f] == 0
    ensures Exact(refs[f := 1], ext, LinkEmpty(t, u, i, f, user))
  {
    var s := LinkEmpty(t, u, i, f, user);
    assert s.tables.Keys == t.tables.Keys + {f};
  }

  lemma ExactUnlink(refs: seq<nat>, ext: seq<nat>, t: Tree, u: nat, i: nat)
    requires CanUnlink(t, u, i) && Exact(refs, ext, t)
    ensures var f := t.tables[u][i].frame;
            && (f < |refs| && refs[f] != UNMANAGED ==> refs[f] > 0)
            && Exact(Counted(refs, f, -1), ext, UnlinkEmpty(t, u, i))
  {
    var s := UnlinkEmpty(t, u, i);
    assert s.tables.Keys == t.tables.Keys - {t.tables[u][i].frame};
  }

  /** Mapping a page: the mapping takes a reference of its own, or takes over the caller's. */
  lemma ExactMap(refs: seq<nat>, ext: seq<nat>, t: Tree, u: nat, i: nat, e: Entry, owned: bool)
    requires Inv(t) && u in t.tables && i < ENTRIES && Depth(t.pos[u]) == 3 && !t.tables[u][i].present
    requires e.present && Exact(refs, ext, t)
    requires e.frame < |refs| && refs[e.frame] != UNMANAGED ==>
             if owned then ext[e.frame] > 0 else refs[e.frame] < UNMANAGED - 1
    ensures if owned then Exact(refs, Surrendered(refs, ext, e.frame), SetLeaf(t, u, i, e))
            else Exact(Counted(refs, e.frame, 1), ext, SetLeaf(t, u, i, e))
  {
    LeafRefsAdd(t.model, Sub(t.pos[u], i), LeafOf(e));
    assert SetLeaf(t, u, i, e).tables.Keys == t.tables.Keys;
  }

  /** The external holds after the caller has given up its reference on a managed `f`. */
  ghost function Surrendered(refs: seq<nat>, ext: seq<nat>, f: nat): seq<nat> {
    if f < |refs| && f < |ext| && refs[f] != UNMANAGED && ext[f] > 0 then ext[f := ext[f] - 1] else ext
  }

  lemma ExactUnmap(refs: seq<nat>, ext: seq<nat>, t: Tree, u: nat, i: nat)
    requires Inv(t) && u in t.tables && i < ENTRIES && Depth(t.pos[u]) == 3 && t.tables[u][i].present
    requires Exact(refs, ext, t)
    ensures var f := t.tables[u][i].frame;
            && (f < |refs| && refs[f] != UNMANAGED ==> refs[f] > 0)
            && Exact(Counted(refs, f, -1), ext, SetLeaf(t, u, i, NO_ENTRY))
  {
    var f := t.tables[u][i].frame;
    var k := Sub(t.pos[u], i);
    LeafRefsDrop(t.model, k);
    assert k in LeafRefs(t.model, f);
    assert SetLeaf(t, u, i, NO_ENTRY).tables.Keys == t.tables.Keys;
  }

  lemma ExactProtect(refs: seq<nat>, ext: seq<nat>, t: Tree, u: nat, i: nat, e: Entry)
    requires Inv(t) && u in t.tables && i < ENTRIES && Depth(t.pos[u]) == 3 && t.tables[u][i].present
    requires e.present && e.frame == t.tables[u][i].frame && Exact(refs, ext, t)
    ensures Exact(refs, ext, SetLeaf(t, u, i, e))
  {
    LeafRefsSame(t.model, Sub(t.pos[u], i), LeafOf(e));
    assert SetLeaf(t, u, i, e).tables.Keys == t.tables.Keys;
  }

  lemma ExactAddRoot(refs: seq<nat>, ext: seq<nat>, t: Tree, a: nat, f: nat)
    requires Inv(t) && f !in t.tables && Exact(refs, ext, t) && f < |refs| && refs[f] == 0
    ensures Exact(refs[f := 1], ext, AddRoot(t, a, f))
  {
    assert AddRoot(t, a, f).tables.Keys == t.tables.Keys + {f};
  }

  /** No frame is free while it is mapped or holds a table. */
  lemma FreeMeansUnused(refs: seq<nat>, ext: seq<nat>, t: Tree, f: nat)
    requires Exact(refs, ext, t) && f < |refs| && refs[f] == 0
    ensures f !in t.tables && forall k :: k in t.model ==> t.model[k].frame != f
  {
    assert LeafRefs(t.model, f) == {};
    forall k | k in t.model
      ensures t.model[k].frame != f
    {
      assert k !in LeafRefs(t.model, f);
    }
  }
}
