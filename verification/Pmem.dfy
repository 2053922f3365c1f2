/**
  The registry of physical memory objects. Objects derived or merged from others
  keep their parents alive: a record is reclaimed when it is neither registered
  nor the parent of an unreclaimed record, and only then are pages it owns given
  back.
 */
module Pmem {
  import opened Basics

  const MAX: nat := 0xffff_ffff_ffff_ffff

  /** What never changes about an object. */
  datatype Info = Info(base: nat, length: nat, owns: bool, parents: seq<nat>)

  datatype Record = Record(info: Info, refs: nat)

  ghost predicate Has(i: Info, x: nat) {
    i.base <= x < i.base + i.length
  }

  // ----- the parent graph, over everything ever created

  /** Parents are older, and distinct. */
  ghost predicate Graph(history: map<nat, Info>) {
    && (forall c, i :: c in history && 0 <= i < |history[c].parents| ==>
         history[c].parents[i] in history && history[c].parents[i] < c)
    && (forall c :: c in history ==> |history[c].parents| <= 2)
    && (forall c :: c in history && |history[c].parents| == 2 ==> history[c].parents[0] != history[c].parents[1])
  }

  /** `h` and its ancestors. */
  ghost function Up(history: map<nat, Info>, h: nat): set<nat> {
    if h !in history then {}
    else
      var p := history[h].parents;
      {h}
      + (if |p| > 0 && p[0] < h then Up(history, p[0]) else {})
      + (if |p| > 1 && p[1] < h then Up(history, p[1]) else {})
  }

  lemma {:induction false} UpClosed(history: map<nat, Info>, r: nat, c: nat, i: nat)
    requires Graph(history) && c in history && c in Up(history, r) && i < |history[c].parents|
    ensures history[c].parents[i] in Up(history, r)
    decreases r
  {
    hide Graph;
    var p := history[r].parents;
    if c == r {
      ParentsOlder(history, c, i);
      assert p[i] in Up(history, p[i]);
    } else if |p| > 0 && p[0] < r && c in Up(history, p[0]) {
      UpClosed(history, p[0], c, i);
    } else {
      UpClosed(history, p[1], c, i);
    }
  }

  lemma ParentsOlder(history: map<nat, Info>, c: nat, i: nat)
    requires Graph(history) && c in history && i < |history[c].parents|
    ensures history[c].parents[i] in history && history[c].parents[i] < c && i < 2
  {
  }

  lemma {:induction false} UpInHistory(history: map<nat, Info>, r: nat)
    requires Graph(history)
    ensures Up(history, r) <= history.Keys && forall a :: a in Up(history, r) ==> a <= r
    decreases r
  {
    if r in history {
      var p := history[r].parents;
      if |p| > 0 {
        UpInHistory(history, p[0]);
      }
      if |p| > 1 {
        UpInHistory(history, p[1]);
      }
    }
  }

  /** Adding a newer object does not change who the ancestors of the others are. */
  lemma {:induction false} UpExtend(history: map<nat, Info>, h: nat, info: Info, r: nat)
    requires Graph(history) && h !in history && r in history && (forall c :: c in history ==> c < h)
    ensures Up(history[h := info], r) == Up(history, r)
    decreases r
  {
    var p := history[r].parents;
    if |p| > 0 {
      UpExtend(history, h, info, p[0]);
    }
    if |p| > 1 {
      UpExtend(history, h, info, p[1]);
    }
  }

  // ----- the state

  ghost function Children(recs: map<nat, Record>, h: nat): set<nat> {
    set c | c in recs && h in recs[c].info.parents
  }

  /** The count a record must have: its registration and its unreclaimed children. */
  ghost function Due(recs: map<nat, Record>, registered: set<nat>, h: nat): nat {
    (if h in registered then 1 else 0) + |Children(recs, h)|
  }

  ghost predicate Consistent(recs: map<nat, Record>, registered: set<nat>, history: map<nat, Info>, next: nat) {
    && Graph(history)
    && (forall h :: h in history ==> 0 < h < next)
    && (forall h :: h in recs ==> h in history && recs[h].info == history[h])
    && (forall c, i :: c in recs && 0 <= i < |recs[c].info.parents| ==> recs[c].info.parents[i] in recs)
    && registered <= recs.Keys
  }

  ghost predicate Counted(recs: map<nat, Record>, registered: set<nat>) {
    forall h :: h in recs ==> recs[h].refs == Due(recs, registered, h)
  }

  ghost predicate AllLive(recs: map<nat, Record>) {
    forall h :: h in recs ==> recs[h].refs > 0
  }

  /** Every byte of `c` lies in one of its parents. */
  ghost predicate ParentsCover(history: map<nat, Info>, c: nat)
    requires c in history
  {
    var p := history[c].parents;
    forall x :: Has(history[c], x) ==>
      (|p| > 0 && p[0] in history && Has(history[p[0]], x)) || (|p| > 1 && p[1] in history && Has(history[p[1]], x))
  }

  ghost predicate Covered(history: map<nat, Info>) {
    forall c :: c in history && history[c].parents != [] ==> ParentsCover(history, c)
  }

  /** Some registered object is `h` or descends from it. */
  ghost predicate Wanted(history: map<nat, Info>, registered: set<nat>, h: nat) {
    exists r :: r in registered && h in Up(history, r)
  }

  lemma {:induction false} LiveIsWanted(recs: map<nat, Record>, registered: set<nat>, history: map<nat, Info>,
                                        next: nat, h: nat)
    requires Consistent(recs, registered, history, next) && Counted(recs, registered) && AllLive(recs) && h in recs
    ensures Wanted(history, registered, h)
    decreases next - h
  {
    if h in registered {
      assert h in Up(history, h);
    } else {
      assert |Children(recs, h)| > 0;
      var c :| c in Children(recs, h);
      var i :| 0 <= i < |recs[c].info.parents| && recs[c].info.parents[i] == h;
      LiveIsWanted(recs, registered, history, next, c);
      var r :| r in registered && c in Up(history, r);
      UpClosed(history, r, c, i);
    }
  }

  lemma {:induction false} AncestorsKept(recs: map<nat, Record>, registered: set<nat>, history: map<nat, Info>,
                                         next: nat, r: nat)
    requires Consistent(recs, registered, history, next) && r in recs
    ensures Up(history, r) <= recs.Keys
    decreases r
  {
    var p := history[r].parents;
    if |p| > 0 {
      AncestorsKept(recs, registered, history, next, p[0]);
    }
    if |p| > 1 {
      AncestorsKept(recs, registered, history, next, p[1]);
    }
  }

  /** Exact counts are reachability: the unreclaimed records are the registered ones and their ancestors. */
  lemma ExactlyWanted(recs: map<nat, Record>, registered: set<nat>, history: map<nat, Info>, next: nat)
    requires Consistent(recs, registered, history, next) && Counted(recs, registered) && AllLive(recs)
    ensures forall h :: h in recs <==> Wanted(history, registered, h)
  {
    forall h
      ensures h in recs <==> Wanted(history, registered, h)
    {
      if h in recs {
        LiveIsWanted(recs, registered, history, next, h);
      }
      if Wanted(history, registered, h) {
        var r :| r in registered && h in Up(history, r);
        AncestorsKept(recs, registered, history, next, r);
      }
    }
  }

  /** Every byte of an object lies in a parentless ancestor. */
  lemma {:induction false} RootCovers(history: map<nat, Info>, h: nat, x: nat) returns (root: nat)
    requires Graph(history) && Covered(history) && h in history && Has(history[h], x)
    ensures root in Up(history, h) && root in history && history[root].parents == [] && Has(history[root], x)
    decreases h
  {
    if history[h].parents == [] {
      root := h;
    } else {
      assert ParentsCover(history, h);
      var p := history[h].parents;
      root := RootCovers(history, if p[0] in history && Has(history[p[0]], x) then p[0] else p[1], x);
    }
  }

  // ----- adding a record

  /** The records with one more reference on each of `ps`. */
  function Bump(recs: map<nat, Record>, ps: seq<nat>): map<nat, Record> {
    map h | h in recs :: if h in ps then recs[h].(refs := recs[h].refs + 1) else recs[h]
  }

  /** What a new object may name as parents, and what it may cover. */
  ghost predicate Insertable(recs: map<nat, Record>, registered: set<nat>, history: map<nat, Info>, info: Info) {
    && |info.parents| <= 2 && (|info.parents| == 2 ==> info.parents[0] != info.parents[1])
    && (forall i :: 0 <= i < |info.parents| ==>
         info.parents[i] in registered && info.parents[i] in recs && info.parents[i] in history)
    && (info.parents != [] ==> forall x :: Has(info, x) ==>
          Has(history[info.parents[0]], x) || (|info.parents| > 1 && Has(history[info.parents[1]], x)))
  }

  lemma InsertChildren(recs: map<nat, Record>, h: nat, info: Info, g: nat)
    requires h !in recs
    ensures Children(Bump(recs, info.parents)[h := Record(info, 1)], g) ==
            if g in info.parents then Children(recs, g) + {h} else Children(recs, g)
  {
  }

  lemma NoChildrenYet(recs: map<nat, Record>, registered: set<nat>, history: map<nat, Info>, next: nat)
    requires Consistent(recs, registered, history, next)
    ensures next !in recs && Children(recs, next) == {}
  {
    forall c | c in recs
      ensures next !in recs[c].info.parents
    {
    }
  }

  lemma InsertCounted(recs: map<nat, Record>, registered: set<nat>, history: map<nat, Info>, next: nat, info: Info)
    requires Consistent(recs, registered, history, next) && Counted(recs, registered) && AllLive(recs) && 0 < next
    requires Insertable(recs, registered, history, info)
    ensures var recs' := Bump(recs, info.parents)[next := Record(info, 1)];
            Counted(recs', registered + {next}) && AllLive(recs')
  {
    hide Children, Covered, Has, Graph;
    var recs' := Bump(recs, info.parents)[next := Record(info, 1)];
    NoChildrenYet(recs, registered, history, next);
    forall h | h in recs'
      ensures recs'[h].refs == Due(recs', registered + {next}, h) && recs'[h].refs > 0
    {
      InsertChildren(recs, next, info, h);
      if h in info.parents {
        NotYetChild(recs, h, next);
      }
    }
  }

  lemma NotYetChild(recs: map<nat, Record>, h: nat, c: nat)
    requires c !in recs
    ensures c !in Children(recs, h)
  {
  }

  lemma InsertConsistent(recs: map<nat, Record>, registered: set<nat>, history: map<nat, Info>, next: nat, info: Info)
    requires Consistent(recs, registered, history, next) && 0 < next && Insertable(recs, registered, history, info)
    ensures Consistent(Bump(recs, info.parents)[next := Record(info, 1)], registered + {next}, history[next := info],
                       next + 1)
  {
  }

  lemma InsertCovered(recs: map<nat, Record>, registered: set<nat>, history: map<nat, Info>, next: nat, info: Info)
    requires Consistent(recs, registered, history, next) && Covered(history)
    requires Insertable(recs, registered, history, info)
    ensures Covered(history[next := info])
  {
    var history' := history[next := info];
    forall c | c in history' && history'[c].parents != []
      ensures ParentsCover(history', c)
    {
      if c != next {
        assert ParentsCover(history, c);
      }
    }
  }

  // ----- reclaiming

  /** While the parents of `h` are being released: the first `k` of them have already lost its reference. */
  ghost predicate CountedBut(recs: map<nat, Record>, registered: set<nat>, h: nat, k: nat)
    requires h in recs && k <= |recs[h].info.parents|
  {
    forall g :: g in recs ==>
      recs[g].refs + (if g in recs[h].info.parents[..k] then 1 else 0) == Due(recs, registered, g)
  }

  /** `pending` lists, each once, the records whose count has reached zero. */
  ghost predicate Pending(recs: map<nat, Record>, pending: seq<nat>, except: set<nat>) {
    && (forall i, j :: 0 <= i < j < |pending| ==> pending[i] != pending[j])
    && (forall h :: h in pending ==> h in recs && h !in except)
    && (forall h :: h in recs && h !in except ==> (recs[h].refs == 0 <==> h in pending))
  }

  /** The same objects with possibly other counts. */
  ghost predicate SameInfos(recs: map<nat, Record>, recs': map<nat, Record>) {
    recs.Keys == recs'.Keys && forall h :: h in recs ==> recs[h].info == recs'[h].info
  }

  lemma SameInfosSameDue(recs: map<nat, Record>, recs': map<nat, Record>, registered: set<nat>, h: nat)
    requires SameInfos(recs, recs')
    ensures Due(recs', registered, h) == Due(recs, registered, h)
  {
    assert Children(recs', h) == Children(recs, h);
  }

  lemma ReclaimChildren(recs: map<nat, Record>, h: nat, g: nat)
    requires h in recs
    ensures |Children(recs, g)| == |Children(recs - {h}, g)| + (if g in recs[h].info.parents then 1 else 0)
  {
    if g in recs[h].info.parents {
      assert Children(recs, g) == Children(recs - {h}, g) + {h};
    } else {
      assert Children(recs, g) == Children(recs - {h}, g);
    }
  }

  lemma ReclaimCounted(recs: map<nat, Record>, registered: set<nat>, h: nat)
    requires h in recs && CountedBut(recs, registered, h, |recs[h].info.parents|)
    ensures Counted(recs - {h}, registered)
  {
    hide Children;
    var recs' := recs - {h};
    var ps := recs[h].info.parents;
    assert ps[..|ps|] == ps;
    forall g | g in recs'
      ensures recs'[g].refs == Due(recs', registered, g)
    {
      ReclaimChildren(recs, h, g);
    }
  }

  lemma ReclaimConsistent(recs: map<nat, Record>, registered: set<nat>, history: map<nat, Info>, next: nat, h: nat)
    requires Consistent(recs, registered, history, next) && h in recs && h !in registered && Children(recs, h) == {}
    ensures Consistent(recs - {h}, registered, history, next)
  {
    forall c, i | c in recs - {h} && 0 <= i < |recs[c].info.parents|
      ensures recs[c].info.parents[i] != h
    {
      assert c !in Children(recs, h);
    }
  }

  class Registry {
    /** All records not yet reclaimed. */
    var recs: map<nat, Record>
    /** The handles that can still be looked up. */
    var registered: set<nat>
    var next: nat
    ghost var history: map<nat, Info>
    /** The objects whose own pages have been given back, in that order. */
    ghost var released: seq<nat>

    ghost predicate Valid()
      reads this
    {
      && Consistent(recs, registered, history, next) && 0 < next <= MAX
      && Counted(recs, registered) && AllLive(recs) && Covered(history)
      && ReleasedOnce(recs, history, released)
    }

    constructor ()
      ensures Valid() && recs == map[] && history == map[] && released == []
    {
      recs, registered, next := map[], {}, 1;
      history, released := map[], [];
    }

    /** Register a new object; fails only when the handles are used up. */
    method Insert(info: Info) returns (h: Option<nat>)
      requires Valid() && Insertable(recs, registered, history, info)
      modifies this`recs, this`registered, this`next, this`history
      ensures Valid() && (h.None? <==> old(next) == MAX)
      ensures h.None? ==> recs == old(recs) && registered == old(registered) && history == old(history)
      ensures h.Some? ==> h == Some(old(next)) && next == old(next) + 1
      ensures h.Some? ==> history == old(history)[h.value := info] && registered == old(registered) + {h.value}
      ensures h.Some? ==> recs == Bump(old(recs), info.parents)[h.value := Record(info, 1)]
    {
      hide Graph, Children, Has;
      if next == MAX {
        return None;
      }
      InsertCounted(recs, registered, history, next, info);
      InsertConsistent(recs, registered, history, next, info);
      InsertCovered(recs, registered, history, next, info);
      InsertReleased(recs, registered, history, next, released, info);
      h := Some(next);
      recs := Bump(recs, info.parents)[next := Record(info, 1)];
      registered := registered + {next};
      history := history[next := info];
      next := next + 1;
    }

    /** Describe a range that has no parents; owned ranges are whole pages. */
    method Create(base: nat, length: nat, owns: bool, nodeOk: bool) returns (h: Option<nat>)
      requires Valid()
      modifies this`recs, this`registered, this`next, this`history
      ensures Valid()
      ensures h.Some? <==>
              (base + length <= MAX && (owns ==> length != 0 && base % PAGE_SIZE == 0 && length % PAGE_SIZE == 0)
               && nodeOk && old(next) != MAX)
      ensures h.Some? ==> h.value !in old(history) && history == old(history)[h.value := Info(base, length, owns, [])]
      ensures h.Some? ==> registered == old(registered) + {h.value}
      ensures h.None? ==> recs == old(recs) && registered == old(registered) && history == old(history)
    {
      if base + length > MAX || (owns && (length == 0 || base % PAGE_SIZE != 0 || length % PAGE_SIZE != 0)) || !nodeOk {
        return None;
      }
      h := Insert(Info(base, length, owns, []));
    }

    /** A part of an existing object. */
    method Derive(source: nat, base: nat, length: nat, nodeOk: bool) returns (h: Option<nat>)
      requires Valid()
      modifies this`recs, this`registered, this`next, this`history
      ensures Valid()
      ensures h.Some? <==> (
                && nodeOk && old(next) != MAX && source in old(registered) && source in old(recs)
                && var s := old(recs)[source];
                   && s.refs != MAX && s.info.base + s.info.length <= MAX
                   && s.info.base <= base && base + length <= s.info.base + s.info.length)
      ensures h.Some? ==> source in old(registered) && source in old(history) && h.value !in old(history)
      ensures h.Some? ==> history == old(history)[h.value := Info(base, length, false, [source])]
      ensures h.Some? ==> old(history)[source].base <= base
      ensures h.Some? ==> base + length <= old(history)[source].base + old(history)[source].length
      ensures h.Some? ==> registered == old(registered) + {h.value}
      ensures h.None? ==> recs == old(recs) && registered == old(registered) && history == old(history)
    {
      hide Graph, Counted, AllLive, Covered, ReleasedOnce, Bump;
      if base + length > MAX || !nodeOk || source !in registered {
        return None;
      }
      var s := recs[source];
      if s.info.base + s.info.length > MAX || base < s.info.base || base + length > s.info.base + s.info.length
         || s.refs == MAX {
        return None;
      }
      h := Insert(Info(base, length, false, [source]));
    }

    /** One object for two that overlap or touch. */
    method Merge(a: nat, b: nat, nodeOk: bool) returns (h: Option<nat>)
      requires Valid()
      modifies this`recs, this`registered, this`next, this`history
      ensures Valid()
      ensures h.Some? <==> (
                && nodeOk && old(next) != MAX && a in old(registered) && b in old(registered) && a in old(recs)
                && b in old(recs)
                && old(recs)[a].refs != MAX && old(recs)[b].refs != MAX
                && Mergeable(old(recs)[a].info, old(recs)[b].info))
      ensures h.Some? ==> a in old(registered) && b in old(registered) && a in old(history) && b in old(history)
      ensures h.Some? ==> h.value !in old(history) && h.value in history
      ensures h.Some? ==> history == old(history)[h.value := history[h.value]] && !history[h.value].owns
      ensures h.Some? ==> history[h.value].parents == if a == b then [a] else [a, b]
      ensures h.Some? ==> forall x :: Has(history[h.value], x) <==> Has(old(history)[a], x) || Has(old(history)[b], x)
      ensures h.Some? && old(history)[a].length == 0 && old(history)[b].length == 0 ==>
              history[h.value].base <= old(history)[a].base && history[h.value].base <= old(history)[b].base
              && (history[h.value].base == old(history)[a].base || history[h.value].base == old(history)[b].base)
      ensures h.Some? ==> registered == old(registered) + {h.value}
      ensures h.None? ==> recs == old(recs) && registered == old(registered) && history == old(history)
    {
      hide Graph, Counted, AllLive, Covered, ReleasedOnce, Bump;
      if !nodeOk || a !in registered || b !in registered {
        return None;
      }
      var range := MergedRange(recs[a].info, recs[b].info);
      if range.None? || recs[a].refs == MAX || recs[b].refs == MAX {
        return None;
      }
      var (base, length) := range.value;
      h := Insert(Info(base, length, false, if a == b then [a] else [a, b]));
    }

    /** Drop one reference and, when it was the last, put the record on the pending stack. */
    method ReleaseRecord(h: nat, pending: seq<nat>) returns (pending': seq<nat>)
      requires h in recs && recs[h].refs > 0
      modifies this`recs
      ensures recs == old(recs)[h := old(recs)[h].(refs := old(recs)[h].refs - 1)]
      ensures pending' == if recs[h].refs == 0 then [h] + pending else pending
    {
      recs := recs[h := recs[h].(refs := recs[h].refs - 1)];
      pending' := if recs[h].refs == 0 then [h] + pending else pending;
    }

    /** Reclaim a record that nothing refers to: release its parents, then let go of it. */
    method Reclaim(h: nat, rest: seq<nat>) returns (pending: seq<nat>)
      requires Consistent(recs, registered, history, next) && Counted(recs, registered)
      requires Pending(recs, [h] + rest, {}) && h in recs
      modifies this`recs
      ensures Consistent(recs, registered, history, next) && Counted(recs, registered)
      ensures Pending(recs, pending, {}) && recs.Keys == old(recs).Keys - {h}
    {
      hide Graph, Children, Due;
      var parents := recs[h].info.parents;
      pending := rest;
      StartReclaim(recs, registered, h, rest);
      ghost var before := recs;
      var i := 0;
      while i < |parents|
        invariant i <= |parents| && h in recs && recs[h].info.parents == parents
        invariant SameInfos(before, recs) && CountedBut(recs, registered, h, i)
        invariant Pending(recs, pending, {h})
      {
        NextParent(before, recs, registered, history, next, h, i);
        ghost var was, pend := recs, pending;
        pending := ReleaseRecord(parents[i], pending);
        ParentReleased(was, recs, registered, h, i);
        PendingStep(was, recs, pend, pending, h, parents[i]);
        i := i + 1;
      }
      SameInfosConsistent(before, recs, registered, history, next);
      NoChildren(before, recs, registered, h);
      ReclaimCounted(recs, registered, h);
      ReclaimConsistent(recs, registered, history, next, h);
      recs := recs - {h};
    }

    /** Unregister a handle and collect, without recursion, every record nothing refers to any more. */
    method Drain(handle: nat) returns (dead: seq<nat>)
      requires Valid() && handle in registered
      modifies this`recs, this`registered
      ensures registered == old(registered) - {handle}
      ensures Consistent(recs, registered, history, next) && Counted(recs, registered) && AllLive(recs)
      ensures recs.Keys <= old(recs).Keys && Listed(dead, old(recs).Keys - recs.Keys)
    {
      hide Pending, Listed, Counted, Covered, ReleasedOnce, Consistent, AllLive;
      InRegistry(recs, registered, history, next, handle);
      ghost var all := recs.Keys;
      Unregister(recs, registered, history, next, handle);
      registered := registered - {handle};
      var pending := ReleaseRecord(handle, []);
      assert recs.Keys == all;
      dead := [];
      ListedNone(all - recs.Keys);
      while pending != []
        modifies this`recs
        invariant Consistent(recs, registered, history, next) && Counted(recs, registered) && Pending(recs, pending, {})
        invariant recs.Keys <= all && Listed(dead, all - recs.Keys)
        decreases |recs.Keys|
      {
        var h := pending[0];
        assert [h] + pending[1..] == pending;
        PendingHead(recs, pending);
        ghost var keys := recs.Keys;
        pending := Reclaim(h, pending[1..]);
        SubsetSmaller(recs.Keys, keys);
        ListedAdd(dead, all - keys, h);
        OneFewer(all, keys, h);
        dead := [h] + dead;
      }
      NothingPending(recs);
    }

    /** Give back the pages of the collected records that own any. */
    method GiveBack(records: seq<nat>, infos: map<nat, Info>) returns (freed: seq<nat>)
      requires forall i :: 0 <= i < |records| ==>
               records[i] in infos && records[i] in history && infos[records[i]] == history[records[i]]
      modifies this`released
      ensures freed == Owners(history, records) && released == old(released) + freed
    {
      var dead := records;
      freed := [];
      while dead != []
        invariant forall i :: 0 <= i < |dead| ==>
                  dead[i] in infos && dead[i] in history && infos[dead[i]] == history[dead[i]]
        invariant released == old(released) + freed && freed + Owners(history, dead) == Owners(history, records)
        decreases |dead|
      {
        var h := dead[0];
        ghost var rest := Owners(history, dead[1..]);
        dead := dead[1..];
        if infos[h].owns {
          assert freed + ([h] + rest) == freed + [h] + rest;
          released, freed := released + [h], freed + [h];
        } else {
          assert [] + rest == rest;
        }
      }
    }

    /**
      Unregister a handle, reclaim whatever nothing refers to any more, and give
      back the pages that the reclaimed records own: those of `freed`, described by
      `infos`, in that order.
     */
    method Destroy(handle: nat) returns (ok: bool, freed: seq<nat>, infos: map<nat, Info>)
      requires Valid()
      modifies this`recs, this`registered, this`released
      ensures Valid() && (ok <==> handle in old(registered)) && registered == old(registered) - {handle}
      ensures forall h :: h in recs <==> Wanted(history, registered, h)
      ensures released == old(released) + freed
      ensures forall h :: h in freed ==> h in infos && h in history && infos[h] == history[h]
      ensures forall h :: h in released[|old(released)|..] <==>
              (h in history && history[h].owns && Wanted(history, old(registered), h)
               && !Wanted(history, registered, h))
    {
      hide Graph, Children, Due, Wanted, Covered, Counted, AllLive;
      ExactlyWanted(recs, registered, history, next);
      if handle !in registered {
        assert registered - {handle} == registered;
        return false, [], map[];
      }
      ghost var keys := recs.Keys;
      infos := map h | h in recs :: recs[h].info;
      var dead := Drain(handle);
      ExactlyWanted(recs, registered, history, next);
      forall i | 0 <= i < |dead|
        ensures dead[i] in infos && dead[i] in history && infos[dead[i]] == history[dead[i]]
      {
        assert dead[i] in dead;
      }
      freed := GiveBack(dead, infos);
      GivenBack(history, dead, keys - recs.Keys, old(released), released);
      ok := true;
    }
  }

  /** Neither range ends beyond the address space, and no hole lies between two ranges that are not empty. */
  predicate Mergeable(a: Info, b: Info) {
    && a.base + a.length <= MAX && b.base + b.length <= MAX
    && (a.length == 0 || b.length == 0 || (b.base <= a.base + a.length && a.base <= b.base + b.length))
  }

  /** The range two objects make up together, if there is no hole between them. */
  method MergedRange(a: Info, b: Info) returns (r: Option<(nat, nat)>)
    ensures r.Some? ==> forall x: nat :: r.value.0 <= x < r.value.0 + r.value.1 <==> Has(a, x) || Has(b, x)
    ensures r.Some? <==> Mergeable(a, b)
    ensures r.Some? && a.length == 0 && b.length == 0 ==> r.value == (if a.base < b.base then a.base else b.base, 0)
    ensures r.Some? && a.length == 0 && b.length > 0 ==> r.value == (b.base, b.length)
    ensures r.Some? && a.length > 0 && b.length == 0 ==> r.value == (a.base, a.length)
  {
    var aEnd, bEnd := a.base + a.length, b.base + b.length;
    if aEnd > MAX || bEnd > MAX {
      return None;
    }
    if a.length == 0 && b.length == 0 {
      return Some((if a.base < b.base then a.base else b.base, 0));
    } else if a.length == 0 {
      return Some((b.base, b.length));
    } else if b.length == 0 {
      return Some((a.base, a.length));
    }
    var lo, loEnd, hi, hiEnd := a.base, aEnd, b.base, bEnd;
    if a.base > b.base {
      lo, loEnd, hi, hiEnd := b.base, bEnd, a.base, aEnd;
    }
    if hi > loEnd {
      return None;
    }
    return Some((lo, (if loEnd > hiEnd then loEnd else hiEnd) - lo));
  }

  /** Each owned range is either still backed by its record or has been given back, once. */
  ghost predicate ReleasedOnce(recs: map<nat, Record>, history: map<nat, Info>, released: seq<nat>) {
    && (forall i, j :: 0 <= i < j < |released| ==> released[i] != released[j])
    && (forall h :: h in released ==> h in history && history[h].owns && h !in recs)
    && (forall h :: h in history && history[h].owns ==> h in recs || h in released)
  }

  lemma InsertReleased(recs: map<nat, Record>, registered: set<nat>, history: map<nat, Info>, next: nat,
                       released: seq<nat>, info: Info)
    requires Consistent(recs, registered, history, next) && ReleasedOnce(recs, history, released)
    ensures ReleasedOnce(Bump(recs, info.parents)[next := Record(info, 1)], history[next := info], released)
  {
  }

  // ----- what the registry promises

  /**
    Every byte of a registered object lies in an ancestor without parents that
    is still unreclaimed and whose pages have not been given back.
   */
  lemma BackingStays(reg: Registry, h: nat, x: nat) returns (root: nat)
    requires reg.Valid() && h in reg.registered && h in reg.history && Has(reg.history[h], x)
    ensures root in Up(reg.history, h) && root in reg.history && reg.history[root].parents == []
    ensures Has(reg.history[root], x) && root in reg.recs && root !in reg.released
  {
    hide Counted, AllLive, Children, Due;
    root := RootCovers(reg.history, h, x);
    AncestorsKept(reg.recs, reg.registered, reg.history, reg.next, h);
  }

  /** An owned range has been given back exactly if no registered object descends from its owner. */
  lemma ReleasedIffUnwanted(reg: Registry, h: nat)
    requires reg.Valid() && h in reg.history && reg.history[h].owns
    ensures h in reg.released <==> !Wanted(reg.history, reg.registered, h)
  {
    ExactlyWanted(reg.recs, reg.registered, reg.history, reg.next);
  }

  // ----- steps of the drain

  /** The list holds the members of the set, each once. */
  ghost predicate Listed(s: seq<nat>, members: set<nat>) {
    Distinct(s) && forall h :: h in s <==> h in members
  }

  lemma ListedAdd(s: seq<nat>, members: set<nat>, h: nat)
    requires Listed(s, members) && h !in members
    ensures Listed([h] + s, members + {h})
  {
  }

  lemma InRegistry(recs: map<nat, Record>, registered: set<nat>, history: map<nat, Info>, next: nat, h: nat)
    requires Consistent(recs, registered, history, next) && h in registered
    ensures h in recs
  {
  }

  lemma ListedNone(members: set<nat>)
    requires members == {}
    ensures Listed([], members)
  {
  }

  lemma PendingHead(recs: map<nat, Record>, pending: seq<nat>)
    requires Pending(recs, pending, {}) && pending != []
    ensures pending[0] in recs
  {
  }

  lemma NothingPending(recs: map<nat, Record>)
    requires Pending(recs, [], {})
    ensures AllLive(recs)
  {
  }

  lemma SubsetSmaller(a: set<nat>, b: set<nat>)
    requires a < b
    ensures |a| < |b|
  {
    var x :| x in b && x !in a;
    assert |b| == |a| + |b - a|;
    assert x in b - a;
  }

  /** Those of a list that own pages, in the same order. */
  ghost function Owners(history: map<nat, Info>, s: seq<nat>): seq<nat> {
    if s == [] then []
    else (if s[0] in history && history[s[0]].owns then [s[0]] else []) + Owners(history, s[1..])
  }

  lemma {:induction false} OwnersOf(history: map<nat, Info>, s: seq<nat>)
    requires Distinct(s)
    ensures Distinct(Owners(history, s))
    ensures forall h :: h in Owners(history, s) <==> h in s && h in history && history[h].owns
    decreases |s|
  {
    if s != [] {
      OwnersOf(history, s[1..]);
      assert s == [s[0]] + s[1..];
      assert s[0] !in s[1..];
    }
  }

  lemma GivenBack(history: map<nat, Info>, dead: seq<nat>, gone: set<nat>, start: seq<nat>,
                  released: seq<nat>)
    requires Listed(dead, gone) && released == start + Owners(history, dead)
    requires forall h :: h in start ==> h !in gone
    requires Distinct(start)
    ensures Distinct(released) && released[|start|..] == Owners(history, dead)
    ensures forall h :: h in Owners(history, dead) <==> h in gone && h in history && history[h].owns
  {
    OwnersOf(history, dead);
    var given := Owners(history, dead);
    forall i, j | 0 <= i < j < |released|
      ensures released[i] != released[j]
    {
      if i < |start| && j >= |start| {
        assert start[i] in start && given[j - |start|] in given;
      }
    }
  }

  lemma Unregister(recs: map<nat, Record>, registered: set<nat>, history: map<nat, Info>, next: nat, h: nat)
    requires Consistent(recs, registered, history, next) && Counted(recs, registered) && AllLive(recs)
    requires h in registered
    ensures recs[h].refs > 0
    ensures var recs' := recs[h := recs[h].(refs := recs[h].refs - 1)];
            && Consistent(recs', registered - {h}, history, next) && Counted(recs', registered - {h})
            && Pending(recs', if recs'[h].refs == 0 then [h] + [] else [], {})
  {
    hide Graph, Children;
    var recs' := recs[h := recs[h].(refs := recs[h].refs - 1)];
    assert SameInfos(recs, recs');
    forall g | g in recs'
      ensures recs'[g].refs == Due(recs', registered - {h}, g)
    {
      SameInfosSameDue(recs, recs', registered, g);
    }
  }

  lemma OneFewer(all: set<nat>, keys: set<nat>, h: nat)
    requires h in keys && keys <= all
    ensures all - keys + {h} == all - (keys - {h})
  {
  }

  lemma StartReclaim(recs: map<nat, Record>, registered: set<nat>, h: nat, rest: seq<nat>)
    requires Counted(recs, registered) && Pending(recs, [h] + rest, {}) && h in recs
    ensures CountedBut(recs, registered, h, 0) && Pending(recs, rest, {h})
  {
    var p := [h] + rest;
    assert forall i :: 0 <= i < |rest| ==> rest[i] == p[i + 1];
    assert p[0] == h;
  }

  lemma ParentKnown(before: map<nat, Record>, registered: set<nat>, history: map<nat, Info>, next: nat, h: nat, i: nat)
    requires Consistent(before, registered, history, next) && h in before && i < |before[h].info.parents|
    ensures var p := before[h].info.parents[i];
            p in before && p < h && p !in before[h].info.parents[..i]
  {
    assert history[h].parents == before[h].info.parents;
    assert i < 2;
  }

  lemma NextParent(before: map<nat, Record>, recs: map<nat, Record>, registered: set<nat>, history: map<nat, Info>,
                   next: nat, h: nat, i: nat)
    requires Consistent(before, registered, history, next) && SameInfos(before, recs)
    requires h in recs && i < |recs[h].info.parents| && CountedBut(recs, registered, h, i)
    ensures var p := recs[h].info.parents[i];
            p in recs && p != h && recs[p].refs > 0 && p !in recs[h].info.parents[..i]
  {
    hide Consistent, Graph;
    ParentKnown(before, registered, history, next, h, i);
    assert h in Children(recs, recs[h].info.parents[i]);
  }

  lemma ParentReleased(was: map<nat, Record>, recs: map<nat, Record>, registered: set<nat>, h: nat, i: nat)
    requires h in was && i < |was[h].info.parents| && CountedBut(was, registered, h, i)
    requires var p := was[h].info.parents[i];
             && p in was && p != h && was[p].refs > 0 && p !in was[h].info.parents[..i]
             && recs == was[p := was[p].(refs := was[p].refs - 1)]
    ensures SameInfos(was, recs) && CountedBut(recs, registered, h, i + 1)
  {
    var ps := was[h].info.parents;
    assert SameInfos(was, recs);
    assert ps[..i + 1] == ps[..i] + [ps[i]];
    forall g | g in recs
      ensures recs[g].refs + (if g in ps[..i + 1] then 1 else 0) == Due(recs, registered, g)
    {
      SameInfosSameDue(was, recs, registered, g);
    }
  }

  lemma PendingStep(was: map<nat, Record>, recs: map<nat, Record>, pend: seq<nat>, pending: seq<nat>, h: nat, p: nat)
    requires Pending(was, pend, {h}) && p in was && p != h && was[p].refs > 0
    requires recs == was[p := was[p].(refs := was[p].refs - 1)]
    requires pending == if recs[p].refs == 0 then [p] + pend else pend
    ensures Pending(recs, pending, {h})
  {
    assert p !in pend;
  }

  lemma SameInfosConsistent(before: map<nat, Record>, recs: map<nat, Record>, registered: set<nat>,
                            history: map<nat, Info>, next: nat)
    requires Consistent(before, registered, history, next) && SameInfos(before, recs)
    ensures Consistent(recs, registered, history, next)
  {
  }

  lemma NoChildren(before: map<nat, Record>, recs: map<nat, Record>, registered: set<nat>, h: nat)
    requires h in before && before[h].refs == 0 && Counted(before, registered) && SameInfos(before, recs)
    ensures h !in registered && Children(recs, h) == {}
  {
    assert Children(before, h) == {};
    assert Children(recs, h) == Children(before, h);
  }
}
