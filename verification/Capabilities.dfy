/**
  Capabilities: a global table of records that name an object and rights to it,
  and sets of handles, one set per security domain.
 */
module Capabilities {
  import opened Basics

  const MAX_HANDLE: nat := 0xffff_ffff_ffff_ffff

  datatype Kind = Ipc | Memory | Vmo | PortIo | Irq | Notify | AddressSpace | Thread
                | FactoryVmo | FactoryAddressSpace | FactoryThread | FactoryMemory | Unknown

  /** A right is the number of its bit. */
  type Rights = set<nat>

  datatype Ref = Ref(kind: Kind, obj: nat)

  datatype Cap = Cap(kind: Kind, obj: nat, rights: Rights)

  const GENERIC_RIGHTS: nat := 7
  const FIRST_SPECIFIC: nat := 10

  function SpecificRights(kind: Kind): nat {
    match kind
    case Ipc => 4
    case Memory => 6
    case Vmo => 5
    case PortIo => 2
    case Irq => 2
    case Notify => 3
    case AddressSpace => 3
    case Thread => 1
    case FactoryMemory => 2
    case _ => 0
  }

  /** Generic rights and the kind's own, nothing reserved; an unknown kind has none. */
  predicate RightsOk(kind: Kind, rights: Rights) {
    && kind != Unknown
    && forall r :: r in rights ==> r < GENERIC_RIGHTS || FIRST_SPECIFIC <= r < FIRST_SPECIFIC + SpecificRights(kind)
  }

  /** The rights that each kind names: for an endpoint to send, receive, publish and subscribe, and so on. */
  ghost function NamedRights(kind: Kind): Rights {
    match kind
    case Ipc => {10, 11, 12, 13}
    case Memory => {10, 11, 12, 13, 14, 15}
    case Vmo => {10, 11, 12, 13, 14}
    case PortIo => {10, 11}
    case Irq => {10, 11}
    case Notify => {10, 11, 12}
    case AddressSpace => {10, 11, 12}
    case Thread => {10}
    case FactoryMemory => {10, 11}
    case _ => {}
  }

  /** The check lets through exactly the seven generic rights and those that the kind names. */
  lemma RightsOkIff(kind: Kind, rights: Rights)
    ensures RightsOk(kind, rights) <==> kind != Unknown && rights <= {0, 1, 2, 3, 4, 5, 6} + NamedRights(kind)
  {
  }

  // ----- the state, with its history

  /**
    The table and the sets; beside them every record ever made, and the rights ever
    given to each object by a creation.
   */
  datatype State = State(
    caps: map<nat, Cap>,
    next: nat,
    sets: map<nat, seq<nat>>,
    nextSet: nat,
    born: map<nat, Cap>,
    granted: map<Ref, Rights>)

  ghost const INITIAL := State(map[], 1, map[], 1, map[], map[])

  ghost function GrantedTo(granted: map<Ref, Rights>, c: Cap): Rights {
    if Ref(c.kind, c.obj) in granted then granted[Ref(c.kind, c.obj)] else {}
  }

  /**
    The blocks that run under a lock; `memoryOk` says whether the memory for a
    record or an entry was at hand. Removing a handle, or a whole set, only takes it
    out of reach: the capabilities are destroyed by steps of their own, and others
    may come in between.
   */
  datatype Op =
    | CreateOp(obj: nat, kind: Kind, rights: Rights, memoryOk: bool)
    | DestroyOp(cap: nat)
    | DeriveOp(source: nat, rights: Rights, memoryOk: bool)
    | CloneOp(source: nat, memoryOk: bool)
    | MergeOp(a: nat, b: nat, memoryOk: bool)
    | NewSetOp(memoryOk: bool)
    | DropSetOp(set_: nat)
    | AddOp(set_: nat, cap: nat, memoryOk: bool)
    | RemoveOp(set_: nat, cap: nat)
    | MoveOp(source: nat, target: nat, cap: nat)

  predicate MayCreate(op: Op)
    requires op.CreateOp?
  {
    RightsOk(op.kind, op.rights) && op.memoryOk
  }

  predicate MayMerge(caps: map<nat, Cap>, a: nat, b: nat) {
    a in caps && b in caps && caps[a].obj == caps[b].obj && caps[a].kind == caps[b].kind
  }

  /** A new record under the next handle. */
  ghost function Born(s: State, c: Cap): State {
    s.(caps := s.caps[s.next := c], born := s.born[s.next := c], next := s.next + 1)
  }

  ghost function Created(s: State, c: Cap): State {
    Born(s, c).(granted := s.granted[Ref(c.kind, c.obj) := GrantedTo(s.granted, c) + c.rights])
  }

  /** The table without the capabilities in the list. */
  function Cleared(caps: map<nat, Cap>, members: seq<nat>): map<nat, Cap> {
    map h | h in caps && h !in members :: caps[h]
  }

  function Moved(sets: map<nat, seq<nat>>, source: nat, target: nat, h: nat): map<nat, seq<nat>>
    requires source in sets && target in sets
  {
    if source == target then sets
    else
      var m := sets[source := Without(sets[source], h)];
      if h in m[target] then m else m[target := m[target] + [h]]
  }

  ghost function Apply(s: State, op: Op): State {
    match op
    case CreateOp(obj, kind, rights, _) => if MayCreate(op) then Created(s, Cap(kind, obj, rights)) else s
    case DestroyOp(h) => s.(caps := s.caps - {h})
    case DeriveOp(c, rights, memoryOk) =>
      if memoryOk && c in s.caps && rights <= s.caps[c].rights then Born(s, s.caps[c].(rights := rights)) else s
    case CloneOp(c, memoryOk) => if memoryOk && c in s.caps then Born(s, s.caps[c]) else s
    case MergeOp(a, b, memoryOk) =>
      if memoryOk && MayMerge(s.caps, a, b)
      then Born(s, s.caps[a].(rights := s.caps[a].rights + s.caps[b].rights)) else s
    case NewSetOp(memoryOk) => if memoryOk then s.(sets := s.sets[s.nextSet := []], nextSet := s.nextSet + 1) else s
    case DropSetOp(k) => s.(sets := s.sets - {k})
    case AddOp(k, h, memoryOk) =>
      if memoryOk && h in s.caps && k in s.sets && h !in s.sets[k]
      then s.(sets := s.sets[k := s.sets[k] + [h]]) else s
    case RemoveOp(k, h) =>
      if k in s.sets && h in s.sets[k] then s.(sets := s.sets[k := Without(s.sets[k], h)]) else s
    case MoveOp(k, l, h) =>
      if k in s.sets && l in s.sets && h in s.sets[k] then s.(sets := Moved(s.sets, k, l, h)) else s
  }

  /** A new handle names this capability and no other entry of the table has changed, or there is none. */
  ghost predicate Issued(s: State, t: State, h: Option<nat>, c: Cap) {
    && t.sets == s.sets && (h.None? ==> t.caps == s.caps)
    && (h.Some? ==> h.value !in s.born && h.value in t.caps && t.caps[h.value] == c && t.caps - {h.value} == s.caps)
  }

  /** The capability behind a handle of a set, if it is live and has the rights. */
  function Resolve(caps: map<nat, Cap>, sets: map<nat, seq<nat>>, k: nat, h: nat, required: Rights): Option<Cap> {
    if k in sets && h in sets[k] && h in caps && required <= caps[h].rights then Some(caps[h]) else None
  }

  // ----- what every operation keeps

  /** The rights of every record are among those given to its object by a creation, and valid for its kind. */
  ghost predicate Unamplified(s: State) {
    && (forall h :: h in s.caps ==> h in s.born && s.caps[h] == s.born[h])
    && (forall h :: h in s.born ==>
         s.born[h].rights <= GrantedTo(s.granted, s.born[h]) && RightsOk(s.born[h].kind, s.born[h].rights))
  }

  ghost predicate Numbered(s: State) {
    && (forall h :: h in s.born ==> 0 < h < s.next) && 0 < s.next
    && (forall k :: k in s.sets ==> 0 < k < s.nextSet) && 0 < s.nextSet
  }

  /** Sets hold handles of records that exist or existed, each once. */
  ghost predicate SetsOk(s: State) {
    && (forall k :: k in s.sets ==> Distinct(s.sets[k]))
    && (forall k, h :: k in s.sets && h in s.sets[k] ==> h in s.born)
  }

  ghost predicate Inv(s: State) {
    Unamplified(s) && Numbered(s) && SetsOk(s)
  }

  /** Records never change, dead handles never come back and grants only grow. */
  ghost predicate Evolves(s: State, t: State) {
    && (forall h :: h in s.born ==> h in t.born && t.born[h] == s.born[h])
    && (forall h :: h in s.born && h in t.caps ==> h in s.caps)
    && (forall c :: GrantedTo(s.granted, c) <= GrantedTo(t.granted, c))
  }

  lemma EvolvesSelf(s: State)
    ensures Evolves(s, s)
  {
  }

  lemma EvolvesTwice(s: State, t: State, u: State)
    requires Evolves(s, t) && Evolves(t, u)
    ensures Evolves(s, u)
  {
  }

  lemma InitialInv()
    ensures Inv(INITIAL)
  {
  }

  /** A new record whose rights were granted to its object keeps all of that. */
  lemma BirthKeeps(s: State, c: Cap)
    requires Inv(s) && RightsOk(c.kind, c.rights) && c.rights <= GrantedTo(s.granted, c)
    ensures Inv(Born(s, c)) && Evolves(s, Born(s, c))
  {
    hide RightsOk, GrantedTo, Distinct;
    assert s.next !in s.born;
  }

  lemma CreationKeeps(s: State, c: Cap)
    requires Inv(s) && RightsOk(c.kind, c.rights)
    ensures Inv(Created(s, c)) && Evolves(s, Created(s, c))
  {
    hide RightsOk, Distinct;
    var g := s.granted[Ref(c.kind, c.obj) := GrantedTo(s.granted, c) + c.rights];
    assert forall d :: GrantedTo(s.granted, d) <= GrantedTo(g, d);
    GrantsKeep(s, g);
    BirthKeeps(s.(granted := g), c);
    EvolvesTwice(s, s.(granted := g), Created(s, c));
  }

  lemma GrantsKeep(s: State, g: map<Ref, Rights>)
    requires Inv(s) && forall d :: GrantedTo(s.granted, d) <= GrantedTo(g, d)
    ensures Inv(s.(granted := g)) && Evolves(s, s.(granted := g))
  {
    hide RightsOk, GrantedTo, Distinct;
    forall h | h in s.born
      ensures s.born[h].rights <= GrantedTo(g, s.born[h])
    {
      assert s.born[h].rights <= GrantedTo(s.granted, s.born[h]) <= GrantedTo(g, s.born[h]);
    }
  }

  /** Deaths and changes of the sets that bring in no foreign handle. */
  lemma RestKeeps(s: State, caps: map<nat, Cap>, sets: map<nat, seq<nat>>, nextSet: nat)
    requires Inv(s) && s.nextSet <= nextSet && (forall h :: h in caps ==> h in s.caps && caps[h] == s.caps[h])
    requires forall k :: k in sets ==> 0 < k < nextSet && Distinct(sets[k])
    requires forall k, h :: k in sets && h in sets[k] ==> h in s.born
    ensures Inv(s.(caps := caps, sets := sets, nextSet := nextSet))
    ensures Evolves(s, s.(caps := caps, sets := sets, nextSet := nextSet))
  {
    hide RightsOk, GrantedTo, Distinct;
  }

  lemma MergedRightsOk(s: State, a: nat, b: nat)
    requires Inv(s) && MayMerge(s.caps, a, b)
    ensures var c := s.caps[a].(rights := s.caps[a].rights + s.caps[b].rights);
            RightsOk(c.kind, c.rights) && c.rights <= GrantedTo(s.granted, c)
  {
    assert s.born[a] == s.caps[a] && s.born[b] == s.caps[b];
  }

  lemma LiveRightsOk(s: State, h: nat, rights: Rights)
    requires Inv(s) && h in s.caps && rights <= s.caps[h].rights
    ensures var c := s.caps[h].(rights := rights);
            RightsOk(c.kind, c.rights) && c.rights <= GrantedTo(s.granted, c)
  {
    assert s.born[h] == s.caps[h];
  }

  /** Every operation keeps the invariant and history, whatever its arguments. */
  lemma StepKeeps(s: State, op: Op)
    requires Inv(s)
    ensures Inv(Apply(s, op)) && Evolves(s, Apply(s, op))
  {
    hide Inv, Evolves, RightsOk, Moved, Born, Created, Distinct;
    EvolvesSelf(s);
    match op {
      case CreateOp(obj, kind, rights, _) =>
        if MayCreate(op) {
          CreationKeeps(s, Cap(kind, obj, rights));
        }
      case DeriveOp(c, rights, memoryOk) =>
        if memoryOk && c in s.caps && rights <= s.caps[c].rights {
          LiveRightsOk(s, c, rights);
          BirthKeeps(s, s.caps[c].(rights := rights));
        }
      case CloneOp(c, memoryOk) =>
        if memoryOk && c in s.caps {
          LiveRightsOk(s, c, s.caps[c].rights);
          BirthKeeps(s, s.caps[c]);
        }
      case MergeOp(a, b, memoryOk) =>
        if memoryOk && MayMerge(s.caps, a, b) {
          MergedRightsOk(s, a, b);
          BirthKeeps(s, s.caps[a].(rights := s.caps[a].rights + s.caps[b].rights));
        }
      case _ => SetStepKeeps(s, op);
    }
  }

  lemma SetStepKeeps(s: State, op: Op)
    requires Inv(s) && !(op.CreateOp? || op.DeriveOp? || op.CloneOp? || op.MergeOp?)
    ensures Inv(Apply(s, op)) && Evolves(s, Apply(s, op))
  {
    hide Unamplified, RightsOk, Without, Evolves;
    EvolvesSelf(s);
    match op {
      case DestroyOp(h) => RestKeeps(s, s.caps - {h}, s.sets, s.nextSet);
      case NewSetOp(_) => RestKeeps(s, s.caps, s.sets[s.nextSet := []], s.nextSet + 1);
      case DropSetOp(k) => RestKeeps(s, s.caps, s.sets - {k}, s.nextSet);
      case AddOp(k, h, _) =>
        if h in s.caps && k in s.sets && h !in s.sets[k] {
          LiveBorn(s, h);
          RestKeeps(s, s.caps, s.sets[k := s.sets[k] + [h]], s.nextSet);
        }
      case RemoveOp(k, h) =>
        if k in s.sets {
          WithoutOf(s.sets[k], h);
          RestKeeps(s, s.caps, s.sets[k := Without(s.sets[k], h)], s.nextSet);
        }
      case MoveOp(k, l, h) =>
        if k in s.sets && l in s.sets && h in s.sets[k] {
          WithoutOf(s.sets[k], h);
          RestKeeps(s, s.caps, Moved(s.sets, k, l, h), s.nextSet);
        }
    }
  }

  lemma LiveBorn(s: State, h: nat)
    requires Inv(s) && h in s.caps
    ensures h in s.born && s.born[h] == s.caps[h]
  {
  }

  // ----- runs

  ghost function After(s: State, ops: seq<Op>): State
    decreases |ops|
  {
    if ops == [] then s else After(Apply(s, ops[0]), ops[1..])
  }

  lemma {:induction false} RunKeeps(s: State, ops: seq<Op>)
    requires Inv(s)
    ensures Inv(After(s, ops)) && Evolves(s, After(s, ops))
    decreases |ops|
  {
    hide Inv, Evolves, Apply;
    if ops == [] {
      EvolvesSelf(s);
    } else {
      var t := Apply(s, ops[0]);
      StepKeeps(s, ops[0]);
      RunKeeps(t, ops[1..]);
      EvolvesTwice(s, t, After(s, ops));
    }
  }

  lemma {:induction false} AfterNext(s: State, ops: seq<Op>, op: Op)
    ensures After(s, ops + [op]) == Apply(After(s, ops), op)
    decreases |ops|
  {
    hide Apply;
    if ops != [] {
      assert (ops + [op])[1..] == ops[1..] + [op];
      AfterNext(Apply(s, ops[0]), ops[1..], op);
    } else {
      assert After(Apply(s, op), []) == Apply(s, op);
    }
  }

  /**
    Once the step that destroys it has been taken, a capability that existed before
    the run resolves in no set, whatever other steps came before, between and after.
   */
  lemma {:induction false} DestroyedInRun(s: State, ops: seq<Op>, h: nat, k: nat, required: Rights)
    requires Inv(s) && h in s.born && DestroyOp(h) in ops
    ensures Resolve(After(s, ops).caps, After(s, ops).sets, k, h, required) == None
    decreases |ops|
  {
    hide Inv, Evolves, Resolve;
    StepKeeps(s, ops[0]);
    var t := Apply(s, ops[0]);
    StillBorn(s, t, h);
    if ops[0] == DestroyOp(h) {
      StaleNeverResolves(t, h, ops[1..], k, required);
    } else {
      DestroyedInRun(t, ops[1..], h, k, required);
    }
  }

  lemma StillBorn(s: State, t: State, h: nat)
    requires Evolves(s, t) && h in s.born
    ensures h in t.born
  {
  }

  /** The steps that destroy the capabilities in a list. */
  function DestroyAll(members: seq<nat>): seq<Op> {
    seq(|members|, i requires 0 <= i < |members| => DestroyOp(members[i]))
  }

  /**
    A handle whose capability has died resolves in no set ever again, whatever is
    created, derived, merged or moved afterwards and whichever sets still hold it.
   */
  lemma StaleNeverResolves(s: State, h: nat, ops: seq<Op>, k: nat, required: Rights)
    requires Inv(s) && h in s.born && h !in s.caps
    ensures Resolve(After(s, ops).caps, After(s, ops).sets, k, h, required) == None
  {
    hide Inv;
    RunKeeps(s, ops);
  }

  /** A handle that resolves later names what it named when it was made: same object, same rights. */
  lemma ResolvesToItsBirth(s: State, h: nat, ops: seq<Op>, k: nat, required: Rights)
    requires Inv(s) && h in s.born
    ensures var r := Resolve(After(s, ops).caps, After(s, ops).sets, k, h, required);
            r.Some? ==> r.value == s.born[h] && h in s.caps
  {
    RunKeeps(s, ops);
  }

  /** The rights that the creations of a run give to an object. */
  ghost function CreatedRights(ops: seq<Op>, kind: Kind, obj: nat): Rights {
    if ops == [] then {}
    else
      var op := ops[0];
      (if op.CreateOp? && MayCreate(op) && op.kind == kind && op.obj == obj then op.rights else {})
      + CreatedRights(ops[1..], kind, obj)
  }

  lemma StepGrants(s: State, op: Op, c: Cap)
    ensures GrantedTo(Apply(s, op).granted, c) == GrantedTo(s.granted, c) + (
              if op.CreateOp? && MayCreate(op) && op.kind == c.kind && op.obj == c.obj then op.rights else {})
  {
    hide RightsOk, Without;
  }

  lemma {:induction false} GrantsAreCreations(s: State, ops: seq<Op>, c: Cap)
    ensures GrantedTo(After(s, ops).granted, c) == GrantedTo(s.granted, c) + CreatedRights(ops, c.kind, c.obj)
    decreases |ops|
  {
    hide RightsOk, Apply, GrantedTo;
    if ops != [] {
      StepGrants(s, ops[0], c);
      GrantsAreCreations(Apply(s, ops[0]), ops[1..], c);
    }
  }

  /** No amplification: after any run a live capability's rights were given to its object by creations in that run. */
  lemma RunNeverAmplifies(ops: seq<Op>, h: nat)
    requires h in After(INITIAL, ops).caps
    ensures var c := After(INITIAL, ops).caps[h];
            c.rights <= CreatedRights(ops, c.kind, c.obj) && RightsOk(c.kind, c.rights)
  {
    hide RightsOk, CreatedRights;
    var t := After(INITIAL, ops);
    InitialInv();
    RunKeeps(INITIAL, ops);
    GrantsAreCreations(INITIAL, ops, t.caps[h]);
    assert t.born[h] == t.caps[h];
  }

  // ----- the table

  class Table {
    var caps: map<nat, Cap>
    var next: nat
    /** The handles in each set, in the order they were added. */
    var sets: map<nat, seq<nat>>
    var nextSet: nat
    ghost var born: map<nat, Cap>
    ghost var granted: map<Ref, Rights>

    ghost function S(): State
      reads this
    {
      State(caps, next, sets, nextSet, born, granted)
    }

    ghost predicate Valid()
      reads this
    {
      Inv(S())
    }

    constructor ()
      ensures Valid() && S() == INITIAL
    {
      caps, next, sets, nextSet, born, granted := map[], 1, map[], 1, map[], map[];
    }

    /** The only operation that hands out new rights to an object. */
    method Create(obj: nat, kind: Kind, rights: Rights, memoryOk: bool) returns (h: Option<nat>)
      requires Valid() && next < MAX_HANDLE
      modifies this`caps, this`next, this`born, this`granted
      ensures Valid() && Evolves(old(S()), S()) && S() == Apply(old(S()), CreateOp(obj, kind, rights, memoryOk))
      ensures h == if RightsOk(kind, rights) && memoryOk then Some(old(next)) else None
      ensures h.Some? <==> kind != Unknown && rights <= {0, 1, 2, 3, 4, 5, 6} + NamedRights(kind) && memoryOk
      ensures Issued(old(S()), S(), h, Cap(kind, obj, rights))
    {
      hide RightsOk, Inv, Evolves, NamedRights;
      FreshNext();
      RightsOkIff(kind, rights);
      StepKeeps(S(), CreateOp(obj, kind, rights, memoryOk));
      if !RightsOk(kind, rights) || !memoryOk {
        return None;
      }
      var c := Cap(kind, obj, rights);
      h := Some(next);
      granted := granted[Ref(kind, obj) := GrantedTo(granted, c) + rights];
      caps, born := caps[next := c], born[next := c];
      next := next + 1;
    }

    method Destroy(h: nat) returns (ok: bool)
      requires Valid()
      modifies this`caps
      ensures Valid() && Evolves(old(S()), S()) && S() == Apply(old(S()), DestroyOp(h)) && (ok <==> h in old(caps))
      ensures caps == old(caps) - {h}
    {
      hide Inv, Evolves;
      StepKeeps(S(), DestroyOp(h));
      ok := h in caps;
      caps := caps - {h};
    }

    /** A new record for the same object, with some of the source's rights. */
    method Derive(source: nat, rights: Rights, memoryOk: bool) returns (h: Option<nat>)
      requires Valid() && next < MAX_HANDLE
      modifies this`caps, this`next, this`born
      ensures Valid() && Evolves(old(S()), S()) && S() == Apply(old(S()), DeriveOp(source, rights, memoryOk))
      ensures h.Some? <==> memoryOk && source in old(caps) && rights <= old(caps)[source].rights
      ensures h.Some? ==> (
                && source in old(caps)
                && Issued(old(S()), S(), h, Cap(old(caps)[source].kind, old(caps)[source].obj, rights)))
      ensures h.None? ==> S() == old(S())
    {
      hide Inv, Evolves, RightsOk;
      FreshNext();
      StepKeeps(S(), DeriveOp(source, rights, memoryOk));
      if !memoryOk || source !in caps || rights * caps[source].rights != rights {
        return None;
      }
      h := Some(next);
      caps, born := caps[next := caps[source].(rights := rights)], born[next := caps[source].(rights := rights)];
      next := next + 1;
    }

    method Clone(source: nat, memoryOk: bool) returns (h: Option<nat>)
      requires Valid() && next < MAX_HANDLE
      modifies this`caps, this`next, this`born
      ensures Valid() && Evolves(old(S()), S()) && S() == Apply(old(S()), CloneOp(source, memoryOk))
      ensures h.Some? <==> memoryOk && source in old(caps)
      ensures h.Some? ==> source in old(caps) && Issued(old(S()), S(), h, old(caps)[source])
      ensures h.None? ==> S() == old(S())
    {
      hide Inv, Evolves, RightsOk;
      FreshNext();
      StepKeeps(S(), CloneOp(source, memoryOk));
      if !memoryOk || source !in caps {
        return None;
      }
      h := Some(next);
      caps, born := caps[next := caps[source]], born[next := caps[source]];
      next := next + 1;
    }

    /** The rights of both, for one object; the check of the merged rights cannot fail. */
    method Merge(a: nat, b: nat, memoryOk: bool) returns (h: Option<nat>)
      requires Valid() && next < MAX_HANDLE
      modifies this`caps, this`next, this`born
      ensures Valid() && Evolves(old(S()), S()) && S() == Apply(old(S()), MergeOp(a, b, memoryOk))
      ensures h.Some? <==> memoryOk && a in old(caps) && b in old(caps)
                           && old(caps)[a].obj == old(caps)[b].obj && old(caps)[a].kind == old(caps)[b].kind
      ensures h.Some? ==> (
                && a in old(caps) && b in old(caps)
                && Issued(old(S()), S(), h, Cap(old(caps)[a].kind, old(caps)[a].obj,
                                                old(caps)[a].rights + old(caps)[b].rights)))
      ensures h.None? ==> S() == old(S())
    {
      hide Inv, Evolves, RightsOk, GrantedTo;
      FreshNext();
      StepKeeps(S(), MergeOp(a, b, memoryOk));
      if !memoryOk || !MayMerge(caps, a, b) {
        return None;
      }
      MergedRightsOk(S(), a, b);
      var c := caps[a].(rights := caps[a].rights + caps[b].rights);
      // the code checks the merged rights again; they are always valid
      assert RightsOk(c.kind, c.rights);
      h := Some(next);
      caps, born := caps[next := c], born[next := c];
      next := next + 1;
    }

    lemma BornBelow(h: nat)
      requires Valid() && h in born
      ensures 0 < h < next
    {
    }

    // ----- sets

    method NewSet(memoryOk: bool) returns (k: Option<nat>)
      requires Valid() && nextSet < MAX_HANDLE
      modifies this`sets, this`nextSet
      ensures Valid() && Evolves(old(S()), S()) && S() == Apply(old(S()), NewSetOp(memoryOk))
      ensures k == (if memoryOk then Some(old(nextSet)) else None) && (k.Some? ==> k.value !in old(sets))
      ensures sets == if k.Some? then old(sets)[k.value := []] else old(sets)
    {
      hide Unamplified, SetsOk, Evolves;
      StepKeeps(S(), NewSetOp(memoryOk));
      if !memoryOk {
        return None;
      }
      k := Some(nextSet);
      sets := sets[nextSet := []];
      nextSet := nextSet + 1;
    }

    /**
      Takes a set out of the table, then destroys every capability in it, one step
      each. Without steps of others in between, exactly those are gone afterwards.
     */
    method DestroySet(k: nat) returns (ok: bool)
      requires Valid()
      modifies this`caps, this`sets
      ensures Valid() && Evolves(old(S()), S()) && (ok <==> k in old(sets))
      ensures ok ==> S() == After(old(S()), [DropSetOp(k)] + DestroyAll(old(sets)[k]))
      ensures ok ==> sets == old(sets) - {k} && caps == Cleared(old(caps), old(sets)[k])
      ensures !ok ==> S() == old(S())
    {
      hide Inv, Evolves, RightsOk, Apply;
      ghost var s := S();
      EvolvesSelf(s);
      ok := k in sets;
      if !ok {
        return;
      }
      var members := sets[k];
      sets := sets - {k};
      ghost var ops := [DropSetOp(k)];
      OneStep(s, DropSetOp(k));
      var i := 0;
      while i < |members|
        invariant i <= |members| && sets == s.sets - {k} && caps == Cleared(s.caps, members[..i])
        invariant ops == [DropSetOp(k)] + DestroyAll(members[..i]) && S() == After(s, ops)
      {
        DestroyNext(s, S(), ops, members[i]);
        // each member is looked up and deleted from the table
        caps := caps - {members[i]};
        assert members[..i + 1] == members[..i] + [members[i]];
        assert caps == Cleared(s.caps, members[..i + 1]);
        ops := ops + [DestroyOp(members[i])];
        assert DestroyAll(members[..i + 1]) == DestroyAll(members[..i]) + [DestroyOp(members[i])];
        i := i + 1;
      }
      assert members[..i] == members;
      RunKeeps(s, ops);
    }

    method AddCap(k: nat, h: nat, memoryOk: bool) returns (ok: bool)
      requires Valid()
      modifies this`sets
      ensures Valid() && Evolves(old(S()), S()) && S() == Apply(old(S()), AddOp(k, h, memoryOk))
      ensures ok <==> memoryOk && h in caps && k in old(sets) && h !in old(sets)[k]
      ensures ok ==> sets == old(sets)[k := old(sets)[k] + [h]]
      ensures !ok ==> sets == old(sets)
    {
      hide Inv, Evolves, RightsOk;
      StepKeeps(S(), AddOp(k, h, memoryOk));
      ok := memoryOk && h in caps && k in sets && h !in sets[k];
      if ok {
        sets := sets[k := sets[k] + [h]];
      }
    }

    /** A new capability, live and in the set, or none at all. */
    method CreateInSet(k: nat, obj: nat, kind: Kind, rights: Rights, memoryOk: bool,
                       entryOk: bool) returns (h: Option<nat>)
      requires Valid() && next < MAX_HANDLE
      modifies this
      ensures Valid() && Evolves(old(S()), S())
      ensures h.Some? <==> RightsOk(kind, rights) && memoryOk && entryOk && k in old(sets)
      ensures h.Some? ==> h.value == old(next) && h.value !in old(born)
      ensures h.Some? ==> caps == old(caps)[h.value := Cap(kind, obj, rights)]
      ensures h.Some? ==> h.value in born && born[h.value] == Cap(kind, obj, rights)
      ensures h.Some? ==> k in old(sets) && sets == old(sets)[k := old(sets)[k] + [h.value]]
      ensures h.None? ==> caps == old(caps) && sets == old(sets)
    {
      hide RightsOk, Inv, Evolves;
      FreshNext();
      h := Create(obj, kind, rights, memoryOk);
      if h.None? {
        return;
      }
      ghost var made := S();
      var ok := AddCap(k, h.value, entryOk);
      EvolvesTwice(old(S()), made, S());
      if !ok {
        ghost var added := S();
        var _ := Destroy(h.value);
        assert caps == old(caps);
        EvolvesTwice(old(S()), added, S());
        h := None;
      }
    }

    lemma FreshNext()
      requires Valid()
      ensures next !in born && next !in caps && forall k :: k in sets ==> next !in sets[k]
    {
    }

    /** Takes a handle out of a set, then destroys the capability everywhere. */
    method DelCap(k: nat, h: nat) returns (ok: bool)
      requires Valid()
      modifies this`caps, this`sets
      ensures Valid() && Evolves(old(S()), S()) && (ok <==> k in old(sets) && h in old(sets)[k])
      ensures ok ==> S() == After(old(S()), [RemoveOp(k, h), DestroyOp(h)])
      ensures ok ==> sets == old(sets)[k := Without(old(sets)[k], h)] && caps == old(caps) - {h}
      ensures !ok ==> S() == old(S())
    {
      hide Inv, Evolves, RightsOk, Without;
      EvolvesSelf(S());
      ok := k in sets && h in sets[k];
      if ok {
        ghost var s := S();
        sets := sets[k := Without(sets[k], h)];
        OneStep(s, RemoveOp(k, h));
        DestroyNext(s, S(), [RemoveOp(k, h)], h);
        caps := caps - {h};
        assert [RemoveOp(k, h)] + [DestroyOp(h)] == [RemoveOp(k, h), DestroyOp(h)];
        RunKeeps(s, [RemoveOp(k, h), DestroyOp(h)]);
      }
    }

    /** Moves a handle between sets; afterwards it is in the target and, unless they are one set, not in the source. */
    method MoveCap(source: nat, target: nat, h: nat) returns (ok: bool)
      requires Valid()
      modifies this`sets
      ensures Valid() && Evolves(old(S()), S()) && S() == Apply(old(S()), MoveOp(source, target, h))
      ensures ok <==> source in old(sets) && target in old(sets) && h in old(sets)[source]
      ensures ok ==> target in sets && h in sets[target] && (source != target ==> source in sets && h !in sets[source])
      ensures !ok ==> sets == old(sets)
      ensures sets.Keys == old(sets).Keys
      ensures forall k, x :: k in sets && (x != h || (k != source && k != target)) ==>
                (x in sets[k] <==> x in old(sets)[k])
    {
      hide Unamplified, Numbered, Evolves, RightsOk, Without;
      StepKeeps(S(), MoveOp(source, target, h));
      if source !in sets || target !in sets {
        return false;
      }
      WithoutOf(sets[source], h);
      if source == target || h !in sets[source] {
        return h in sets[source];
      }
      sets := sets[source := Without(sets[source], h)];
      if h !in sets[target] {
        sets := sets[target := sets[target] + [h]];
      }
      ok := true;
    }

    // ----- resolving

    /** The capability behind a handle of the set, if it is live and has the rights. */
    method ResolveRecord(k: nat, h: nat, required: Rights) returns (c: Option<Cap>)
      requires Valid()
      ensures c == Resolve(caps, sets, k, h, required)
      ensures c.Some? ==> h in born && c.value == born[h]
    {
      hide RightsOk, SetsOk, Numbered;
      if k !in sets || h !in sets[k] || h !in caps || caps[h].rights * required != required {
        return None;
      }
      c := Some(caps[h]);
    }

    /** The object behind a handle of the set, if it is of this kind and has the rights. */
    method ResolveHandle(k: nat, h: nat, kind: Kind, required: Rights) returns (obj: Option<nat>)
      requires Valid()
      ensures obj.Some? <==> Resolve(caps, sets, k, h, required).Some? && caps[h].kind == kind
      ensures obj.Some? ==> h in born && born[h].obj == obj.value && born[h] == caps[h]
    {
      hide RightsOk, SetsOk, Numbered;
      if k !in sets || h !in sets[k] || h !in caps || caps[h].kind != kind || caps[h].rights * required != required {
        return None;
      }
      obj := Some(caps[h].obj);
    }

    /** The first live capability of the set that will do. */
    method ResolveCap(k: nat, kind: Kind, required: Rights) returns (h: Option<nat>)
      requires Valid()
      ensures h.Some? ==>
        k in sets && exists i: nat :: FirstFit(sets[k], caps, kind, required, i) && h.value == sets[k][i]
      ensures h.None? ==> k !in sets || forall i :: 0 <= i < |sets[k]| ==> !Suits(caps, sets[k][i], kind, required)
    {
      hide RightsOk, Inv;
      if k !in sets {
        return None;
      }
      var i := 0;
      while i < |sets[k]|
        invariant i <= |sets[k]| && forall j :: 0 <= j < i ==> !Suits(caps, sets[k][j], kind, required)
      {
        if sets[k][i] in caps && caps[sets[k][i]].kind == kind && caps[sets[k][i]].rights * required == required {
          assert FirstFit(sets[k], caps, kind, required, i);
          return Some(sets[k][i]);
        }
        i := i + 1;
      }
      return None;
    }
  }

  lemma OneStep(s: State, op: Op)
    ensures After(s, [op]) == Apply(s, op)
    ensures op.DropSetOp? ==> Apply(s, op) == s.(sets := s.sets - {op.set_})
  {
    assert After(Apply(s, op), []) == Apply(s, op);
  }

  lemma DestroyNext(s: State, t: State, ops: seq<Op>, h: nat)
    requires t == After(s, ops)
    ensures t.(caps := t.caps - {h}) == After(s, ops + [DestroyOp(h)])
  {
    AfterNext(s, ops, DestroyOp(h));
  }

  /** Moving changes no other membership. */
  lemma MoveOnly(sets: map<nat, seq<nat>>, source: nat, target: nat, h: nat, k: nat, x: nat)
    requires source in sets && target in sets && h in sets[source] && Distinct(sets[source]) && k in sets
    requires x != h || (k != source && k != target)
    ensures k in Moved(sets, source, target, h) && (x in Moved(sets, source, target, h)[k] <==> x in sets[k])
  {
    hide Without;
    WithoutOf(sets[source], h);
  }

  predicate Suits(caps: map<nat, Cap>, h: nat, kind: Kind, required: Rights) {
    h in caps && caps[h].kind == kind && required <= caps[h].rights
  }

  ghost predicate FirstFit(members: seq<nat>, caps: map<nat, Cap>, kind: Kind, required: Rights, i: nat) {
    && i < |members| && Suits(caps, members[i], kind, required)
    && (forall j :: 0 <= j < i ==> !Suits(caps, members[j], kind, required))
  }
}
