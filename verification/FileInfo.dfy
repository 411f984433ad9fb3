/** The pager record of a node (`fileinfo`): set when a file is mapped, cleared when its pager
    dies, and replaced if the file is mapped again while the old pager is still dying.

    The state is shared by all threads. A step is what one thread does while it holds the
    lock, or one action outside of it; the threads' steps interleave in any order. */
module FileInfo {
  import opened Layout

  /** The life of a pager record: its port is live; the port is dead; the slot of its node has
      been looked at by pager_clear_user_data, but the node has not been released. */
  datatype Phase = Live | Dying | Cleared

  datatype Record = Record(node: nat, phase: Phase)

  /** `slot` maps a node to the address of its record, `records` holds the records not yet
      freed by address, and `refs` counts the light references that pagers took on a node. */
  datatype State = State(slot: map<nat, nat>, records: map<nat, Record>, refs: map<nat, nat>) {
    function Refs(n: nat): nat {
      if n in refs then refs[n] else 0
    }
  }

  /** One step of some thread. `addr` is what malloc returns, which may be the address of a
      record freed before, and `created` says whether pager_create succeeds. */
  datatype Step =
    | GetFilemap(node: nat, addr: nat, created: bool)
    | PortDies(addr: nat)
    | ClearSlot(addr: nat)
    | ReleaseNode(addr: nat)

  predicate Enabled(s: State, step: Step) {
    match step
    case GetFilemap(_, addr, _) => addr !in s.records
    case PortDies(a) => IsLive(s, a)
    case ClearSlot(a) => a in s.records && s.records[a].phase.Dying?
    case ReleaseNode(a) => a in s.records && s.records[a].phase.Cleared?
  }

  predicate IsLive(s: State, a: nat) {
    a in s.records && s.records[a].phase.Live?
  }

  // The node has a record in its slot whose port is live.
  predicate HasLive(s: State, n: nat) {
    n in s.slot && IsLive(s, s.slot[n])
  }

  function Apply(s: State, step: Step): State
    requires Enabled(s, step)
  {
    match step
    case GetFilemap(n, addr, created) =>
      if HasLive(s, n) then s
      else if !created then s.(slot := s.slot - {n}, refs := s.refs[n := s.Refs(n)])
      else State(s.slot[n := addr], s.records[addr := Record(n, Live)], s.refs[n := s.Refs(n) + 1])
    case PortDies(a) => s.(records := s.records[a := s.records[a].(phase := Dying)])
    case ClearSlot(a) =>
      var n := s.records[a].node;
      State(if n in s.slot && s.slot[n] == a then s.slot - {n} else s.slot,
            s.records[a := s.records[a].(phase := Cleared)], s.refs)
    case ReleaseNode(a) =>
      var n := s.records[a].node;
      State(s.slot, s.records - {a}, s.refs[n := if s.Refs(n) > 0 then s.Refs(n) - 1 else 0])
  }

  function RecordsOf(s: State, n: nat): set<nat> {
    set a | a in s.records && s.records[a].node == n
  }

  /** What every reachable state satisfies: a slot holds a record of its own node that has not
      been cleared; a pager with a live port is the one in the slot of its node; and the light
      references on a node are one for each of its records. */
  ghost predicate Invariant(s: State) {
    && (forall n :: n in s.slot ==>
          s.slot[n] in s.records && s.records[s.slot[n]].node == n && !s.records[s.slot[n]].phase.Cleared?)
    && (forall a :: IsLive(s, a) ==>
          s.records[a].node in s.slot && s.slot[s.records[a].node] == a)
    && (forall n :: s.Refs(n) == |RecordsOf(s, n)|)
  }

  const INITIAL := State(map[], map[], map[])

  lemma SizeWithout(x: set<nat>, a: nat)
    ensures |x| == |x - {a}| + if a in x then 1 else 0
  {
    if a in x {
      assert x == x - {a} + {a};
    } else {
      assert x == x - {a};
    }
  }

  // The number of a node's records after a record is added, changed or freed.
  lemma CountRecords(s: State, t: State, a: nat, n: nat)
    requires forall b :: b != a ==> (b in s.records <==> b in t.records)
    requires forall b :: b != a && b in s.records ==> s.records[b].node == t.records[b].node
    ensures |RecordsOf(t, n)| - |RecordsOf(s, n)| ==
      (if a in RecordsOf(t, n) then 1 else 0) - (if a in RecordsOf(s, n) then 1 else 0)
  {
    var rest := RecordsOf(s, n) - {a};
    assert RecordsOf(t, n) - {a} == rest;
    SizeWithout(RecordsOf(s, n), a);
    SizeWithout(RecordsOf(t, n), a);
  }

  lemma StepKeepsCounts(s: State, step: Step)
    requires Invariant(s) && Enabled(s, step)
    ensures forall n :: Apply(s, step).Refs(n) == |RecordsOf(Apply(s, step), n)|
  {
    var t := Apply(s, step);
    forall n ensures t.Refs(n) == |RecordsOf(t, n)| {
      assert s.Refs(n) == |RecordsOf(s, n)|;
      CountRecords(s, t, step.addr, n);
      if step.ReleaseNode? && s.records[step.addr].node == n {
        assert step.addr in RecordsOf(s, n);
      }
    }
  }

  lemma StepKeepsInvariant(s: State, step: Step)
    requires Invariant(s) && Enabled(s, step)
    ensures Invariant(Apply(s, step))
  {
    StepKeepsCounts(s, step);
  }

  // A run from s to t: every step is enabled where it is taken.
  ghost predicate Run(s: State, steps: seq<Step>, t: State)
    decreases |steps|
  {
    if steps == [] then s == t
    else Enabled(s, steps[0]) && Run(Apply(s, steps[0]), steps[1..], t)
  }

  lemma {:induction false} RunKeepsInvariant(s: State, steps: seq<Step>, t: State)
    requires Invariant(s) && Run(s, steps, t)
    ensures Invariant(t)
    decreases |steps|
  {
    if steps != [] {
      StepKeepsInvariant(s, steps[0]);
      RunKeepsInvariant(Apply(s, steps[0]), steps[1..], t);
    }
  }

  /** In every state that any interleaving can reach: each node has at most one live pager, the
      one in its slot; the slot is empty once the pagers hold no reference on the node, as
      diskfs_node_norefs asserts; and each reference is one unreleased record's. */
  lemma Reachable(steps: seq<Step>, t: State)
    requires Run(INITIAL, steps, t)
    ensures forall a, b :: IsLive(t, a) && IsLive(t, b) && t.records[a].node == t.records[b].node ==> a == b
    ensures forall n :: t.Refs(n) == 0 ==> n !in t.slot
    ensures forall n :: t.Refs(n) == |RecordsOf(t, n)|
  {
    assert Invariant(INITIAL) by {
      forall n ensures INITIAL.Refs(n) == |RecordsOf(INITIAL, n)| {
        assert RecordsOf(INITIAL, n) == {};
      }
    }
    RunKeepsInvariant(INITIAL, steps, t);
    forall n | n in t.slot ensures t.Refs(n) > 0 {
      assert t.slot[n] in RecordsOf(t, n);
    }
  }

  /** While a pager lives, nothing but the death of its own port changes the slot that holds
      it: in particular the clearing of a dying predecessor leaves it alone. */
  lemma LiveStaysInSlot(s: State, step: Step, a: nat)
    requires Invariant(s) && Enabled(s, step)
    requires IsLive(s, a) && step != PortDies(a)
    ensures var t := Apply(s, step);
      a in t.records && t.records[a] == s.records[a] && t.slot[s.records[a].node] == a
  {
    StepKeepsInvariant(s, step);
  }

  /** What mapping a file does, whatever the state: afterwards the slot of the node holds the live
      record whose port is returned, which is the one that was live before, if any, or else the
      new one; a new record takes one reference; if none can be created the slot is empty and
      nothing is kept; other nodes are not touched. */
  lemma MappingMeans(s: State, n: nat, addr: nat, created: bool)
    requires Enabled(s, GetFilemap(n, addr, created)) && Invariant(s)
    ensures var t := Apply(s, GetFilemap(n, addr, created));
      && (HasLive(s, n) ==> t == s && s.records[s.slot[n]] == Record(n, Live))
      && (!HasLive(s, n) && created ==>
            && n in t.slot && t.slot[n] == addr && t.records == s.records[addr := Record(n, Live)]
            && t.Refs(n) == s.Refs(n) + 1)
      && (!HasLive(s, n) && !created ==> n !in t.slot && t.records == s.records && t.Refs(n) == s.Refs(n))
      && t.slot - {n} == s.slot - {n} && (forall m :: m != n ==> t.Refs(m) == s.Refs(m))
  {
  }

  // ---------- runs that exist ----------

  lemma RunStep(s: State, step: Step)
    requires Enabled(s, step)
    ensures Run(s, [step], Apply(s, step))
  {
    assert [step][1..] == [];
  }

  lemma {:induction false} RunConcat(s: State, a: seq<Step>, m: State, b: seq<Step>, t: State)
    requires Run(s, a, m) && Run(m, b, t)
    ensures Run(s, a + b, t)
    decreases |a|
  {
    if a == [] {
      assert a + b == b;
    } else {
      assert (a + b)[1..] == a[1..] + b;
      RunConcat(Apply(s, a[0]), a[1..], m, b, t);
    }
  }

  /** A live pager beside its dying predecessor: a file is mapped, its port dies, and it is mapped
      again before the clearing of the first pager. */
  lemma LiveBesideDying() returns (steps: seq<Step>, t: State)
    ensures Run(INITIAL, steps, t)
    ensures t == State(map[7 := 2], map[1 := Record(7, Dying), 2 := Record(7, Live)], map[7 := 2])
  {
    var s1 := Apply(INITIAL, GetFilemap(7, 1, true));
    var s2 := Apply(s1, PortDies(1));
    t := Apply(s2, GetFilemap(7, 2, true));
    RunStep(INITIAL, GetFilemap(7, 1, true));
    RunStep(s1, PortDies(1));
    RunStep(s2, GetFilemap(7, 2, true));
    RunConcat(INITIAL, [GetFilemap(7, 1, true)], s1, [PortDies(1)], s2);
    steps := [GetFilemap(7, 1, true)] + [PortDies(1)] + [GetFilemap(7, 2, true)];
    RunConcat(INITIAL, [GetFilemap(7, 1, true)] + [PortDies(1)], s2, [GetFilemap(7, 2, true)], t);
  }

  /** From there the predecessor is cleared away, and its address is used again for another node. */
  lemma AddressUsedAgain() returns (steps: seq<Step>, t: State)
    ensures Run(INITIAL, steps, t)
    ensures t == State(map[7 := 2, 8 := 1], map[1 := Record(8, Live), 2 := Record(7, Live)], map[7 := 1, 8 := 1])
  {
    var s;
    steps, s := LiveBesideDying();
    var s1 := Apply(s, ClearSlot(1));
    var s2 := Apply(s1, ReleaseNode(1));
    t := Apply(s2, GetFilemap(8, 1, true));
    RunStep(s, ClearSlot(1));
    RunStep(s1, ReleaseNode(1));
    RunStep(s2, GetFilemap(8, 1, true));
    RunConcat(INITIAL, steps, s, [ClearSlot(1)], s1);
    RunConcat(INITIAL, steps + [ClearSlot(1)], s1, [ReleaseNode(1)], s2);
    RunConcat(INITIAL, steps + [ClearSlot(1)] + [ReleaseNode(1)], s2, [GetFilemap(8, 1, true)], t);
    steps := steps + [ClearSlot(1)] + [ReleaseNode(1)] + [GetFilemap(8, 1, true)];
  }

  // A record can be brought to its end from whatever phase it is in.
  lemma EndRecord(s: State, a: nat) returns (steps: seq<Step>, t: State)
    requires Invariant(s) && a in s.records
    ensures Run(s, steps, t) && Invariant(t) && t.records == s.records - {a}
    decreases if s.records[a].phase.Live? then 2 else if s.records[a].phase.Dying? then 1 else 0
  {
    var step := match s.records[a].phase
      case Live => PortDies(a)
      case Dying => ClearSlot(a)
      case Cleared => ReleaseNode(a);
    var next := Apply(s, step);
    StepKeepsInvariant(s, step);
    RunStep(s, step);
    if step.ReleaseNode? {
      steps, t := [step], next;
    } else {
      var more;
      more, t := EndRecord(next, a);
      steps := [step] + more;
      RunConcat(s, [step], next, more, t);
      assert next.records - {a} == s.records - {a};
    }
  }

  /** No pager record and no reference is ever stuck: from every state that can be reached there
      is a run after which there are no records, no slot is filled and no node is referenced. */
  lemma {:induction false} EverythingEnds(s: State) returns (steps: seq<Step>, t: State)
    requires Invariant(s)
    ensures Run(s, steps, t) && t.records == map[] && t.slot == map[] && forall n :: t.Refs(n) == 0
    decreases |s.records|
  {
    if s.records == map[] {
      steps, t := [], s;
      forall n ensures t.Refs(n) == 0 {
        assert RecordsOf(t, n) == {};
      }
    } else {
      var a :| a in s.records;
      var first, m := EndRecord(s, a);
      assert m.records.Keys == s.records.Keys - {a};
      SizeWithout(s.records.Keys, a);
      var rest;
      rest, t := EverythingEnds(m);
      steps := first + rest;
      RunConcat(s, first, m, rest, t);
    }
  }

  /** The code of the steps, over the fields it updates. */
  class Pagers {
    var fileinfo: map<nat, nat>
    var records: map<nat, Record>
    var refs: map<nat, nat>

    constructor ()
      ensures Value() == INITIAL
    {
      fileinfo, records, refs := map[], map[], map[];
    }

    function Value(): State
      reads this
    {
      State(fileinfo, records, refs)
    }

    method RefLight(n: nat)
      modifies this`refs
      ensures refs == old(refs[n := Value().Refs(n) + 1])
    {
      refs := refs[n := Value().Refs(n) + 1];
    }

    method ReleaseLight(n: nat)
      modifies this`refs
      ensures refs == old(refs[n := if Value().Refs(n) > 0 then Value().Refs(n) - 1 else 0])
    {
      refs := refs[n := if Value().Refs(n) > 0 then Value().Refs(n) - 1 else 0];
    }

    // The port of a pager; none if the pager is about to go away.
    function PagerGetPort(a: nat): Option<nat>
      reads this
    {
      if IsLive(Value(), a) then Some(a) else None
    }

    /** Make a pager for a node whose slot is empty. */
    method Create(n: nat, addr: nat, created: bool) returns (right: Option<nat>)
      requires addr !in records && n !in fileinfo
      modifies this
      ensures right == if created then Some(addr) else None
      ensures fileinfo == if created then old(fileinfo)[n := addr] else old(fileinfo)
      ensures records == if created then old(records)[addr := Record(n, Live)] else old(records)
      ensures refs == old(refs)[n := old(Value().Refs(n)) + if created then 1 else 0]
    {
      RefLight(n);
      if !created {
        ReleaseLight(n);
        return None;
      }
      records := records[addr := Record(n, Live)];
      fileinfo := fileinfo[n := addr];
      right := PagerGetPort(fileinfo[n]);
    }

    /** The port of the pager that maps the file. A slot with a dying pager is emptied and the
        loop goes round once more; the dying pager is left to pager_clear_user_data. */
    method DiskfsGetFilemap(n: nat, addr: nat, created: bool) returns (right: Option<nat>)
      requires addr !in records && Invariant(Value())
      modifies this
      ensures Value() == Apply(old(Value()), GetFilemap(n, addr, created))
      ensures right == if HasLive(old(Value()), n) then Some(old(fileinfo[n]))
                       else if created then Some(addr) else None
      ensures right.Some? ==>
        n in fileinfo && fileinfo[n] == right.value && records[right.value] == Record(n, Live)
      ensures right.None? ==> n !in fileinfo && !created
      ensures if right == Some(addr) then records == old(records)[addr := Record(n, Live)] else records == old(records)
      ensures Value().Refs(n) == old(Value().Refs(n)) + if right == Some(addr) then 1 else 0
      ensures fileinfo - {n} == old(fileinfo - {n}) && forall m :: m != n ==> Value().Refs(m) == old(Value().Refs(m))
      ensures Invariant(Value())
    {
      StepKeepsInvariant(Value(), GetFilemap(n, addr, created));
      MappingMeans(Value(), n, addr, created);
      hide Invariant;
      right := None;
      while right.None?
        invariant records == old(records) && refs == old(refs)
        invariant fileinfo == old(fileinfo) || (!HasLive(old(Value()), n) && fileinfo == old(fileinfo) - {n})
        invariant right.Some? ==>
          HasLive(old(Value()), n) && right.value == old(fileinfo[n]) && fileinfo == old(fileinfo)
        decreases right.None?, n in fileinfo
      {
        if n !in fileinfo {
          right := Create(n, addr, created);
          return;
        } else {
          right := PagerGetPort(fileinfo[n]);
          if right.None? {
            fileinfo := fileinfo - {n};
          }
        }
      }
    }

    /** What the pager library calls once a pager is gone: empty the slot if it still holds this
        record, under the lock; then, outside of it, drop the reference and free the record. */
    method PagerClearUserData(a: nat)
      requires a in records && records[a].phase.Dying? && Invariant(Value())
      modifies this
      ensures Value() == Apply(Apply(old(Value()), ClearSlot(a)), ReleaseNode(a))
      ensures records == old(records) - {a}
      ensures var n := old(records[a].node);
        && fileinfo == (if n in old(fileinfo) && old(fileinfo)[n] == a then old(fileinfo) - {n} else old(fileinfo))
        && Value().Refs(n) == old(Value().Refs(records[a].node)) - 1
        && forall m :: m != n ==> Value().Refs(m) == old(Value().Refs(m))
      ensures Invariant(Value())
    {
      HasReference(Value(), a);
      StepKeepsInvariant(Value(), ClearSlot(a));
      hide Invariant;
      var n := records[a].node;
      if n in fileinfo && fileinfo[n] == a {
        fileinfo := fileinfo - {n};
      }
      records := records[a := records[a].(phase := Cleared)];
      assert Value() == Apply(old(Value()), ClearSlot(a));
      StepKeepsInvariant(Value(), ReleaseNode(a));
      ReleaseLight(n);
      records := records - {a};
    }

    /** Mapping a file again while its pager lives gives the port it was given. */
    method MapTwice(n: nat, addr1: nat, created1: bool, addr2: nat, created2: bool)
        returns (right1: Option<nat>, right2: Option<nat>)
      requires addr1 !in records && addr2 !in records && addr1 != addr2 && Invariant(Value())
      modifies this
      ensures right1.Some? ==> right2 == right1
      ensures right1.None? && created2 ==> right2 == Some(addr2)
      ensures Invariant(Value())
    {
      right1 := DiskfsGetFilemap(n, addr1, created1);
      right2 := DiskfsGetFilemap(n, addr2, created2);
    }
  }

  // An unreleased record holds a reference.
  lemma HasReference(s: State, a: nat)
    requires Invariant(s) && a in s.records
    ensures s.Refs(s.records[a].node) > 0
  {
    assert a in RecordsOf(s, s.records[a].node);
  }
}
