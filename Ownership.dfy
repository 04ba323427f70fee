/** Many handles at once. A world is a set of live handle objects (slots), each
    with the native value it holds, the calls made so far and every value ever
    adopted. Each operation acts on slots as the class methods act on objects: the
    calls it issues are those the class methods log (`CloseSyscalls` for every
    close), for either close policy. The invariant proved here is the ownership
    promise of the two classes: no two live handles hold the same valid value, and
    every adoption of a value is accounted for exactly once, by a `close`, by a
    live handle still holding it, or by a `release_handle` that gave it back. */
module Ownership {
  import opened Native

  /** The identity of one live handle object. */
  type Slot = nat

  /** The live handles and what they hold, the calls made so far, every valid value
      ever adopted, and every valid value handed back to a caller by a release. */
  datatype World = World(
    slots: map<Slot, int>,
    log: seq<Event>,
    adopted: multiset<int>,
    released: multiset<int>)

  /** No handle exists and no call has been made. */
  const Empty: World := World(map[], [], multiset{}, multiset{})

  /** The ways a program can create, transfer, use and end handles. `v` is a native
      value handed over by the caller, returned by `socket()` (`Create`) or
      returned by `accept()` (`AcceptHandle`); `result` is what `bind` or `listen`
      returned. There is no copy: copying is deleted in both classes. */
  datatype Op =
    | DefaultConstruct(d: Slot)
    | Adopt(d: Slot, v: int)
    | Create(d: Slot, v: int)
    | MoveConstruct(d: Slot, s: Slot)
    | MoveAssign(d: Slot, s: Slot)
    | Release(s: Slot)
    | Reset(s: Slot, v: int)
    | CloseHandle(s: Slot)
    | Destroy(s: Slot)
    | BindHandle(s: Slot, result: int)
    | ListenHandle(s: Slot, backlog: int, result: int)
    | AcceptHandle(d: Slot, s: Slot, v: int)

  /** Some live handle holds `v`. */
  predicate Holds(m: map<Slot, int>, v: int) {
    exists s :: s in m && m[s] == v
  }

  /** The objects an operation names exist, and a constructed one does not yet. */
  predicate Defined(w: World, op: Op) {
    match op
    case DefaultConstruct(d) => d !in w.slots
    case Adopt(d, _) => d !in w.slots
    case Create(d, _) => d !in w.slots
    case MoveConstruct(d, s) => d !in w.slots && s in w.slots
    case MoveAssign(d, s) => d in w.slots && s in w.slots
    case Release(s) => s in w.slots
    case Reset(s, _) => s in w.slots
    case CloseHandle(s) => s in w.slots
    case Destroy(s) => s in w.slots
    case BindHandle(s, _) => s in w.slots
    case ListenHandle(s, _, _) => s in w.slots
    case AcceptHandle(d, s, _) => d !in w.slots && s in w.slots
  }

  /** The native value the operation makes a handle own (`kInvalid` for none). */
  function Taken(w: World, op: Op): (r: int)
    requires Defined(w, op)
  {
    match op
    case Adopt(_, v) => v
    case Create(_, v) => v
    case Reset(_, v) => v
    case AcceptHandle(_, s, v) => if w.slots[s] == kInvalid then kInvalid else v
    case _ => kInvalid
  }

  /** The native value the operation hands back to its caller without closing it
      (`kInvalid` for none): only `release_handle` does so. */
  function Given(w: World, op: Op): (r: int)
    requires Defined(w, op)
  {
    match op
    case Release(s) => w.slots[s]
    case _ => kInvalid
  }

  /** A value may be adopted only when no live handle holds it: the explicit
      constructor and `reset_handle` take ownership, and `socket()` and `accept()`
      never return a descriptor that is still open. */
  predicate Enabled(w: World, op: Op) {
    Defined(w, op) && (Taken(w, op) == kInvalid || !Holds(w.slots, Taken(w, op)))
  }

  /** The calls the operation makes, as the class methods log them. */
  function Issued(p: ClosePolicy, w: World, op: Op): (r: seq<Event>)
    requires Defined(w, op)
  {
    match op
    case DefaultConstruct(_) => []
    case Adopt(_, _) => []
    case Create(_, v) => [Socket(v)]
    case MoveConstruct(_, _) => []
    case MoveAssign(d, s) => if d == s then [] else CloseSyscalls(p, w.slots[d])
    case Release(_) => []
    case Reset(s, _) => CloseSyscalls(p, w.slots[s])
    case CloseHandle(s) => CloseSyscalls(p, w.slots[s])
    case Destroy(s) => CloseSyscalls(p, w.slots[s])
    case BindHandle(s, r) => if w.slots[s] == kInvalid then [] else [Bind(w.slots[s], r)]
    case ListenHandle(s, b, r) => if w.slots[s] == kInvalid then [] else [Listen(w.slots[s], b, r)]
    case AcceptHandle(_, s, v) => if w.slots[s] == kInvalid then [] else [Accept(w.slots[s], v)]
  }

  /** The values the live handles hold afterwards. */
  function NextSlots(w: World, op: Op): (r: map<Slot, int>)
    requires Defined(w, op)
  {
    match op
    case DefaultConstruct(d) => w.slots[d := kInvalid]
    case Adopt(d, v) => w.slots[d := v]
    case Create(d, v) => if v == kInvalid then w.slots else w.slots[d := v]
    case MoveConstruct(d, s) => w.slots[s := kInvalid][d := w.slots[s]]
    case MoveAssign(d, s) => if d == s then w.slots else w.slots[s := kInvalid][d := w.slots[s]]
    case Release(s) => w.slots[s := kInvalid]
    case Reset(s, v) => w.slots[s := v]
    case CloseHandle(s) => w.slots[s := kInvalid]
    case Destroy(s) => w.slots - {s}
    case BindHandle(_, _) => w.slots
    case ListenHandle(_, _, _) => w.slots
    case AcceptHandle(d, s, v) => w.slots[d := if w.slots[s] == kInvalid then kInvalid else v]
  }

  /** `a` with `v` added once, unless `v` is the sentinel. */
  function Record(a: multiset<int>, v: int): (r: multiset<int>) {
    if v == kInvalid then a else a + multiset{v}
  }

  /** One operation under close policy `p`. */
  function Apply(p: ClosePolicy, w: World, op: Op): (r: World)
    requires Defined(w, op)
  {
    World(
      NextSlots(w, op),
      w.log + Issued(p, w, op),
      Record(w.adopted, Taken(w, op)),
      Record(w.released, Given(w, op)))
  }

  /** No two live handles hold the same valid value. */
  predicate UniqueOwners(m: map<Slot, int>) {
    forall a, b :: a in m && b in m && a != b && m[a] != kInvalid ==> m[a] != m[b]
  }

  /** Each adoption of `v` is accounted for exactly once: by a `close` of `v`, by
      the live handle that still holds it, or by a release that handed it back. */
  predicate AccountedAt(w: World, v: int) {
    CloseCount(w.log, v) + (if Holds(w.slots, v) then 1 else 0) + w.released[v] == w.adopted[v]
  }

  ghost predicate Inv(w: World) {
    && UniqueOwners(w.slots)
    && (forall v :: v != kInvalid ==> AccountedAt(w, v))
  }

  lemma EmptyInv()
    ensures Inv(Empty)
  {
  }

  // ---------------------------------------------------------------- map facts

  lemma HoldsAfterSet(m: map<Slot, int>, k: Slot, x: int, v: int)
    requires v != x
    requires k in m ==> m[k] != v
    ensures Holds(m[k := x], v) <==> Holds(m, v)
  {
    if Holds(m[k := x], v) {
      var j :| j in m[k := x] && m[k := x][j] == v;
      assert j != k && j in m && m[j] == v;
    }
    if Holds(m, v) {
      var j :| j in m && m[j] == v;
      assert j != k && m[k := x][j] == v;
    }
  }

  lemma HoldsAfterRemove(m: map<Slot, int>, k: Slot, v: int)
    requires k in m && m[k] != v
    ensures Holds(m - {k}, v) <==> Holds(m, v)
  {
    if Holds(m, v) {
      var j :| j in m && m[j] == v;
      assert j in m - {k} && (m - {k})[j] == v;
    }
  }

  /** After a move from `s` to `d`, a valid value is held only if it was held, and
      it is still held unless the destination was its holder. */
  lemma HoldsAfterMove(m: map<Slot, int>, d: Slot, s: Slot, v: int)
    requires s in m && v != kInvalid
    ensures Holds(m[s := kInvalid][d := m[s]], v) ==> Holds(m, v)
    ensures (d in m ==> m[d] != v) && Holds(m, v) ==> Holds(m[s := kInvalid][d := m[s]], v)
  {
    var m' := m[s := kInvalid][d := m[s]];
    if Holds(m', v) {
      var j :| j in m' && m'[j] == v;
      if j == d {
        assert m[s] == v;
      } else {
        assert j != s && m[j] == v;
      }
    }
    if (d in m ==> m[d] != v) && Holds(m, v) {
      var j :| j in m && m[j] == v;
      if j == s {
        assert m'[d] == v;
      } else {
        assert j != d && m'[j] == v;
      }
    }
  }

  /** The value of `k` is held by no other handle. */
  lemma OnlyOwner(m: map<Slot, int>, k: Slot, x: int)
    requires UniqueOwners(m) && k in m && m[k] != kInvalid && x != m[k]
    ensures !Holds(m[k := x], m[k])
    ensures !Holds(m - {k}, m[k])
  {
  }

  lemma UniqueAfterSet(m: map<Slot, int>, k: Slot, x: int)
    requires UniqueOwners(m)
    requires x == kInvalid || !Holds(m - {k}, x)
    ensures UniqueOwners(m[k := x])
  {
    var m' := m[k := x];
    forall a, b | a in m' && b in m' && a != b && m'[a] != kInvalid
      ensures m'[a] != m'[b]
    {
      if a == k {
        assert b in m - {k};
      } else if b == k {
        assert a in m - {k};
      }
    }
  }

  // ---------------------------------------------------------- one operation

  /** The calls an operation issues are made only on valid values that a live
      handle held before it. */
  lemma IssuedTouchesHeld(p: ClosePolicy, w: World, op: Op, v: int)
    requires Defined(w, op)
    ensures forall e :: e in Issued(p, w, op) && Touches(e, v) ==>
      v != kInvalid && Holds(w.slots, v)
  {
    var E := Issued(p, w, op);
    forall e | e in E && Touches(e, v)
      ensures v != kInvalid && Holds(w.slots, v)
    {
      match op
      case MoveAssign(d, s) =>
        assert w.slots[d] == v;
      case Reset(s, _) =>
        assert w.slots[s] == v;
      case CloseHandle(s) =>
        assert w.slots[s] == v;
      case Destroy(s) =>
        assert w.slots[s] == v;
      case BindHandle(s, _) =>
        assert w.slots[s] == v;
      case ListenHandle(s, _, _) =>
        assert w.slots[s] == v;
      case AcceptHandle(_, s, _) =>
        assert w.slots[s] == v;
    }
  }

  /** Only closing operations close anything, and they close one value: the one
      the closed handle held. */
  lemma IssuedCloses(p: ClosePolicy, w: World, op: Op, v: int)
    requires Defined(w, op)
    ensures CloseCount(Issued(p, w, op), v) ==
      match op
      case MoveAssign(d, s) => if d != s && w.slots[d] != kInvalid && w.slots[d] == v then 1 else 0
      case Reset(s, _) => if w.slots[s] != kInvalid && w.slots[s] == v then 1 else 0
      case CloseHandle(s) => if w.slots[s] != kInvalid && w.slots[s] == v then 1 else 0
      case Destroy(s) => if w.slots[s] != kInvalid && w.slots[s] == v then 1 else 0
      case _ => 0
  {
    var E := Issued(p, w, op);
    match op
    case MoveAssign(d, s) =>
      if d != s { CloseSyscallsCloseOnce(p, w.slots[d], v); }
    case Reset(s, _) => CloseSyscallsCloseOnce(p, w.slots[s], v);
    case CloseHandle(s) => CloseSyscallsCloseOnce(p, w.slots[s], v);
    case Destroy(s) => CloseSyscallsCloseOnce(p, w.slots[s], v);
    case Create(_, _) => assert E[1..] == [];
    case BindHandle(_, _) => if E != [] { assert E[1..] == []; }
    case ListenHandle(_, _, _) => if E != [] { assert E[1..] == []; }
    case AcceptHandle(_, _, _) => if E != [] { assert E[1..] == []; }
    case _ =>
  }

  /** No operation the classes allow makes two live handles hold one valid value. */
  lemma StepUnique(w: World, op: Op)
    requires Inv(w) && Enabled(w, op)
    ensures UniqueOwners(NextSlots(w, op))
  {
    var m := w.slots;
    match op
    case DefaultConstruct(d) => UniqueAfterSet(m, d, kInvalid);
    case Adopt(d, v) => UniqueAfterSet(m, d, v);
    case Create(d, v) => if v != kInvalid { UniqueAfterSet(m, d, v); }
    case MoveConstruct(d, s) =>
      UniqueAfterSet(m, s, kInvalid);
      UniqueAfterSet(m[s := kInvalid], d, m[s]);
    case MoveAssign(d, s) =>
      if d != s {
        UniqueAfterSet(m, s, kInvalid);
        UniqueAfterSet(m[s := kInvalid], d, m[s]);
      }
    case Release(s) => UniqueAfterSet(m, s, kInvalid);
    case Reset(s, v) => UniqueAfterSet(m, s, v);
    case CloseHandle(s) => UniqueAfterSet(m, s, kInvalid);
    case Destroy(s) =>
    case BindHandle(_, _) =>
    case ListenHandle(_, _, _) =>
    case AcceptHandle(d, s, v) =>
      UniqueAfterSet(m, d, if m[s] == kInvalid then kInvalid else v);
  }

  /** Per operation and valid value: the closes it issues, whether `v` is held
      afterwards and whether it hands `v` back add up to whether `v` was held
      before plus whether the operation adopts it. Nothing is lost or counted twice. */
  lemma StepBalance(p: ClosePolicy, w: World, op: Op, v: int)
    requires Inv(w) && Enabled(w, op) && v != kInvalid
    ensures CloseCount(Issued(p, w, op), v) + (if Holds(NextSlots(w, op), v) then 1 else 0)
        + (if Given(w, op) == v then 1 else 0)
      == (if Holds(w.slots, v) then 1 else 0) + (if Taken(w, op) == v then 1 else 0)
  {
    var m := w.slots;
    var m' := NextSlots(w, op);
    IssuedCloses(p, w, op, v);
    match op
    case DefaultConstruct(d) => HoldsAfterSet(m, d, kInvalid, v);
    case Adopt(d, x) => if v != x { HoldsAfterSet(m, d, x, v); } else { assert m'[d] == v; }
    case Create(d, x) =>
      if x != kInvalid && v != x { HoldsAfterSet(m, d, x, v); }
      else if x != kInvalid { assert m'[d] == v; }
    case MoveConstruct(d, s) => HoldsAfterMove(m, d, s, v);
    case MoveAssign(d, s) =>
      if d != s {
        HoldsAfterMove(m, d, s, v);
        if m[d] != kInvalid && m[d] == v {
          assert m[s] != v;
          assert !Holds(m', v);
        }
      }
    case Release(s) =>
      if m[s] != v { HoldsAfterSet(m, s, kInvalid, v); }
      else { OnlyOwner(m, s, kInvalid); }
    case Reset(s, x) =>
      if m[s] != kInvalid && m[s] == v {
        assert Holds(m, v);
        OnlyOwner(m, s, x);
      } else if v != x {
        HoldsAfterSet(m, s, x, v);
      } else {
        assert m'[s] == v;
      }
    case CloseHandle(s) =>
      if m[s] != kInvalid && m[s] == v {
        OnlyOwner(m, s, kInvalid);
      } else {
        HoldsAfterSet(m, s, kInvalid, v);
      }
    case Destroy(s) =>
      if m[s] != kInvalid && m[s] == v {
        OnlyOwner(m, s, kInvalid);
      } else {
        HoldsAfterRemove(m, s, v);
      }
    case BindHandle(_, _) =>
    case ListenHandle(_, _, _) =>
    case AcceptHandle(d, s, x) =>
      var y := if m[s] == kInvalid then kInvalid else x;
      if v != y { HoldsAfterSet(m, d, y, v); } else { assert m'[d] == v; }
  }

  /** Every operation the classes allow keeps the ownership invariant. */
  lemma StepPreservesInv(p: ClosePolicy, w: World, op: Op)
    requires Inv(w) && Enabled(w, op)
    ensures Inv(Apply(p, w, op))
  {
    var w' := Apply(p, w, op);
    StepUnique(w, op);
    forall v | v != kInvalid
      ensures AccountedAt(w', v)
    {
      StepBalance(p, w, op, v);
      CloseCountAppend(w.log, Issued(p, w, op), v);
      assert AccountedAt(w, v);
    }
  }

  /** A handle whose value has been closed as often as it was adopted is not held
      by anyone, so the next operation makes no call on it, whatever it is. */
  lemma NoUseAfterClose(p: ClosePolicy, w: World, op: Op, v: int)
    requires Inv(w) && Enabled(w, op) && v != kInvalid
    requires CloseCount(w.log, v) == w.adopted[v]
    ensures forall e :: e in Issued(p, w, op) ==> !Touches(e, v)
  {
    assert AccountedAt(w, v);
    IssuedTouchesHeld(p, w, op, v);
  }

  // --------------------------------------------------------------- programs

  /** Every operation of `ops` is allowed in the world the previous ones leave. */
  predicate Feasible(p: ClosePolicy, w: World, ops: seq<Op>)
    decreases |ops|
  {
    ops == [] || (Enabled(w, ops[0]) && Feasible(p, Apply(p, w, ops[0]), ops[1..]))
  }

  function Run(p: ClosePolicy, w: World, ops: seq<Op>): (r: World)
    requires Feasible(p, w, ops)
    decreases |ops|
  {
    if ops == [] then w else Run(p, Apply(p, w, ops[0]), ops[1..])
  }

  lemma {:induction false} RunPreservesInv(p: ClosePolicy, w: World, ops: seq<Op>)
    requires Inv(w) && Feasible(p, w, ops)
    ensures Inv(Run(p, w, ops))
    decreases |ops|
  {
    if ops != [] {
      StepPreservesInv(p, w, ops[0]);
      RunPreservesInv(p, Apply(p, w, ops[0]), ops[1..]);
    }
  }

  /** Over any program of constructions, moves, releases, resets, closes and
      destructions, no two live handles hold the same valid value and no value is
      closed more often than it was adopted. */
  lemma ClosedAtMostAsOftenAsAdopted(p: ClosePolicy, ops: seq<Op>, v: int)
    requires Feasible(p, Empty, ops) && v != kInvalid
    ensures UniqueOwners(Run(p, Empty, ops).slots)
    ensures CloseCount(Run(p, Empty, ops).log, v) <= Run(p, Empty, ops).adopted[v]
  {
    EmptyInv();
    RunPreservesInv(p, Empty, ops);
    assert AccountedAt(Run(p, Empty, ops), v);
  }

  /** A value adopted once is closed at most once. */
  lemma AdoptedOnceClosedAtMostOnce(p: ClosePolicy, ops: seq<Op>, v: int)
    requires Feasible(p, Empty, ops) && v != kInvalid
    requires Run(p, Empty, ops).adopted[v] <= 1
    ensures CloseCount(Run(p, Empty, ops).log, v) <= 1
  {
    ClosedAtMostAsOftenAsAdopted(p, ops, v);
  }

  /** No operation of `ops` is a release. */
  predicate NoRelease(ops: seq<Op>) {
    forall i :: 0 <= i < |ops| ==> !ops[i].Release?
  }

  /** Only a release hands a value back to a caller. */
  lemma {:induction false} RunWithoutReleaseKeepsReleased(p: ClosePolicy, w: World, ops: seq<Op>)
    requires Feasible(p, w, ops) && NoRelease(ops)
    ensures Run(p, w, ops).released == w.released
    decreases |ops|
  {
    if ops != [] {
      assert NoRelease(ops[1..]) by {
        forall i | 0 <= i < |ops[1..]|
          ensures !ops[1..][i].Release?
        {
          assert ops[1..][i] == ops[i + 1];
        }
      }
      RunWithoutReleaseKeepsReleased(p, Apply(p, w, ops[0]), ops[1..]);
    }
  }

  /** Every live handle can be destroyed: destroying them one by one is allowed
      and leaves none. */
  lemma {:induction false} TeardownExists(p: ClosePolicy, w: World) returns (ds: seq<Op>)
    ensures Feasible(p, w, ds) && Run(p, w, ds).slots == map[]
    ensures forall i :: 0 <= i < |ds| ==> ds[i].Destroy?
    decreases |w.slots|
  {
    if w.slots == map[] {
      ds := [];
    } else {
      var s :| s in w.slots;
      var w1 := Apply(p, w, Destroy(s));
      assert w1.slots.Keys == w.slots.Keys - {s};
      var rest := TeardownExists(p, w1);
      ds := [Destroy(s)] + rest;
      assert ds[1..] == rest;
    }
  }

  /** Once no handle is live, every adoption of a valid value has been matched by
      exactly one `close` or one release, and, when the program released nothing,
      by exactly one `close`. */
  lemma ClosedOncePerAdoption(p: ClosePolicy, ops: seq<Op>, v: int)
    requires Feasible(p, Empty, ops) && v != kInvalid
    requires Run(p, Empty, ops).slots == map[]
    ensures CloseCount(Run(p, Empty, ops).log, v) + Run(p, Empty, ops).released[v]
      == Run(p, Empty, ops).adopted[v]
    ensures NoRelease(ops) ==> CloseCount(Run(p, Empty, ops).log, v) == Run(p, Empty, ops).adopted[v]
  {
    EmptyInv();
    RunPreservesInv(p, Empty, ops);
    assert AccountedAt(Run(p, Empty, ops), v);
    if NoRelease(ops) {
      RunWithoutReleaseKeepsReleased(p, Empty, ops);
    }
  }

  /** No handle leaks: after any program that releases nothing, destroying the
      live handles leaves none and closes every valid value exactly as often as it
      was adopted. */
  lemma NoLeak(p: ClosePolicy, ops: seq<Op>) returns (ds: seq<Op>)
    requires Feasible(p, Empty, ops) && NoRelease(ops)
    ensures Feasible(p, Run(p, Empty, ops), ds)
    ensures forall i :: 0 <= i < |ds| ==> ds[i].Destroy?
    ensures Run(p, Run(p, Empty, ops), ds).slots == map[]
    ensures forall v :: v != kInvalid ==>
      CloseCount(Run(p, Run(p, Empty, ops), ds).log, v) == Run(p, Run(p, Empty, ops), ds).adopted[v]
  {
    var w0 := Run(p, Empty, ops);
    ds := TeardownExists(p, w0);
    var w := Run(p, w0, ds);
    EmptyInv();
    RunPreservesInv(p, Empty, ops);
    RunPreservesInv(p, w0, ds);
    RunWithoutReleaseKeepsReleased(p, Empty, ops);
    RunWithoutReleaseKeepsReleased(p, w0, ds);
    forall v | v != kInvalid
      ensures CloseCount(w.log, v) == w.adopted[v]
    {
      assert AccountedAt(w, v);
    }
  }

  /** The log only grows and adoptions are never forgotten. */
  lemma {:induction false} RunExtends(p: ClosePolicy, w: World, ops: seq<Op>)
    requires Feasible(p, w, ops)
    ensures |w.log| <= |Run(p, w, ops).log| && Run(p, w, ops).log[..|w.log|] == w.log
    ensures w.adopted <= Run(p, w, ops).adopted
    decreases |ops|
  {
    if ops != [] {
      var w1 := Apply(p, w, ops[0]);
      RunExtends(p, w1, ops[1..]);
      assert w1.log[..|w.log|] == w.log;
    }
  }

  /** Once a value has been closed as often as it was adopted, no later call of
      any program that does not adopt it again touches it. */
  lemma {:induction false} RunNoUseAfterClose(p: ClosePolicy, w: World, ops: seq<Op>, v: int)
    requires Inv(w) && Feasible(p, w, ops) && v != kInvalid
    requires CloseCount(w.log, v) == w.adopted[v]
    requires Run(p, w, ops).adopted[v] == w.adopted[v]
    ensures forall i :: |w.log| <= i < |Run(p, w, ops).log| ==> !Touches(Run(p, w, ops).log[i], v)
    decreases |ops|
  {
    if ops != [] {
      var w1 := Apply(p, w, ops[0]);
      var E := Issued(p, w, ops[0]);
      NoUseAfterClose(p, w, ops[0], v);
      StepPreservesInv(p, w, ops[0]);
      RunExtends(p, w1, ops[1..]);
      CloseCountAppend(w.log, E, v);
      assert w1.adopted[v] == w.adopted[v];
      assert AccountedAt(w1, v);
      RunNoUseAfterClose(p, w1, ops[1..], v);
      var r := Run(p, w, ops);
      forall i | |w.log| <= i < |r.log|
        ensures !Touches(r.log[i], v)
      {
        if i < |w1.log| {
          assert r.log[i] == w1.log[i] == E[i - |w.log|];
        }
      }
    }
  }

  // ------------------------------------------------- single-handle promises

  /** Moving hands the value to the destination and leaves the source invalid;
      releasing leaves the handle invalid and closes nothing. */
  lemma MovedFromIsInvalid(p: ClosePolicy, w: World, op: Op)
    requires Defined(w, op)
    requires op.MoveConstruct? || (op.MoveAssign? && op.d != op.s) || op.Release?
    ensures NextSlots(w, op)[op.s] == kInvalid
    ensures !op.Release? ==> NextSlots(w, op)[op.d] == w.slots[op.s] && op.d in NextSlots(w, op)
    ensures op.Release? ==> Issued(p, w, op) == []
  {
  }

  /** Closing twice, or destroying after closing, makes no further call. */
  lemma CloseIsIdempotent(p: ClosePolicy, w: World, s: Slot)
    requires s in w.slots
    ensures var w1 := Apply(p, w, CloseHandle(s));
      && Apply(p, w1, CloseHandle(s)) == w1
      && Apply(p, w1, Destroy(s)).log == w1.log
  {
    var w1 := Apply(p, w, CloseHandle(s));
    assert w1.slots[s] == kInvalid;
    assert w1.slots[s := kInvalid] == w1.slots;
    assert w1.log + [] == w1.log;
  }

  /** `reset_handle()` with its default argument closes and leaves the handle
      invalid, exactly like `close_handle()`. */
  lemma DefaultResetIsClose(p: ClosePolicy, w: World, s: Slot)
    requires s in w.slots
    ensures Apply(p, w, Reset(s, kInvalid)) == Apply(p, w, CloseHandle(s))
    ensures Apply(p, w, Reset(s, kInvalid)).slots[s] == kInvalid
  {
  }

  /** `==` between two distinct live handles holds only when neither owns anything. */
  lemma EqualOnlyWhenBothInvalid(w: World, a: Slot, b: Slot)
    requires Inv(w) && a in w.slots && b in w.slots && a != b
    ensures w.slots[a] == w.slots[b] <==> w.slots[a] == kInvalid && w.slots[b] == kInvalid
  {
  }

  /** Why copying is deleted: a copy of a valid handle would make two owners, and
      destroying both would close the value twice. */
  lemma CopyWouldDoubleClose(p: ClosePolicy, w: World, s: Slot, d: Slot)
    requires s in w.slots && d !in w.slots && w.slots[s] != kInvalid
    ensures var copy := w.(slots := w.slots[d := w.slots[s]]);
      && !UniqueOwners(copy.slots)
      && CloseCount(Apply(p, Apply(p, copy, Destroy(s)), Destroy(d)).log, w.slots[s])
         == CloseCount(w.log, w.slots[s]) + 2
  {
    var h := w.slots[s];
    var copy := w.(slots := w.slots[d := h]);
    var w1 := Apply(p, copy, Destroy(s));
    var w2 := Apply(p, w1, Destroy(d));
    assert copy.slots[s] == h && copy.slots[d] == h;
    CloseSyscallsCloseOnce(p, h, h);
    CloseCountAppend(w.log, CloseSyscalls(p, h), h);
    CloseCountAppend(w1.log, CloseSyscalls(p, h), h);
  }

  /** Why `reset_handle` must be given a value no handle owns: resetting a handle
      to its own value closes it and keeps the closed value, so destroying the
      handle closes it a second time although it was adopted once more. */
  lemma ResetToOwnValueDoubleCloses(p: ClosePolicy, w: World, s: Slot)
    requires s in w.slots && w.slots[s] != kInvalid
    ensures !Enabled(w, Reset(s, w.slots[s]))
    ensures var h := w.slots[s];
      var w2 := Apply(p, Apply(p, w, Reset(s, h)), Destroy(s));
      && CloseCount(w2.log, h) == CloseCount(w.log, h) + 2
      && w2.adopted[h] == w.adopted[h] + 1
  {
    var h := w.slots[s];
    var w1 := Apply(p, w, Reset(s, h));
    assert w1.slots[s] == h;
    CloseSyscallsCloseOnce(p, h, h);
    CloseCountAppend(w.log, CloseSyscalls(p, h), h);
    CloseCountAppend(w1.log, CloseSyscalls(p, h), h);
  }
}
