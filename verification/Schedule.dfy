/** The operations of src/schedule.c on the shared run list, and the list functions that specify
    them. The list is kept in order of vruntime, least first. */
module Schedule {
  import opened Machine
  import opened LinkedList

  const NUM_HARTS: nat := 8
  const NULL: nat := 0

  datatype ProcState = Dead | Running | Sleeping | Waiting

  /** The fields of a Process that scheduling uses; onHart is -1 when it is on no hart. */
  datatype Proc = Proc(pid: nat, state: ProcState, vruntime: nat, starttime: nat, sleepUntil: nat, onHart: int)

  type Procs = map<nat, Proc>

  function Vruntime(procs: Procs, p: nat): nat {
    if p in procs then procs[p].vruntime else 0
  }

  /** Neither NULL nor an idle process: only such a process ever goes on the list. */
  predicate Listable(procs: Procs, p: nat) {
    p != NULL && p in procs && procs[p].pid > NUM_HARTS
  }

  predicate Eligible(procs: Procs, p: nat, now: nat) {
    && p in procs && procs[p].onHart == -1
    && (procs[p].state == Running || (procs[p].state == Sleeping && procs[p].sleepUntil <= now))
  }

  ghost predicate Sorted(procs: Procs, list: seq<nat>) {
    forall i, j :: 0 <= i < j < |list| ==> Vruntime(procs, list[i]) <= Vruntime(procs, list[j])
  }

  /** The first position whose vruntime is not below v, or the length. */
  function InsertIndex(procs: Procs, list: seq<nat>, v: nat): (k: nat)
    ensures k <= |list|
    ensures forall i :: 0 <= i < k ==> Vruntime(procs, list[i]) < v
    ensures k < |list| ==> Vruntime(procs, list[k]) >= v
  {
    if list == [] || Vruntime(procs, list[0]) >= v then 0 else 1 + InsertIndex(procs, list[1..], v)
  }

  lemma {:induction false} InsertIndexIs(procs: Procs, list: seq<nat>, v: nat, k: nat)
    requires k <= |list| && (forall i :: 0 <= i < k ==> Vruntime(procs, list[i]) < v)
    requires k < |list| ==> Vruntime(procs, list[k]) >= v
    ensures InsertIndex(procs, list, v) == k
  {
    if k > 0 {
      InsertIndexIs(procs, list[1..], v, k - 1);
    }
  }

  /** The first eligible position, or the length. */
  function PopIndex(procs: Procs, list: seq<nat>, now: nat): (k: nat)
    ensures k <= |list|
    ensures forall i :: 0 <= i < k ==> !Eligible(procs, list[i], now)
    ensures k < |list| ==> Eligible(procs, list[k], now)
  {
    if list == [] || Eligible(procs, list[0], now) then 0 else 1 + PopIndex(procs, list[1..], now)
  }

  lemma {:induction false} PopIndexIs(procs: Procs, list: seq<nat>, now: nat, k: nat)
    requires k <= |list| && (forall i :: 0 <= i < k ==> !Eligible(procs, list[i], now))
    requires k < |list| ==> Eligible(procs, list[k], now)
    ensures PopIndex(procs, list, now) == k
  {
    if k > 0 {
      PopIndexIs(procs, list[1..], now, k - 1);
    }
  }

  function Added(procs: Procs, list: seq<nat>, p: nat): seq<nat> {
    if !Listable(procs, p) then list
    else var k := InsertIndex(procs, list, procs[p].vruntime); InsertAt(list, k, p)
  }

  /** What adding at the right place gives. */
  lemma AddedAt(procs: Procs, list: seq<nat>, p: nat, k: nat)
    requires Listable(procs, p) && k == InsertIndex(procs, list, procs[p].vruntime)
    requires forall q :: q in list ==> Listable(procs, q)
    ensures Added(procs, list, p) == list[..k] + [p] + list[k..]
    ensures forall q :: q in Added(procs, list, p) ==> Listable(procs, q)
  {
    InsertMembers(list, k, p);
  }

  function Dropped(procs: Procs, list: seq<nat>, p: nat): seq<nat> {
    if Listable(procs, p) then RemoveFirst(list, p) else list
  }

  function Popped(procs: Procs, list: seq<nat>, now: nat): nat {
    var k := PopIndex(procs, list, now);
    if k < |list| then list[k] else NULL
  }

  lemma InsertMembers(list: seq<nat>, k: nat, p: nat)
    requires k <= |list|
    ensures forall q :: q in InsertAt(list, k, p) <==> q in list || q == p
    ensures Distinct(list) && p !in list ==> Distinct(InsertAt(list, k, p))
  {
    var l := InsertAt(list, k, p);
    forall q ensures q in l <==> q in list || q == p {
      if q in list {
        var i :| 0 <= i < |list| && list[i] == q;
        assert l[if i < k then i else i + 1] == q;
      }
      assert l[k] == p;
    }
    if Distinct(list) && p !in list {
      forall i, j | 0 <= i < j < |l| ensures l[i] != l[j] {}
    }
  }

  lemma InsertSorts(procs: Procs, list: seq<nat>, p: nat, k: nat)
    requires Sorted(procs, list) && k == InsertIndex(procs, list, Vruntime(procs, p))
    ensures Sorted(procs, InsertAt(list, k, p))
  {
    var l := InsertAt(list, k, p);
    forall i, j | 0 <= i < j < |l| ensures Vruntime(procs, l[i]) <= Vruntime(procs, l[j]) {
      if i == k {
        assert j - 1 > k ==> Vruntime(procs, list[k]) <= Vruntime(procs, list[j - 1]);
      }
    }
  }

  /** schedule_add keeps the order and adds exactly the one process. */
  lemma AddKeepsOrder(procs: Procs, list: seq<nat>, p: nat)
    requires Sorted(procs, list) && Distinct(list) && p !in list
    ensures Sorted(procs, Added(procs, list, p)) && Distinct(Added(procs, list, p))
    ensures forall q :: q in Added(procs, list, p) <==> q in list || (q == p && Listable(procs, p))
  {
    if Listable(procs, p) {
      var k := InsertIndex(procs, list, procs[p].vruntime);
      InsertMembers(list, k, p);
      InsertSorts(procs, list, p, k);
    }
  }

  lemma {:induction false} RemoveKeepsOrder(procs: Procs, list: seq<nat>, p: nat)
    requires Sorted(procs, list)
    ensures Sorted(procs, RemoveFirst(list, p))
  {
    if list != [] && list[0] != p {
      var t := list[1..];
      RemoveKeepsOrder(procs, t, p);
      RemoveFirstSubset(t, p);
      var l := RemoveFirst(list, p);
      forall i, j | 0 <= i < j < |l| ensures Vruntime(procs, l[i]) <= Vruntime(procs, l[j]) {
        if i == 0 {
          assert l[j] in RemoveFirst(t, p);
          var m :| 0 <= m < |t| && t[m] == l[j];
          assert list[m + 1] == l[j];
        }
      }
    }
  }

  lemma {:induction false} RemoveFirstSubset(list: seq<nat>, p: nat)
    ensures forall q :: q in RemoveFirst(list, p) ==> q in list
  {
    if list != [] && list[0] != p { RemoveFirstSubset(list[1..], p); }
  }

  /** schedule_pop gives an eligible process of least vruntime, or NULL exactly when none on the
      list is eligible. */
  lemma PopIsLeast(procs: Procs, list: seq<nat>, now: nat)
    requires Sorted(procs, list) && NULL !in list
    ensures Popped(procs, list, now) == NULL <==> forall q :: q in list ==> !Eligible(procs, q, now)
    ensures Popped(procs, list, now) != NULL ==>
        Popped(procs, list, now) in list && Eligible(procs, Popped(procs, list, now), now)
    ensures forall q :: q in list && Eligible(procs, q, now) ==>
        Vruntime(procs, Popped(procs, list, now)) <= Vruntime(procs, q)
  {
    var k := PopIndex(procs, list, now);
    forall q | q in list && Eligible(procs, q, now) ensures k < |list| &&
        Vruntime(procs, list[k]) <= Vruntime(procs, q) {
      var i :| 0 <= i < |list| && list[i] == q;
      assert k <= i;
    }
  }

  lemma InsertedMembers<T>(s: seq<T>, k: nat, x: T)
    requires k <= |s|
    ensures forall n :: n in s[..k] + [x] + s[k..] ==> n in s || n == x
  {
  }

  class Scheduler {
    var procs: Procs
    var current: seq<nat>
    const idle: seq<nat>
    const list: List<nat>

    ghost predicate Valid()
      reads this, list, list.spine
    {
      && list.Valid() && |current| == NUM_HARTS && |idle| == NUM_HARTS && NULL !in procs
      && (forall p :: p in list.Contents() ==> Listable(procs, p))
      && (forall h :: 0 <= h < NUM_HARTS ==> idle[h] in procs && (current[h] == NULL || current[h] in procs))
    }

    constructor (procs: Procs, idle: seq<nat>)
      requires |idle| == NUM_HARTS && NULL !in procs && forall h :: 0 <= h < NUM_HARTS ==> idle[h] in procs
      ensures Valid() && this.procs == procs && this.idle == idle && list.Contents() == [] && fresh(list)
      ensures forall h :: 0 <= h < NUM_HARTS ==> current[h] == NULL
    {
      this.procs, this.idle := procs, idle;
      current := [NULL, NULL, NULL, NULL, NULL, NULL, NULL, NULL];
      list := new List();
    }

    method Add(p: nat)
      requires Valid() && (p == NULL || p in procs)
      modifies list, list.spine
      ensures Valid() && list.Contents() == Added(procs, old(list.Contents()), p)
      ensures forall n :: n in list.spine ==> n in old(list.spine) || fresh(n)
    {
      if p == NULL || procs[p].pid <= NUM_HARTS {
        return;
      }
      if list.head == null || Vruntime(procs, list.head.data) >= procs[p].vruntime {
        AddFirst(p);
      } else {
        AddLater(p);
      }
    }

    /** The process goes before all others. */
    method AddFirst(p: nat)
      requires Valid() && Listable(procs, p)
      requires list.head != null ==> Vruntime(procs, list.head.data) >= procs[p].vruntime
      modifies list, list.spine
      ensures Valid() && list.Contents() == Added(procs, old(list.Contents()), p)
      ensures forall n :: n in list.spine ==> n in old(list.spine) || fresh(n)
    {
      ghost var was := list.Contents();
      assert list.head != null ==> was[0] == list.head.data;
      var _ := list.Insert(p);
      InsertIndexIs(procs, was, procs[p].vruntime, 0);
      AddedAt(procs, was, p, 0);
    }

    /** It goes after the head. */
    method AddLater(p: nat)
      requires Valid() && Listable(procs, p) && list.head != null
      requires Vruntime(procs, list.head.data) < procs[p].vruntime
      modifies list, list.spine
      ensures Valid() && list.Contents() == Added(procs, old(list.Contents()), p)
      ensures forall n :: n in list.spine ==> n in old(list.spine) || fresh(n)
    {
      ghost var was := list.Contents();
      var it, k := LastSmaller(procs[p].vruntime);
      ghost var nodes := list.spine;
      var added := list.InsertAfter(it, p, k);
      AddedAt(procs, was, p, k + 1);
      InsertedMembers(nodes, k + 1, added);
    }

    /** The node to insert after: the last before the first process whose vruntime is not below v. */
    method LastSmaller(v: nat) returns (it: ListNode<nat>, ghost k: nat)
      requires Valid() && list.head != null && Vruntime(procs, list.head.data) < v
      ensures k < |list.spine| && list.spine[k] == it && k + 1 == InsertIndex(procs, list.Contents(), v)
    {
      ghost var was := list.Contents();
      it := list.head;
      k := 0;
      assert was[0] == it.data;
      while true
        invariant 0 <= k < |was| && it == list.spine[k]
        invariant forall i :: 0 <= i <= k ==> Vruntime(procs, was[i]) < v
        decreases |was| - k
      {
        assert list.LinkedAt(k);
        var nit := it.next;
        if nit == null {
          break;
        }
        assert was[k + 1] == nit.data;
        if Vruntime(procs, nit.data) >= v {
          break;
        }
        it := nit;
        k := k + 1;
      }
      InsertIndexIs(procs, was, v, k + 1);
    }

    method Remove(p: nat) returns (rv: bool)
      requires Valid() && (p == NULL || p in procs)
      modifies list, list.spine
      ensures Valid() && list.Contents() == Dropped(procs, old(list.Contents()), p)
      ensures rv == (Listable(procs, p) && p in old(list.Contents()))
      ensures forall n :: n in list.spine ==> n in old(list.spine)
    {
      if p == NULL || procs[p].pid <= NUM_HARTS {
        return false;
      }
      RemoveFirstSubset(list.Contents(), p);
      rv := list.Remove(p);
    }

    method Pop(now: nat) returns (process: nat)
      requires Valid()
      modifies list, list.spine
      ensures Valid() && process == Popped(procs, old(list.Contents()), now)
      ensures list.Contents() == Dropped(procs, old(list.Contents()), process)
      ensures forall n :: n in list.spine ==> n in old(list.spine)
    {
      process := NULL;
      var it := list.head;
      ghost var k := 0;
      ghost var was := list.Contents();
      while it != null
        invariant 0 <= k <= |was| && it == (if k < |was| then list.spine[k] else null)
        invariant process == NULL
        invariant forall i :: 0 <= i < k ==> !Eligible(procs, was[i], now)
        decreases |was| - k
      {
        process := it.data;
        assert was[k] == process && list.LinkedAt(k) && process in was;
        var candidate := procs[process];
        if candidate.onHart == -1 &&
            (candidate.state == Running || (candidate.state == Sleeping && candidate.sleepUntil <= now)) {
          break;
        }
        process := NULL;
        it := it.next;
        k := k + 1;
      }
      PopIndexIs(procs, was, now, k);
      var _ := Remove(process);
    }

    /** Updates fields of one process, none of which decides whether it may be listed. */
    method Update(p: nat, proc: Proc)
      requires Valid() && p in procs && proc.pid == procs[p].pid
      modifies this`procs
      ensures Valid() && procs == old(procs)[p := proc]
      ensures list.Contents() == old(list.Contents()) && list.spine == old(list.spine)
    {
      procs := procs[p := proc];
    }

    method Mark(hart: nat, p: nat)
      requires Valid() && hart < NUM_HARTS && p in procs
      modifies this
      ensures Valid() && current == old(current)[hart := p] && list.Contents() == old(list.Contents())
      ensures list.spine == old(list.spine)
      ensures procs == old(procs)[p := old(procs)[p].(onHart := hart, state := Running)]
    {
      current := current[hart := p];
      Update(p, procs[p].(onHart := hart));
      Update(p, procs[p].(state := Running));
    }

    /** The bookkeeping of schedule_run, up to the call that starts the hart. */
    method Run(hart: nat, p: nat, now: nat)
      requires Valid() && hart < NUM_HARTS && p in procs
      modifies this, list, list.spine
      ensures Valid() && current == old(current)[hart := p]
      ensures procs == old(procs)[p := old(procs)[p].(onHart := hart, state := Running, starttime := now)]
      ensures list.Contents() == Added(procs, old(list.Contents()), p)
      ensures forall n :: n in list.spine ==> n in old(list.spine) || fresh(n)
    {
      Mark(hart, p);
      ghost var at := procs;
      ghost var was := list.Contents();
      Add(p);
      Update(p, procs[p].(starttime := now));
      SameOrder(at, procs, was);
    }

    /** schedule_park: the process is charged for the time since it was started, in 64-bit arithmetic, and
        put back in order. */
    method Park(hart: nat, now: nat)
      requires Valid() && hart < NUM_HARTS
      modifies this, list, list.spine
      ensures Valid() && current == old(current)[hart := NULL]
      ensures old(current)[hart] == NULL ==> procs == old(procs) && list.Contents() == old(list.Contents())
      ensures var p := old(current)[hart]; p != NULL ==>
        && p in procs && procs == old(procs)[p := procs[p]]
        && procs[p] == old(procs)[p].(vruntime := procs[p].vruntime, onHart := -1)
        && list.Contents() == Added(procs, Dropped(old(procs), old(list.Contents()), p), p)
      ensures var p := old(current)[hart]; p != NULL ==>
        var v, t := old(procs)[p].vruntime, old(procs)[p].starttime;
        && p in procs && procs[p].vruntime == (v + now - t) % WORD_LIMIT
        && (t <= now && v + (now - t) < WORD_LIMIT ==> procs[p].vruntime == v + (now - t))
    {
      var p := current[hart];
      if p == NULL {
        return;
      }
      ghost var nodes := list.spine;
      RemoveAndCharge(p, now);
      current := current[hart := NULL];
      Update(p, procs[p].(onHart := -1));
      assert forall i :: 0 <= i < |list.spine| ==> list.spine[i] in nodes;
      assert nodes == old(list.spine);
      Add(p);
      ChargeIs(old(procs)[p], now);
    }

    /** A process that is run at one time and parked at another has been charged for the time between. */
    method RunThenPark(hart: nat, p: nat, start: nat, end: nat)
      requires Valid() && hart < NUM_HARTS && p in procs && start <= end
      requires procs[p].vruntime + (end - start) < WORD_LIMIT
      modifies this, list, list.spine
      ensures Valid() && current == old(current)[hart := NULL]
      ensures procs == old(procs)[p := old(procs)[p].(vruntime := old(procs)[p].vruntime + (end - start),
          starttime := start, state := Running, onHart := -1)]
    {
      Run(hart, p, start);
      assert forall i :: 0 <= i < |list.spine| ==> list.spine[i] in old(list.spine) || fresh(list.spine[i]);
      Park(hart, end);
    }

    method RemoveAndCharge(p: nat, now: nat)
      requires Valid() && p in procs
      modifies this`procs, list, list.spine
      ensures Valid() && procs == old(procs)[p := Charged(old(procs)[p], now)]
      ensures list.Contents() == Dropped(old(procs), old(list.Contents()), p)
      ensures forall n :: n in list.spine ==> n in old(list.spine)
    {
      var _ := Remove(p);
      Update(p, Charged(procs[p], now));
    }
  }

  /** vruntime += now - starttime, in 64-bit arithmetic. */
  function Charged(p: Proc, now: nat): Proc {
    p.(vruntime := (p.vruntime + now - p.starttime) % WORD_LIMIT)
  }

  lemma ChargeIs(p: Proc, now: nat)
    ensures Charged(p, now) == p.(vruntime := (p.vruntime + now - p.starttime) % WORD_LIMIT)
    ensures p.starttime <= now && p.vruntime + (now - p.starttime) < WORD_LIMIT ==>
        Charged(p, now).vruntime == p.vruntime + (now - p.starttime)
  {
  }

  lemma {:induction false} SameOrder(a: Procs, b: Procs, list: seq<nat>)
    requires forall p :: Vruntime(a, p) == Vruntime(b, p)
    ensures forall v :: InsertIndex(a, list, v) == InsertIndex(b, list, v)
  {
    forall v ensures InsertIndex(a, list, v) == InsertIndex(b, list, v) {
      InsertIndexIs(a, list, v, InsertIndex(b, list, v));
    }
  }
}
