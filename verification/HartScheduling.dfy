/** Every interleaving of the harts' scheduling code: src/schedule.c:171-270 with its callers in
    src/syscall.c, src/ctrap.c and src/console.c. A step is one section under schedule_lock or one
    write outside it. */
module HartScheduling {
  import opened Machine
  import opened LinkedList
  import opened Schedule

  /** Where a hart is: the line it is about to carry out, of src/schedule.c for Park and Launch, of
      src/syscall.c for Leave and of src/ctrap.c for Kill. The locals are p, the process at hand, and q,
      the process to be freed once it is parked (NULL unless it is exiting). */
  datatype Pc =
    | User // in the process that is current, or, with none, in boot code or the console
    | Park(line: nat, p: nat, q: nat)
    | Leave(line: nat, p: nat)
    | Pop
    | Launch(line: nat, p: nat)
    | Kill(line: nat, p: nat)
    | SleepUntil(p: nat, ticks: nat)

  /** nursery holds the processes the console is still building. */
  datatype State = State(procs: Procs, list: seq<nat>, current: seq<nat>, pcs: seq<Pc>, idle: seq<nat>,
      nursery: set<nat>)

  datatype Trap = Timer | Exit | Sleep(ticks: nat) | Fault

  /** What the environment decides in a step: why user code traps, the clock, and whether the hart starts. */
  datatype Choice = Choice(trap: Trap, now: nat, started: bool)

  ghost predicate Shaped(s: State) {
    |s.current| == NUM_HARTS && |s.pcs| == NUM_HARTS && |s.idle| == NUM_HARTS
  }

  function Local(pc: Pc): nat {
    match pc
    case User => NULL
    case Pop => NULL
    case Park(line, p, q) => if line == 225 then q else p
    case _ => pc.p
  }

  /** p is what hart h runs or works on. */
  ghost predicate Held(s: State, h: nat, p: nat)
    requires Shaped(s)
  {
    h < NUM_HARTS && p != NULL && (s.current[h] == p || Local(s.pcs[h]) == p)
  }

  // ---------- One hart's step ----------

  function Goto(s: State, h: nat, pc: Pc): State
    requires h < |s.pcs|
  {
    s.(pcs := s.pcs[h := pc])
  }

  function Write(s: State, p: nat, proc: Proc): State {
    s.(procs := s.procs[p := proc])
  }

  function SetCurrent(s: State, h: nat, p: nat): State
    requires h < |s.current|
  {
    s.(current := s.current[h := p])
  }

  /** A trap out of user code. Only a process other than the hart's idle one makes system calls. */
  predicate CanTrap(s: State, h: nat, trap: Trap)
    requires h < |s.current| && h < |s.idle|
  {
    match trap
    case Timer => true
    case Fault => s.current[h] != NULL
    case _ => s.current[h] != NULL && s.current[h] != s.idle[h]
  }

  function TrapStep(s: State, h: nat, trap: Trap): State
    requires h < |s.current| && h < |s.pcs| && (trap != Timer ==> s.current[h] in s.procs)
  {
    var p := s.current[h];
    match trap
    case Timer => Goto(s, h, Park(225, NULL, NULL))
    case Exit => Goto(Write(s, p, s.procs[p].(state := Dead)), h, Park(225, NULL, p))
    case Sleep(ticks) => Goto(Write(s, p, s.procs[p].(state := Sleeping)), h, SleepUntil(p, ticks))
    case Fault => Goto(s, h, Kill(42, p))
  }

  /** The trap is possible, and the process hart h works on is allocated. */
  predicate CanStep(s: State, h: nat, c: Choice) {
    && h < |s.current| && h < |s.pcs| && h < |s.idle|
    && (s.pcs[h] == User ==> CanTrap(s, h, c.trap) && (c.trap != Timer ==> s.current[h] in s.procs))
    && (s.pcs[h] != User && s.pcs[h] != Pop && !(s.pcs[h].Park? && s.pcs[h].line == 225) ==> Local(s.pcs[h]) in s.procs)
  }

  /** schedule_park */
  function ParkStep(s: State, h: nat, c: Choice, line: nat, p: nat, q: nat): State
    requires h < |s.current| && h < |s.pcs| && (line != 225 ==> p in s.procs)
  {
    match line
    case 225 => Goto(s, h, if s.current[h] == NULL then Pop else Park(233, s.current[h], q))
    case 233 => Goto(s.(list := Dropped(s.procs, s.list, p)), h, Park(235, p, q))
    case 235 => Goto(Write(s, p, Charged(s.procs[p], c.now)), h, Park(236, p, q))
    case 236 => Goto(SetCurrent(s, h, NULL), h, Park(237, p, q))
    case 237 => Goto(Write(s, p, s.procs[p].(onHart := -1)), h, Park(239, p, q))
    case _ => Goto(s.(list := Added(s.procs, s.list, p)), h, if q == NULL then Pop else Leave(120, q))
  }

  /** schedule_run; if the hart does not start, the next process is popped. */
  function LaunchStep(s: State, h: nat, c: Choice, line: nat, p: nat): State
    requires h < |s.current| && h < |s.pcs| && p in s.procs
  {
    match line
    case 209 => Goto(SetCurrent(s, h, p), h, Launch(210, p))
    case 210 => Goto(Write(s, p, s.procs[p].(onHart := h)), h, Launch(211, p))
    case 211 => Goto(Write(s, p, s.procs[p].(state := Running)), h, Launch(213, p))
    case 213 => Goto(s.(list := Added(s.procs, s.list, p)), h, Launch(215, p))
    case 215 => Goto(Write(s, p, s.procs[p].(starttime := c.now)), h, Launch(218, p))
    case _ => Goto(s, h, if c.started then User else Pop)
  }

  /** The step hart h takes next. */
  function HartStep(s: State, h: nat, c: Choice): State
    requires CanStep(s, h, c)
  {
    match s.pcs[h]
    case User => TrapStep(s, h, c.trap)
    case Park(line, p, q) => ParkStep(s, h, c, line, p, q)
    case Leave(line, q) =>
      if line == 120 then Goto(s.(list := Dropped(s.procs, s.list, q)), h, Leave(122, q))
      else Goto(s.(procs := s.procs - {q}), h, Park(225, NULL, NULL))
    case Pop =>
      var p := Popped(s.procs, s.list, c.now);
      if p == NULL then Goto(s, h, Launch(209, s.idle[h]))
          else Goto(s.(list := Dropped(s.procs, s.list, p)), h, Launch(209, p))
    case Launch(line, p) => LaunchStep(s, h, c, line, p)
    case Kill(line, p) =>
      if line == 42 then Goto(s.(list := Dropped(s.procs, s.list, p)), h, Kill(43, p))
      else if line == 43 then Goto(Write(s, p, s.procs[p].(state := Dead)), h, Kill(44, p))
      else Goto(s.(list := Added(s.procs, s.list, p)), h, Park(225, NULL, NULL))
    case SleepUntil(p, ticks) => Goto(Write(s, p, s.procs[p].(sleepUntil := (c.now + ticks) % WORD_LIMIT)), h,
        Park(225, NULL, NULL))
  }

  // ---------- The invariant ----------

  ghost predicate ListOk(s: State) {
    && Sorted(s.procs, s.list) && Distinct(s.list)
    && forall p :: p in s.list ==> Listable(s.procs, p)
  }

  /** p is on hart h, and on the list unless it is an idle process. */
  ghost predicate OnHart(s: State, h: nat, p: nat) {
    p in s.procs && s.procs[p].onHart == h && (Listable(s.procs, p) ==> p in s.list)
  }

  /** p is off the list. */
  ghost predicate Off(s: State, p: nat) {
    p in s.procs && p !in s.list
  }

  ghost predicate Exiting(s: State, q: nat) {
    Listable(s.procs, q) && s.procs[q].state == Dead
  }

  /** What holds at each point of hart h's code. */
  ghost predicate HartOk(s: State, h: nat)
    requires Shaped(s) && h < NUM_HARTS
  {
    var c := s.current[h];
    match s.pcs[h]
    case User => c != NULL ==> OnHart(s, h, c) && s.procs[c].state == Running
    case Park(line, p, q) => (q != NULL ==> q == (if line == 225 then c else p) && Exiting(s, q)) &&
        ParkOk(s, h, line, p)
    case Leave(line, q) => c == NULL && Exiting(s, q) && (line == 120 || (line == 122 && Off(s, q)))
    case Pop => c != NULL ==> OnHart(s, h, c)
    case Launch(line, p) => LaunchOk(s, h, line, p)
    case Kill(line, p) =>
      && p == c
      && if line == 42 then OnHart(s, h, p)
         else Off(s, p) && s.procs[p].onHart == h && (line == 43 || (line == 44 && s.procs[p].state == Dead))
    case SleepUntil(p, _) => p == c && OnHart(s, h, p)
  }

  ghost predicate ParkOk(s: State, h: nat, line: nat, p: nat)
    requires Shaped(s) && h < NUM_HARTS
  {
    var c := s.current[h];
    match line
    case 225 => c != NULL ==> OnHart(s, h, c)
    case 233 => p == c && OnHart(s, h, p)
    case 235 => p == c && Off(s, p) && s.procs[p].onHart == h
    case 236 => p == c && Off(s, p) && s.procs[p].onHart == h
    case 237 => c == NULL && Off(s, p) && s.procs[p].onHart == h
    case 239 => c == NULL && Off(s, p) && s.procs[p].onHart == -1
    case _ => false
  }

  ghost predicate LaunchOk(s: State, h: nat, line: nat, p: nat)
    requires Shaped(s) && h < NUM_HARTS
  {
    var c := s.current[h];
    match line
    case 209 => Off(s, p) && (c != NULL ==> c == p || OnHart(s, h, c))
    case 210 => p == c && Off(s, p)
    case 211 => p == c && Off(s, p) && s.procs[p].onHart == h
    case 213 => p == c && Off(s, p) && s.procs[p].onHart == h && s.procs[p].state == Running
    case 215 => p == c && OnHart(s, h, p) && s.procs[p].state == Running
    case 218 => p == c && OnHart(s, h, p) && s.procs[p].state == Running
    case _ => false
  }

  /** Whatever a hart holds is allocated, held by no other hart and not under construction; idle
      processes are held by their own hart only. */
  ghost predicate HeldOk(s: State, h: nat, p: nat)
    requires Shaped(s)
  {
    Held(s, h, p) ==>
      && p in s.procs && p !in s.nursery && (p == s.idle[h] || Listable(s.procs, p))
      && forall k :: 0 <= k < NUM_HARTS && k != h ==> !Held(s, k, p)
  }

  ghost predicate IdleOk(s: State)
    requires Shaped(s)
  {
    && NULL !in s.procs
    && (forall h :: 0 <= h < NUM_HARTS ==>
        s.idle[h] in s.procs && s.procs[s.idle[h]].pid <= NUM_HARTS && s.idle[h] !in s.nursery)
    && Distinct(s.idle)
  }

  ghost predicate NurseryOk(s: State) {
    forall p :: p in s.nursery ==> p in s.procs && p !in s.list && s.procs[p].onHart == -1
  }

  ghost predicate HeldBySome(s: State, p: nat)
    requires Shaped(s)
  {
    exists h: nat :: Held(s, h, p)
  }

  /** A process that may be listed is listed, held by a hart, or still being built. */
  ghost predicate Kept(s: State, p: nat)
    requires Shaped(s)
  {
    Listable(s.procs, p) ==> p in s.list || p in s.nursery || HeldBySome(s, p)
  }

  ghost predicate InvNow(s: State) {
    && Shaped(s) && ListOk(s) && IdleOk(s) && NurseryOk(s)
    && (forall h: nat :: h < NUM_HARTS ==> HartOk(s, h))
    && (forall h: nat, p: nat :: HeldOk(s, h, p))
    && forall p: nat :: Kept(s, p)
  }

  ghost predicate Unfold(s: State) { true }

  /** The invariant, which the prover looks into only for states it finds in Unfold. */
  ghost predicate Inv(s: State) {
    Shaped(s) && forall t: State {:trigger Unfold(t)} :: Unfold(t) && t == s ==> InvNow(t)
  }

  // ---------- Every step keeps the invariant ----------

  /** A step of hart h that touches, besides the hart's own place, one process p: its fields other
      than the pid, and whether it is listed. */
  ghost predicate Touches(s: State, s': State, h: nat, p: nat) {
    && Shaped(s) && Shaped(s') && h < NUM_HARTS && p in s.procs
    && s'.idle == s.idle && s'.nursery == s.nursery
    && p in s'.procs && s'.procs == s.procs[p := s'.procs[p]] && s'.procs[p].pid == s.procs[p].pid
    && s'.current == s.current[h := s'.current[h]] && s'.pcs == s.pcs[h := s'.pcs[h]]
    && forall q :: q != p ==> (q in s'.list <==> q in s.list)
  }

  /** p is no one's but hart h's. */
  ghost predicate Own(s: State, h: nat, p: nat)
    requires Shaped(s)
  {
    && p != NULL && p in s.procs && p !in s.nursery &&
        (p == s.idle[if h < NUM_HARTS then h else 0] || Listable(s.procs, p))
    && forall k: nat :: k != h ==> !Held(s, k, p)
  }

  lemma OthersStay(s: State, s': State, h: nat, p: nat, k: nat)
    requires Touches(s, s', h, p) && Own(s, h, p) && k < NUM_HARTS && k != h && HartOk(s, k)
    ensures HartOk(s', k) && forall q :: Held(s', k, q) <==> Held(s, k, q)
  {
    assert s'.current[k] == s.current[k] && s'.pcs[k] == s.pcs[k];
    assert !Held(s, k, p);
    var c, l := s.current[k], Local(s.pcs[k]);
    assert c != p && l != p;
    assert c in s.list <==> c in s'.list;
    assert l in s.list <==> l in s'.list;
  }

  /** Hart h holds only what it held and p; what it lets go of is listed. */
  ghost predicate HoldsOn(s: State, s': State, h: nat, p: nat)
    requires Shaped(s) && Shaped(s')
  {
    && (forall q :: Held(s', h, q) ==> Held(s, h, q) || q == p)
    && (forall q :: Held(s, h, q) && !Held(s', h, q) && Listable(s'.procs, q) ==> q in s'.list)
    && (!Held(s, h, p) && Listable(s'.procs, p) ==> p in s'.list || Held(s', h, p))
  }

  lemma HeldStays(s: State, s': State, h: nat, p: nat, k: nat, q: nat)
    requires Touches(s, s', h, p) && Own(s, h, p) && HoldsOn(s, s', h, p) && Inv(s)
    ensures HeldOk(s', k, q)
  {
    assert Unfold(s);
    if Held(s', k, q) {
      forall j: nat | j < NUM_HARTS && j != h ensures Held(s', j, q) <==> Held(s, j, q) {
        OthersStay(s, s', h, p, j);
      }
      assert HeldOk(s, k, q) && HeldOk(s, h, q);
      if k == h && !Held(s, h, q) { assert q == p; }
    }
  }

  lemma KeptStays(s: State, s': State, h: nat, p: nat, q: nat)
    requires Touches(s, s', h, p) && Own(s, h, p) && HoldsOn(s, s', h, p) && Inv(s)
    ensures Kept(s', q)
  {
    assert Unfold(s);
    assert Kept(s, q);
    if Listable(s'.procs, q) && q !in s'.list && q !in s'.nursery {
      if HeldBySome(s, q) {
        var k: nat :| Held(s, k, q);
        if k != h { OthersStay(s, s', h, p, k); }
        assert Held(s', k, q);
      } else {
        assert q == p && !Held(s, h, p);
        assert Held(s', h, p);
      }
    }
  }

  lemma TouchKeepsInv(s: State, s': State, h: nat, p: nat)
    requires Touches(s, s', h, p) && Own(s, h, p) && HoldsOn(s, s', h, p) && Inv(s)
    requires ListOk(s') && HartOk(s', h)
    ensures Inv(s')
  {
    assert Unfold(s);
    forall k: nat | k < NUM_HARTS ensures HartOk(s', k) {
      if k != h { OthersStay(s, s', h, p, k); }
    }
    forall k: nat, q: nat ensures HeldOk(s', k, q) { HeldStays(s, s', h, p, k, q); }
    forall q: nat ensures Kept(s', q) { KeptStays(s, s', h, p, q); }
    assert InvNow(s');
  }

  lemma HeldIsOwn(s: State, h: nat, p: nat)
    requires Inv(s) && h < NUM_HARTS && Held(s, h, p)
    ensures Own(s, h, p)
  {
    assert Unfold(s);
    assert HeldOk(s, h, p);
  }

  /** An invariant state lets a hart take its step: no freed process is ever dereferenced. */
  lemma InvCanStep(s: State, h: nat, c: Choice)
    requires Inv(s) && h < NUM_HARTS && (s.pcs[h] == User ==> CanTrap(s, h, c.trap))
    ensures CanStep(s, h, c)
  {
    assert Unfold(s);
    assert HartOk(s, h);
  }

  /** The steps that write a field of the process at hand. */
  lemma WriteStep(s: State, h: nat, p: nat, proc: Proc, pc: Pc)
    requires Inv(s) && h < NUM_HARTS && Held(s, h, p) && p in s.procs && proc.pid == s.procs[p].pid
    requires p !in s.list || proc.vruntime == s.procs[p].vruntime
    requires s.current[h] in {p, NULL} && Local(s.pcs[h]) in {p, NULL} && Local(pc) in {p, NULL}
    requires p in {s.current[h], Local(pc)}
    requires HartOk(Goto(Write(s, p, proc), h, pc), h)
    ensures Inv(Goto(Write(s, p, proc), h, pc))
  {
    assert Unfold(s);
    var s' := Goto(Write(s, p, proc), h, pc);
    HeldIsOwn(s, h, p);
    forall q ensures q in s.list ==> Vruntime(s'.procs, q) == Vruntime(s.procs, q) {}
    assert ListOk(s');
    TouchKeepsInv(s, s', h, p);
  }

  lemma AddStep(s: State, h: nat, p: nat, pc: Pc)
    requires Inv(s) && h < NUM_HARTS && Held(s, h, p) && Off(s, p)
    requires s.current[h] in {p, NULL} && Local(s.pcs[h]) in {p, NULL} && Local(pc) in {p, NULL}
    requires HartOk(Goto(s.(list := Added(s.procs, s.list, p)), h, pc), h)
    ensures Inv(Goto(s.(list := Added(s.procs, s.list, p)), h, pc))
  {
    assert Unfold(s);
    var s' := Goto(s.(list := Added(s.procs, s.list, p)), h, pc);
    HeldIsOwn(s, h, p);
    AddKeepsOrder(s.procs, s.list, p);
    TouchKeepsInv(s, s', h, p);
  }

  lemma DroppedMembers(s: State, p: nat)
    requires ListOk(s)
    ensures ListOk(s.(list := Dropped(s.procs, s.list, p)))
    ensures forall q :: q in Dropped(s.procs, s.list, p) <==> q in s.list && q != p
  {
    RemoveKeepsOrder(s.procs, s.list, p);
    RemoveFirstMembers(s.list, p);
  }

  lemma DropStep(s: State, h: nat, p: nat, pc: Pc)
    requires Inv(s) && h < NUM_HARTS && Own(s, h, p) && (s.current[h] != p ==> Local(pc) == p)
    requires Local(s.pcs[h]) in {p, NULL} && Local(pc) in {p, NULL}
    requires HartOk(Goto(s.(list := Dropped(s.procs, s.list, p)), h, pc), h)
    ensures Inv(Goto(s.(list := Dropped(s.procs, s.list, p)), h, pc))
  {
    assert Unfold(s);
    var s' := Goto(s.(list := Dropped(s.procs, s.list, p)), h, pc);
    DroppedMembers(s, p);
    TouchKeepsInv(s, s', h, p);
  }

  /** What schedule_pop takes is held by no hart. */
  lemma PoppedIsFree(s: State, h: nat, now: nat)
    requires Inv(s) && h < NUM_HARTS && Popped(s.procs, s.list, now) != NULL
    ensures var p := Popped(s.procs, s.list, now); p in s.list && s.procs[p].onHart == -1 && forall k: nat ::
        !Held(s, k, p)
    ensures Own(s, h, Popped(s.procs, s.list, now))
  {
    assert Unfold(s);
    var p := Popped(s.procs, s.list, now);
    PopIsLeast(s.procs, s.list, now);
    forall k: nat | k < NUM_HARTS ensures !Held(s, k, p) {
      assert HartOk(s, k);
    }
  }

  lemma PopStep(s: State, h: nat, now: nat)
    requires Inv(s) && h < NUM_HARTS && s.pcs[h] == Pop
    ensures CanStep(s, h, Choice(Timer, now, true)) && Inv(HartStep(s, h, Choice(Timer, now, true)))
  {
    assert Unfold(s);
    assert HartOk(s, h);
    var p := Popped(s.procs, s.list, now);
    if p == NULL {
      IdleStep(s, h, Launch(209, s.idle[h]));
    } else {
      PoppedIsFree(s, h, now);
      DroppedMembers(s, p);
      DropStep(s, h, p, Launch(209, p));
    }
  }

  /** The steps that only move on. */
  lemma IdleStep(s: State, h: nat, pc: Pc)
    requires Inv(s) && h < NUM_HARTS && Local(s.pcs[h]) in {NULL, s.current[h]}
    requires Local(pc) in {NULL, s.idle[h], s.current[h]}
    requires HartOk(Goto(s, h, pc), h)
    ensures Inv(Goto(s, h, pc))
  {
    assert Unfold(s);
    var i := s.idle[h];
    forall k: nat | k != h ensures !Held(s, k, i) {
      assert HeldOk(s, k, i);
    }
    TouchKeepsInv(s, Goto(s, h, pc), h, i);
  }

  lemma ClearStep(s: State, h: nat, p: nat, q: nat)
    requires Inv(s) && h < NUM_HARTS && s.pcs[h] == Park(236, p, q)
    ensures Inv(Goto(SetCurrent(s, h, NULL), h, Park(237, p, q)))
  {
    assert Unfold(s);
    assert HartOk(s, h);
    assert Held(s, h, p);
    HeldIsOwn(s, h, p);
    TouchKeepsInv(s, Goto(SetCurrent(s, h, NULL), h, Park(237, p, q)), h, p);
  }

  lemma CurrentStep(s: State, h: nat, p: nat)
    requires Inv(s) && h < NUM_HARTS && s.pcs[h] == Launch(209, p)
    ensures Inv(Goto(SetCurrent(s, h, p), h, Launch(210, p)))
  {
    assert Unfold(s);
    assert HartOk(s, h);
    assert Held(s, h, p);
    HeldIsOwn(s, h, p);
    TouchKeepsInv(s, Goto(SetCurrent(s, h, p), h, Launch(210, p)), h, p);
  }

  /** process_free takes the process away from everyone. */
  lemma FreeStep(s: State, h: nat, q: nat)
    requires Inv(s) && h < NUM_HARTS && s.pcs[h].Leave? && s.pcs[h].line != 120 && s.pcs[h].p == q
    ensures Inv(Goto(s.(procs := s.procs - {q}), h, Park(225, NULL, NULL)))
  {
    assert Unfold(s);
    var s' := Goto(s.(procs := s.procs - {q}), h, Park(225, NULL, NULL));
    assert HartOk(s, h);
    assert Held(s, h, q);
    HeldIsOwn(s, h, q);
    assert forall p :: p in s.list ==> p != q && Vruntime(s'.procs, p) == Vruntime(s.procs, p);
    forall k: nat ensures !Held(s', k, q) {
      if k != h { assert !Held(s, k, q); }
    }
    ForgetKeepsInv(s, s', h, q);
  }

  /** s' is s with the allocation of q changed, and hart h no longer at work on it. */
  ghost predicate Reallocates(s: State, s': State, h: nat, q: nat) {
    && Shaped(s) && Shaped(s') && q != NULL && q !in s.list
    && s'.list == s.list && s'.idle == s.idle && s'.nursery - {q} == s.nursery - {q}
    && s'.procs - {q} == s.procs - {q}
    && s'.current == s.current
    && (forall k: nat :: k != h ==> !Held(s, k, q) && (k < NUM_HARTS ==> s'.pcs[k] == s.pcs[k]))
    && (forall k: nat :: !Held(s', k, q))
    && (h < NUM_HARTS ==> HartOk(s', h) && forall p :: Held(s', h, p) <==> Held(s, h, p) && p != q)
  }

  lemma ForgetKeepsInv(s: State, s': State, h: nat, q: nat)
    requires Inv(s) && Reallocates(s, s', h, q) && q !in s.idle && NurseryOk(s') && ListOk(s')
    requires q in s'.procs ==> q in s'.nursery
    ensures Inv(s')
  {
    assert Unfold(s);
    forall p: nat | p != q
      ensures (p in s'.procs <==> p in s.procs) && (p in s.procs ==> s'.procs[p] == s.procs[p])
      ensures (p in s'.nursery <==> p in s.nursery)
    {
      SameElsewhere(s, s', q, p);
    }
    assert IdleOk(s') by {
      forall k | 0 <= k < NUM_HARTS ensures s.idle[k] != q { assert s.idle[k] in s.idle; }
    }
    forall k: nat | k < NUM_HARTS ensures HartOk(s', k) {
      if k != h { OtherHartStays(s, s', h, q, k); }
    }
    forall k: nat, p: nat ensures Held(s', k, p) <==> Held(s, k, p) && p != q {
      if k < NUM_HARTS && k != h { OtherHartStays(s, s', h, q, k); }
    }
    forall k: nat, p: nat ensures HeldOk(s', k, p) {
      assert HeldOk(s, k, p);
    }
    forall p: nat ensures Kept(s', p) {
      assert Kept(s, p);
      if p != q && HeldBySome(s, p) {
        var k: nat :| Held(s, k, p);
        assert Held(s', k, p);
      }
    }
  }

  lemma OtherHartStays(s: State, s': State, h: nat, q: nat, k: nat)
    requires Reallocates(s, s', h, q) && k < NUM_HARTS && k != h && HartOk(s, k)
    requires forall p: nat :: p != q ==>
        (p in s'.procs <==> p in s.procs) && (p in s.procs ==> s'.procs[p] == s.procs[p])
    ensures HartOk(s', k) && forall p :: Held(s', k, p) <==> Held(s, k, p) && p != q
  {
    assert !Held(s, k, q);
    assert s'.pcs[k] == s.pcs[k];
    assert s.current[k] != q && Local(s.pcs[k]) != q;
  }

  lemma SameElsewhere(s: State, s': State, q: nat, p: nat)
    requires s'.nursery - {q} == s.nursery - {q} && s'.procs - {q} == s.procs - {q} && p != q
    ensures p in s'.procs <==> p in s.procs
    ensures p in s.procs ==> s'.procs[p] == s.procs[p]
    ensures p in s'.nursery <==> p in s.nursery
  {
    assert p in s'.procs - {q} <==> p in s.procs - {q};
    assert p in s.procs ==> (s'.procs - {q})[p] == (s.procs - {q})[p];
    assert p in s'.nursery - {q} <==> p in s.nursery - {q};
  }

  // ---------- The console's steps ----------

  /** process_new hands out an address not in use, which may be that of a process freed before. */
  ghost predicate SpawnNew(s: State, s': State, p: nat, pid: nat) {
    && p != NULL && p !in s.procs
    && s' == s.(procs := s.procs[p := Proc(pid, Dead, 0, 0, 0, -1)], nursery := s.nursery + {p})
  }

  /** exec marks the process as running. */
  ghost predicate SpawnReady(s: State, s': State, p: nat) {
    p in s.nursery && p in s.procs && s' == Write(s, p, s.procs[p].(state := Running))
  }

  /** exec gives up on a process that cannot be loaded. */
  ghost predicate SpawnFail(s: State, s': State, p: nat) {
    p in s.nursery && s' == s.(procs := s.procs - {p}, nursery := s.nursery - {p})
  }

  ghost predicate SpawnAdd(s: State, s': State, p: nat) {
    p in s.nursery && s' == s.(list := Added(s.procs, s.list, p), nursery := s.nursery - {p})
  }

  lemma NurseryUnheld(s: State, p: nat)
    requires Inv(s) && (p in s.nursery || p !in s.procs)
    ensures p !in s.list && p !in s.idle && forall k: nat :: !Held(s, k, p)
  {
    assert Unfold(s);
    forall k: nat ensures !Held(s, k, p) { assert HeldOk(s, k, p); }
  }

  lemma SpawnKeepsInv(s: State, s': State, p: nat, pid: nat)
    requires Inv(s) && (SpawnNew(s, s', p, pid) || SpawnReady(s, s', p) || SpawnFail(s, s', p))
    ensures Inv(s')
  {
    assert Unfold(s);
    NurseryUnheld(s, p);
    assert p != NULL;
    forall k: nat ensures !Held(s', k, p) { assert !Held(s, k, p); }
    assert forall q :: q in s.list ==> q != p && Vruntime(s'.procs, q) == Vruntime(s.procs, q);
    assert s'.procs - {p} == s.procs - {p} && s'.nursery - {p} == s.nursery - {p};
    ForgetKeepsInv(s, s', NUM_HARTS, p);
  }

  lemma SpawnAddKeepsInv(s: State, s': State, p: nat)
    requires Inv(s) && SpawnAdd(s, s', p)
    ensures Inv(s')
  {
    assert Unfold(s);
    NurseryUnheld(s, p);
    AddKeepsOrder(s.procs, s.list, p);
    forall k: nat | k < NUM_HARTS ensures HartOk(s', k) {
      assert HartOk(s, k);
      assert !Held(s, k, p);
      var c, l := s.current[k], Local(s.pcs[k]);
      assert (c in s.list <==> c in s'.list) || c == NULL;
      assert (l in s.list <==> l in s'.list) || l == NULL;
    }
    forall k: nat, q: nat ensures Held(s', k, q) <==> Held(s, k, q) {}
    forall k: nat, q: nat ensures HeldOk(s', k, q) { assert HeldOk(s, k, q); }
    forall q: nat ensures Kept(s', q) {
      assert Kept(s, q);
      if HeldBySome(s, q) {
        var k: nat :| Held(s, k, q);
        assert Held(s', k, q);
      }
    }
  }

  // ---------- Whole runs ----------

  lemma TrapKeepsInv(s: State, h: nat, trap: Trap)
    requires Inv(s) && h < NUM_HARTS && s.pcs[h] == User && CanTrap(s, h, trap)
    ensures CanStep(s, h, Choice(trap, 0, true)) && Inv(TrapStep(s, h, trap))
  {
    assert Unfold(s);
    assert HartOk(s, h);
    var p := s.current[h];
    assert p != NULL ==> Held(s, h, p) && HeldOk(s, h, p);
    match trap
    case Timer => IdleStep(s, h, Park(225, NULL, NULL));
    case Fault => IdleStep(s, h, Kill(42, p));
    case Exit => WriteStep(s, h, p, s.procs[p].(state := Dead), Park(225, NULL, p));
    case Sleep(ticks) => WriteStep(s, h, p, s.procs[p].(state := Sleeping), SleepUntil(p, ticks));
  }

  lemma ParkKeepsInv(s: State, h: nat, c: Choice)
    requires Inv(s) && h < NUM_HARTS && CanStep(s, h, c) && s.pcs[h].Park?
    ensures Inv(HartStep(s, h, c))
  {
    assert Unfold(s);
    assert HartOk(s, h);
    var Park(line, p, q) := s.pcs[h];
    if line == 225 {
      IdleStep(s, h, if s.current[h] == NULL then Pop else Park(233, s.current[h], q));
    } else {
      assert Held(s, h, p);
      HeldIsOwn(s, h, p);
      match line {
        case 233 =>
          DroppedMembers(s, p);
          DropStep(s, h, p, Park(235, p, q));
        case 235 => WriteStep(s, h, p, Charged(s.procs[p], c.now), Park(236, p, q));
        case 236 => ClearStep(s, h, p, q);
        case 237 => WriteStep(s, h, p, s.procs[p].(onHart := -1), Park(239, p, q));
        case _ => AddStep(s, h, p, if q == NULL then Pop else Leave(120, q));
      }
    }
  }

  lemma LaunchKeepsInv(s: State, h: nat, c: Choice)
    requires Inv(s) && h < NUM_HARTS && CanStep(s, h, c) && s.pcs[h].Launch?
    ensures Inv(HartStep(s, h, c))
  {
    assert Unfold(s);
    assert HartOk(s, h);
    var Launch(line, p) := s.pcs[h];
    assert Held(s, h, p) && HeldOk(s, h, p);
    match line {
      case 209 => CurrentStep(s, h, p);
      case 210 => WriteStep(s, h, p, s.procs[p].(onHart := h), Launch(211, p));
      case 211 => WriteStep(s, h, p, s.procs[p].(state := Running), Launch(213, p));
      case 213 =>
        AddKeepsOrder(s.procs, s.list, p);
        AddStep(s, h, p, Launch(215, p));
      case 215 => WriteStep(s, h, p, s.procs[p].(starttime := c.now), Launch(218, p));
      case _ => IdleStep(s, h, if c.started then User else Pop);
    }
  }

  lemma KillKeepsInv(s: State, h: nat, c: Choice)
    requires Inv(s) && h < NUM_HARTS && CanStep(s, h, c) && s.pcs[h].Kill?
    ensures Inv(HartStep(s, h, c))
  {
    assert Unfold(s);
    assert HartOk(s, h);
    var Kill(line, p) := s.pcs[h];
    assert Held(s, h, p);
    HeldIsOwn(s, h, p);
    if line == 42 {
      DroppedMembers(s, p);
      DropStep(s, h, p, Kill(43, p));
    } else if line == 43 {
      WriteStep(s, h, p, s.procs[p].(state := Dead), Kill(44, p));
    } else {
      AddKeepsOrder(s.procs, s.list, p);
      AddStep(s, h, p, Park(225, NULL, NULL));
    }
  }

  lemma LeaveKeepsInv(s: State, h: nat, c: Choice)
    requires Inv(s) && h < NUM_HARTS && CanStep(s, h, c) && (s.pcs[h].Leave? || s.pcs[h].SleepUntil?)
    ensures Inv(HartStep(s, h, c))
  {
    assert Unfold(s);
    assert HartOk(s, h);
    var p := s.pcs[h].p;
    assert Held(s, h, p);
    HeldIsOwn(s, h, p);
    if s.pcs[h].SleepUntil? {
      WriteStep(s, h, p, s.procs[p].(sleepUntil := (c.now + s.pcs[h].ticks) % WORD_LIMIT), Park(225, NULL, NULL));
    } else if s.pcs[h].line == 120 {
      DroppedMembers(s, p);
      DropStep(s, h, p, Leave(122, p));
    } else {
      FreeStep(s, h, p);
    }
  }

  lemma HartStepKeepsInv(s: State, h: nat, c: Choice)
    requires Inv(s) && h < NUM_HARTS && CanStep(s, h, c)
    ensures Inv(HartStep(s, h, c))
  {
    assert Unfold(s);
    match s.pcs[h] {
      case User => TrapKeepsInv(s, h, c.trap);
      case Park(_, _, _) => ParkKeepsInv(s, h, c);
      case Leave(_, _) => LeaveKeepsInv(s, h, c);
      case Pop => PopStep(s, h, c.now);
      case Launch(_, _) => LaunchKeepsInv(s, h, c);
      case Kill(_, _) => KillKeepsInv(s, h, c);
      case SleepUntil(_, _) => LeaveKeepsInv(s, h, c);
    }
  }

  ghost predicate HartSteps(s: State, s': State, h: nat, c: Choice) {
    h < NUM_HARTS && CanStep(s, h, c) && s' == HartStep(s, h, c)
  }

  ghost predicate Spawns(s: State, s': State, p: nat, pid: nat) {
    SpawnNew(s, s', p, pid) || SpawnReady(s, s', p) || SpawnFail(s, s', p) || SpawnAdd(s, s', p)
  }

  ghost predicate Next(s: State, s': State) {
    (exists h: nat, c: Choice :: HartSteps(s, s', h, c)) || (exists p: nat, pid: nat :: Spawns(s, s', p, pid))
  }

  /** schedule_init has built the idle processes and nothing runs yet. */
  ghost predicate Init(s: State) {
    && Shaped(s) && IdleOk(s) && s.list == [] && s.nursery == {}
    && (forall p :: p in s.procs ==> s.procs[p].pid <= NUM_HARTS)
    && forall h :: 0 <= h < NUM_HARTS ==> s.current[h] == NULL && s.pcs[h] == User
  }

  ghost predicate Run(run: seq<State>) {
    && |run| > 0 && Init(run[0])
    && forall i: nat {:trigger NextAt(run, i)} :: i + 1 < |run| ==> NextAt(run, i)
  }

  ghost predicate NextAt(run: seq<State>, i: nat)
    requires i + 1 < |run|
  {
    Next(run[i], run[i + 1])
  }

  lemma NextKeepsInv(s: State, s': State)
    requires Inv(s) && Next(s, s')
    ensures Inv(s')
  {
    assert Unfold(s);
    if h: nat, c: Choice :| HartSteps(s, s', h, c) {
      HartStepKeepsInv(s, h, c);
    } else {
      var p: nat, pid: nat :| Spawns(s, s', p, pid);
      if SpawnAdd(s, s', p) {
        SpawnAddKeepsInv(s, s', p);
      } else {
        SpawnKeepsInv(s, s', p, pid);
      }
    }
  }

  lemma {:induction false} InvOnRuns(run: seq<State>, i: nat)
    requires Run(run) && i < |run|
    ensures Inv(run[i])
  {
    if i > 0 {
      InvOnRuns(run, i - 1);
      assert NextAt(run, i - 1);
      NextKeepsInv(run[i - 1], run[i]);
    }
  }

  // ---------- What every run guarantees ----------

  /** No process, idle or not, is current on two harts. */
  lemma CurrentOnOneHart(run: seq<State>, i: nat, h: nat, k: nat)
    requires Run(run) && i < |run| && Shaped(run[i]) && h < NUM_HARTS && k < NUM_HARTS && run[i].current[h] != NULL
    ensures run[i].current[h] == run[i].current[k] <==> h == k
  {
    InvOnRuns(run, i);
    assert Unfold(run[i]);
    var s := run[i];
    assert HeldOk(s, h, s.current[h]);
    assert s.current[k] == s.current[h] ==> Held(s, k, s.current[h]);
  }

  /** The list is in order of vruntime, has each process at most once and no idle one, and neither
      it nor a hart refers to a process that is not allocated. A process of user code is marked as
      running on its hart. */
  lemma ListStaysSound(run: seq<State>, i: nat)
    requires Run(run) && i < |run|
    ensures Shaped(run[i]) && Sorted(run[i].procs, run[i].list) && Distinct(run[i].list)
    ensures forall p :: p !in run[i].procs ==> p !in run[i].list && forall h: nat :: !Held(run[i], h, p)
    ensures forall p :: p in run[i].list ==> p in run[i].procs && run[i].procs[p].pid > NUM_HARTS
    ensures forall h: nat :: h < NUM_HARTS && run[i].pcs[h] == User && run[i].current[h] != NULL ==>
      run[i].current[h] in run[i].procs && run[i].procs[run[i].current[h]].onHart == h &&
          run[i].procs[run[i].current[h]].state == Running
  {
    InvOnRuns(run, i);
    assert Unfold(run[i]);
    var s := run[i];
    forall p, h: nat | p !in s.procs ensures !Held(s, h, p) { assert HeldOk(s, h, p); }
    forall h: nat | h < NUM_HARTS && s.pcs[h] == User && s.current[h] != NULL
      ensures s.current[h] in s.procs && s.procs[s.current[h]].onHart == h && s.procs[s.current[h]].state == Running
    {
      assert HartOk(s, h);
    }
  }

  /** An exiting process leaves the list and every hart for good before its memory is freed. */
  lemma ExitedIsGone(run: seq<State>, i: nat, h: nat, q: nat, c: Choice, s': State)
    requires Run(run) && i < |run| && h < NUM_HARTS && Shaped(run[i]) && run[i].pcs[h] == Leave(122, q)
    requires HartSteps(run[i], s', h, c)
    ensures q in run[i].procs && run[i].procs[q].state == Dead && q !in run[i].list && Shaped(s')
    ensures q !in s'.procs && q !in s'.list && forall k: nat :: !Held(s', k, q)
  {
    InvOnRuns(run, i);
    assert Unfold(run[i]);
    HartStepKeepsInv(run[i], h, c);
    assert HartOk(run[i], h);
    assert Unfold(s');
    forall k: nat ensures !Held(s', k, q) { assert HeldOk(s', k, q); }
  }

  /** The process can be run now: it is on no hart, and running, or asleep with its time come. */
  predicate Ready(s: State, p: nat, now: nat)
    requires p in s.procs
  {
    var q := s.procs[p];
    q.onHart == -1 && q.state in {Running, Sleeping} && (q.state == Sleeping ==> q.sleepUntil <= now)
  }

  lemma ReadyIsEligible(s: State, p: nat, now: nat)
    ensures Eligible(s.procs, p, now) <==> p in s.procs && Ready(s, p, now)
  {
  }

  /** A hart looking for work takes the ready process of least vruntime, which no other hart has, and its
      own idle process exactly when no listed process is ready. */
  lemma PopTakesLeast(run: seq<State>, i: nat, h: nat, c: Choice)
    requires Run(run) && i < |run| && h < NUM_HARTS && Shaped(run[i]) && run[i].pcs[h] == Pop
    ensures var s := run[i]; CanStep(s, h, c) && HartStep(s, h, c).pcs[h].Launch?
    ensures var s := run[i]; var p := HartStep(s, h, c).pcs[h].p;
      p == s.idle[h] <==> forall q :: q in s.list ==> q in s.procs && !Ready(s, q, c.now)
    ensures var s := run[i]; var p := HartStep(s, h, c).pcs[h].p; p != s.idle[h] ==>
      && p in s.list && p !in HartStep(s, h, c).list && p in s.procs && Ready(s, p, c.now)
      && (forall k: nat :: !Held(s, k, p))
      && forall q :: q in s.list && q in s.procs && Ready(s, q, c.now) ==>
          s.procs[p].vruntime <= s.procs[q].vruntime
  {
    InvOnRuns(run, i);
    assert Unfold(run[i]);
    var s := run[i];
    var p := Popped(s.procs, s.list, c.now);
    PopIsLeast(s.procs, s.list, c.now);
    forall q | q in s.list ensures q in s.procs && (Eligible(s.procs, q, c.now) <==> Ready(s, q, c.now)) {
      ReadyIsEligible(s, q, c.now);
    }
    if p != NULL {
      PoppedIsFree(s, h, c.now);
      DroppedMembers(s, p);
      assert s.idle[h] !in s.list;
    }
  }

  /** No process but the idle ones, which have the first identifiers, gets lost: until it is freed it is
      listed, held by a hart or under construction. */
  lemma NoProcessLost(run: seq<State>, i: nat, p: nat)
    requires Run(run) && i < |run| && p in run[i].procs && run[i].procs[p].pid > NUM_HARTS
    ensures Shaped(run[i]) && (p in run[i].list || p in run[i].nursery || HeldBySome(run[i], p))
  {
    InvOnRuns(run, i);
    assert Unfold(run[i]);
    assert Kept(run[i], p);
  }

  /** The hart is about to make another process than p its current one. */
  predicate Superseding(pc: Pc, p: nat) {
    pc.Launch? && pc.line == 209 && pc.p != p
  }

  /** The hart is about to add its process to the list. */
  predicate Adds(pc: Pc) {
    || (pc.Park? && pc.line !in {225, 233, 235, 236, 237})
    || (pc.Launch? && pc.line == 213)
    || (pc.Kill? && pc.line != 42 && pc.line != 43)
  }

  /** p is listed as being on a hart whose start failed: no hart is about to park it. */
  ghost predicate Stranded(s: State, p: nat)
    requires Shaped(s)
  {
    && p in s.list && p in s.procs && s.procs[p].onHart != -1
    && forall k: nat :: Held(s, k, p) ==> s.pcs[k] == Pop || Superseding(s.pcs[k], p)
  }

  lemma StartFailureStrands(s: State, h: nat, c: Choice)
    requires Inv(s) && h < NUM_HARTS && s.pcs[h].Launch? && s.pcs[h].line == 218 && Listable(s.procs, s.pcs[h].p)
    requires !c.started && CanStep(s, h, c)
    ensures Shaped(HartStep(s, h, c)) && Stranded(HartStep(s, h, c), s.pcs[h].p)
  {
    assert Unfold(s);
    assert HartOk(s, h);
    var p := s.pcs[h].p;
    assert Held(s, h, p) && HeldOk(s, h, p);
    var s' := HartStep(s, h, c);
    forall k: nat | k != h ensures !Held(s', k, p) { assert !Held(s, k, p); }
  }

  /** A failed start loses the process: it stays stranded, so it is never popped again. */
  lemma StrandedStays(s: State, s': State, p: nat)
    requires Inv(s) && Next(s, s') && Stranded(s, p)
    ensures Shaped(s') && Stranded(s', p) && forall now :: !Eligible(s'.procs, p, now)
  {
    assert Unfold(s);
    if h: nat, c: Choice :| HartSteps(s, s', h, c) {
      StrandedOnStep(s, h, c, p);
    } else {
      var q: nat, pid: nat :| Spawns(s, s', q, pid);
      NurseryUnheld(s, q);
      assert p != q;
      if SpawnAdd(s, s', q) { AddKeepsOrder(s.procs, s.list, q); }
      forall k: nat | Held(s', k, p) ensures Held(s, k, p) && s'.pcs[k] == s.pcs[k] {}
    }
  }

  /** What adding or dropping another process means for p. */
  lemma ListLeaves(s: State, r: nat, p: nat)
    requires ListOk(s) && p in s.list && p != r
    ensures p in Dropped(s.procs, s.list, r) && (r !in s.list ==> p in Added(s.procs, s.list, r))
  {
    DroppedMembers(s, r);
    if r !in s.list { AddKeepsOrder(s.procs, s.list, r); }
  }

  lemma PopLeaves(s: State, now: nat, p: nat)
    requires ListOk(s) && NULL !in s.procs && p in s.list && p in s.procs && s.procs[p].onHart != -1
    ensures p in Dropped(s.procs, s.list, Popped(s.procs, s.list, now))
  {
    PopIsLeast(s.procs, s.list, now);
    ListLeaves(s, Popped(s.procs, s.list, now), p);
  }

  lemma ParkStepLeaves(s: State, h: nat, c: Choice, line: nat, x: nat, q: nat, p: nat)
    requires ListOk(s) && h < |s.current| && h < |s.pcs| && (line != 225 ==> x in s.procs && p != x) && p in s.list
    requires p in s.procs
    requires line !in {225, 233, 235, 236, 237} ==> x !in s.list
    ensures var s' := ParkStep(s, h, c, line, x, q); p in s'.list && p in s'.procs && s'.procs[p] == s.procs[p]
  {
    if line != 225 { ListLeaves(s, x, p); }
  }

  lemma LaunchStepLeaves(s: State, h: nat, c: Choice, line: nat, x: nat, p: nat)
    requires ListOk(s) && h < |s.current| && h < |s.pcs| && x in s.procs && p != x && p in s.list && p in s.procs
    requires line == 213 ==> x !in s.list
    ensures var s' := LaunchStep(s, h, c, line, x); p in s'.list && p in s'.procs && s'.procs[p] == s.procs[p]
  {
    if line == 213 { ListLeaves(s, x, p); }
  }

  /** A listed process that a hart does not hold, and that is marked as on a hart, is left alone. */
  lemma StepLeaves(s: State, h: nat, c: Choice, p: nat)
    requires Inv(s) && h < NUM_HARTS && CanStep(s, h, c) && p in s.list && p in s.procs && s.procs[p].onHart != -1
    requires p != Local(s.pcs[h]) && (s.pcs[h] == User ==> p != s.current[h])
    ensures var s' := HartStep(s, h, c); p in s'.list && p in s'.procs && s'.procs[p] == s.procs[p]
  {
    assert Unfold(s);
    if Adds(s.pcs[h]) { AddsOff(s, h); }
    match s.pcs[h] {
      case Park(line, x, q) => ParkStepLeaves(s, h, c, line, x, q, p);
      case Launch(line, x) => LaunchStepLeaves(s, h, c, line, x, p);
      case Pop => PopLeaves(s, c.now, p);
      case _ => ListLeaves(s, Local(s.pcs[h]), p);
    }
  }

  lemma AddsOff(s: State, h: nat)
    requires Inv(s) && h < NUM_HARTS && Adds(s.pcs[h])
    ensures s.pcs[h].p !in s.list
  {
    assert Unfold(s);
    assert HartOk(s, h);
  }

  lemma StrandedOnStep(s: State, h: nat, c: Choice, p: nat)
    requires Inv(s) && h < NUM_HARTS && CanStep(s, h, c) && Stranded(s, p)
    ensures Shaped(HartStep(s, h, c)) && Stranded(HartStep(s, h, c), p)
  {
    assert Unfold(s);
    var s' := HartStep(s, h, c);
    assert HartOk(s, h);
    assert Held(s, h, p) ==> s.pcs[h] == Pop || Superseding(s.pcs[h], p);
    StepLeaves(s, h, c, p);
    forall k: nat | Held(s', k, p) ensures s'.pcs[k] == Pop || Superseding(s'.pcs[k], p) {
      if k != h { assert Held(s, k, p); } else { StepTakesUp(s, h, c, p); }
    }
  }

  /** A hart comes to hold no listed process it did not hold, but by popping. */
  lemma StepTakesUp(s: State, h: nat, c: Choice, p: nat)
    requires Inv(s) && h < NUM_HARTS && CanStep(s, h, c) && p in s.list && p in s.procs && s.procs[p].onHart != -1
    requires Held(s, h, p) ==> s.pcs[h] == Pop || Superseding(s.pcs[h], p)
    requires Held(HartStep(s, h, c), h, p)
    ensures s.pcs[h] == Pop && HartStep(s, h, c).pcs[h].Launch? && HartStep(s, h, c).pcs[h].p != p
  {
    assert Unfold(s);
    PopIsLeast(s.procs, s.list, c.now);
    assert HartOk(s, h);
    assert s.pcs[h] == Pop ==> p != s.idle[h];
  }

  /** Hart h's launch of the listable process p fails in the step from s to s'. */
  ghost predicate FailsIn(s: State, s': State, h: nat, p: nat) {
    && Shaped(s) && Shaped(s') && h < NUM_HARTS
    && s.pcs[h] == Launch(218, p) && s'.pcs[h] == Pop && Listable(s.procs, p)
  }

  lemma OtherHartsWait(s: State, k: nat, c: Choice, h: nat)
    requires Shaped(s) && CanStep(s, k, c) && h < NUM_HARTS && h != k
    ensures Shaped(HartStep(s, k, c)) && HartStep(s, k, c).pcs[h] == s.pcs[h]
    ensures HartStep(s, k, c).current[h] == s.current[h]
  {
  }

  lemma FailureStrands(s: State, s': State, h: nat, p: nat)
    requires Inv(s) && Next(s, s') && FailsIn(s, s', h, p)
    ensures Stranded(s', p)
  {
    if k: nat, c: Choice :| HartSteps(s, s', k, c) {
      if k != h {
        OtherHartsWait(s, k, c, h);
      } else {
        StartFailureStrands(s, h, c);
      }
    }
  }

  /** A hart that holds the listed process p, and not only to let it go for another, holds it like
      that after its next step, unless it takes it off the list or fails to start. */
  lemma HolderStays(s: State, h: nat, c: Choice, p: nat)
    requires Inv(s) && h < NUM_HARTS && CanStep(s, h, c) && Held(s, h, p) && p in s.list
    requires s.pcs[h] != Pop && !Superseding(s.pcs[h], p)
    ensures Shaped(HartStep(s, h, c))
    ensures p in HartStep(s, h, c).list ==> HoldsFirmly(HartStep(s, h, c), h, p) || FailsIn(s, HartStep(s, h, c), h, p)
  {
    assert Unfold(s);
    assert HartOk(s, h);
    DroppedMembers(s, p);
  }

  ghost predicate HoldsFirmly(s: State, h: nat, p: nat)
    requires Shaped(s)
  {
    Held(s, h, p) && s.pcs[h] != Pop && !Superseding(s.pcs[h], p)
  }

  /** p is listed and marked as on a hart. */
  ghost predicate Marked(s: State, p: nat) {
    p in s.list && p in s.procs && s.procs[p].onHart != -1
  }

  lemma ParkMarksNone(s: State, h: nat, c: Choice, p: nat)
    requires Inv(s) && h < NUM_HARTS && CanStep(s, h, c) && s.pcs[h].Park? && !Marked(s, p)
    ensures !Marked(HartStep(s, h, c), p)
  {
    assert Unfold(s);
    assert HartOk(s, h);
    var Park(line, x, q) := s.pcs[h];
    if line == 233 {
      DroppedMembers(s, x);
    } else if line == 239 {
      AddKeepsOrder(s.procs, s.list, x);
    }
  }

  lemma LaunchMarks(s: State, h: nat, c: Choice, p: nat)
    requires Inv(s) && h < NUM_HARTS && CanStep(s, h, c) && s.pcs[h].Launch? && !Marked(s, p)
    ensures Shaped(HartStep(s, h, c)) && (Marked(HartStep(s, h, c), p) ==> HoldsFirmly(HartStep(s, h, c), h, p))
  {
    assert Unfold(s);
    assert HartOk(s, h);
    var Launch(line, x) := s.pcs[h];
    if line == 213 {
      assert Held(s, h, x) && HeldOk(s, h, x);
      AddKeepsOrder(s.procs, s.list, x);
    }
  }

  lemma RestMarks(s: State, h: nat, c: Choice, p: nat)
    requires Inv(s) && h < NUM_HARTS && CanStep(s, h, c) && !s.pcs[h].Park? && !s.pcs[h].Launch? && !Marked(s, p)
    ensures Shaped(HartStep(s, h, c)) && (Marked(HartStep(s, h, c), p) ==> HoldsFirmly(HartStep(s, h, c), h, p))
  {
    assert Unfold(s);
    assert HartOk(s, h);
    var x := if s.pcs[h] == Pop then Popped(s.procs, s.list, c.now) else Local(s.pcs[h]);
    DroppedMembers(s, x);
    if s.pcs[h].Kill? && s.pcs[h].line == 44 {
      assert Held(s, h, x) && HeldOk(s, h, x);
      AddKeepsOrder(s.procs, s.list, x);
    }
  }

  /** Only its own hart marks a listed process, or lists a marked one; it then holds it. */
  lemma MarkedIsHeld(s: State, h: nat, c: Choice, p: nat)
    requires Inv(s) && h < NUM_HARTS && CanStep(s, h, c) && !Marked(s, p)
    ensures Shaped(HartStep(s, h, c)) && (Marked(HartStep(s, h, c), p) ==> HoldsFirmly(HartStep(s, h, c), h, p))
  {
    assert Unfold(s);
    if s.pcs[h].Park? {
      ParkMarksNone(s, h, c, p);
    } else if s.pcs[h].Launch? {
      LaunchMarks(s, h, c, p);
    } else {
      RestMarks(s, h, c, p);
    }
  }

  lemma StrandingStep(s: State, h: nat, c: Choice, p: nat)
    requires Inv(s) && h < NUM_HARTS && CanStep(s, h, c) && Shaped(s) && !Stranded(s, p)
    requires Shaped(HartStep(s, h, c)) && Stranded(HartStep(s, h, c), p)
    ensures FailsIn(s, HartStep(s, h, c), h, p)
  {
    var s' := HartStep(s, h, c);
    if Marked(s, p) {
      var k: nat :| Held(s, k, p) && s.pcs[k] != Pop && !Superseding(s.pcs[k], p);
      if k != h {
        OtherHartsWait(s, h, c, k);
        assert Held(s', k, p);
      } else {
        HolderStays(s, h, c, p);
      }
    } else {
      MarkedIsHeld(s, h, c, p);
    }
  }

  /** The console strands nobody. */
  lemma SpawnStrandsNone(s: State, s': State, q: nat, pid: nat, p: nat)
    requires Inv(s) && Spawns(s, s', q, pid) && Shaped(s') && Stranded(s', p)
    ensures Shaped(s) && Stranded(s, p)
  {
    assert Unfold(s);
    NurseryUnheld(s, q);
    if SpawnAdd(s, s', q) { AddKeepsOrder(s.procs, s.list, q); }
    forall k: nat | Held(s, k, p) ensures s.pcs[k] == Pop || Superseding(s.pcs[k], p) {
      assert Held(s', k, p);
    }
  }

  lemma StrandingIsFailure(s: State, s': State, p: nat)
    requires Inv(s) && Next(s, s') && Shaped(s) && !Stranded(s, p) && Shaped(s') && Stranded(s', p)
    ensures exists h: nat :: FailsIn(s, s', h, p)
  {
    if h: nat, c: Choice :| HartSteps(s, s', h, c) {
      StrandingStep(s, h, c, p);
    } else {
      var q: nat, pid: nat :| Spawns(s, s', q, pid);
      SpawnStrandsNone(s, s', q, pid, p);
    }
  }

  ghost predicate FailedAt(run: seq<State>, j: nat, h: nat, p: nat) {
    j + 1 < |run| && FailsIn(run[j], run[j + 1], h, p)
  }

  /** In every run, exactly the processes that some hart failed to start are stranded, from that step
      on; no such process is ever eligible again. So where every start of a process succeeds, none
      is. */
  lemma {:induction false} StrandedIffFailed(run: seq<State>, i: nat, p: nat)
    requires Run(run) && i < |run|
    ensures Shaped(run[i]) && (Stranded(run[i], p) <==> exists j: nat, h: nat :: j < i && FailedAt(run, j, h, p))
    ensures Stranded(run[i], p) ==> forall now :: !Eligible(run[i].procs, p, now)
  {
    if i > 0 {
      StrandedIffFailed(run, i - 1, p);
      StrandedStep(run, i - 1, p);
      NeverEligible(run, i, p);
    } else {
      InvOnRuns(run, i);
      assert Unfold(run[i]);
    }
  }

  /** In one step of a run, a process stays stranded, or is stranded by a failing launch. */
  lemma StrandedStep(run: seq<State>, i: nat, p: nat)
    requires Run(run) && i + 1 < |run|
    ensures Shaped(run[i]) && Shaped(run[i + 1])
    ensures Stranded(run[i + 1], p) <==> Stranded(run[i], p) || exists h: nat :: FailedAt(run, i, h, p)
  {
    InvOnRuns(run, i);
    InvOnRuns(run, i + 1);
    assert Unfold(run[i]) && Unfold(run[i + 1]);
    assert NextAt(run, i);
    var s, s' := run[i], run[i + 1];
    if Stranded(s, p) {
      StrandedStays(s, s', p);
    } else if Stranded(s', p) {
      StrandingIsFailure(s, s', p);
      var h: nat :| FailsIn(s, s', h, p);
      assert FailedAt(run, i, h, p);
    } else if h: nat :| FailedAt(run, i, h, p) {
      FailureStrands(s, s', h, p);
    }
  }

  lemma NeverEligible(run: seq<State>, i: nat, p: nat)
    requires Run(run) && i < |run|
    ensures Shaped(run[i]) && (Stranded(run[i], p) ==> forall now :: !Eligible(run[i].procs, p, now))
  {
    InvOnRuns(run, i);
    assert Unfold(run[i]);
  }

  /** If no other hart steps in between, the steps of schedule_park come to what the method
      Scheduler.Park is proved to do. */
  lemma ParkAlone(s: State, h: nat, c: Choice, q: nat)
    requires h < |s.current| && h < |s.pcs| && s.current[h] != NULL && s.current[h] in s.procs
    ensures var p := s.current[h];
      var s1 := ParkStep(s, h, c, 225, NULL, q);
      var s2 := ParkStep(s1, h, c, 233, p, q);
      var s3 := ParkStep(s2, h, c, 235, p, q);
      var s4 := ParkStep(s3, h, c, 236, p, q);
      var s5 := ParkStep(s4, h, c, 237, p, q);
      var s6 := ParkStep(s5, h, c, 239, p, q);
      && [s1.pcs[h], s2.pcs[h], s3.pcs[h], s4.pcs[h], s5.pcs[h]] == [Park(233, p, q), Park(235, p, q),
          Park(236, p, q), Park(237, p, q), Park(239, p, q)]
      && s6.procs == s.procs[p := s.procs[p].(vruntime := (s.procs[p].vruntime + c.now - s.procs[p].starttime)
          % WORD_LIMIT, onHart := -1)]
      && s6.current == s.current[h := NULL] && s6.list == Added(s6.procs, Dropped(s.procs, s.list, p), p)
  {
  }
}
