/** Starting and stopping harts, sbi/src/hart.c with the mutex of sbi/src/lock.c and the boot code of
    sbi/src/main.c, as interleaved steps: one atomic swap or one read or write of hart data each. */
module Hart {
  const NUM_HARTS: nat := 8

  datatype Status = Invalid | Stopped | Starting | Started

  /** What happened to a hart, in order; recorded when its status is written. */
  datatype Event = CrossStart(target: nat, scratch: nat) | SelfStart(target: nat,
      scratch: nat) | Handled(target: nat, scratch: nat) | Stopping

  /** HartData, the hart's software interrupt bit, and its history. owner is the hart that holds the
      lock, which the machine does not record. */
  datatype HartData = HartData(locked: bool, status: Status, target: nat, scratch: nat, msip: bool, log: seq<Event>,
      owner: nat)

  const NOBODY: nat := NUM_HARTS

  /** Where a hart is in the firmware: the line of sbi/src/hart.c, or of sbi/src/main.c for Boot, that it
      is about to carry out (hart 0 boots by lines 51 to 53, which write the same fields). h is the hart
      to start, t and x the target and scratch. */
  datatype Pc =
    | Idle | Parked // running lower-privileged code; waiting in park
    | Boot(line: nat)
    | Start(line: nat, h: nat, t: nat, x: nat)
    | Stop(line: nat)
    | Msip(line: nat, parked: bool, t: nat, x: nat)

  datatype State = State(harts: seq<HartData>, pcs: seq<Pc>)

  datatype Choice = CallStart(h: nat, t: nat, x: nat) | CallStop | Interrupt

  ghost predicate Shaped(s: State) {
    |s.harts| == NUM_HARTS && |s.pcs| == NUM_HARTS
  }

  predicate Booted(pc: Pc) {
    !pc.Boot?
  }

  // ---------- Steps ----------

  function Go(s: State, c: nat, pc: Pc): State
    requires c < |s.pcs|
  {
    s.(pcs := s.pcs[c := pc])
  }

  function Set(s: State, h: nat, d: HartData): State
    requires h < |s.harts|
  {
    s.(harts := s.harts[h := d])
  }

  /** The swap that tries to take the lock of h; on success the hart goes on at pc. */
  function TryLock(s: State, c: nat, h: nat, pc: Pc, fail: Pc): State
    requires h < |s.harts| && c < |s.pcs|
  {
    if s.harts[h].locked then Go(s, c, fail)
    else Go(Set(s, h, s.harts[h].(locked := true, owner := c)), c, pc)
  }

  function Unlock(s: State, c: nat, h: nat, pc: Pc): State
    requires h < |s.harts| && c < |s.pcs|
  {
    Go(Set(s, h, s.harts[h].(locked := false, owner := NOBODY)), c, pc)
  }

  /** The harts that calls name exist: an invalid number is turned down at once. */
  ghost predicate CanStep(s: State, c: nat, k: Choice) {
    && Shaped(s) && c < NUM_HARTS
    && (s.pcs[c] == Idle && k.CallStart? ==> k.h < NUM_HARTS)
    && Target(s.pcs[c]) < NUM_HARTS
    && (s.pcs[c] == Parked || (s.pcs[c] == Idle && k == Interrupt) ==> s.harts[c].msip)
  }

  /** The hart whose data the code at pc is about to start, 0 if it starts none. */
  function Target(pc: Pc): nat {
    if pc.Start? then pc.h else 0
  }

  function StartStep(s: State, c: nat): State
    requires Shaped(s) && c < NUM_HARTS && s.pcs[c].Start? && s.pcs[c].h < NUM_HARTS
  {
    var pc := s.pcs[c];
    var d := s.harts[pc.h];
    match pc.line
    case 27 => TryLock(s, c, pc.h, Start(33, pc.h, pc.t, pc.x), Idle)
    case 33 => Go(s, c, Start(if pc.h != c && d.status != Stopped then 34 else 38, pc.h, pc.t, pc.x))
    case 38 => Go(Set(s, pc.h,
        d.(status := Starting, log := d.log +
        [if pc.h == c then SelfStart(pc.t, pc.x) else CrossStart(pc.t, pc.x)])), c, Start(39, pc.h, pc.t, pc.x))
    case 39 => Go(Set(s, pc.h, d.(target := pc.t)), c, Start(40, pc.h, pc.t, pc.x))
    case 40 => Go(Set(s, pc.h, d.(scratch := pc.x)), c, Start(41, pc.h, pc.t, pc.x))
    case 41 => Go(Set(s, pc.h, d.(msip := true)), c, Start(43, pc.h, pc.t, pc.x))
    case _ => Unlock(s, c, pc.h, Idle)
  }

  function StopStep(s: State, c: nat): State
    requires Shaped(s) && c < NUM_HARTS && s.pcs[c].Stop?
  {
    var d := s.harts[c];
    match s.pcs[c].line
    case 52 => TryLock(s, c, c, Stop(56), Idle)
    case 56 => Go(s, c, Stop(if d.status != Started then 57 else 61))
    case 57 => Unlock(s, c, c, Idle)
    case 61 => Go(Set(s, c, d.(status := Stopped, log := d.log + [Stopping])), c, Stop(71))
    case 71 => Unlock(s, c, c, Stop(72))
    case _ => Go(s, c, Parked)
  }

  function MsipStep(s: State, c: nat): State
    requires Shaped(s) && c < NUM_HARTS && s.pcs[c].Msip?
  {
    var pc := s.pcs[c];
    var d := s.harts[c];
    match pc.line
    case 83 => TryLock(s, c, c, Msip(85, pc.parked, pc.t, pc.x), pc)
    case 85 => Go(Set(s, c, d.(msip := false)), c, Msip(87, pc.parked, pc.t, pc.x))
    case 87 => Go(s, c, Msip(if d.status != Starting then 88 else 92, pc.parked, pc.t, pc.x))
    case 92 => Go(s, c, Msip(97, pc.parked, d.target, pc.x))
    case 97 => Go(s, c, Msip(99, pc.parked, pc.t, d.scratch))
    case 99 => Go(Set(s, c, d.(status := Started, log := d.log + [Handled(pc.t, pc.x)])), c,
        Msip(101, false, pc.t, pc.x))
    case _ => Unlock(s, c, c, if pc.parked then Parked else Idle)
  }

  /** The boot code, which takes no lock: hart 0 starts out started, the others stopped. */
  function BootStep(s: State, c: nat): State
    requires Shaped(s) && c < NUM_HARTS && s.pcs[c].Boot?
  {
    var d := s.harts[c];
    match s.pcs[c].line
    case 76 => Go(Set(s, c, d.(status := if c == 0 then Started else Stopped)), c, Boot(77))
    case 77 => Go(Set(s, c, d.(scratch := 3)), c, Boot(78))
    case _ => Go(Set(s, c, d.(target := 0)), c, if c == 0 then Idle else Parked)
  }

  function Step(s: State, c: nat, k: Choice): State
    requires CanStep(s, c, k)
  {
    match s.pcs[c]
    case Idle => (
      match k
      case CallStart(h, t, x) => Go(s, c, Start(27, h, t, x))
      case CallStop => Go(s, c, Stop(52))
      case Interrupt => Go(s, c, Msip(83, false, 0, 0)))
    case Parked => Go(s, c, Msip(83, true, 0, 0))
    case Boot(_) => BootStep(s, c)
    case Start(_, _, _, _) => StartStep(s, c)
    case Stop(_) => StopStep(s, c)
    case Msip(_, _, _, _) => MsipStep(s, c)
  }

  // ---------- Histories ----------

  /** How a hart stands after a history; Broken if the history is not as the protocol promises. */
  datatype Standing = Down | Up | Pending(cross: bool, target: nat, scratch: nat) | Broken

  function After(hart: nat, log: seq<Event>): Standing {
    if log == [] then if hart == 0 then Up else Down
    else
      var before, e := After(hart, log[..|log| - 1]), log[|log| - 1];
      match e
      case CrossStart(t, x) => if before == Down then Pending(true, t, x) else Broken
      case SelfStart(t, x) => if before == Up || (before.Pending? && !before.cross) then Pending(false, t, x)
          else Broken
      case Handled(t, x) => if before.Pending? && before.target == t && before.scratch == x then Up else Broken
      case Stopping => if before == Up then Down else Broken
  }

  lemma AfterOne(hart: nat, log: seq<Event>, e: Event)
    ensures After(hart, log + [e]) == match e
      case CrossStart(t, x) => if After(hart, log) == Down then Pending(true, t, x) else Broken
      case SelfStart(t, x) => if After(hart, log) == Up || (After(hart, log).Pending? && !After(hart, log).cross)
          then Pending(false, t, x) else Broken
      case Handled(t, x) => if After(hart, log).Pending? && After(hart, log).target == t &&
          After(hart, log).scratch == x then Up else Broken
      case Stopping => if After(hart, log) == Up then Down else Broken
  {
    assert (log + [e])[..|log + [e]| - 1] == log;
  }

  lemma {:induction false} PrefixNotBroken(hart: nat, log: seq<Event>, i: nat)
    requires After(hart, log) != Broken && i <= |log|
    ensures After(hart, log[..i]) != Broken
    decreases |log|
  {
    if i < |log| {
      var shorter := log[..|log| - 1];
      PrefixNotBroken(hart, shorter, i);
      assert shorter[..i] == log[..i];
    } else {
      assert log[..i] == log;
    }
  }

  lemma EventOk(hart: nat, log: seq<Event>, i: nat)
    requires After(hart, log) != Broken && i < |log|
    ensures After(hart, log[..i + 1]) != Broken && After(hart, log[..i]) != Broken
    ensures log[..i + 1] == log[..i] + [log[i]]
  {
    PrefixNotBroken(hart, log, i + 1);
    PrefixNotBroken(hart, log, i);
  }

  lemma CrossThenHandled(hart: nat, before: seq<Event>, e: Event, f: Event)
    requires After(hart, before + [e] + [f]) != Broken && After(hart, before + [e]) != Broken
    ensures e.CrossStart? ==> f == Handled(e.target, e.scratch)
    ensures f.Handled? ==> e in {CrossStart(f.target, f.scratch), SelfStart(f.target, f.scratch)}
  {
    AfterOne(hart, before, e);
    AfterOne(hart, before + [e], f);
  }

  /** In a history that is not broken, each start of a stopped hart is directly followed by its own
      handling, with its target and scratch; and whatever is handled was the latest start. */
  lemma HistoryMeans(hart: nat, log: seq<Event>, i: nat)
    requires After(hart, log) != Broken && i < |log|
    ensures log[i].CrossStart? && i + 1 < |log| ==> log[i + 1] == Handled(log[i].target, log[i].scratch)
    ensures log[i].Handled? ==>
        i > 0 && log[i - 1] in {CrossStart(log[i].target, log[i].scratch), SelfStart(log[i].target, log[i].scratch)}
  {
    EventOk(hart, log, i);
    if i + 1 < |log| {
      EventOk(hart, log, i + 1);
      CrossThenHandled(hart, log[..i], log[i], log[i + 1]);
    }
    if i > 0 {
      EventOk(hart, log, i - 1);
      CrossThenHandled(hart, log[..i - 1], log[i - 1], log[i]);
    } else {
      AfterOne(hart, log[..0], log[0]);
    }
  }

  // ---------- The invariant ----------

  /** The hart whose lock is held at pc. */
  function Holds(pc: Pc, c: nat): nat {
    match pc
    case Start(line, h, _, _) => if line == 27 then NOBODY else h
    case Stop(line) => if line == 56 || line == 57 || line == 61 || line == 71 then c else NOBODY
    case Msip(line, _, _, _) => if line == 83 then NOBODY else c
    case _ => NOBODY
  }

  /** The hart runs code of its own, so that it is neither stopped nor being started by another. */
  predicate Awake(pc: Pc) {
    match pc
    case Idle => true
    case Start(_, _, _, _) => true
    case Stop(line) => line == 52 || line == 56 || line == 57 || line == 61
    case Msip(line, parked, _, _) => !parked && line != 92 && line != 97 && line != 99
    case _ => false
  }

  /** The status, and for a pending start its target and scratch, are as the history says. */
  ghost predicate Matches(d: HartData, h: nat) {
    match After(h, d.log)
    case Down => d.status == Stopped
    case Up => d.status == Started
    case Pending(_, t, x) => d.status == Starting && d.target == t && d.scratch == x
    case Broken => false
  }

  ghost predicate Quiet(d: HartData, h: nat) {
    Matches(d, h) && (d.status == Starting <==> d.msip)
  }

  /** Its status says that hart h is starting, and its history by whom, with which target and scratch. */
  ghost predicate Begun(d: HartData, h: nat, c: nat, t: nat, x: nat) {
    d.status == Starting && After(h, d.log) == Pending(h != c, t, x)
  }

  /** The interrupt of a start is taken and not yet handled. */
  ghost predicate Taken(d: HartData, h: nat) {
    Matches(d, h) && d.status == Starting && !d.msip
  }

  /** What the hart c that holds the lock of h knows at pc. */
  ghost predicate OwnerOk(d: HartData, h: nat, c: nat, pc: Pc) {
    match pc
    case Start(line, _, t, x) => (
      match line
      case 38 => Quiet(d, h) && (h != c ==> d.status == Stopped)
      case 39 => Begun(d, h, c, t, x)
      case 40 => Begun(d, h, c, t, x) && d.target == t
      case 41 => Begun(d, h, c, t, x) && d.target == t && d.scratch == x
      case _ => Quiet(d, h))
    case Stop(line) => Quiet(d, h) && (line == 61 ==> d.status == Started) && (line == 71 ==> d.status == Stopped)
    case Msip(line, _, t, x) => (
      match line
      case 85 => Quiet(d, h) && d.msip
      case 87 => Taken(d, h)
      case 92 => Taken(d, h)
      case 97 => Taken(d, h) && d.target == t
      case 99 => Taken(d, h) && d.target == t && d.scratch == x
      case _ => Quiet(d, h))
    case _ => Quiet(d, h)
  }

  /** Before hart h has booted nobody else touches its data. */
  ghost predicate BootOk(d: HartData, h: nat, pc: Pc) {
    && !d.locked && d.owner == NOBODY && !d.msip && d.log == []
    && d.status == if pc == Boot(76) then Invalid else if h == 0 then Started else Stopped
  }

  /** pc is where hart h itself is, opc where the owner of its lock is. */
  ghost predicate DataOk(d: HartData, h: nat, pc: Pc, opc: Pc) {
    && (d.locked <==> d.owner != NOBODY)
    && (if d.owner == NOBODY then Quiet(d, h) else Holds(opc, d.owner) == h && OwnerOk(d, h, d.owner, opc))
    && (Awake(pc) ==> After(h, d.log) != Down && !(After(h, d.log).Pending? && After(h, d.log).cross))
    && (pc.Msip? && pc.line == 83 ==> d.msip)
  }

  ghost predicate HartOk(s: State, h: nat)
    requires Shaped(s)
  {
    h < NUM_HARTS ==>
      var d := s.harts[h];
      if !Booted(s.pcs[h]) then BootOk(d, h, s.pcs[h])
      else d.owner <= NOBODY && DataOk(d, h, s.pcs[h], if d.owner < NUM_HARTS then s.pcs[d.owner] else Idle)
  }

  ghost predicate PcOk(s: State, c: nat)
    requires Shaped(s)
  {
    c < NUM_HARTS ==>
      && Target(s.pcs[c]) < NUM_HARTS
      && (s.pcs[c].Start? ==> Booted(s.pcs[Target(s.pcs[c])]))
      && (Holds(s.pcs[c], c) != NOBODY ==> Holds(s.pcs[c], c) < NUM_HARTS && s.harts[Holds(s.pcs[c], c)].owner == c)
  }

  ghost predicate Inv(s: State) {
    && Shaped(s)
    && (forall h: nat {:trigger HartOk(s, h)} :: HartOk(s, h))
    && (forall c: nat {:trigger PcOk(s, c)} :: PcOk(s, c))
  }

  ghost predicate Unfold(s: State) { true }

  /** The invariant, which the prover looks into only for states it finds in Unfold. */
  ghost predicate Sound(s: State) {
    forall t: State {:trigger Unfold(t)} :: Unfold(t) && t == s ==> Inv(t)
  }

  lemma SoundAt(s: State, h: nat, c: nat)
    requires Sound(s)
    ensures Shaped(s) && HartOk(s, h) && HartOk(s, c) && PcOk(s, c)
  {
    assert Unfold(s);
  }

  /** s' is s after hart c moved to pc and changed the data of hart h to d. */
  ghost predicate Moves(s: State, s': State, c: nat, h: nat, d: HartData, pc: Pc) {
    && Shaped(s) && c < NUM_HARTS && h < NUM_HARTS
    && s' == State(s.harts[h := d], s.pcs[c := pc])
  }

  /** A step on hart h's data keeps the invariant if it takes, keeps or gives up only its own hold on
      h's lock, and is fine for h's data and for hart c itself. */
  lemma MoveKeepsInv(s: State, s': State, c: nat, h: nat, d: HartData, pc: Pc)
    requires Sound(s) && Moves(s, s', c, h, d, pc)
    requires HartOk(s', h) && HartOk(s', c)
    requires Holds(s.pcs[c], c) in {NOBODY, h} && Holds(pc, c) in {NOBODY, h} && (Holds(pc, c) == h ==> d.owner == c)
    requires s.harts[h].owner in {NOBODY, c} || d.owner == s.harts[h].owner
    requires Booted(s.pcs[c]) ==> Booted(pc)
    requires Target(pc) < NUM_HARTS && (pc.Start? ==> Booted(s'.pcs[Target(pc)]))
    ensures Sound(s')
  {
    assert Unfold(s);
    forall k: nat ensures HartOk(s', k) {
      assert HartOk(s, k);
    }
    forall k: nat ensures PcOk(s', k) {
      assert PcOk(s, k);
      if k < NUM_HARTS && k != c {
        assert s'.pcs[k] == s.pcs[k];
      }
    }
    assert Inv(s');
  }

  /** The boot code takes no lock, so a hart must not be started before it has booted. */
  ghost predicate Guarded(s: State, c: nat, k: Choice) {
    && CanStep(s, c, k)
    && (s.pcs[c] == Idle && k.CallStart? ==> Booted(s.pcs[k.h]))
  }

  lemma StartLocks(s: State, c: nat)
    requires Sound(s) && Shaped(s) && c < NUM_HARTS && s.pcs[c].Start? && s.pcs[c].h < NUM_HARTS
    requires s.pcs[c].line in {27, 33}
    ensures Sound(StartStep(s, c))
  {
    var s' := StartStep(s, c);
    SoundAt(s, s.pcs[c].h, c);
    assert Moves(s, s', c, s.pcs[c].h, s'.harts[s.pcs[c].h], s'.pcs[c]);
    MoveKeepsInv(s, s', c, s.pcs[c].h, s'.harts[s.pcs[c].h], s'.pcs[c]);
  }

  lemma StartWritesStatus(s: State, c: nat)
    requires Sound(s) && Shaped(s) && c < NUM_HARTS && s.pcs[c].Start? && s.pcs[c].h < NUM_HARTS && s.pcs[c].line == 38
    ensures Sound(StartStep(s, c))
  {
    var s' := StartStep(s, c);
    SoundAt(s, s.pcs[c].h, c);
    AfterOne(s.pcs[c].h, s.harts[s.pcs[c].h].log, if s.pcs[c].h == c then SelfStart(s.pcs[c].t,
        s.pcs[c].x) else CrossStart(s.pcs[c].t, s.pcs[c].x));
    assert Moves(s, s', c, s.pcs[c].h, s'.harts[s.pcs[c].h], s'.pcs[c]);
    MoveKeepsInv(s, s', c, s.pcs[c].h, s'.harts[s.pcs[c].h], s'.pcs[c]);
  }

  lemma StartWritesRest(s: State, c: nat)
    requires Sound(s) && Shaped(s) && c < NUM_HARTS && s.pcs[c].Start? && s.pcs[c].h < NUM_HARTS
    requires s.pcs[c].line in {39, 40, 41}
    ensures Sound(StartStep(s, c))
  {
    var s' := StartStep(s, c);
    SoundAt(s, s.pcs[c].h, c);
    assert Moves(s, s', c, s.pcs[c].h, s'.harts[s.pcs[c].h], s'.pcs[c]);
    MoveKeepsInv(s, s', c, s.pcs[c].h, s'.harts[s.pcs[c].h], s'.pcs[c]);
  }

  lemma StartUnlocks(s: State, c: nat)
    requires Sound(s) && Shaped(s) && c < NUM_HARTS && s.pcs[c].Start? && s.pcs[c].h < NUM_HARTS
    requires s.pcs[c].line !in {27, 33, 38, 39, 40, 41}
    ensures Sound(StartStep(s, c))
  {
    var s' := StartStep(s, c);
    SoundAt(s, s.pcs[c].h, c);
    assert Moves(s, s', c, s.pcs[c].h, s'.harts[s.pcs[c].h], s'.pcs[c]);
    MoveKeepsInv(s, s', c, s.pcs[c].h, s'.harts[s.pcs[c].h], s'.pcs[c]);
  }

  lemma StopWritesStatus(s: State, c: nat)
    requires Sound(s) && Shaped(s) && c < NUM_HARTS && s.pcs[c] == Stop(61)
    ensures Sound(StopStep(s, c))
  {
    var s' := StopStep(s, c);
    SoundAt(s, c, c);
    AfterOne(c, s.harts[c].log, Stopping);
    assert Moves(s, s', c, c, s'.harts[c], s'.pcs[c]);
    MoveKeepsInv(s, s', c, c, s'.harts[c], s'.pcs[c]);
  }

  lemma StopRest(s: State, c: nat)
    requires Sound(s) && Shaped(s) && c < NUM_HARTS && s.pcs[c].Stop? && s.pcs[c].line != 61
    ensures Sound(StopStep(s, c))
  {
    var s' := StopStep(s, c);
    SoundAt(s, c, c);
    assert Moves(s, s', c, c, s'.harts[c], s'.pcs[c]);
    MoveKeepsInv(s, s', c, c, s'.harts[c], s'.pcs[c]);
  }

  lemma MsipBegins(s: State, c: nat)
    requires Sound(s) && Shaped(s) && c < NUM_HARTS && s.pcs[c].Msip? && s.pcs[c].line in {83, 85, 87}
    ensures Sound(MsipStep(s, c))
  {
    var s' := MsipStep(s, c);
    SoundAt(s, c, c);
    assert Moves(s, s', c, c, s'.harts[c], s'.pcs[c]);
    MoveKeepsInv(s, s', c, c, s'.harts[c], s'.pcs[c]);
  }

  lemma MsipReads(s: State, c: nat)
    requires Sound(s) && Shaped(s) && c < NUM_HARTS && s.pcs[c].Msip? && s.pcs[c].line in {92, 97}
    ensures Sound(MsipStep(s, c))
  {
    var s' := MsipStep(s, c);
    SoundAt(s, c, c);
    assert Moves(s, s', c, c, s'.harts[c], s'.pcs[c]);
    MoveKeepsInv(s, s', c, c, s'.harts[c], s'.pcs[c]);
  }

  lemma MsipWritesStatus(s: State, c: nat)
    requires Sound(s) && Shaped(s) && c < NUM_HARTS && s.pcs[c].Msip? && s.pcs[c].line == 99
    ensures Sound(MsipStep(s, c))
  {
    var s' := MsipStep(s, c);
    SoundAt(s, c, c);
    AfterOne(c, s.harts[c].log, Handled(s.pcs[c].t, s.pcs[c].x));
    assert Moves(s, s', c, c, s'.harts[c], s'.pcs[c]);
    MoveKeepsInv(s, s', c, c, s'.harts[c], s'.pcs[c]);
  }

  lemma MsipUnlocks(s: State, c: nat)
    requires Sound(s) && Shaped(s) && c < NUM_HARTS && s.pcs[c].Msip? && s.pcs[c].line !in {83, 85, 87, 92, 97, 99}
    ensures Sound(MsipStep(s, c))
  {
    var s' := MsipStep(s, c);
    SoundAt(s, c, c);
    assert Moves(s, s', c, c, s'.harts[c], s'.pcs[c]);
    MoveKeepsInv(s, s', c, c, s'.harts[c], s'.pcs[c]);
  }

  lemma BootKeepsInv(s: State, c: nat)
    requires Sound(s) && Shaped(s) && c < NUM_HARTS && s.pcs[c].Boot?
    ensures Sound(BootStep(s, c))
  {
    var s' := BootStep(s, c);
    SoundAt(s, c, c);
    assert Moves(s, s', c, c, s'.harts[c], s'.pcs[c]);
    MoveKeepsInv(s, s', c, c, s'.harts[c], s'.pcs[c]);
  }

  /** Entering the firmware by a call or an interrupt. */
  lemma EnterKeepsInv(s: State, c: nat, k: Choice)
    requires Sound(s) && Guarded(s, c, k) && (s.pcs[c] == Idle || s.pcs[c] == Parked)
    ensures Sound(Step(s, c, k))
  {
    var s' := Step(s, c, k);
    SoundAt(s, c, c);
    assert Moves(s, s', c, c, s'.harts[c], s'.pcs[c]);
    MoveKeepsInv(s, s', c, c, s'.harts[c], s'.pcs[c]);
  }

  lemma StepKeepsInv(s: State, c: nat, k: Choice)
    requires Sound(s) && Guarded(s, c, k)
    ensures Sound(Step(s, c, k))
  {
    match s.pcs[c] {
      case Idle => EnterKeepsInv(s, c, k);
      case Parked => EnterKeepsInv(s, c, k);
      case Boot(_) => BootKeepsInv(s, c);
      case Start(line, _, _, _) =>
        if line == 27 || line == 33 { StartLocks(s, c); }
        else if line == 38 { StartWritesStatus(s, c); }
        else if line == 39 || line == 40 || line == 41 { StartWritesRest(s, c); }
        else { StartUnlocks(s, c); }
      case Stop(line) => if line == 61 { StopWritesStatus(s, c); } else { StopRest(s, c); }
      case Msip(line, _, _, _) =>
        if line == 83 || line == 85 || line == 87 { MsipBegins(s, c); }
        else if line == 92 || line == 97 { MsipReads(s, c); }
        else if line == 99 { MsipWritesStatus(s, c); }
        else { MsipUnlocks(s, c); }
    }
  }

  // ---------- What every run guarantees ----------

  ghost predicate Next(s: State, s': State) {
    exists c: nat, k: Choice :: Guarded(s, c, k) && s' == Step(s, c, k)
  }

  /** No hart has booted. */
  ghost predicate Init(s: State) {
    && Shaped(s)
    && forall h :: 0 <= h < NUM_HARTS ==> BootOk(s.harts[h], h, Boot(76)) && s.pcs[h] == Boot(76)
  }

  ghost predicate Run(run: seq<State>) {
    |run| > 0 && Init(run[0]) && forall i :: 0 <= i < |run| - 1 ==> Next(run[i], run[i + 1])
  }

  lemma {:induction false} SoundOnRuns(run: seq<State>, i: nat)
    requires Run(run) && i < |run|
    ensures Sound(run[i])
  {
    if i > 0 {
      SoundOnRuns(run, i - 1);
      assert Next(run[i - 1], run[i - 1 + 1]);
      var c: nat, k: Choice :| Guarded(run[i - 1], c, k) && run[i] == Step(run[i - 1], c, k);
      StepKeepsInv(run[i - 1], c, k);
    } else {
      assert Inv(run[0]);
    }
  }

  /** While nobody holds the lock of a booted hart, it is starting exactly if its software interrupt is
      pending, and its target and scratch are those of the start not yet handled. */
  lemma StartingIffPending(run: seq<State>, i: nat, h: nat)
    requires Run(run) && i < |run| && h < NUM_HARTS
    ensures Shaped(run[i])
    ensures !run[i].harts[h].locked && Booted(run[i].pcs[h]) ==>
      (run[i].harts[h].status == Starting <==> run[i].harts[h].msip) && Matches(run[i].harts[h], h)
  {
    SoundOnRuns(run, i);
    SoundAt(run[i], h, h);
  }

  /** At every moment of every run, each start of a stopped hart has been followed at once by its own
      handling, with its target and scratch, or nothing has happened to the hart since. */
  lemma StartsAreHandledOnce(run: seq<State>, i: nat, h: nat, e: nat)
    requires Run(run) && i < |run| && h < NUM_HARTS
    ensures Shaped(run[i])
    ensures e < |run[i].harts[h].log| ==> var log := run[i].harts[h].log;
      && (log[e].CrossStart? && e + 1 < |log| ==> log[e + 1] == Handled(log[e].target, log[e].scratch))
      && (log[e].Handled? ==>
          e > 0 && log[e - 1] in {CrossStart(log[e].target, log[e].scratch), SelfStart(log[e].target, log[e].scratch)})
  {
    SoundOnRuns(run, i);
    SoundAt(run[i], h, h);
    HistoryNotBroken(run[i], h);
    if e < |run[i].harts[h].log| { HistoryMeans(h, run[i].harts[h].log, e); }
  }

  lemma HistoryNotBroken(s: State, h: nat)
    requires Sound(s) && Shaped(s) && h < NUM_HARTS
    ensures After(h, s.harts[h].log) != Broken
  {
    SoundAt(s, h, h);
  }

  /** hart_handle_msip always finds its hart starting: its early return is never taken. */
  lemma HandlerFindsStart(run: seq<State>, i: nat, c: nat)
    requires Run(run) && i < |run| && c < NUM_HARTS
    ensures Shaped(run[i]) && (run[i].pcs[c].Msip? && run[i].pcs[c].line == 87 ==> run[i].harts[c].status == Starting)
  {
    SoundOnRuns(run, i);
    SoundAt(run[i], c, c);
  }

  /** A mutex has one holder: two harts are never both at a place that holds the same hart's lock. */
  lemma OneHolder(run: seq<State>, i: nat, c: nat, k: nat)
    requires Run(run) && i < |run| && c < NUM_HARTS && k < NUM_HARTS && c != k
    ensures Shaped(run[i]) && (Holds(run[i].pcs[c], c) == Holds(run[i].pcs[k], k) ==> Holds(run[i].pcs[c], c) == NOBODY)
  {
    SoundOnRuns(run, i);
    SoundAt(run[i], 0, c);
    SoundAt(run[i], 0, k);
  }
}
