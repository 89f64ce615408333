/** The steps of Hart without the rule that a hart boots before it is started: which starts reach
    their handler as given, whenever they come. */
module HartBoot {
  import opened Hart

  /** What a hart's history says of its status, whatever targets it was started with. */
  datatype Mode = Asleep | Running | ByOther | BySelf

  function ModeOf(h: nat, log: seq<Event>): Mode {
    if log == [] then if h == 0 then Running else Asleep
    else match log[|log| - 1]
      case CrossStart(_, _) => ByOther
      case SelfStart(_, _) => BySelf
      case Handled(_, _) => Running
      case Stopping => Asleep
  }

  function StatusOf(m: Mode): Status {
    match m
    case Asleep => Stopped
    case Running => Started
    case _ => Starting
  }

  // ---------- The invariant ----------

  /** What the hart c that holds the lock of h knows at pc. */
  ghost predicate OwnerFine(d: HartData, h: nat, c: nat, pc: Pc) {
    match pc
    case Start(line, _, _, _) => (
      h != c ==> (line == 38 ==> d.status == Stopped) && (line in {39, 40, 41} ==> ModeOf(h, d.log) == ByOther))
    case Stop(line) => line == 61 ==> d.status == Started
    case Msip(line, _, _, _) => line in {92, 97, 99} ==> d.status == Starting
    case _ => true
  }

  /** pc is where hart h itself is, opc where the owner of its lock is. */
  ghost predicate DataFine(d: HartData, h: nat, pc: Pc, opc: Pc) {
    && (d.locked <==> d.owner != NOBODY)
    && (d.owner != NOBODY ==> d.owner < NUM_HARTS && Holds(opc, d.owner) == h && OwnerFine(d, h, d.owner, opc))
    && (if pc == Boot(76) then d.status == Invalid && d.log == [] else d.status == StatusOf(ModeOf(h, d.log)))
    && (Awake(pc) ==> ModeOf(h, d.log) in {Running, BySelf})
    && (pc.Boot? && h == 0 ==> d.log == [])
  }

  ghost predicate HartFine(s: State, h: nat)
    requires Shaped(s)
  {
    h < NUM_HARTS ==>
      var d := s.harts[h];
      DataFine(d, h, s.pcs[h], if d.owner < NUM_HARTS then s.pcs[d.owner] else Idle)
  }

  ghost predicate PcFine(s: State, c: nat)
    requires Shaped(s)
  {
    c < NUM_HARTS ==>
      && Target(s.pcs[c]) < NUM_HARTS
      && (Holds(s.pcs[c], c) != NOBODY ==> Holds(s.pcs[c], c) < NUM_HARTS && s.harts[Holds(s.pcs[c], c)].owner == c)
  }

  ghost predicate FineNow(s: State) {
    && Shaped(s)
    && (forall h: nat {:trigger HartFine(s, h)} :: HartFine(s, h))
    && (forall c: nat {:trigger PcFine(s, c)} :: PcFine(s, c))
  }

  /** FineNow, which the prover looks into only for states it finds in Unfold. */
  ghost predicate Fine(s: State) {
    forall t: State {:trigger Unfold(t)} :: Unfold(t) && t == s ==> FineNow(t)
  }

  lemma FineAt(s: State, h: nat, c: nat)
    requires Fine(s)
    ensures Shaped(s) && HartFine(s, h) && HartFine(s, c) && PcFine(s, c)
  {
    assert Unfold(s);
  }

  /** A step that moves hart c to pc and changes the data of hart h to d. */
  lemma MoveKeepsFine(s: State, s': State, c: nat, h: nat, d: HartData, pc: Pc)
    requires Fine(s) && Moves(s, s', c, h, d, pc)
    requires HartFine(s', h) && HartFine(s', c)
    requires Holds(s.pcs[c], c) in {NOBODY, h} && Holds(pc, c) in {NOBODY, h} && (Holds(pc, c) == h ==> d.owner == c)
    requires s.harts[h].owner in {NOBODY, c} || d.owner == s.harts[h].owner
    requires Target(pc) < NUM_HARTS
    ensures Fine(s')
  {
    assert Unfold(s);
    forall k: nat ensures HartFine(s', k) {
      assert HartFine(s, k);
    }
    forall k: nat ensures PcFine(s', k) {
      assert PcFine(s, k);
      if k < NUM_HARTS && k != c {
        assert s'.pcs[k] == s.pcs[k];
      }
    }
    assert FineNow(s');
  }

  lemma StartLocksFine(s: State, c: nat)
    requires Fine(s) && Shaped(s) && c < NUM_HARTS && s.pcs[c].Start? && s.pcs[c].h < NUM_HARTS
    requires s.pcs[c].line in {27, 33}
    ensures Fine(StartStep(s, c))
  {
    var s' := StartStep(s, c);
    FineAt(s, s.pcs[c].h, c);
    assert Moves(s, s', c, s.pcs[c].h, s'.harts[s.pcs[c].h], s'.pcs[c]);
    MoveKeepsFine(s, s', c, s.pcs[c].h, s'.harts[s.pcs[c].h], s'.pcs[c]);
  }

  lemma StartWritesFine(s: State, c: nat)
    requires Fine(s) && Shaped(s) && c < NUM_HARTS && s.pcs[c].Start? && s.pcs[c].h < NUM_HARTS
    requires s.pcs[c].line !in {27, 33}
    ensures Fine(StartStep(s, c))
  {
    var s' := StartStep(s, c);
    FineAt(s, s.pcs[c].h, c);
    assert Moves(s, s', c, s.pcs[c].h, s'.harts[s.pcs[c].h], s'.pcs[c]);
    MoveKeepsFine(s, s', c, s.pcs[c].h, s'.harts[s.pcs[c].h], s'.pcs[c]);
  }

  lemma StopKeepsFine(s: State, c: nat)
    requires Fine(s) && Shaped(s) && c < NUM_HARTS && s.pcs[c].Stop?
    ensures Fine(StopStep(s, c))
  {
    var s' := StopStep(s, c);
    FineAt(s, c, c);
    assert Moves(s, s', c, c, s'.harts[c], s'.pcs[c]);
    MoveKeepsFine(s, s', c, c, s'.harts[c], s'.pcs[c]);
  }

  lemma MsipKeepsFine(s: State, c: nat)
    requires Fine(s) && Shaped(s) && c < NUM_HARTS && s.pcs[c].Msip?
    ensures Fine(MsipStep(s, c))
  {
    var s' := MsipStep(s, c);
    FineAt(s, c, c);
    assert Moves(s, s', c, c, s'.harts[c], s'.pcs[c]);
    MoveKeepsFine(s, s', c, c, s'.harts[c], s'.pcs[c]);
  }

  lemma BootKeepsFine(s: State, c: nat)
    requires Fine(s) && Shaped(s) && c < NUM_HARTS && s.pcs[c].Boot?
    ensures Fine(BootStep(s, c))
  {
    var s' := BootStep(s, c);
    FineAt(s, c, c);
    assert Moves(s, s', c, c, s'.harts[c], s'.pcs[c]);
    MoveKeepsFine(s, s', c, c, s'.harts[c], s'.pcs[c]);
  }

  lemma EnterKeepsFine(s: State, c: nat, k: Choice)
    requires Fine(s) && CanStep(s, c, k) && s.pcs[c] in {Idle, Parked}
    ensures Fine(Step(s, c, k))
  {
    var s' := Step(s, c, k);
    FineAt(s, c, c);
    assert Moves(s, s', c, c, s'.harts[c], s'.pcs[c]);
    MoveKeepsFine(s, s', c, c, s'.harts[c], s'.pcs[c]);
  }

  lemma StepKeepsFine(s: State, c: nat, k: Choice)
    requires Fine(s) && CanStep(s, c, k)
    ensures Fine(Step(s, c, k))
  {
    match s.pcs[c] {
      case Idle => EnterKeepsFine(s, c, k);
      case Parked => EnterKeepsFine(s, c, k);
      case Boot(_) => BootKeepsFine(s, c);
      case Start(line, _, _, _) => if line in {27, 33} { StartLocksFine(s, c); } else { StartWritesFine(s, c); }
      case Stop(_) => StopKeepsFine(s, c);
      case Msip(_, _, _, _) => MsipKeepsFine(s, c);
    }
  }

  // ---------- Runs ----------

  ghost predicate FreeNext(s: State, s': State) {
    exists c: nat, k: Choice :: CanStep(s, c, k) && s' == Step(s, c, k)
  }

  ghost predicate Watch(s: State) { true }

  /** FreeNext, which the prover looks into only for states it finds in Watch. */
  ghost predicate Steps(s: State, s': State) {
    forall t: State {:trigger Watch(t)} :: Watch(t) && t == s ==> FreeNext(t, s')
  }

  /** A run in which harts are started at any time. */
  ghost predicate FreeRun(run: seq<State>) {
    |run| > 0 && Init(run[0]) && forall i :: 0 <= i < |run| - 1 ==> Steps(run[i], run[i + 1])
  }

  lemma StepOf(run: seq<State>, i: nat) returns (c: nat, k: Choice)
    requires FreeRun(run) && i + 1 < |run|
    ensures CanStep(run[i], c, k) && run[i + 1] == Step(run[i], c, k)
  {
    assert Steps(run[i], run[i + 1]) && Watch(run[i]);
    c, k :| CanStep(run[i], c, k) && run[i + 1] == Step(run[i], c, k);
  }

  lemma {:induction false} FineOnRuns(run: seq<State>, i: nat)
    requires FreeRun(run) && i < |run|
    ensures Fine(run[i])
  {
    if i > 0 {
      FineOnRuns(run, i - 1);
      var c, k := StepOf(run, i - 1);
      StepKeepsFine(run[i - 1], c, k);
    } else {
      assert FineNow(run[0]);
    }
  }

  /** A hart that starts itself is turned down exactly if another hart is then starting it and holds
      its lock; once it has the lock, it passes the check of its status. */
  lemma OwnStartFailsIff(run: seq<State>, i: nat, c: nat, k: Choice)
    requires FreeRun(run) && i < |run| && CanStep(run[i], c, k) && run[i].pcs[c].Start? && run[i].pcs[c].h == c
    ensures run[i].pcs[c].line == 27 ==>
      (Step(run[i], c, k).pcs[c] == Idle <==>
          exists j: nat :: j < NUM_HARTS && j != c && run[i].pcs[j].Start? && Holds(run[i].pcs[j], j) == c)
    ensures run[i].pcs[c].line == 33 ==> Step(run[i], c, k).pcs[c] == Start(38, c, run[i].pcs[c].t, run[i].pcs[c].x)
  {
    FineOnRuns(run, i);
    FineAt(run[i], c, c);
    var j := run[i].harts[c].owner;
    if j < NUM_HARTS { FineAt(run[i], c, j); }
    if m: nat :| m < NUM_HARTS && m != c && Holds(run[i].pcs[m], m) == c { FineAt(run[i], c, m); }
  }

  // ---------- What becomes of a start ----------

  /** No hart is about to write the status or, up to the line given, the rest of a start of h. */
  ghost predicate NoWriter(s: State, h: nat, line: nat)
    requires Shaped(s)
  {
    forall k: nat {:trigger s.pcs[k]} :: k < NUM_HARTS && s.pcs[k].Start? && s.pcs[k].h == h ==>
        !(38 <= s.pcs[k].line <= line)
  }

  /** Since line 39 wrote target t for another hart's start of h, before h ended its boot code if
      `early`, nothing else happened to h: the target is t until the boot code writes its own. */
  ghost predicate TargetTracked(s: State, h: nat, t: nat, early: bool, log: seq<Event>) {
    && Shaped(s) && h < NUM_HARTS && s.harts[h].log == log && ModeOf(h, log) == ByOther && NoWriter(s, h, 39)
    && var d, pc := s.harts[h], s.pcs[h];
    && d.target == (if early && Booted(pc) then 0 else t) && (early || Booted(pc))
    && (pc.Msip? && pc.line in {97, 99} ==> pc.t == d.target)
  }

  /** The same for line 40 and the scratch value, `early` if the boot code had not written its own. */
  ghost predicate ScratchTracked(s: State, h: nat, x: nat, early: bool, log: seq<Event>) {
    && Shaped(s) && h < NUM_HARTS && s.harts[h].log == log && ModeOf(h, log) == ByOther && NoWriter(s, h, 40)
    && var d, pc := s.harts[h], s.pcs[h];
    && d.scratch == (if early && pc != Boot(77) then 3 else x) && (early || pc != Boot(77))
    && (pc.Msip? && pc.line == 99 ==> pc.x == d.scratch)
  }

  /** A step of another hart leaves h where it is and the start's data as they are. */
  lemma OtherStepTracks(s: State, c: nat, k: Choice, h: nat, line: nat)
    requires Fine(s) && CanStep(s, c, k) && h < NUM_HARTS && c != h && 39 <= line <= 40 && NoWriter(s, h, line)
    requires ModeOf(h, s.harts[h].log) == ByOther
    ensures var s' := Step(s, c, k);
            && Shaped(s') && s'.pcs[h] == s.pcs[h] && s'.harts[h].target == s.harts[h].target
            && (line == 40 ==> s'.harts[h].scratch == s.harts[h].scratch)
            && (s'.pcs[c].Start? && s'.pcs[c].h == h ==> !(38 <= s'.pcs[c].line <= line))
  {
    NotAwake(s, h);
    if s.pcs[c].Start? && s.pcs[c].h == h {
      StartTracks(s, c, h, line);
    } else {
      OthersData(s, c, k, h);
    }
  }

  lemma StartTracks(s: State, c: nat, h: nat, line: nat)
    requires Fine(s) && Shaped(s) && c < NUM_HARTS && h < NUM_HARTS && c != h && 39 <= line <= 40
    requires NoWriter(s, h, line)
    requires s.pcs[c].Start? && s.pcs[c].h == h && s.harts[h].status == Starting
    ensures var s' := StartStep(s, c);
            && s'.pcs[h] == s.pcs[h] && s'.harts[h].target == s.harts[h].target
            && (line == 40 ==> s'.harts[h].scratch == s.harts[h].scratch)
            && (s'.pcs[c].Start? ==> !(38 <= s'.pcs[c].line <= line))
  {
    assert s.pcs[c].line != 38 && s.pcs[c].line != 39 && (line == 40 ==> s.pcs[c].line != 40);
  }

  lemma OthersData(s: State, c: nat, k: Choice, h: nat)
    requires CanStep(s, c, k) && h < NUM_HARTS && c != h && !(s.pcs[c].Start? && s.pcs[c].h == h)
    ensures var s' := Step(s, c, k);
            && Shaped(s') && s'.pcs[h] == s.pcs[h] && s'.harts[h] == s.harts[h]
            && (s'.pcs[c].Start? && s'.pcs[c].h == h ==> s'.pcs[c].line == 27)
  {
  }

  /** Where hart h can be while another hart's start of it is not yet handled. */
  lemma NotAwake(s: State, h: nat)
    requires Fine(s) && Shaped(s) && h < NUM_HARTS && ModeOf(h, s.harts[h].log) == ByOther
    ensures !Awake(s.pcs[h]) && s.pcs[h] != Boot(76) && s.harts[h].status == Starting
  {
    FineAt(s, h, h);
  }

  lemma OwnStepTracks(s: State, k: Choice, h: nat)
    requires Fine(s) && CanStep(s, h, k) && ModeOf(h, s.harts[h].log) == ByOther
    requires Shaped(Step(s, h, k)) && Step(s, h, k).harts[h].log == s.harts[h].log
    ensures var pc, pc', d, d' := s.pcs[h], Step(s, h, k).pcs[h], s.harts[h], Step(s, h, k).harts[h];
            && d'.target == (if pc.Boot? && pc != Boot(77) then 0 else d.target) &&
                d'.scratch == (if pc == Boot(77) then 3 else d.scratch)
            && !pc'.Start? && (Booted(pc) ==> Booted(pc')) && (pc == Boot(77) ==> pc' == Boot(78)) &&
                (pc.Boot? && pc != Boot(77) ==> Booted(pc'))
            && (pc' != Boot(77)) &&
                (pc'.Msip? && pc'.line == 99 ==> pc.Msip? && pc.line == 97 && pc'.t == pc.t && pc'.x == d.scratch)
            && (pc'.Msip? && pc'.line == 97 ==> pc'.t == d.target && pc.Msip? && pc.line == 92)
  {
    NotAwake(s, h);
  }

  lemma NoWriterStays(s: State, c: nat, k: Choice, h: nat, line: nat)
    requires Fine(s) && CanStep(s, c, k) && h < NUM_HARTS && 39 <= line <= 40 && NoWriter(s, h, line)
    requires ModeOf(h, s.harts[h].log) == ByOther
    requires Shaped(Step(s, c, k)) && (c == h ==> Step(s, h, k).harts[h].log == s.harts[h].log)
    ensures NoWriter(Step(s, c, k), h, line)
  {
    if c == h { OwnStepTracks(s, k, h); } else { OtherStepTracks(s, c, k, h, line); }
    var s' := Step(s, c, k);
    OthersWait(s, c, k, if c == 0 then 1 else 0);
  }

  lemma TargetStays(s: State, c: nat, k: Choice, h: nat, t: nat, early: bool, log: seq<Event>)
    requires Fine(s) && CanStep(s, c, k) && TargetTracked(s, h, t, early, log)
    requires Shaped(Step(s, c, k)) && Step(s, c, k).harts[h].log == log
    ensures TargetTracked(Step(s, c, k), h, t, early, log)
  {
    NoWriterStays(s, c, k, h, 39);
    if c == h { OwnStepTracks(s, k, h); } else { OtherStepTracks(s, c, k, h, 39); }
  }

  lemma ScratchStays(s: State, c: nat, k: Choice, h: nat, x: nat, early: bool, log: seq<Event>)
    requires Fine(s) && CanStep(s, c, k) && ScratchTracked(s, h, x, early, log)
    requires Shaped(Step(s, c, k)) && Step(s, c, k).harts[h].log == log
    ensures ScratchTracked(Step(s, c, k), h, x, early, log)
  {
    NoWriterStays(s, c, k, h, 40);
    if c == h { OwnStepTracks(s, k, h); } else { OtherStepTracks(s, c, k, h, 40); }
  }

  lemma OthersWait(s: State, k: nat, choice: Choice, c: nat)
    requires CanStep(s, k, choice) && c < NUM_HARTS && c != k
    ensures Shaped(Step(s, k, choice)) && Step(s, k, choice).pcs == s.pcs[k := Step(s, k, choice).pcs[k]]
  {
  }

  lemma TrackedStays(s: State, s': State, h: nat, t: nat, x: nat, earlyT: bool, earlyX: bool, log: seq<Event>)
    requires Fine(s) && Steps(s, s') && Shaped(s') && h < NUM_HARTS && s'.harts[h].log == log
    ensures TargetTracked(s, h, t, earlyT, log) ==> TargetTracked(s', h, t, earlyT, log)
    ensures ScratchTracked(s, h, x, earlyX, log) ==> ScratchTracked(s', h, x, earlyX, log)
  {
    assert Watch(s);
    var c: nat, k: Choice :| CanStep(s, c, k) && s' == Step(s, c, k);
    if TargetTracked(s, h, t, earlyT, log) { TargetStays(s, c, k, h, t, earlyT, log); }
    if ScratchTracked(s, h, x, earlyX, log) { ScratchStays(s, c, k, h, x, earlyX, log); }
  }

  lemma LogStep(s: State, s': State, h: nat)
    requires Steps(s, s') && h < NUM_HARTS
    ensures Shaped(s) && Shaped(s') && |s.harts[h].log| <= |s'.harts[h].log|
    ensures |s.harts[h].log| == |s'.harts[h].log| ==> s'.harts[h].log == s.harts[h].log
  {
    assert Watch(s);
  }

  /** Where a start writes the line given of its own hart's data. */
  ghost predicate WritesAt(run: seq<State>, i: nat, c: nat, line: nat, h: nat, t: nat, x: nat) {
    && i + 1 < |run| && Shaped(run[i]) && Shaped(run[i + 1]) && c < NUM_HARTS && h < NUM_HARTS && h != c
    && run[i].pcs[c] == Start(line, h, t, x) && run[i + 1].pcs[c] != run[i].pcs[c]
  }

  lemma NoOtherOwner(s: State, c: nat, h: nat)
    requires Fine(s) && Shaped(s) && c < NUM_HARTS && h < NUM_HARTS && Holds(s.pcs[c], c) == h
    ensures forall k: nat :: k < NUM_HARTS && k != c && s.pcs[k].Start? && s.pcs[k].h == h ==> s.pcs[k].line == 27
  {
    FineAt(s, h, c);
    forall k: nat | k < NUM_HARTS && k != c && s.pcs[k].Start? && s.pcs[k].h == h ensures s.pcs[k].line == 27 {
      FineAt(s, h, k);
    }
  }

  lemma TargetWritten(run: seq<State>, i: nat, c: nat, h: nat, t: nat, x: nat)
    requires FreeRun(run) && WritesAt(run, i, c, 39, h, t, x)
    ensures run[i + 1].harts[h].log == run[i].harts[h].log
    ensures TargetTracked(run[i + 1], h, t, !Booted(run[i].pcs[h]), run[i].harts[h].log)
  {
    var k, choice := StepOf(run, i);
    if k != c { OthersWait(run[i], k, choice, c); }
    FineOnRuns(run, i);
    FineAt(run[i], h, c);
    NoOtherOwner(run[i], c, h);
    FineAt(run[i], c, h);
  }

  lemma ScratchWritten(run: seq<State>, i: nat, c: nat, h: nat, t: nat, x: nat)
    requires FreeRun(run) && WritesAt(run, i, c, 40, h, t, x)
    ensures run[i + 1].harts[h].log == run[i].harts[h].log
    ensures ScratchTracked(run[i + 1], h, x, run[i].pcs[h] == Boot(77), run[i].harts[h].log)
  {
    var k, choice := StepOf(run, i);
    if k != c { OthersWait(run[i], k, choice, c); }
    FineOnRuns(run, i);
    FineAt(run[i], h, c);
    NoOtherOwner(run[i], c, h);
    FineAt(run[i], c, h);
  }

  lemma {:induction false} LogGrows(run: seq<State>, i: nat, m: nat, h: nat)
    requires FreeRun(run) && i <= m < |run| && h < NUM_HARTS
    ensures Shaped(run[i]) && Shaped(run[m]) && |run[i].harts[h].log| <= |run[m].harts[h].log|
    ensures |run[i].harts[h].log| == |run[m].harts[h].log| ==> run[i].harts[h].log == run[m].harts[h].log
    decreases m - i
  {
    FineOnRuns(run, i);
    FineAt(run[i], h, h);
    if i < m {
      LogGrows(run, i, m - 1, h);
      assert Steps(run[m - 1], run[m - 1 + 1]);
      LogStep(run[m - 1], run[m], h);
    }
  }

  lemma {:induction false} TrackedOnRuns(run: seq<State>, i: nat, m: nat, h: nat, t: nat, x: nat, earlyT: bool,
      earlyX: bool, log: seq<Event>)
    requires FreeRun(run) && i <= m < |run| && h < NUM_HARTS
    requires Shaped(run[i]) && Shaped(run[m]) && run[i].harts[h].log == run[m].harts[h].log == log
    ensures TargetTracked(run[i], h, t, earlyT, log) ==> TargetTracked(run[m], h, t, earlyT, log)
    ensures ScratchTracked(run[i], h, x, earlyX, log) ==> ScratchTracked(run[m], h, x, earlyX, log)
    decreases m - i
  {
    if i < m {
      LogGrows(run, i, m - 1, h);
      LogGrows(run, m - 1, m, h);
      TrackedOnRuns(run, i, m - 1, h, t, x, earlyT, earlyX, log);
      assert Steps(run[m - 1], run[m - 1 + 1]);
      FineOnRuns(run, m - 1);
      TrackedStays(run[m - 1], run[m], h, t, x, earlyT, earlyX, log);
    }
  }

  /** A start of hart h by hart c writes its target in step i and its scratch value in step j, and in
      state m the handler has read both and nothing else has happened to h. In every run, the target
      handled is that of the start exactly if h had left its boot code in step i or the target is the
      0 that code writes; the scratch value exactly if h had written its own in step j or it is the 3
      that is written. */
  lemma HandledAsGivenIff(run: seq<State>, i: nat, j: nat, m: nat, c: nat, h: nat, t: nat, x: nat)
    requires FreeRun(run) && i < m && j < m < |run| && WritesAt(run, i, c, 39, h, t, x)
    requires WritesAt(run, j, c, 40, h, t, x)
    requires Shaped(run[m]) && run[m].pcs[h].Msip? && run[m].pcs[h].line == 99
    requires |run[m].harts[h].log| == |run[i].harts[h].log| == |run[j].harts[h].log|
    ensures run[m].pcs[h].t == t <==> Booted(run[i].pcs[h]) || t == 0
    ensures run[m].pcs[h].x == x <==> run[j].pcs[h] != Boot(77) || x == 3
  {
    var earlyT, earlyX, log := !Booted(run[i].pcs[h]), run[j].pcs[h] == Boot(77), run[i].harts[h].log;
    TargetWritten(run, i, c, h, t, x);
    ScratchWritten(run, j, c, h, t, x);
    LogGrows(run, i, m, h);
    LogGrows(run, j, m, h);
    TrackedOnRuns(run, i + 1, m, h, t, x, earlyT, earlyX, log);
    TrackedOnRuns(run, j + 1, m, h, t, x, earlyT, earlyX, log);
  }

  lemma {:induction false} BootedStays(run: seq<State>, n: nat, m: nat, h: nat)
    requires FreeRun(run) && n <= m < |run| && h < NUM_HARTS
    ensures Shaped(run[n]) && Shaped(run[m]) && (Booted(run[n].pcs[h]) ==> Booted(run[m].pcs[h]))
    decreases m - n
  {
    FineOnRuns(run, n);
    FineAt(run[n], h, h);
    if n < m {
      BootedStays(run, n, m - 1, h);
      assert Steps(run[m - 1], run[m - 1 + 1]);
      BootedStep(run[m - 1], run[m], h);
    }
  }

  lemma BootedStep(s: State, s': State, h: nat)
    requires Steps(s, s') && h < NUM_HARTS
    ensures Shaped(s) && Shaped(s') && (Booted(s.pcs[h]) ==> Booted(s'.pcs[h]))
  {
    assert Watch(s);
    var c: nat, k: Choice :| CanStep(s, c, k) && s' == Step(s, c, k);
    if c != h {
      OthersWait(s, c, k, h);
    }
  }

  /** So a start whose check of line 33 finds the hart booted is handled as given in every run. */
  lemma BootedIsHandledAsGiven(run: seq<State>, n: nat, i: nat, j: nat, m: nat, c: nat, h: nat, t: nat, x: nat)
    requires FreeRun(run) && n <= i < m && n <= j < m < |run| && WritesAt(run, i, c, 39, h, t, x)
    requires WritesAt(run, j, c, 40, h, t, x)
    requires Shaped(run[n]) && run[n].pcs[c] == Start(33, h, t, x) && Booted(run[n].pcs[h])
    requires Shaped(run[m]) && run[m].pcs[h].Msip? && run[m].pcs[h].line == 99
    requires |run[m].harts[h].log| == |run[i].harts[h].log| == |run[j].harts[h].log|
    ensures run[m].pcs[h].t == t && run[m].pcs[h].x == x
  {
    BootedStays(run, n, i, h);
    BootedStays(run, n, j, h);
    HandledAsGivenIff(run, i, j, m, c, h, t, x);
  }

  // ---------- A start that is lost ----------

  /** Hart 0 boots, then hart 1 writes its status. */
  function BootedTo(s: State, i: nat): State
    requires Shaped(s)
  {
    var d0 := if i >= 1 then s.harts[0].(status := Started) else s.harts[0];
    var d1 := if i >= 2 then d0.(scratch := 3) else d0;
    var d2 := if i >= 3 then d1.(target := 0) else d1;
    var e := if i >= 4 then s.harts[1].(status := Stopped) else s.harts[1];
    var pc := if i == 0 then Boot(76) else if i == 1 then Boot(77) else if i == 2 then Boot(78) else Idle;
    State(s.harts[0 := d2][1 := e], s.pcs[0 := pc][1 := if i >= 4 then Boot(77) else Boot(76)])
  }

  lemma BootingStep(s: State, i: nat)
    requires Init(s) && i < 4
    ensures BootedTo(s, 0) == s && FreeNext(BootedTo(s, i), BootedTo(s, i + 1))
  {
    var now, next, c := BootedTo(s, i), BootedTo(s, i + 1), if i < 3 then 0 else 1;
    assert CanStep(now, c, CallStop);
    var after := Step(now, c, CallStop);
    assert after.harts == next.harts && after.pcs == next.pcs;
    assert BootedTo(s, 0).harts == s.harts && BootedTo(s, 0).pcs == s.pcs;
  }

  /** Hart 1's data after i steps: eight of hart 0, which starts it, then two of its own boot code. */
  function RaceData(d: HartData, t: nat, x: nat, i: nat): HartData {
    var d3 := if i >= 2 && i < 8 then d.(locked := true, owner := 0) else d;
    var d4 := if i >= 4 then d3.(status := Starting, log := d.log + [CrossStart(t, x)]) else d3;
    var d5 := if i >= 5 then d4.(target := t) else d4;
    var d6 := if i >= 6 then d5.(scratch := x) else d5;
    var d7 := if i >= 7 then d6.(msip := true) else d6;
    var d9 := if i >= 9 then d7.(scratch := 3) else d7;
    if i >= 10 then d9.(target := 0) else d9
  }

  function RacePc(t: nat, x: nat, i: nat): Pc {
    if i == 0 || i >= 8 then Idle
    else Start(if i == 1 then 27 else if i == 2 then 33 else if i == 3 then 38 else if i == 4 then 39
        else if i == 5 then 40 else if i == 6 then 41 else 43, 1, t, x)
  }

  function Race(s: State, t: nat, x: nat, i: nat): State
    requires Shaped(s)
  {
    State(s.harts[1 := RaceData(s.harts[1], t, x, i)],
          s.pcs[0 := RacePc(t, x, i)][1 := if i < 9 then Boot(77) else if i == 9 then Boot(78) else Parked])
  }

  lemma RaceStep(s: State, t: nat, x: nat, i: nat)
    requires Shaped(s) && s.pcs[0] == Idle && s.pcs[1] == Boot(77) && BootOk(s.harts[1], 1, Boot(77)) && i < 10
    ensures var c, k := if i < 8 then 0 else 1, CallStart(1, t, x);
      CanStep(Race(s, t, x, i), c, k) && Step(Race(s, t, x, i), c, k) == Race(s, t, x, i + 1)
  {
    var c := if i < 8 then 0 else 1;
    var now, next := Race(s, t, x, i), Race(s, t, x, i + 1);
    assert CanStep(now, c, CallStart(1, t, x));
    var after := Step(now, c, CallStart(1, t, x));
    assert after.harts[1] == next.harts[1];
    assert after.harts == next.harts && after.pcs == next.pcs;
  }

  /** Hart 1, parked, takes its interrupt and reads what it was started with. */
  function Handling(s: State, i: nat): State
    requires Shaped(s)
  {
    var d := s.harts[1];
    var d2 := if i >= 2 then d.(locked := true, owner := 1) else d;
    var d3 := if i >= 3 then d2.(msip := false) else d2;
    var pc := if i == 0 then Parked else if i == 1 then Msip(83, true, 0, 0) else if i == 2 then Msip(85, true, 0, 0)
        else if i == 3 then Msip(87, true, 0, 0)
      else if i == 4 then Msip(92, true, 0, 0) else if i == 5 then Msip(97, true, d.target, 0)
          else Msip(99, true, d.target, d.scratch);
    State(s.harts[1 := d3], s.pcs[1 := pc])
  }

  lemma HandlingStep(s: State, i: nat)
    requires Shaped(s) && s.pcs[1] == Parked && i < 6
    requires s.harts[1].msip && !s.harts[1].locked && s.harts[1].status == Starting
    ensures Handling(s, 0) == s && FreeNext(Handling(s, i), Handling(s, i + 1))
  {
    var now, next := Handling(s, i), Handling(s, i + 1);
    assert CanStep(now, 1, Interrupt);
    var after := Step(now, 1, Interrupt);
    assert after.harts[1] == next.harts[1];
    assert after.harts == next.harts && after.pcs == next.pcs;
    assert Handling(s, 0).harts == s.harts && Handling(s, 0).pcs == s.pcs;
  }

  function LostRun(s: State, t: nat, x: nat): seq<State>
    requires Shaped(s)
  {
    var raced := Race(BootedTo(s, 4), t, x, 10);
    seq(4, i requires i >= 0 => BootedTo(s, i)) + seq(10, i requires i >= 0 => Race(BootedTo(s, 4), t, x, i))
    + seq(7, i requires i >= 0 => Handling(raced, i))
  }

  /** From every initial state there is a run in which hart 1, started by hart 0 with target t and
      scratch x, handles the start with target 0 and scratch 3 instead. */
  lemma StartIsLost(s: State, t: nat, x: nat)
    requires Init(s)
    ensures var run := LostRun(s, t, x);
      && FreeRun(run) && run[0] == s
      && run[20].harts[1].log == [CrossStart(t, x)] && run[20].pcs[1] == Msip(99, true, 0, 3)
  {
    var run, b := LostRun(s, t, x), BootedTo(s, 4);
    var raced := Race(b, t, x, 10);
    BootingStep(s, 0);
    assert BootOk(s.harts[1], 1, Boot(76));
    RacedState(s, t, x);
    HandlingStep(raced, 0);
    forall i | 0 <= i < 20 ensures FreeNext(run[i], run[i + 1]) {
      if i < 4 {
        BootingStep(s, i);
      } else if i < 14 {
        RaceStep(b, t, x, i - 4);
      } else {
        HandlingStep(raced, i - 14);
      }
    }
  }

  lemma RacedState(s: State, t: nat, x: nat)
    requires Init(s)
    ensures var b := BootedTo(s, 4);
      && b.pcs[0] == Idle && b.pcs[1] == Boot(77)
      && BootOk(b.harts[1], 1, Boot(77)) && Race(b, t, x, 0) == b
    ensures var d := Race(BootedTo(s, 4), t, x, 10);
      && d.pcs[1] == Parked && d.harts[1].msip && !d.harts[1].locked && d.harts[1].status == Starting
      && d.harts[1].target == 0 && d.harts[1].scratch == 3 && d.harts[1].log == [CrossStart(t, x)]
  {
    assert BootOk(s.harts[1], 1, Boot(76));
    var b := BootedTo(s, 4);
    assert Race(b, t, x, 0).harts == b.harts && Race(b, t, x, 0).pcs == b.pcs;
  }
}
