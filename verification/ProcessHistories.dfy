/** What becomes of a process along a run of HartScheduling: the time it is charged for, how long it
    sleeps, and that it never runs again once it is dead. */
module ProcessHistories {
  import opened Machine
  import opened Schedule
  import opened HartScheduling

  // ---------- Steps of other harts ----------

  /** A step changes, besides the list, no process but the one its hart works on. */
  lemma StepSpares(s: State, k: nat, c: Choice, p: nat)
    requires CanStep(s, k, c) && p in s.procs && p != Local(s.pcs[k]) && p != s.current[k]
    ensures var s' := HartStep(s, k, c); p in s'.procs && s'.procs[p] == s.procs[p]
  {
  }

  /** A hart comes to hold a process other than an idle one only by popping it. */
  lemma TakesOnlyPopped(s: State, k: nat, c: Choice, p: nat)
    requires Inv(s) && k < NUM_HARTS && CanStep(s, k, c) && !Held(s, k, p) && Listable(s.procs, p)
    requires Held(HartStep(s, k, c), k, p)
    ensures s.pcs[k] == Pop && Popped(s.procs, s.list, c.now) == p && HartStep(s, k, c).pcs[k] == Launch(209, p)
  {
    assert Unfold(s);
    assert HartOk(s, k);
  }

  /** The console touches no process that it is not building. */
  lemma SpawnSpares(s: State, s': State, q: nat, pid: nat, p: nat)
    requires Inv(s) && Spawns(s, s', q, pid) && p in s.procs && p !in s.nursery
    ensures Shaped(s') && p in s'.procs && s'.procs[p] == s.procs[p] && p !in s'.nursery
    ensures forall k: nat :: Held(s', k, p) <==> Held(s, k, p)
  {
    assert Unfold(s);
  }

  lemma NextIs(run: seq<State>, i: nat)
    requires Run(run) && i + 1 < |run|
    ensures Inv(run[i]) && Inv(run[i + 1]) && Next(run[i], run[i + 1])
    ensures Shaped(run[i]) && Shaped(run[i + 1])
  {
    InvOnRuns(run, i);
    InvOnRuns(run, i + 1);
    assert NextAt(run, i);
  }

  // ---------- The time charged ----------

  /** The hart runs the process, or traps on its behalf, and has not charged it yet. */
  predicate Serving(pc: Pc) {
    match pc
    case User => true
    case Launch(line, _) => line == 218
    case Park(line, _, _) => line in {225, 233, 235}
    case Kill(_, _) => true
    case SleepUntil(_, _) => true
    case _ => false
  }

  ghost predicate Serves(s: State, h: nat, p: nat)
    requires Shaped(s)
  {
    h < NUM_HARTS && p != NULL && s.current[h] == p && Serving(s.pcs[h])
  }

  ghost predicate SameClock(s: State, s': State, p: nat) {
    p in s.procs && p in s'.procs && s'.procs[p].vruntime == s.procs[p].vruntime
    && s'.procs[p].starttime == s.procs[p].starttime
  }

  /** A hart comes to serve a process by line 215 only, and serving changes neither of its times. */
  lemma OwnService(s: State, h: nat, c: Choice, p: nat)
    requires Inv(s) && h < NUM_HARTS && CanStep(s, h, c) && Shaped(HartStep(s, h, c)) && Serves(HartStep(s, h, c), h, p)
    ensures s.pcs[h] != Launch(215, p) ==> Serves(s, h, p) && SameClock(s, HartStep(s, h, c), p)
  {
    assert Unfold(s);
    assert HartOk(s, h);
    assert HeldOk(s, h, s.current[h]);
  }

  lemma OthersService(s: State, k: nat, c: Choice, h: nat, p: nat)
    requires Inv(s) && k < NUM_HARTS && h < NUM_HARTS && h != k && CanStep(s, k, c) && Shaped(s) && Serves(s, h, p)
    ensures SameClock(s, HartStep(s, k, c), p)
  {
    assert Unfold(s);
    assert Held(s, h, p) && HeldOk(s, h, p) && !Held(s, k, p);
    LocalIsHeld(s, k, p);
    StepSpares(s, k, c, p);
  }

  lemma LocalIsHeld(s: State, k: nat, p: nat)
    requires Shaped(s) && k < NUM_HARTS && p != NULL && !Held(s, k, p)
    ensures p != Local(s.pcs[k]) && p != s.current[k]
  {
  }

  lemma ServiceStep(s: State, s': State, h: nat, p: nat)
    requires Inv(s) && Next(s, s') && Shaped(s) && Shaped(s') && Serves(s', h, p) && s.pcs[h] != Launch(215, p)
    ensures Serves(s, h, p) && SameClock(s, s', p)
  {
    assert Unfold(s);
    if k: nat, c: Choice :| HartSteps(s, s', k, c) {
      if k == h {
        OwnService(s, h, c, p);
      } else {
        OtherHartsWait(s, k, c, h);
        OthersService(s, k, c, h, p);
      }
    } else {
      var q: nat, pid: nat :| Spawns(s, s', q, pid);
      assert Held(s, h, p) && HeldOk(s, h, p);
      SpawnSpares(s, s', q, pid, p);
    }
  }

  /** In step i hart h records the time at which it starts process p. */
  ghost predicate StartsAt(run: seq<State>, i: nat, h: nat, p: nat, c: Choice) {
    && i + 1 < |run| && HartSteps(run[i], run[i + 1], h, c) && Shaped(run[i]) && run[i].pcs[h] == Launch(215, p)
  }

  /** In step j hart h charges process p, which it is about to park. */
  ghost predicate ChargesAt(run: seq<State>, j: nat, h: nat, p: nat, c: Choice) {
    && j + 1 < |run| && HartSteps(run[j], run[j + 1], h, c) && Shaped(run[j])
    && run[j].pcs[h].Park? && run[j].pcs[h].line == 235 && run[j].pcs[h].p == p
  }

  /** From moment i on, before m, hart h records no start of p. */
  ghost predicate NoStart(run: seq<State>, i: nat, m: nat, h: nat, p: nat) {
    forall x :: i < x < m && x < |run| ==> h < |run[x].pcs| && run[x].pcs[h] != Launch(215, p)
  }

  lemma {:induction false} ServedSince(run: seq<State>, i: nat, m: nat, h: nat, p: nat, c: Choice)
    requires Run(run) && StartsAt(run, i, h, p, c) && i < m < |run| && NoStart(run, i, m, h, p)
    ensures Shaped(run[m]) && p in run[i].procs
    ensures Serves(run[m], h, p) ==>
      p in run[m].procs && run[m].procs[p].vruntime == run[i].procs[p].vruntime && run[m].procs[p].starttime == c.now
    decreases m - i
  {
    NextIs(run, m - 1);
    if m > i + 1 {
      ServedSince(run, i, m - 1, h, p, c);
      if Serves(run[m], h, p) { ServiceStep(run[m - 1], run[m], h, p); }
    }
  }

  /** A process is charged for exactly the time between the start a hart recorded and the parking that
      ends it, whatever the other harts do meanwhile; no other field of it changes. */
  lemma ChargedForItsTime(run: seq<State>, i: nat, j: nat, h: nat, p: nat, c0: Choice, c1: Choice)
    requires Run(run) && i < j && StartsAt(run, i, h, p, c0) && ChargesAt(run, j, h, p, c1) && NoStart(run, i, j, h, p)
    requires c0.now <= c1.now && p in run[i].procs && run[i].procs[p].vruntime + (c1.now - c0.now) < WORD_LIMIT
    ensures p in run[j].procs && p in run[j + 1].procs
    ensures run[j + 1].procs[p]
      == run[j].procs[p].(vruntime := run[i].procs[p].vruntime + (c1.now - c0.now), starttime := c0.now)
    ensures run[j].procs[p].starttime == c0.now
  {
    NextIs(run, j);
    var s := run[j];
    assert Unfold(s);
    assert HartOk(s, h);
    assert Held(s, h, p) && HeldOk(s, h, p);
    ServedSince(run, i, j, h, p, c0);
    ChargeIs(s.procs[p], c1.now);
  }

  /** Nothing but such a parking changes what a process has been charged for. */
  lemma OnlyParkingCharges(s: State, s': State, p: nat)
    requires Inv(s) && Next(s, s') && p in s.procs && p in s'.procs && s'.procs[p].vruntime != s.procs[p].vruntime
    ensures exists h: nat, c: Choice ::
      HartSteps(s, s', h, c) && s.pcs[h].Park? && s.pcs[h].line == 235 && s.pcs[h].p == p
  {
    assert Unfold(s);
    if h: nat, c: Choice :| HartSteps(s, s', h, c) {
      if p != Local(s.pcs[h]) && p != s.current[h] {
        StepSpares(s, h, c, p);
      }
      assert HartOk(s, h);
    }
  }

  // ---------- Sleep ----------

  /** p is asleep until `wake`: harts that hold it are about to park it, and once parked it is marked as
      on no hart. */
  ghost predicate Asleep(s: State, p: nat, wake: nat) {
    && Shaped(s) && Listable(s.procs, p) && p !in s.nursery
    && s.procs[p].state == Sleeping && s.procs[p].sleepUntil == wake
    && (forall k: nat :: Held(s, k, p) ==> s.pcs[k].Park?)
    && (!HeldBySome(s, p) ==> s.procs[p].onHart == -1)
  }

  /** Hart k takes p off the list to run it. */
  ghost predicate Takes(s: State, s': State, k: nat, p: nat) {
    && k < NUM_HARTS && Shaped(s) && Shaped(s') && s.pcs[k] == Pop && s'.pcs[k] == Launch(209, p)
  }

  /** Whenever a hart could have taken it in this step, it was at or after `wake`. */
  ghost predicate TakesInTime(s: State, s': State, k: nat, p: nat, wake: nat) {
    Takes(s, s', k, p) && forall c: Choice :: HartSteps(s, s', k, c) ==> wake <= c.now
  }

  lemma SleeperParks(s: State, k: nat, c: Choice, p: nat, wake: nat)
    requires Inv(s) && k < NUM_HARTS && CanStep(s, k, c) && Asleep(s, p, wake) && Held(s, k, p)
    ensures Asleep(HartStep(s, k, c), p, wake)
  {
    assert Unfold(s);
    assert HartOk(s, k) && HeldOk(s, k, p);
    var s' := HartStep(s, k, c);
    forall j: nat ensures Held(s', j, p) ==> j == k {
      if j != k && j < NUM_HARTS { assert !Held(s, j, p); OtherHartsWait(s, k, c, j); }
    }
    assert s.pcs[k].line != 239 ==> Held(s', k, p);
  }

  lemma SleeperLeft(s: State, k: nat, c: Choice, p: nat, wake: nat)
    requires Inv(s) && k < NUM_HARTS && CanStep(s, k, c) && Asleep(s, p, wake) && !Held(s, k, p)
    requires !Held(HartStep(s, k, c), k, p)
    ensures Asleep(HartStep(s, k, c), p, wake)
  {
    assert Unfold(s);
    var s' := HartStep(s, k, c);
    LocalIsHeld(s, k, p);
    StepSpares(s, k, c, p);
    forall j: nat ensures Held(s', j, p) <==> Held(s, j, p) {
      if j != k && j < NUM_HARTS { OtherHartsWait(s, k, c, j); }
    }
    forall j: nat | Held(s', j, p) ensures s'.pcs[j].Park? {
      OtherHartsWait(s, k, c, j);
    }
    if !HeldBySome(s', p) {
      forall j: nat ensures !Held(s, j, p) { assert !Held(s', j, p); }
    }
  }

  lemma PopsInTime(s: State, s': State, k: nat, p: nat, wake: nat)
    requires Inv(s) && Asleep(s, p, wake) && Takes(s, s', k, p)
    ensures TakesInTime(s, s', k, p, wake)
  {
    assert Unfold(s);
    forall c: Choice | HartSteps(s, s', k, c) ensures wake <= c.now {
      PopIsLeast(s.procs, s.list, c.now);
      assert p != s.idle[k];
    }
  }

  /** A sleeper stays asleep until a hart takes it, which none does before its time. */
  lemma SleepStep(s: State, s': State, p: nat, wake: nat)
    requires Inv(s) && Next(s, s') && Shaped(s) && Shaped(s') && Asleep(s, p, wake)
    ensures Asleep(s', p, wake) || Wakes(s, s', p, wake)
  {
    assert Unfold(s);
    if k: nat, c: Choice :| HartSteps(s, s', k, c) {
      if Held(s, k, p) {
        SleeperParks(s, k, c, p, wake);
      } else if Held(s', k, p) {
        TakesOnlyPopped(s, k, c, p);
        PopsInTime(s, s', k, p, wake);
      } else {
        SleeperLeft(s, k, c, p, wake);
      }
    } else {
      var q: nat, pid: nat :| Spawns(s, s', q, pid);
      SpawnSpares(s, s', q, pid, p);
      SpawnLeavesPcs(s, s', q, pid, p);
    }
  }

  lemma SpawnLeavesPcs(s: State, s': State, q: nat, pid: nat, p: nat)
    requires Shaped(s) && Spawns(s, s', q, pid) && Shaped(s')
    requires forall k: nat :: Held(s', k, p) <==> Held(s, k, p)
    ensures s'.pcs == s.pcs && (HeldBySome(s', p) <==> HeldBySome(s, p))
  {
  }

  /** In step i process p, no idle one, goes to sleep until `wake`. */
  ghost predicate FallsAsleep(run: seq<State>, i: nat, h: nat, p: nat, wake: nat) {
    && i + 1 < |run| && Shaped(run[i]) && Listable(run[i].procs, p)
    && exists c: Choice :: HartSteps(run[i], run[i + 1], h, c) && run[i].pcs[h].SleepUntil? && run[i].pcs[h].p == p
         && wake == (c.now + run[i].pcs[h].ticks) % WORD_LIMIT
  }

  /** Some hart takes p, not before `wake`. */
  ghost predicate Wakes(s: State, s': State, p: nat, wake: nat) {
    exists k: nat :: TakesInTime(s, s', k, p, wake)
  }

  ghost predicate WokenAt(run: seq<State>, m: nat, p: nat, wake: nat) {
    m + 1 < |run| && Wakes(run[m], run[m + 1], p, wake)
  }

  ghost predicate WokenBetween(run: seq<State>, i: nat, j: nat, p: nat, wake: nat) {
    exists m: nat :: i < m < j && WokenAt(run, m, p, wake)
  }

  lemma SleepBegins(run: seq<State>, i: nat, h: nat, p: nat, wake: nat)
    requires Run(run) && FallsAsleep(run, i, h, p, wake) && i + 1 < |run|
    ensures Asleep(run[i + 1], p, wake)
  {
    NextIs(run, i);
    var s, s' := run[i], run[i + 1];
    assert Unfold(s);
    var c: Choice :| HartSteps(s, s', h, c) && wake == (c.now + s.pcs[h].ticks) % WORD_LIMIT;
    assert HartOk(s, h);
    assert Held(s, h, p) && HeldOk(s, h, p);
    assert Sleeps(s, h) by { SleepingState(run, i, h); }
    forall j: nat | j != h ensures !Held(s', j, p) { assert !Held(s, j, p); }
    assert Held(s', h, p);
  }

  /** The state written by line 136 of src/syscall.c is still there when its time is. */
  ghost predicate Sleeps(s: State, h: nat)
    requires Shaped(s) && h < NUM_HARTS
  {
    s.pcs[h].SleepUntil? ==> s.pcs[h].p in s.procs && s.procs[s.pcs[h].p].state == Sleeping
  }

  lemma {:induction false} SleepingState(run: seq<State>, i: nat, h: nat)
    requires Run(run) && i < |run| && h < NUM_HARTS
    ensures Shaped(run[i]) && Sleeps(run[i], h)
  {
    InvOnRuns(run, i);
    assert Unfold(run[i]);
    if i > 0 {
      SleepingState(run, i - 1, h);
      NextIs(run, i - 1);
      SleepsOn(run[i - 1], run[i], h);
    }
  }

  lemma SleepsOn(s: State, s': State, h: nat)
    requires Inv(s) && Next(s, s') && Shaped(s) && Shaped(s') && h < NUM_HARTS && Sleeps(s, h)
    ensures Sleeps(s', h)
  {
    assert Unfold(s);
    var p := Local(s'.pcs[h]);
    if s'.pcs[h].SleepUntil? {
      if k: nat, c: Choice :| HartSteps(s, s', k, c) {
        if k != h {
          OtherHartsWait(s, k, c, h);
          assert HartOk(s, h);
          assert Held(s, h, p) && HeldOk(s, h, p) && !Held(s, k, p);
          LocalIsHeld(s, k, p);
          StepSpares(s, k, c, p);
        }
      } else {
        var q: nat, pid: nat :| Spawns(s, s', q, pid);
        assert HartOk(s, h);
        assert Held(s, h, p) && HeldOk(s, h, p);
        SpawnSpares(s, s', q, pid, p);
      }
    }
  }

  /** In every run, a process that went to sleep stays asleep until a hart takes it at its time or later:
      no hart takes it before. */
  lemma {:induction false} SleepsUntilTaken(run: seq<State>, i: nat, j: nat, h: nat, p: nat, wake: nat)
    requires Run(run) && FallsAsleep(run, i, h, p, wake) && i < j < |run|
    ensures Asleep(run[j], p, wake) || WokenBetween(run, i, j, p, wake)
    decreases j - i
  {
    if j == i + 1 {
      SleepBegins(run, i, h, p, wake);
    } else {
      SleepsUntilTaken(run, i, j - 1, h, p, wake);
      NextIs(run, j - 1);
      if Asleep(run[j - 1], p, wake) {
        SleepStep(run[j - 1], run[j], p, wake);
        assert Asleep(run[j], p, wake) || WokenAt(run, j - 1, p, wake);
      }
    }
  }

  /** Once parked, a sleeper is on the list, and ready exactly from its time on. */
  lemma SleeperIsReadyIff(run: seq<State>, i: nat, p: nat, wake: nat, now: nat)
    requires Run(run) && i < |run| && Asleep(run[i], p, wake) && !HeldBySome(run[i], p)
    ensures p in run[i].list && (Ready(run[i], p, now) <==> wake <= now)
  {
    InvOnRuns(run, i);
    assert Unfold(run[i]);
    assert Kept(run[i], p);
  }

  // ---------- Death ----------

  /** p is dead: the harts that hold it only list it, park it or free it. */
  ghost predicate Doomed(s: State, p: nat) {
    && Shaped(s) && p in s.procs && p !in s.nursery && Listable(s.procs, p) && s.procs[p].state == Dead
    && forall k: nat :: Held(s, k, p) ==> s.pcs[k].Park? || s.pcs[k].Leave? || (s.pcs[k].Kill? && s.pcs[k].line == 44)
  }

  lemma DoomedHolder(s: State, k: nat, c: Choice, p: nat)
    requires Inv(s) && k < NUM_HARTS && CanStep(s, k, c) && Doomed(s, p) && Held(s, k, p)
    ensures Doomed(HartStep(s, k, c), p) || p !in HartStep(s, k, c).procs
  {
    assert Unfold(s);
    assert HartOk(s, k) && HeldOk(s, k, p);
    var s' := HartStep(s, k, c);
    forall j: nat ensures Held(s', j, p) ==> j == k {
      if j != k && j < NUM_HARTS { assert !Held(s, j, p); OtherHartsWait(s, k, c, j); }
    }
  }

  lemma DoomedLeft(s: State, k: nat, c: Choice, p: nat)
    requires Inv(s) && k < NUM_HARTS && CanStep(s, k, c) && Doomed(s, p) && !Held(s, k, p)
    ensures Doomed(HartStep(s, k, c), p)
  {
    assert Unfold(s);
    var s' := HartStep(s, k, c);
    if Held(s', k, p) {
      TakesOnlyPopped(s, k, c, p);
      PopIsLeast(s.procs, s.list, c.now);
    }
    LocalIsHeld(s, k, p);
    StepSpares(s, k, c, p);
    forall j: nat | Held(s', j, p) ensures Held(s, j, p) && s'.pcs[j] == s.pcs[j] {
      OtherHartsWait(s, k, c, j);
    }
  }

  lemma DoomedStep(s: State, s': State, p: nat)
    requires Inv(s) && Next(s, s') && Shaped(s) && Shaped(s') && Doomed(s, p)
    ensures Doomed(s', p) || p !in s'.procs
  {
    assert Unfold(s);
    if k: nat, c: Choice :| HartSteps(s, s', k, c) {
      if Held(s, k, p) { DoomedHolder(s, k, c, p); } else { DoomedLeft(s, k, c, p); }
    } else {
      var q: nat, pid: nat :| Spawns(s, s', q, pid);
      SpawnSpares(s, s', q, pid, p);
      SpawnLeavesPcs(s, s', q, pid, p);
    }
  }

  /** In step i process p exits, or is killed for a fault. */
  ghost predicate DiesAt(run: seq<State>, i: nat, h: nat, p: nat) {
    && i + 1 < |run| && Shaped(run[i]) && Shaped(run[i + 1]) && h < NUM_HARTS && p != NULL && Listable(run[i].procs, p)
    && ((run[i].pcs[h] == Kill(43, p) && run[i + 1].pcs[h] != run[i].pcs[h])
        || (run[i].pcs[h] == User && run[i].current[h] == p && run[i + 1].pcs[h] == Park(225, NULL, p)))
  }

  lemma DeathDooms(run: seq<State>, i: nat, h: nat, p: nat)
    requires Run(run) && DiesAt(run, i, h, p) && i + 1 < |run|
    ensures Doomed(run[i + 1], p)
  {
    NextIs(run, i);
    var s, s' := run[i], run[i + 1];
    assert Unfold(s);
    MovesByStep(s, s');
    var k: nat, c: Choice :| HartSteps(s, s', k, c);
    if k != h { OtherHartsWait(s, k, c, h); }
    assert k == h;
    assert HartOk(s, h);
    assert Held(s, h, p) && HeldOk(s, h, p);
    forall j: nat | j != h ensures !Held(s', j, p) {
      if j < NUM_HARTS { assert !Held(s, j, p); OtherHartsWait(s, h, c, j); }
    }
  }

  /** Harts move by their own steps only. */
  lemma MovesByStep(s: State, s': State)
    requires Next(s, s')
    ensures s'.pcs == s.pcs || exists k: nat, c: Choice :: HartSteps(s, s', k, c)
  {
  }

  ghost predicate FreedBetween(run: seq<State>, i: nat, j: nat, p: nat) {
    exists m: nat :: i < m <= j < |run| && p !in run[m].procs
  }

  /** In every run, a process that exited or was killed never runs again: until its memory is freed no
      hart runs it and it is never ready. */
  lemma {:induction false} DeadNeverRuns(run: seq<State>, i: nat, j: nat, h: nat, p: nat)
    requires Run(run) && DiesAt(run, i, h, p) && i < j < |run|
    ensures FreedBetween(run, i, j, p) || Doomed(run[j], p)
    ensures Doomed(run[j], p) ==> forall now :: !Ready(run[j], p, now)
    ensures Doomed(run[j], p) ==> forall k: nat :: k < NUM_HARTS && run[j].pcs[k] == User ==> run[j].current[k] != p
    decreases j - i
  {
    if j == i + 1 {
      DeathDooms(run, i, h, p);
    } else {
      DeadNeverRuns(run, i, j - 1, h, p);
      NextIs(run, j - 1);
      if Doomed(run[j - 1], p) {
        DoomedStep(run[j - 1], run[j], p);
      } else {
        var m: nat :| i < m <= j - 1 < |run| && p !in run[m].procs;
      }
    }
    if Doomed(run[j], p) {
      forall k: nat | k < NUM_HARTS && run[j].pcs[k] == User ensures run[j].current[k] != p {
        assert run[j].current[k] == p ==> Held(run[j], k, p);
      }
    }
  }
}
