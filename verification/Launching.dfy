/** The scheduler's launches as starts in the firmware: src/schedule.c:218 calls hart_start through
    src/sbi.c:36-47 and sbi/src/svccall.c:36-41. */
module Launching {
  import HartScheduling
  import HartBoot
  import Hart

  /** In step m of the firmware's run, hart h fails to take its own lock in hart_start, or to pass the
      check of its own status. */
  ghost predicate TurnedDown(run: seq<Hart.State>, m: nat, h: nat) {
    && m + 1 < |run| && Hart.Shaped(run[m]) && Hart.Shaped(run[m + 1]) && h < Hart.NUM_HARTS
    && run[m].pcs[h].Start? && run[m].pcs[h].h == h
    && (run[m].pcs[h].line == 27 || run[m].pcs[h].line == 33)
    && (if run[m].pcs[h].line == 27 then run[m + 1].pcs[h] == Hart.Idle
        else run[m + 1].pcs[h].Start? && run[m + 1].pcs[h].line == 34)
  }

  /** No hart is being started by another one from moment `from` on, as after src/main.c:108-110. */
  ghost predicate OwnStartsOnly(run: seq<Hart.State>, from: nat) {
    forall m: nat, k: nat {:trigger OwnStart(run, m, k)} :: from <= m < |run| ==> OwnStart(run, m, k)
  }

  ghost predicate OwnStart(run: seq<Hart.State>, m: nat, k: nat)
    requires m < |run|
  {
    Hart.Shaped(run[m]) && k < Hart.NUM_HARTS && run[m].pcs[k].Start? ==> run[m].pcs[k].h == k
  }

  ghost predicate TurnedDownFrom(run: seq<Hart.State>, from: nat, h: nat) {
    exists m: nat :: from <= m && TurnedDown(run, m, h)
  }

  /** Whenever the launch of a process other than an idle one fails, its hart was turned down, at a moment
      when there are such processes. */
  ghost predicate LaunchesAreStarts(run: seq<HartScheduling.State>, starts: seq<Hart.State>, from: nat) {
    forall j: nat, h: nat, p: nat {:trigger HartScheduling.FailedAt(run, j, h, p)} ::
      HartScheduling.FailedAt(run, j, h, p) ==> TurnedDownFrom(starts, from, h)
  }

  lemma OwnLocksOnly(run: seq<Hart.State>, from: nat, m: nat, h: nat)
    requires OwnStartsOnly(run, from) && from <= m < |run| && Hart.Shaped(run[m]) && h < Hart.NUM_HARTS
    ensures forall j: nat ::
        j < Hart.NUM_HARTS && run[m].pcs[j].Start? && Hart.Holds(run[m].pcs[j], j) == h ==> j == h
  {
    forall j: nat | j < Hart.NUM_HARTS && run[m].pcs[j].Start? && Hart.Holds(run[m].pcs[j], j) == h ensures j == h {
      assert OwnStart(run, m, j);
    }
  }

  lemma OwnStartsPass(run: seq<Hart.State>, from: nat, m: nat, h: nat)
    requires HartBoot.FreeRun(run) && OwnStartsOnly(run, from) && from <= m
    ensures !TurnedDown(run, m, h)
  {
    if TurnedDown(run, m, h) {
      OwnLocksOnly(run, from, m, h);
      var c, k := HartBoot.StepOf(run, m);
      if c != h {
        HartBoot.OthersWait(run[m], c, k, h);
      } else {
        HartBoot.OwnStartFailsIff(run, m, h, k);
      }
    }
  }

  /** So no launch of such a process fails, and no process is ever stranded. */
  lemma NoneStranded(run: seq<HartScheduling.State>, starts: seq<Hart.State>, from: nat, i: nat, p: nat)
    requires HartScheduling.Run(run) && i < |run|
    requires HartBoot.FreeRun(starts) && OwnStartsOnly(starts, from) && LaunchesAreStarts(run, starts, from)
    ensures HartScheduling.Shaped(run[i]) && !HartScheduling.Stranded(run[i], p)
  {
    HartScheduling.StrandedIffFailed(run, i, p);
    if HartScheduling.Stranded(run[i], p) {
      var j: nat, h: nat :| j < i && HartScheduling.FailedAt(run, j, h, p);
      var m: nat :| from <= m && TurnedDown(starts, m, h);
      OwnStartsPass(starts, from, m, h);
    }
  }
}
