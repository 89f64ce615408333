/** The semaphore and the barrier of sbi/src/lock.c (src/lock.c is the same code), as interleaved
    atomic steps of any number of harts, in 32-bit arithmetic. The mutex is part of module Hart. */
module Locks {
  const INT32_MAX: int := 0x7fff_ffff

  /** What a 32-bit signed word holds after an atomic add. */
  function Wrap(a: int): int {
    (a + 0x8000_0000) % 0x1_0000_0000 - 0x8000_0000
  }

  /** How many elements of s equal x. */
  function Count<T(==)>(s: seq<T>, x: T): (n: nat)
    ensures n <= |s|
  {
    if s == [] then 0 else (if s[0] == x then 1 else 0) + Count(s[1..], x)
  }

  lemma {:induction false} CountUpdate<T>(s: seq<T>, i: nat, y: T, x: T)
    requires i < |s|
    ensures Count(s[i := y], x) == Count(s, x) - (if s[i] == x then 1 else 0) + (if y == x then 1 else 0)
  {
    if i > 0 {
      assert s[i := y][1..] == s[1..][i - 1 := y];
      CountUpdate(s[1..], i - 1, y, x);
    } else {
      assert s[i := y][1..] == s[1..];
    }
  }

  lemma {:induction false} CountTwo<T>(s: seq<T>, x: T, y: T)
    requires x != y
    ensures Count(s, x) + Count(s, y) <= |s|
  {
    if s != [] { CountTwo(s[1..], x, y); }
  }

  // ---------- The semaphore ----------

  /** Outside; about to undo a failed trydown; holding a unit. */
  datatype User = Outside | Undoing | Holding

  datatype Semaphore = Semaphore(value: int, users: seq<User>)

  /** The atomic add of semaphore_trydown by user i, which succeeds if the old value was positive. */
  function TryDown(s: Semaphore, i: nat): Semaphore
    requires i < |s.users|
  {
    Semaphore(Wrap(s.value - 1), s.users[i := if s.value <= 0 then Undoing else Holding])
  }

  /** semaphore_up, by a user undoing a failed trydown or giving up its unit. */
  function Up(s: Semaphore, i: nat): Semaphore
    requires i < |s.users|
  {
    Semaphore(Wrap(s.value + 1), s.users[i := Outside])
  }

  ghost predicate SemaphoreStep(s: Semaphore, s': Semaphore, i: nat) {
    && i < |s.users|
    && if s.users[i] == Outside then s' == TryDown(s, i) else s' == Up(s, i)
  }

  ghost predicate SemaphoreNext(s: Semaphore, s': Semaphore) {
    exists i: nat :: SemaphoreStep(s, s', i)
  }

  /** Units held, units a failed trydown still owes, and the value add up to the initial value. */
  ghost predicate SemaphoreOk(s: Semaphore, init: int) {
    && s.value + Count(s.users, Holding) + Count(s.users, Undoing) == init
    && Count(s.users, Holding) <= init
  }

  /** An initial value that cannot make the arithmetic wrap around. */
  ghost predicate Sized(s: Semaphore, init: int) {
    0 <= init <= INT32_MAX && |s.users| <= INT32_MAX
  }

  lemma SemaphoreKeepsUnits(s: Semaphore, s': Semaphore, i: nat, init: int)
    requires Sized(s, init) && SemaphoreOk(s, init) && SemaphoreStep(s, s', i)
    ensures Sized(s', init) && SemaphoreOk(s', init)
  {
    var u := if s.users[i] != Outside then Outside else if s.value <= 0 then Undoing else Holding;
    CountUpdate(s.users, i, u, Holding);
    CountUpdate(s.users, i, u, Undoing);
    CountTwo(s.users, Holding, Undoing);
    CountTwo(s'.users, Holding, Undoing);
  }

  ghost predicate SemaphoreRun(run: seq<Semaphore>, init: int) {
    && |run| > 0 && Sized(run[0], init) && run[0].value == init
    && (forall i :: 0 <= i < |run[0].users| ==> run[0].users[i] == Outside)
    && forall k :: 0 <= k < |run| - 1 ==> SemaphoreNext(run[k], run[k + 1])
  }

  lemma {:induction false} CountNone<T>(s: seq<T>, x: T)
    requires forall i :: 0 <= i < |s| ==> s[i] != x
    ensures Count(s, x) == 0
  {
    if s != [] { CountNone(s[1..], x); }
  }

  /** At every moment of every run, value, holders and pending undos add up to the initial value, and
      there are never more holders than that. */
  lemma {:induction false} HoldersNeverExceed(run: seq<Semaphore>, init: int, k: nat)
    requires SemaphoreRun(run, init) && k < |run|
    ensures Sized(run[k], init) && SemaphoreOk(run[k], init)
  {
    if k == 0 {
      CountNone(run[0].users, Holding);
      CountNone(run[0].users, Undoing);
    } else {
      HoldersNeverExceed(run, init, k - 1);
      assert SemaphoreNext(run[k - 1], run[k - 1 + 1]);
      var i: nat :| SemaphoreStep(run[k - 1], run[k], i);
      SemaphoreKeepsUnits(run[k - 1], run[k], i, init);
    }
  }

  /** A trydown succeeds exactly if the units held and the undos still pending leave a unit free: an
      undo still pending can turn away a hart although no one holds that unit. */
  lemma TryDownSucceedsIff(run: seq<Semaphore>, init: int, k: nat, i: nat)
    requires SemaphoreRun(run, init) && k < |run| && i < |run[k].users| && run[k].users[i] == Outside
    ensures TryDown(run[k], i).users[i] == Holding <==>
        Count(run[k].users, Holding) + Count(run[k].users, Undoing) < init
  {
    HoldersNeverExceed(run, init, k);
  }

  /** One unit, taken by hart 0, refused to hart 1 and given back. */
  function UndoRun(): (run: seq<Semaphore>)
    ensures |run| == 4
  {
    [ Semaphore(1, [Outside, Outside, Outside]),
      Semaphore(0, [Holding, Outside, Outside]),
      Semaphore(-1, [Holding, Undoing, Outside]),
      Semaphore(0, [Outside, Undoing, Outside]) ]
  }

  /** Such a run: no hart holds the only unit, and hart 2 is turned away. */
  lemma UndoTurnsAway()
    ensures SemaphoreRun(UndoRun(), 1) && Count(UndoRun()[3].users, Holding) == 0
    ensures TryDown(UndoRun()[3], 2).users[2] == Undoing
  {
    var run := UndoRun();
    assert Wrap(0) == 0 && Wrap(-1) == -1;
    assert run[1] == TryDown(run[0], 0) && run[2] == TryDown(run[1], 1) && run[3] == Up(run[2], 0);
    assert SemaphoreStep(run[0], run[1], 0) && SemaphoreStep(run[1], run[2], 1) && SemaphoreStep(run[2], run[3], 0);
    CountNone(run[3].users, Holding);
  }

  // ---------- The barrier ----------

  datatype Waiter = Coming | Waiting | Through

  /** released records that barrier_release was called. */
  datatype Barrier = Barrier(value: int, waiters: seq<Waiter>, released: bool)

  ghost predicate BarrierStep(b: Barrier, b': Barrier, i: nat) {
    || (b' == b.(value := 0, released := true)) // barrier_release
    || (i < |b.waiters| && b.waiters[i] == Coming &&
        b' == b.(value := Wrap(b.value - 1), waiters := b.waiters[i := Waiting]))
    || (i < |b.waiters| && b.waiters[i] == Waiting && b' == if b.value > 0 then b
        else b.(waiters := b.waiters[i := Through]))
  }

  ghost predicate BarrierNext(b: Barrier, b': Barrier) {
    exists i: nat :: BarrierStep(b, b', i)
  }

  /** Before the release the value counts arrivals down from the largest integer; after it, it is
      never positive. */
  ghost predicate BarrierOk(b: Barrier) {
    && |b.waiters| < INT32_MAX
    && (!b.released ==>
        b.value == INT32_MAX - (|b.waiters| - Count(b.waiters, Coming)) && Count(b.waiters, Through) == 0)
    && (b.released ==> -(|b.waiters| - Count(b.waiters, Coming)) <= b.value <= 0)
  }

  lemma BarrierKeepsOk(b: Barrier, b': Barrier, i: nat)
    requires BarrierOk(b) && BarrierStep(b, b', i)
    ensures BarrierOk(b')
  {
    if i < |b.waiters| {
      CountUpdate(b.waiters, i, Waiting, Coming);
      CountUpdate(b.waiters, i, Waiting, Through);
      CountUpdate(b.waiters, i, Through, Coming);
    }
  }

  ghost predicate BarrierRun(run: seq<Barrier>) {
    && |run| > 0 && run[0].value == INT32_MAX && !run[0].released && |run[0].waiters| < INT32_MAX
    && (forall i :: 0 <= i < |run[0].waiters| ==> run[0].waiters[i] == Coming)
    && forall k :: 0 <= k < |run| - 1 ==> BarrierNext(run[k], run[k + 1])
  }

  lemma {:induction false} BarrierOnRuns(run: seq<Barrier>, k: nat)
    requires BarrierRun(run) && k < |run|
    ensures BarrierOk(run[k])
  {
    if k == 0 {
      CountAll(run[0].waiters, Coming);
      CountNone(run[0].waiters, Through);
    } else {
      BarrierOnRuns(run, k - 1);
      assert BarrierNext(run[k - 1], run[k - 1 + 1]);
      var i: nat :| BarrierStep(run[k - 1], run[k], i);
      BarrierKeepsOk(run[k - 1], run[k], i);
    }
  }

  lemma {:induction false} CountAll<T>(s: seq<T>, x: T)
    requires forall i :: 0 <= i < |s| ==> s[i] == x
    ensures Count(s, x) == |s|
  {
    if s != [] { CountAll(s[1..], x); }
  }

  lemma {:induction false} CountPositive<T>(s: seq<T>, i: nat)
    requires i < |s|
    ensures Count(s, s[i]) > 0
  {
    if i > 0 { CountPositive(s[1..], i - 1); }
  }

  /** No hart is through the barrier before its release, when every waiting hart still blocks; from
      the release on, no waiting hart can block any more. */
  lemma BarrierHolds(run: seq<Barrier>, k: nat, i: nat)
    requires BarrierRun(run) && k < |run| && i < |run[k].waiters|
    ensures run[k].waiters[i] == Through ==> run[k].released
    ensures run[k].value > 0 <==> !run[k].released
  {
    BarrierOnRuns(run, k);
    CountPositive(run[k].waiters, i);
  }

  lemma {:induction false} ReleaseIsForGood(run: seq<Barrier>, k: nat, j: nat)
    requires BarrierRun(run) && k <= j < |run| && run[k].released
    ensures run[j].released && run[j].value <= 0
  {
    BarrierOnRuns(run, j);
    if k < j {
      ReleaseIsForGood(run, k, j - 1);
      assert BarrierNext(run[j - 1], run[j - 1 + 1]);
    }
  }
}
