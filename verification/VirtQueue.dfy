/** The split virtqueue of the block driver, src/block.c:38-83 and 157-214, shared by a requester
    that holds the device's lock, the device (section 2.6 of VIRTIO 1.1) and the interrupt handler.
    A step is one write of the requester, one action of the device, or one round of the handler. */
module VirtQueue {
  import opened Machine
  import opened Arithmetic
  import opened LinkedList

  const WRAP: nat := 0x1_0000 // the indices are 16 bits wide

  datatype Kind = Read | Write

  /** The buffers of request number n. */
  datatype Buffer = Header(n: nat) | Data(n: nat) | Status(n: nat)

  datatype Desc = Desc(buffer: Buffer, hasNext: bool, deviceWrites: bool, next: nat)

  /** The queue, the driver's and the device's own indices, and the history of requests.
      kinds: the requests begun; phase: how far the last of them is, 0 if it is published;
      fetched: how many the device has taken; done: those it has completed, in order; acked: how many
      of those the handler has acknowledged. taken: head and request of what the device works on. */
  datatype Queue = Queue(
    size: nat, desc: seq<Desc>, availRing: seq<nat>, availIdx: nat, usedRing: seq<nat>, usedIdx: nat,
    info: seq<Option<nat>>, atIdx: nat, ackIdx: nat, lastAvail: nat, taken: map<nat, nat>,
    kinds: seq<Kind>, phase: nat, fetched: nat, done: seq<nat>, acked: nat)

  /** Descriptor number j of request n: they are handed out in a circle, three a request. */
  function Slot(size: nat, n: nat, j: nat): nat
    requires size > 0
  {
    (3 * n + j) % size
  }

  lemma ModDiffers(a: nat, b: nat, size: nat)
    requires a < b < a + size
    ensures a % size != b % size
  {
    Division(a, size);
    Division(b, size);
    var p, q := a / size, b / size;
    if p < q {
      Distribute(q - p, p, size);
      TimesAtLeast(q - p, size);
    } else if q < p {
      Distribute(p - q, q, size);
      TimesAtLeast(p - q, size);
    }
  }

  lemma ModNext(a: nat, size: nat)
    requires size > 0
    ensures (a % size + 1) % size == (a + 1) % size
  {
    Division(a, size);
    AddMultiple(a % size + 1, size, a / size);
  }

  /** A wrapped 16-bit index points into the ring where the unwrapped count does. */
  lemma WrapIsHarmless(count: nat, size: nat)
    requires size > 0 && WRAP % size == 0
    ensures (count % WRAP) % size == count % size
  {
    Division(WRAP, size);
    Division(count, WRAP);
    Associate(count / WRAP, WRAP / size, size);
    AddMultiple(count % WRAP, size, count / WRAP * (WRAP / size));
  }

  lemma WrapEqual(a: nat, b: nat)
    requires a <= b < a + WRAP
    ensures a % WRAP == b % WRAP <==> a == b
  {
    if a < b { ModDiffers(a, b, WRAP); }
  }

  lemma SlotsDiffer(size: nat, n: nat, j: nat, m: nat, i: nat)
    requires size > 0 && j < 3 && i < 3 && (n != m || j != i)
    requires n <= m && 3 * (m + 1 - n) <= size
    ensures Slot(size, n, j) != Slot(size, m, i)
  {
    var a, b := 3 * n + j, 3 * m + i;
    if a < b { ModDiffers(a, b, size); } else { ModDiffers(b, a, size); }
  }

  // ---------- Steps ----------

  function Published(s: Queue): nat {
    if s.phase == 0 || s.kinds == [] then |s.kinds| else |s.kinds| - 1
  }

  /** The requester's local at_idx when it writes descriptor number j. */
  function Cursor(s: Queue, j: nat): nat
    requires s.size > 0
  {
    if j == 0 then s.atIdx else (Cursor(s, j - 1) + 1) % s.size
  }

  ghost predicate Live(s: Queue, n: nat) {
    n < |s.kinds| && s.acked <= |s.done| && n !in s.done[..s.acked]
  }

  /** No request not yet acknowledged is so old that its descriptors could be handed out again. */
  ghost predicate Window(s: Queue) {
    forall n: nat {:trigger Live(s, n)} :: Live(s, n) ==> 3 * (|s.kinds| - n) <= s.size
  }

  function Begin(s: Queue, kind: Kind): Queue {
    s.(kinds := s.kinds + [kind], phase := 1)
  }

  ghost predicate CanDrive(s: Queue) {
    && s.size > 0 && |s.desc| == |s.availRing| == |s.info| == s.size && s.kinds != [] && 1 <= s.phase <= 7
    && s.atIdx < s.size
  }

  /** The requester's next write. */
  function Drive(s: Queue): Queue
    requires CanDrive(s)
  {
    var n := |s.kinds| - 1;
    var s' := s.(phase := if s.phase == 7 then 0 else s.phase + 1);
    match s.phase
    case 1 => s'.(desc := s.desc[s.atIdx := Desc(Header(n), true, false, Cursor(s, 1))])
    case 2 => s'.(desc := s.desc[Cursor(s, 1) := Desc(Data(n), true, s.kinds[n] == Read, Cursor(s, 2))])
    case 3 => s'.(desc := s.desc[Cursor(s, 2) := Desc(Status(n), false, true, 0)])
    case 4 => s'.(availRing := s.availRing[s.availIdx % s.size := s.atIdx])
    case 5 => s'.(info := s.info[s.atIdx := Some(n)])
    case 6 => s'.(atIdx := Cursor(s, 3))
    case _ => s'.(availIdx := (s.availIdx + 1) % WRAP)
  }

  ghost predicate CanFetch(s: Queue) {
    && s.size > 0 && |s.desc| == |s.availRing| == s.size && s.lastAvail != s.availIdx
    && s.availRing[s.lastAvail % s.size] < s.size
  }

  /** The device takes the next available head and finds out which request it belongs to. */
  function Fetch(s: Queue): Queue
    requires CanFetch(s)
  {
    var head := s.availRing[s.lastAvail % s.size];
    s.(lastAvail := (s.lastAvail + 1) % WRAP, fetched := s.fetched + 1, taken := s.taken[head := s.desc[head].buffer.n])
  }

  /** The device finishes any request it works on. */
  function Complete(s: Queue, head: nat): Queue
    requires s.size > 0 && |s.usedRing| == s.size && head in s.taken
  {
    s.(usedRing := s.usedRing[s.usedIdx % s.size := head], usedIdx := (s.usedIdx + 1) % WRAP,
       done := s.done + [s.taken[head]], taken := s.taken - {head})
  }

  ghost predicate CanAck(s: Queue) {
    s.size > 0 && |s.usedRing| == |s.info| == s.size && s.ackIdx != s.usedIdx
  }

  /** The request whose information the handler uses in its next round. */
  function Acknowledged(s: Queue): Option<nat>
    requires CanAck(s)
  {
    s.info[s.usedRing[s.ackIdx % s.size] % s.size]
  }

  function Ack(s: Queue): Queue {
    s.(ackIdx := (s.ackIdx + 1) % WRAP, acked := s.acked + 1)
  }

  // ---------- The invariant ----------

  ghost predicate Shaped(s: Queue) {
    && s.size > 0 && WRAP % s.size == 0 && |s.desc| == |s.availRing| == |s.usedRing| == |s.info| == s.size
    && s.phase <= 7 && (s.phase > 0 ==> s.kinds != [])
  }

  ghost predicate IndicesOk(s: Queue)
    requires s.size > 0
  {
    && s.availIdx == Published(s) % WRAP && s.usedIdx == |s.done| % WRAP && s.ackIdx == s.acked % WRAP &&
        s.lastAvail == s.fetched % WRAP
    && s.fetched <= Published(s) && s.acked <= |s.done|
    && s.atIdx == Slot(s.size, if s.phase == 7 then |s.kinds| else Published(s), 0)
  }

  ghost predicate DoneOk(s: Queue) {
    Distinct(s.done) && forall n: nat :: n in s.done ==> n < s.fetched
  }

  ghost predicate TakenOk(s: Queue)
    requires s.size > 0
  {
    && (forall n: nat {:trigger Slot(s.size, n, 0)} :: n < s.fetched && n !in s.done ==>
        Slot(s.size, n, 0) in s.taken && s.taken[Slot(s.size, n, 0)] == n)
    && forall h: nat :: h in s.taken ==>
        s.taken[h] < s.fetched && s.taken[h] !in s.done && Slot(s.size, s.taken[h], 0) == h
  }

  function DescFor(s: Queue, n: nat, j: nat): Desc
    requires s.size > 0 && n < |s.kinds|
  {
    if j == 0 then Desc(Header(n), true, false, Slot(s.size, n, 1))
    else if j == 1 then Desc(Data(n), true, s.kinds[n] == Read, Slot(s.size, n, 2))
    else Desc(Status(n), false, true, 0)
  }

  /** Once written and until it is acknowledged, each descriptor of a request stays in place. */
  ghost predicate DescOk(s: Queue, n: nat, j: nat)
    requires Shaped(s)
  {
    Live(s, n) && j < 3 && (n < Published(s) || s.phase > j + 1) ==> s.desc[Slot(s.size, n, j)] == DescFor(s, n, j)
  }

  ghost predicate InfoOk(s: Queue, n: nat)
    requires Shaped(s)
  {
    Live(s, n) && (n < Published(s) || s.phase > 5) ==> s.info[Slot(s.size, n, 0)] == Some(n)
  }

  ghost predicate AvailOk(s: Queue, n: nat)
    requires Shaped(s)
  {
    s.fetched <= n < |s.kinds| && (n < Published(s) || s.phase > 4) ==> s.availRing[n % s.size] == Slot(s.size, n, 0)
  }

  ghost predicate UsedOk(s: Queue, u: nat)
    requires Shaped(s)
  {
    s.acked <= u < |s.done| ==> s.usedRing[u % s.size] == Slot(s.size, s.done[u], 0)
  }

  ghost predicate InvNow(s: Queue) {
    && Shaped(s) && IndicesOk(s) && DoneOk(s) && TakenOk(s) && Window(s)
    && (forall n: nat, j: nat {:trigger DescOk(s, n, j)} :: DescOk(s, n, j))
    && (forall n: nat {:trigger InfoOk(s, n)} :: InfoOk(s, n))
    && (forall n: nat {:trigger AvailOk(s, n)} :: AvailOk(s, n))
    && forall u: nat {:trigger UsedOk(s, u)} :: UsedOk(s, u)
  }

  ghost predicate Unfold(s: Queue) { true }

  /** The invariant, which the prover looks into only for states it finds in Unfold. */
  ghost predicate Inv(s: Queue) {
    Shaped(s) && forall t: Queue {:trigger Unfold(t)} :: Unfold(t) && t == s ==> InvNow(t)
  }

  lemma LiveSlotsDiffer(s: Queue, n: nat, j: nat, m: nat, i: nat)
    requires Shaped(s) && Window(s) && Live(s, n) && Live(s, m) && j < 3 && i < 3 && (n != m || j != i)
    ensures Slot(s.size, n, j) != Slot(s.size, m, i)
  {
    if n <= m { SlotsDiffer(s.size, n, j, m, i); } else { SlotsDiffer(s.size, m, i, n, j); }
  }

  lemma CursorIsSlot(s: Queue, n: nat, j: nat)
    requires s.size > 0 && s.atIdx == Slot(s.size, n, 0)
    ensures Cursor(s, j) == Slot(s.size, n, j)
  {
    if j > 0 {
      CursorIsSlot(s, n, j - 1);
      ModNext(3 * n + (j - 1), s.size);
    }
  }

  lemma BeginKeepsInv(s: Queue, kind: Kind)
    requires Inv(s) && s.phase == 0 && Window(Begin(s, kind))
    ensures Inv(Begin(s, kind))
  {
    assert Unfold(s);
    var s' := Begin(s, kind);
    forall n: nat ensures Live(s', n) <==> Live(s, n) || n == |s.kinds| {
      assert n in s.done[..s.acked] ==> n in s.done;
    }
    forall n: nat, j: nat ensures DescOk(s', n, j) { assert DescOk(s, n, j); }
    forall n: nat ensures InfoOk(s', n) { assert InfoOk(s, n); }
    forall n: nat ensures AvailOk(s', n) { assert AvailOk(s, n); }
    forall u: nat ensures UsedOk(s', u) { assert UsedOk(s, u); }
    assert InvNow(s');
  }

  lemma LastIsLive(s: Queue)
    requires Inv(s) && s.phase > 0
    ensures Live(s, |s.kinds| - 1) && CanDrive(s)
    ensures Published(s) == |s.kinds| - 1
  {
    assert Unfold(s);
    var n := |s.kinds| - 1;
    assert n in s.done[..s.acked] ==> n in s.done;
  }

  /** Writing a descriptor of the last request leaves all others in place. */
  lemma DescStepKeeps(s: Queue, n: nat, j: nat)
    requires Inv(s) && CanDrive(s) && s.phase <= 3
    ensures Shaped(Drive(s)) && DescOk(Drive(s), n, j)
  {
    assert Unfold(s);
    var s', last := Drive(s), |s.kinds| - 1;
    LastIsLive(s);
    CursorIsSlot(s, last, 1);
    CursorIsSlot(s, last, 2);
    CursorIsSlot(s, last, 3);
    assert DescOk(s, n, j) && Live(s', n) == Live(s, n);
    if Live(s, n) && j < 3 && (n != last || j != s.phase - 1) {
      LiveSlotsDiffer(s, n, j, last, s.phase - 1);
    }
  }

  lemma DriveKeepsDescs(s: Queue, n: nat, j: nat)
    requires Inv(s) && CanDrive(s)
    ensures Shaped(Drive(s)) && DescOk(Drive(s), n, j)
  {
    assert Unfold(s);
    if s.phase <= 3 {
      DescStepKeeps(s, n, j);
    } else {
      assert DescOk(s, n, j);
      LastIsLive(s);
      assert Live(Drive(s), n) == Live(s, n);
    }
  }

  /** Requests not yet fetched are live, and the window keeps their ring entries apart. */
  lemma UnfetchedApart(s: Queue, n: nat, m: nat)
    requires Inv(s) && s.fetched <= n < m < |s.kinds|
    ensures n % s.size != m % s.size && Live(s, n)
  {
    assert Unfold(s);
    assert n in s.done[..s.acked] ==> n in s.done;
    assert Live(s, n);
    ModDiffers(n, m, s.size);
  }

  lemma DriveKeepsAvail(s: Queue, n: nat)
    requires Inv(s) && CanDrive(s)
    ensures Shaped(Drive(s)) && AvailOk(Drive(s), n)
  {
    assert Unfold(s);
    var last := |s.kinds| - 1;
    assert AvailOk(s, n);
    WrapIsHarmless(Published(s), s.size);
    if s.fetched <= n < last { UnfetchedApart(s, n, last); }
  }

  lemma DriveKeepsInfo(s: Queue, n: nat)
    requires Inv(s) && CanDrive(s)
    ensures Shaped(Drive(s)) && InfoOk(Drive(s), n)
  {
    assert Unfold(s);
    var last := |s.kinds| - 1;
    LastIsLive(s);
    assert InfoOk(s, n) && Live(Drive(s), n) == Live(s, n);
    if Live(s, n) && n != last { LiveSlotsDiffer(s, n, 0, last, 0); }
  }

  lemma DriveKeepsIndices(s: Queue)
    requires Inv(s) && CanDrive(s)
    ensures IndicesOk(Drive(s))
  {
    assert Unfold(s);
    if s.phase == 6 {
      CursorIsSlot(s, |s.kinds| - 1, 3);
    }
    if s.phase == 7 {
      ModNext(|s.kinds| - 1, WRAP);
    }
  }

  lemma DriveKeepsInv(s: Queue)
    requires Inv(s) && s.phase > 0
    ensures CanDrive(s) && Inv(Drive(s))
  {
    assert Unfold(s);
    LastIsLive(s);
    var s' := Drive(s);
    DriveKeepsIndices(s);
    forall n: nat ensures Live(s', n) == Live(s, n) {}
    forall n: nat, j: nat ensures DescOk(s', n, j) { DriveKeepsDescs(s, n, j); }
    forall n: nat ensures InfoOk(s', n) { DriveKeepsInfo(s, n); }
    forall n: nat ensures AvailOk(s', n) { DriveKeepsAvail(s, n); }
    forall u: nat ensures UsedOk(s', u) { assert UsedOk(s, u); }
    assert InvNow(s');
  }

  // ---------- The device and the handler ----------

  /** The device finds a new head exactly if a published request is not fetched, and it is the head
      of the oldest of these. */
  lemma FetchIsNext(s: Queue)
    requires Inv(s)
    ensures s.lastAvail != s.availIdx <==> s.fetched < Published(s)
    ensures s.lastAvail != s.availIdx ==>
      CanFetch(s) && s.availRing[s.lastAvail % s.size] == Slot(s.size, s.fetched, 0) &&
          s.desc[Slot(s.size, s.fetched, 0)].buffer == Header(s.fetched)
  {
    assert Unfold(s);
    UnfetchedFit(s);
    WrapEqual(s.fetched, Published(s));
    if s.fetched < Published(s) {
      var n := s.fetched;
      assert AvailOk(s, n) && DescOk(s, n, 0);
      WrapIsHarmless(n, s.size);
      assert n in s.done[..s.acked] ==> n in s.done;
      assert Live(s, n);
    }
  }

  lemma DividesAtMost(size: nat)
    requires size > 0 && WRAP % size == 0
    ensures size <= WRAP
  {
    Division(WRAP, size);
    TimesAtLeast(WRAP / size, size);
  }

  lemma UnfetchedFit(s: Queue)
    requires Inv(s)
    ensures 3 * (Published(s) - s.fetched) <= s.size <= WRAP
  {
    assert Unfold(s);
    var n := s.fetched;
    assert n in s.done[..s.acked] ==> n in s.done;
    if n < |s.kinds| { assert Live(s, n); }
    DividesAtMost(s.size);
  }

  lemma FetchKeepsInv(s: Queue)
    requires Inv(s) && s.lastAvail != s.availIdx
    ensures CanFetch(s) && Inv(Fetch(s))
  {
    assert Unfold(s);
    FetchIsNext(s);
    var s' := Fetch(s);
    ModNext(s.fetched, WRAP);
    forall n: nat ensures Live(s', n) == Live(s, n) {}
    forall n: nat, j: nat ensures DescOk(s', n, j) { assert DescOk(s, n, j); }
    forall n: nat ensures InfoOk(s', n) { assert InfoOk(s, n); }
    forall n: nat ensures AvailOk(s', n) { assert AvailOk(s, n); }
    forall u: nat ensures UsedOk(s', u) { assert UsedOk(s, u); }
    forall n: nat | n < s.fetched && n !in s.done
      ensures Slot(s.size, n, 0) != Slot(s.size, s.fetched, 0)
    {
      FetchedApart(s, n, s.fetched);
    }
    forall h: nat | h in s.taken ensures h != Slot(s.size, s.fetched, 0) {
      FetchedApart(s, s.taken[h], s.fetched);
    }
    assert InvNow(s');
  }

  lemma NotDoneIsLive(s: Queue, n: nat)
    requires Inv(s) && n < |s.kinds| && n !in s.done
    ensures Live(s, n)
  {
    assert Unfold(s);
    assert n in s.done[..s.acked] ==> n in s.done;
  }

  lemma FetchedApart(s: Queue, n: nat, m: nat)
    requires Inv(s) && n < |s.kinds| && m < |s.kinds| && n !in s.done && m !in s.done && n != m
    ensures Slot(s.size, n, 0) != Slot(s.size, m, 0)
  {
    assert Unfold(s);
    NotDoneIsLive(s, n);
    NotDoneIsLive(s, m);
    LiveSlotsDiffer(s, n, 0, m, 0);
  }

  lemma DoneIsLive(s: Queue, u: nat)
    requires Inv(s) && s.acked <= u < |s.done|
    ensures Live(s, s.done[u])
  {
    assert Unfold(s);
    assert s.done[u] in s.done;
    forall v | 0 <= v < s.acked ensures s.done[..s.acked][v] != s.done[u] {}
  }

  /** Live requests, all different, fit the ring three descriptors each. */
  lemma LiveFit(s: Queue, requests: seq<nat>)
    requires Inv(s) && Distinct(requests) && forall x :: x in requests ==> Live(s, x)
    ensures 3 * |requests| <= s.size <= WRAP
  {
    assert Unfold(s);
    UnfetchedFit(s);
    var lo := if |s.kinds| <= s.size / 3 then 0 else |s.kinds| - s.size / 3;
    DistinctWithin(requests, lo, |s.kinds|);
  }

  lemma UnackedFit(s: Queue)
    requires Inv(s)
    ensures 3 * (|s.done| - s.acked) <= s.size <= WRAP
  {
    assert Unfold(s);
    var waiting := s.done[s.acked..];
    forall x | x in waiting ensures Live(s, x) {
      var u :| 0 <= u < |waiting| && waiting[u] == x;
      DoneIsLive(s, s.acked + u);
    }
    LiveFit(s, waiting);
  }

  /** While a request is in progress there is room in the ring for its completion. */
  lemma RoomForOne(s: Queue, r: nat)
    requires Inv(s) && r < s.fetched && r !in s.done
    ensures 3 * (|s.done| - s.acked + 1) <= s.size
  {
    assert Unfold(s);
    var waiting := s.done[s.acked..] + [r];
    NotDoneIsLive(s, r);
    forall x | x in waiting ensures Live(s, x) {
      if x != r {
        var rest := s.done[s.acked..];
        assert x in rest;
        var u :| 0 <= u < |rest| && rest[u] == x;
        DoneIsLive(s, s.acked + u);
      }
    }
    forall i, j | 0 <= i < j < |waiting| ensures waiting[i] != waiting[j] {
      if j == |waiting| - 1 { assert waiting[i] == s.done[s.acked + i] && s.done[s.acked + i] in s.done; }
    }
    LiveFit(s, waiting);
  }

  lemma CompleteKeepsUsed(s: Queue, h: nat, u: nat)
    requires Inv(s) && h in s.taken
    ensures Shaped(Complete(s, h)) && UsedOk(Complete(s, h), u)
  {
    assert Unfold(s);
    RoomForOne(s, s.taken[h]);
    WrapIsHarmless(|s.done|, s.size);
    assert UsedOk(s, u);
    if s.acked <= u < |s.done| { ModDiffers(u, |s.done|, s.size); }
  }

  lemma CompleteKeepsTaken(s: Queue, h: nat)
    requires Inv(s) && h in s.taken
    ensures TakenOk(Complete(s, h)) && DoneOk(Complete(s, h))
  {
    assert Unfold(s);
    var s', r := Complete(s, h), s.taken[h];
    assert forall n: nat :: n in s'.done <==> n in s.done || n == r;
    forall n: nat {:trigger Slot(s.size, n, 0)} | n < s.fetched && n !in s'.done ensures Slot(s.size, n, 0) != h {
      FetchedApart(s, n, r);
    }
  }

  lemma CompleteKeepsInv(s: Queue, h: nat)
    requires Inv(s) && h in s.taken
    ensures Inv(Complete(s, h))
  {
    assert Unfold(s);
    var s' := Complete(s, h);
    ModNext(|s.done|, WRAP);
    CompleteKeepsTaken(s, h);
    assert s'.done[..s.acked] == s.done[..s.acked];
    forall n: nat ensures Live(s', n) == Live(s, n) {}
    forall n: nat, j: nat ensures DescOk(s', n, j) { assert DescOk(s, n, j); }
    forall n: nat ensures InfoOk(s', n) { assert InfoOk(s, n); }
    forall n: nat ensures AvailOk(s', n) { assert AvailOk(s, n); }
    forall u: nat ensures UsedOk(s', u) { CompleteKeepsUsed(s, h, u); }
    assert InvNow(s');
  }

  lemma UsedHead(s: Queue, u: nat)
    requires Inv(s) && s.acked <= u < |s.done|
    ensures s.usedRing[(u % WRAP) % s.size] == Slot(s.size, s.done[u], 0)
    ensures s.info[Slot(s.size, s.done[u], 0)] == Some(s.done[u]) && s.done[u] !in s.done[..s.acked]
  {
    assert Unfold(s);
    assert UsedOk(s, u);
    WrapIsHarmless(u, s.size);
    DoneIsLive(s, u);
    assert s.done[u] in s.done && InfoOk(s, s.done[u]);
  }

  lemma SlotInside(size: nat, n: nat)
    requires size > 0
    ensures Slot(size, n, 0) % size == Slot(size, n, 0)
  {
    Quotient(Slot(size, n, 0), size, 0, Slot(size, n, 0));
  }

  /** The handler goes on exactly while a completed request is not acknowledged. Each round uses the
      information of the request completed next, which it acknowledges for the first time. */
  lemma AckUsesOwnInfo(s: Queue)
    requires Inv(s)
    ensures s.ackIdx != s.usedIdx <==> s.acked < |s.done|
    ensures s.ackIdx != s.usedIdx ==>
        CanAck(s) && Acknowledged(s) == Some(s.done[s.acked]) && s.done[s.acked] !in s.done[..s.acked]
  {
    assert Unfold(s);
    UnackedFit(s);
    WrapEqual(s.acked, |s.done|);
    if s.acked < |s.done| {
      UsedHead(s, s.acked);
      SlotInside(s.size, s.done[s.acked]);
    }
  }

  lemma AckKeepsInv(s: Queue)
    requires Inv(s) && s.ackIdx != s.usedIdx
    ensures Inv(Ack(s))
  {
    assert Unfold(s);
    var s' := Ack(s);
    AckUsesOwnInfo(s);
    ModNext(s.acked, WRAP);
    assert s'.done[..s'.acked] == s.done[..s.acked] + [s.done[s.acked]];
    forall n: nat ensures Live(s', n) ==> Live(s, n) {}
    forall n: nat, j: nat ensures DescOk(s', n, j) { assert DescOk(s, n, j); }
    forall n: nat ensures InfoOk(s', n) { assert InfoOk(s, n); }
    forall n: nat ensures AvailOk(s', n) { assert AvailOk(s, n); }
    forall u: nat ensures UsedOk(s', u) { assert UsedOk(s, u); }
    assert InvNow(s');
  }

  // ---------- Whole runs ----------

  /** What the environment must see to: a request is begun only if its descriptors cannot reach those
      of a request not yet acknowledged. */
  ghost predicate Begins(s: Queue, s': Queue, kind: Kind) {
    s.phase == 0 && s' == Begin(s, kind) && Window(s')
  }

  ghost predicate Next(s: Queue, s': Queue) {
    || (exists kind :: Begins(s, s', kind))
    || (CanDrive(s) && s' == Drive(s))
    || (CanFetch(s) && s' == Fetch(s))
    || (s.size > 0 && |s.usedRing| == s.size && exists h: nat :: h in s.taken && s' == Complete(s, h))
    || (CanAck(s) && s' == Ack(s))
  }

  ghost predicate Init(s: Queue) {
    && s.size > 0 && WRAP % s.size == 0 && |s.desc| == |s.availRing| == |s.usedRing| == |s.info| == s.size
    && s.availIdx == s.usedIdx == s.atIdx == s.ackIdx == s.lastAvail == 0 && s.taken == map[]
    && s.kinds == [] && s.phase == 0 && s.fetched == s.acked == 0 && s.done == []
  }

  ghost predicate Run(run: seq<Queue>) {
    |run| > 0 && Init(run[0]) && forall i :: 0 <= i < |run| - 1 ==> Next(run[i], run[i + 1])
  }

  lemma NextKeepsInv(s: Queue, s': Queue)
    requires Inv(s) && Next(s, s')
    ensures Inv(s')
  {
    assert Unfold(s);
    if kind :| Begins(s, s', kind) {
      BeginKeepsInv(s, kind);
    } else if CanDrive(s) && s' == Drive(s) {
      DriveKeepsInv(s);
    } else if CanFetch(s) && s' == Fetch(s) {
      FetchKeepsInv(s);
    } else if CanAck(s) && s' == Ack(s) {
      AckKeepsInv(s);
    } else {
      var h: nat :| h in s.taken && s' == Complete(s, h);
      CompleteKeepsInv(s, h);
    }
  }

  lemma {:induction false} InvOnRuns(run: seq<Queue>, i: nat)
    requires Run(run) && i < |run|
    ensures Inv(run[i])
  {
    if i == 0 {
      assert InvNow(run[0]);
    } else {
      InvOnRuns(run, i - 1);
      assert Next(run[i - 1], run[i - 1 + 1]);
      NextKeepsInv(run[i - 1], run[i]);
    }
  }

  /** A buffer as the device finds it: whether it may write it or read it (section 2.6.5). */
  datatype Part = Part(buffer: Buffer, deviceWrites: bool)

  /** The descriptors a device visits that follows next from a head, at most limit of them. */
  function Walk(desc: seq<Desc>, at: nat, limit: nat): seq<Part>
    decreases limit
  {
    if limit == 0 || at >= |desc| then []
    else
      [Part(desc[at].buffer, desc[at].deviceWrites)]
      + if desc[at].hasNext then Walk(desc, desc[at].next, limit - 1) else []
  }

  /** What the device is given for request n (section 5.2.6): the header to read, the data to fill for a
      read and to take for a write, and the status to fill. */
  function Chain(n: nat, kind: Kind): seq<Part> {
    [Part(Header(n), false), Part(Data(n), kind == Read), Part(Status(n), true)]
  }

  lemma ChainAt(s: Queue, n: nat, limit: nat)
    requires Inv(s) && Live(s, n) && n < Published(s) && limit >= 3
    ensures s.size > 0 && Walk(s.desc, Slot(s.size, n, 0), limit) == Chain(n, s.kinds[n])
  {
    assert Unfold(s);
    assert DescOk(s, n, 0) && DescOk(s, n, 1) && DescOk(s, n, 2);
    var third := Walk(s.desc, Slot(s.size, n, 2), limit - 2);
    assert third == [Part(Status(n), true)];
    assert Walk(s.desc, Slot(s.size, n, 1), limit - 1) == [Part(Data(n), s.kinds[n] == Read)] + third;
  }

  /** Following next from the head of a published request not yet acknowledged visits exactly its
      header, its data and its status, whatever the walk's limit above three; and of these the device may
      write exactly what section 5.2.6 lets it write. */
  lemma ChainIsWhole(run: seq<Queue>, i: nat, n: nat, limit: nat)
    requires Run(run) && i < |run| && Live(run[i], n) && n < Published(run[i]) && limit >= 3
    ensures run[i].size > 0 && Walk(run[i].desc, Slot(run[i].size, n, 0), limit)
      == [Part(Header(n), false), Part(Data(n), run[i].kinds[n] == Read), Part(Status(n), true)]
  {
    InvOnRuns(run, i);
    ChainAt(run[i], n, limit);
  }

  /** The request published last. */
  lemma LastPublished(s: Queue, n: nat)
    requires Inv(s) && s.phase == 0 && |s.kinds| == n + 1 && s.fetched <= n
    ensures s.size > 0 && |s.availRing| == |s.info| == s.size
    ensures var head := s.availRing[(n % WRAP) % s.size];
      head < s.size && Walk(s.desc, head, 3) == Chain(n, s.kinds[n]) && s.info[head] == Some(n)
  {
    assert Unfold(s);
    NotFetchedIsLive(s, n);
    ChainAt(s, n, 3);
    assert AvailOk(s, n) && InfoOk(s, n);
    WrapIsHarmless(n, s.size);
  }

  lemma NotFetchedIsLive(s: Queue, n: nat)
    requires Inv(s) && s.fetched <= n < |s.kinds|
    ensures Live(s, n)
  {
    assert Unfold(s);
    assert n in s.done[..s.acked] ==> n in s.done;
  }

  /** Chains of different requests not yet acknowledged share no descriptor. */
  lemma ChainsAreDisjoint(run: seq<Queue>, i: nat, n: nat, j: nat, m: nat, k: nat)
    requires Run(run) && i < |run| && Live(run[i], n) && Live(run[i], m) && j < 3 && k < 3 && (n != m || j != k)
    ensures run[i].size > 0 && Slot(run[i].size, n, j) != Slot(run[i].size, m, k)
  {
    InvOnRuns(run, i);
    assert Unfold(run[i]);
    LiveSlotsDiffer(run[i], n, j, m, k);
  }

  /** The device gets the published requests one by one, in the order they were issued. */
  lemma DeviceFetchesInOrder(run: seq<Queue>, i: nat)
    requires Run(run) && i < |run|
    ensures var s := run[i]; s.lastAvail != s.availIdx <==> s.fetched < Published(s)
    ensures var s := run[i]; s.lastAvail != s.availIdx ==>
      && CanFetch(s) && var head := s.availRing[s.lastAvail % s.size];
      && head in Fetch(s).taken && Fetch(s).taken[head] == s.fetched && Fetch(s).fetched == s.fetched + 1
      && s.desc[head].buffer == Header(s.fetched)
  {
    InvOnRuns(run, i);
    assert Unfold(run[i]);
    FetchIsNext(run[i]);
  }

  /** Every request is acknowledged at most once, and only after the device has completed it, with the
      information recorded for it. */
  lemma AcknowledgedOnce(run: seq<Queue>, i: nat)
    requires Run(run) && i < |run|
    ensures var s := run[i]; Distinct(s.done) && s.acked <= |s.done| && forall n: nat :: n in s.done ==>
        n < Published(s)
    ensures var s := run[i]; s.ackIdx != s.usedIdx <==> s.acked < |s.done|
    ensures var s := run[i]; s.ackIdx != s.usedIdx ==>
      CanAck(s) && Acknowledged(s) == Some(s.done[s.acked]) && s.done[s.acked] !in s.done[..s.acked]
  {
    InvOnRuns(run, i);
    assert Unfold(run[i]);
    AckUsesOwnInfo(run[i]);
  }

  // ---------- The driver's two functions ----------

  /** Writing d at at is the requester's next step. */
  ghost predicate PutsDesc(s: Queue, at: nat, d: Desc)
    requires at < |s.desc|
  {
    CanDrive(s) && Drive(s) == s.(desc := s.desc[at := d], phase := s.phase + 1)
  }

  lemma FirstPut(s: Queue, n: nat)
    requires Inv(s) && s.phase == 1 && n == |s.kinds| - 1
    ensures 0 < s.size && s.atIdx < |s.desc|
    ensures PutsDesc(s, s.atIdx, Desc(Header(n), true, false, (s.atIdx + 1) % s.size))
  {
    assert Unfold(s);
    DriveKeepsInv(s);
    assert Cursor(s, 1) == (s.atIdx + 1) % s.size;
  }

  lemma SecondPut(s: Queue, n: nat)
    requires Inv(s) && s.phase == 2 && n == |s.kinds| - 1
    ensures 0 < s.size
    ensures var at := (s.atIdx + 1) % s.size;
      && at < |s.desc|
      && PutsDesc(s, at, Desc(Data(n), true, s.kinds[n] == Read, (at + 1) % s.size))
  {
    assert Unfold(s);
    DriveKeepsInv(s);
    assert Cursor(s, 1) == (s.atIdx + 1) % s.size && Cursor(s, 2) == (Cursor(s, 1) + 1) % s.size;
  }

  lemma ThirdPut(s: Queue, n: nat)
    requires Inv(s) && s.phase == 3 && n == |s.kinds| - 1
    ensures 0 < s.size
    ensures var at := ((s.atIdx + 1) % s.size + 1) % s.size;
      && at < |s.desc|
      && PutsDesc(s, at, Desc(Status(n), false, true, 0))
  {
    assert Unfold(s);
    DriveKeepsInv(s);
    assert Cursor(s, 1) == (s.atIdx + 1) % s.size && Cursor(s, 2) == (Cursor(s, 1) + 1) % s.size;
  }

  lemma LastCursor(s: Queue)
    requires s.size > 0
    ensures Cursor(s, 3) == (((s.atIdx + 1) % s.size + 1) % s.size + 1) % s.size
  {
    assert Cursor(s, 1) == (s.atIdx + 1) % s.size && Cursor(s, 2) == (Cursor(s, 1) + 1) % s.size;
  }

  /** The queue as the driver holds it. The ghost fields are the device's side and the history. */
  class BlockQueue {
    const size: nat
    var desc: seq<Desc>
    var availRing: seq<nat>
    var availIdx: nat
    var usedRing: seq<nat>
    var usedIdx: nat
    var info: seq<Option<nat>>
    var atIdx: nat
    var ackIdx: nat
    ghost var lastAvail: nat
    ghost var taken: map<nat, nat>
    ghost var kinds: seq<Kind>
    ghost var phase: nat
    ghost var fetched: nat
    ghost var done: seq<nat>
    ghost var acked: nat

    ghost function Now(): Queue
      reads this
    {
      Queue(size, desc, availRing, availIdx, usedRing, usedIdx, info, atIdx, ackIdx, lastAvail, taken, kinds, phase,
          fetched, done, acked)
    }

    method PutDesc(at: nat, d: Desc)
      requires Inv(Now()) && 1 <= phase <= 3 && at < |desc| && PutsDesc(Now(), at, d)
      modifies this`desc, this`phase
      ensures Inv(Now()) && phase == old(phase) + 1 && |desc| == old(|desc|)
    {
      DriveKeepsInv(Now());
      desc := desc[at := d];
      phase := phase + 1;
    }

    /** Chains three descriptors for the buffers of request n. */
    method PutChain(kind: Kind, n: nat) returns (at: nat)
      requires Inv(Now()) && phase == 1 && n == |kinds| - 1 && kinds[n] == kind
      modifies this`desc, this`phase
      ensures Inv(Now()) && phase == 4 && size > 0 && at == ((atIdx + 1) % size + 1) % size
    {
      at := PutHeader(n);
      at := PutData(at, kind, n);
      PutStatus(at, n);
    }

    method PutHeader(n: nat) returns (at: nat)
      requires Inv(Now()) && phase == 1 && n == |kinds| - 1
      modifies this`desc, this`phase
      ensures Inv(Now()) && phase == 2 && size > 0 && at == (atIdx + 1) % size
    {
      at := atIdx;
      FirstPut(Now(), n);
      PutDesc(at, Desc(Header(n), true, false, (at + 1) % size));
      at := (at + 1) % size;
    }

    method PutData(first: nat, kind: Kind, n: nat) returns (at: nat)
      requires Inv(Now()) && phase == 2 && n == |kinds| - 1 && kinds[n] == kind && size > 0
      requires first == (atIdx + 1) % size
      modifies this`desc, this`phase
      ensures Inv(Now()) && phase == 3 && at == (first + 1) % size
    {
      at := first;
      SecondPut(Now(), n);
      PutDesc(at, Desc(Data(n), true, kind == Read, (at + 1) % size));
      at := (at + 1) % size;
    }

    method PutStatus(at: nat, n: nat)
      requires Inv(Now()) && phase == 3 && n == |kinds| - 1 && size > 0
      requires at == ((atIdx + 1) % size + 1) % size
      modifies this`desc, this`phase
      ensures Inv(Now()) && phase == 4
    {
      ThirdPut(Now(), n);
      PutDesc(at, Desc(Status(n), false, true, 0));
    }

    method PutAvail(first: nat)
      requires Inv(Now()) && phase == 4 && first == atIdx
      modifies this`availRing, this`phase
      ensures Inv(Now()) && phase == 5
    {
      DriveKeepsInv(Now());
      availRing := availRing[availIdx % size := first];
      phase := 5;
    }

    method PutInfo(first: nat, n: nat)
      requires Inv(Now()) && phase == 5 && first == atIdx && n == |kinds| - 1
      modifies this`info, this`phase
      ensures Inv(Now()) && phase == 6
    {
      DriveKeepsInv(Now());
      info := info[first := Some(n)];
      phase := 6;
    }

    /** Increments the indices, the published one last. */
    method Publish(at: nat)
      requires Inv(Now()) && phase == 6 && size > 0 && at == ((atIdx + 1) % size + 1) % size
      modifies this`atIdx, this`availIdx, this`phase
      ensures Inv(Now()) && phase == 0 && availIdx == (old(availIdx) + 1) % WRAP
    {
      DriveKeepsInv(Now());
      LastCursor(Now());
      atIdx := (at + 1) % size;
      phase := 7;
      DriveKeepsInv(Now());
      availIdx := (availIdx + 1) % WRAP;
      phase := 0;
    }

    /** What block_request does under the lock for a read or a write with the buffers of request n:
        the descriptors, the ring entry, the request information, and last the index that publishes. The
        ring entry published then heads the chain of the request, whose information is recorded for it. */
    method PutRequest(kind: Kind, n: nat)
      requires Inv(Now()) && phase == 0 && n == |kinds| && Window(Begin(Now(), kind))
      modifies this`desc, this`availRing, this`info, this`atIdx, this`availIdx, this`kinds, this`phase
      ensures Inv(Now()) && phase == 0 && kinds == old(kinds) + [kind] && availIdx == (old(availIdx) + 1) % WRAP
      ensures size > 0 && |availRing| == |info| == size
      ensures var head := availRing[old(availIdx) % size];
        head < size && Walk(desc, head, 3) == Chain(n, kind) && info[head] == Some(n)
    {
      assert Unfold(Now());
      BeginKeepsInv(Now(), kind);
      kinds, phase := kinds + [kind], 1;
      var first := atIdx;
      var at := PutChain(kind, n);
      PutAvail(first);
      PutInfo(first, n);
      Publish(at);
      LastPublished(Now(), n);
    }

    /** block_handle_irq acknowledges, in order of completion, everything completed and not yet
        acknowledged, each with its own information. */
    method HandleIrq() returns (requests: seq<nat>)
      requires Inv(Now())
      modifies this`ackIdx, this`acked
      ensures Inv(Now()) && ackIdx == usedIdx && acked == |done| && old(acked) <= |done|
      ensures requests == done[old(acked)..]
    {
      assert Unfold(Now());
      requests := [];
      while ackIdx != usedIdx
        invariant Inv(Now()) && old(acked) <= acked <= |done| && requests == done[old(acked)..acked]
        decreases |done| - acked
      {
        assert Unfold(Now());
        AckUsesOwnInfo(Now());
        AckKeepsInv(Now());
        ghost var s := Now();
        var id := usedRing[ackIdx % size] % size;
        requests := requests + [info[id].value];
        ackIdx := (ackIdx + 1) % WRAP;
        acked := acked + 1;
        assert Now() == Ack(s);
      }
      AckUsesOwnInfo(Now());
    }
  }
}
