/** The broadcast FIFO of topic_mem.c and topic_io.c: one ring, one writer, and any number of readers
    that each remember a tail and a 16-bit lap number. */
module Fifo {

  // The ring refines an unbounded log of everything pushed. A reader is a position in that log; what
  // the lap arithmetic reports is compared with what is true of the position.

  const INDEX_OVERFLOW := 65535
  const LAPS := 65536

  // ------------------------------------------------------------------ where item k lives

  /** The slot of item `k` in a ring of `len` slots. */
  function Slot(k: nat, len: nat): (slot: nat)
    requires len > 0
    ensures slot < len
  {
    if k == 0 then 0
    else
      var s := Slot(k - 1, len) + 1;
      if s >= len then 0 else s
  }

  /** How often the ring has been filled before item `k`. */
  function Lap(k: nat, len: nat): nat
    requires len > 0
  {
    if k == 0 then 0 else Lap(k - 1, len) + if Slot(k - 1, len) + 1 >= len then 1 else 0
  }

  /** Up to one lap ahead of item `a`. */
  lemma {:induction false} Ahead(a: nat, d: nat, len: nat)
    requires 0 < len && d <= len
    ensures Slot(a + d, len) == if Slot(a, len) + d < len then Slot(a, len) + d else Slot(a, len) + d - len
    ensures Lap(a + d, len) == Lap(a, len) + if Slot(a, len) + d < len then 0 else 1
    decreases d
  {
    if d > 0 {
      Ahead(a, d - 1, len);
    }
  }

  lemma {:induction false} Later(a: nat, b: nat, len: nat)
    requires 0 < len && a <= b
    ensures Lap(a, len) < Lap(b, len) || (Lap(a, len) == Lap(b, len) && Slot(b, len) - Slot(a, len) == b - a)
    decreases b
  {
    if a < b {
      Later(a, b - 1, len);
    }
  }

  // ------------------------------------------------------------------ the lap arithmetic

  /** fifo_index_delta. */
  function IndexDelta(i1: int, i2: int, overflow: int): int {
    if i1 - i2 < 0 then i1 - i2 + overflow else i1 - i2
  }

  /** The underrun test of fifo_wait_and_read, for a ring and a reader with these indices. */
  predicate LooksUnderrun(lap: nat, head: nat, rcvrLap: nat, tail: nat) {
    var dlap := IndexDelta(lap, rcvrLap, INDEX_OVERFLOW);
    dlap > 1 || (dlap == 1 && head - tail >= 0)
  }

  /** The same test for a writer at item `w` and a reader at item `r`. */
  predicate Underrun(w: nat, r: nat, len: nat)
    requires len > 0
  {
    LooksUnderrun(Lap(w, len) % LAPS, Slot(w, len), Lap(r, len) % LAPS, Slot(r, len))
  }

  lemma ModAdd(lap: nat, more: nat)
    requires more < LAPS
    ensures (lap + more) % LAPS == if lap % LAPS + more < LAPS then lap % LAPS + more else lap % LAPS + more - LAPS
  {
    var q, m := lap / LAPS, lap % LAPS;
    assert lap + more == q * LAPS + (m + more);
    if m + more < LAPS {
    } else {
      assert lap + more == (q + 1) * LAPS + (m + more - LAPS);
    }
  }

  /** A reader that lags less than one lap is never told it was overrun, also across the wrap of the
      lap counter; and its tail meets the head only when it has read everything. */
  lemma CloseReader(w: nat, r: nat, len: nat)
    requires 0 < len && r <= w < r + len
    ensures !Underrun(w, r, len)
    ensures Slot(w, len) == Slot(r, len) <==> w == r
  {
    Ahead(r, w - r, len);
    ModAdd(Lap(r, len), Lap(w, len) - Lap(r, len));
  }

  /** A reader that lags a lap or more, counted in laps of the ring. */
  lemma FarReader(w: nat, r: nat, len: nat)
    requires 0 < len && r + len <= w
    ensures Lap(w, len) > Lap(r, len)
    ensures Lap(w, len) == Lap(r, len) + 1 ==> Slot(w, len) >= Slot(r, len)
  {
    Ahead(r, len, len);
    Later(r + len, w, len);
  }

  /** While the lap counter has not wrapped, underrun is reported exactly for the readers that lag a
      lap or more. */
  lemma UnderrunExact(w: nat, r: nat, len: nat)
    requires 0 < len && r <= w && Lap(w, len) < LAPS
    ensures Underrun(w, r, len) <==> w - r >= len
  {
    Later(r, w, len);
    if w - r >= len {
      FarReader(w, r, len);
    } else {
      CloseReader(w, r, len);
    }
  }

  /** The distance from lap `a` to lap `b` as far as 16-bit counters can tell. */
  function LapsSeen(a: int, b: int): nat {
    (b - a) % LAPS
  }

  /** The counter wraps on its way from lap `a` over the distance seen. */
  predicate WrapsBetween(a: nat, b: nat) {
    a % LAPS + LapsSeen(a, b) >= LAPS
  }

  /** In general, for any reader however far behind: underrun is reported as it should be for the distance
      the counters see if they did not wrap between reader and writer, and one lap too late if they did,
      because the wrap is compensated by 65535 where 65536 would be right. For a reader that lags a lap or
      more, every other case is a missed underrun. */
  lemma UnderrunMissed(w: nat, r: nat, len: nat)
    requires 0 < len && r <= w
    ensures Lap(r, len) <= Lap(w, len)
    ensures var d := LapsSeen(Lap(r, len), Lap(w, len));
            var due := if WrapsBetween(Lap(r, len), Lap(w, len)) then 2 else 1;
            Underrun(w, r, len) <==> d > due || (d == due && Slot(w, len) >= Slot(r, len))
  {
    hide Slot, Lap, LooksUnderrun, LapsSeen, WrapsBetween;
    Later(r, w, len);
    TestSeen(Lap(r, len), Lap(w, len), Slot(w, len), Slot(r, len));
  }

  lemma TestSeen(a: nat, b: nat, head: nat, tail: nat)
    requires a <= b
    ensures var d := LapsSeen(a, b);
            var due := if WrapsBetween(a, b) then 2 else 1;
            LooksUnderrun(b % LAPS, head, a % LAPS, tail) <==> d > due || (d == due && head >= tail)
  {
    hide LapsSeen, WrapsBetween;
    DistanceSeen(a, b);
    hide IndexDelta;
  }

  /** What the two counters make of a distance in laps. */
  lemma DistanceSeen(a: nat, b: nat)
    requires a <= b
    ensures IndexDelta(b % LAPS, a % LAPS, INDEX_OVERFLOW) == LapsSeen(a, b) - if WrapsBetween(a, b) then 1 else 0
  {
    ModDistance(a, b);
  }

  lemma ModDistance(a: nat, b: nat)
    requires a <= b
    ensures var d := (b - a) % LAPS;
            b % LAPS == if a % LAPS + d < LAPS then a % LAPS + d else a % LAPS + d - LAPS
  {
    var d, q := (b - a) % LAPS, (b - a) / LAPS;
    ModAdd(a, d);
    assert b == (a + d) + q * LAPS;
    ModTimes(a + d, q);
  }

  lemma {:induction false} ModTimes(n: nat, q: nat)
    ensures (n + q * LAPS) % LAPS == n % LAPS
    decreases q
  {
    if q > 0 {
      ModTimes(n, q - 1);
      assert n + q * LAPS == n + (q - 1) * LAPS + LAPS;
    }
  }

  lemma {:induction false} LapStart(n: nat, len: nat) returns (k: nat)
    requires 0 < len
    ensures Lap(k, len) == n && Slot(k, len) == 0
    decreases n
  {
    if n == 0 {
      k := 0;
    } else {
      k := LapStart(n - 1, len);
      Ahead(k, len, len);
      k := k + len;
    }
  }

  /** A ring of every length has a moment at which a reader that missed a whole lap is told that
      there is nothing new. */
  lemma WrapHidesLap(len: nat) returns (w: nat, r: nat)
    requires 0 < len
    ensures r + len == w && !Underrun(w, r, len) && Slot(w, len) == Slot(r, len)
  {
    r := LapStart(LAPS - 1, len);
    w := r + len;
    Ahead(r, len, len);
  }

  // ------------------------------------------------------------------ the ring and its readers

  datatype PopRv = PopOk | RcvrUnderrun | NoUpdate

  /** The item that lies in the slot of item `p` once `w` items have been pushed. */
  function Occupant(w: nat, p: nat, len: nat): (k: nat)
    requires 0 < len && p < w
    ensures p <= k < w && w <= k + len && Slot(k, len) == Slot(p, len)
    decreases w - p
  {
    Ahead(p, len, len);
    if p + len < w then Occupant(w, p + len, len) else p
  }

  /** The outcome of a pop: the result code, the number of the item handed out, the new position. */
  datatype PopStep = PopStep(rv: PopRv, at: nat, pos: nat)

  /** fifo_wait_and_read without waiting, for a writer at item `w` and a reader at item `r`, as the 16-bit
      indices decide it. */
  function PopAt(w: nat, r: nat, len: nat): (p: PopStep)
    requires 0 < len && r <= w
    ensures r <= p.pos <= w && (p.rv != NoUpdate ==> r < p.pos && p.at < w <= p.at + len)
  {
    UnderrunIsReal(w, r, len);
    if Underrun(w, r, len) then PopStep(RcvrUnderrun, w - len, w - len + 1)
    else if Slot(w, len) == Slot(r, len) then PopStep(NoUpdate, r, r)
    else PopStep(PopOk, Occupant(w, r, len), r + 1)
  }

  lemma UnderrunIsReal(w: nat, r: nat, len: nat)
    requires 0 < len && r <= w
    ensures Underrun(w, r, len) ==> r + len <= w
  {
    if w < r + len {
      CloseReader(w, r, len);
    }
  }

  /** What a pop should come to: the oldest pending item still in the ring. */
  function Wanted(w: nat, r: nat, len: nat): PopStep
    requires 0 < len && r <= w
  {
    if r == w then PopStep(NoUpdate, r, r)
    else if w - r >= len then PopStep(RcvrUnderrun, w - len, w - len + 1)
    else PopStep(PopOk, r, r + 1)
  }

  /** The reader lags less than a lap, or the counters see enough of its lag. */
  predicate InReach(w: nat, r: nat, len: nat)
    requires 0 < len
  {
    var d := LapsSeen(Lap(r, len), Lap(w, len));
    var due := if WrapsBetween(Lap(r, len), Lap(w, len)) then 2 else 1;
    w < r + len || d > due || (d == due && Slot(w, len) >= Slot(r, len))
  }

  /** Exactly within reach the indices decide as they should: item max(r, w - len) is handed out, underrun is
      reported exactly for a lag of a lap or more, and nothing new exactly if nothing is. */
  lemma PopExact(w: nat, r: nat, len: nat)
    requires 0 < len && r <= w
    ensures PopAt(w, r, len) == Wanted(w, r, len) <==> InReach(w, r, len)
  {
    UnderrunMissed(w, r, len);
    UnderrunIsReal(w, r, len);
    if w < r + len {
      CloseReader(w, r, len);
    }
    hide Slot, Lap, LooksUnderrun, LapsSeen, WrapsBetween;
  }

  /** While the lap counter has not wrapped every reader is within reach. */
  lemma ReachBeforeWrap(w: nat, r: nat, len: nat)
    requires 0 < len && r <= w && Lap(w, len) < LAPS
    ensures InReach(w, r, len)
  {
    UnderrunExact(w, r, len);
    PopExact(w, r, len);
    hide Slot, Lap, LooksUnderrun, LapsSeen, WrapsBetween;
    if r + len <= w {
      assert PopAt(w, r, len) == Wanted(w, r, len);
    }
  }

  /** The reader state of one descriptor. The ghost fields place it in the log: it started at item
      `start`, `popped` items were returned and `skipped` were overwritten unread. */
  class Receiver {
    var tail: nat
    var lap: nat
    ghost var pos: nat
    ghost var start: nat
    ghost var popped: nat
    ghost var skipped: nat

    constructor ()
    {
    }
  }

  class Ring<T(0)> {
    const data: array<T>
    var head: nat
    var lapNum: nat
    ghost var log: seq<T>

    ghost predicate Valid()
      reads this, data
    {
      && 0 < data.Length <= 65535
      && head == Slot(|log|, data.Length) && lapNum == Lap(|log|, data.Length) % LAPS
      && forall k :: 0 <= k < |log| && |log| - data.Length <= k ==> data[Slot(k, data.Length)] == log[k]
    }

    /** The reader state belongs to a position in this ring's log, and every item of the log since
        the reader started is accounted for as popped, skipped or still pending. */
    ghost predicate Reads(rcvr: Receiver)
      reads this, data, rcvr
      requires Valid()
    {
      && rcvr.pos <= |log|
      && rcvr.tail == Slot(rcvr.pos, data.Length) && rcvr.lap == Lap(rcvr.pos, data.Length) % LAPS
      && rcvr.start + rcvr.popped + rcvr.skipped == rcvr.pos
    }

    /** The lap arithmetic is exact for this reader. */
    ghost predicate Exact(rcvr: Receiver)
      reads this, data, rcvr
      requires Valid()
    {
      InReach(|log|, rcvr.pos, data.Length)
    }

    constructor (len: nat, fill: T)
      requires 0 < len <= 65535
      ensures Valid() && log == [] && fresh(data) && data.Length == len
    {
      data := new T[len](_ => fill);
      head, lapNum, log := 0, 0, [];
    }

    /** topic_mem_write_fifo. */
    method Push(item: T)
      requires Valid()
      modifies this, data
      ensures Valid() && log == old(log) + [item]
    {
      ghost var w, len := |log|, data.Length;
      data[head] := item;
      head := head + 1;
      if head >= data.Length {
        head := 0;
        lapNum := (lapNum + 1) % LAPS;
      }
      log := log + [item];
      forall k | 0 <= k <= w && w + 1 - len <= k
        ensures data[Slot(k, len)] == log[k]
      {
        if k < w {
          Ahead(k, w - k, len);
        }
      }
    }

    /** An item still in the ring is replaced in place. */
    method Overwrite(slot: nat, item: T)
      requires Valid() && slot < data.Length
      modifies this`log, data
      ensures Valid() && data[..] == old(data[..])[slot := item] && |log| == old(|log|)
      ensures forall k :: 0 <= k < |log| ==>
                log[k] == if |log| - data.Length <= k && Slot(k, data.Length) == slot then item else old(log)[k]
    {
      data[slot] := item;
      log := seq(|log|, k requires 0 <= k < |log| reads this, data =>
                   if |log| - data.Length <= k && Slot(k, data.Length) == slot then item else log[k]);
    }

    /** local_init_fifo_receiver: a new reader starts at the head. */
    method InitReceiver(rcvr: Receiver)
      requires Valid()
      modifies rcvr
      ensures Valid() && Reads(rcvr) && rcvr.pos == rcvr.start == |log| && rcvr.popped == rcvr.skipped == 0
    {
      rcvr.tail, rcvr.lap := head, lapNum;
      rcvr.pos, rcvr.start, rcvr.popped, rcvr.skipped := |log|, |log|, 0, 0;
    }

    /** fifo_flush: the reader forgets what is pending and starts over at the head. */
    method Flush(rcvr: Receiver)
      requires Valid() && Reads(rcvr)
      modifies rcvr
      ensures Valid() && Reads(rcvr) && rcvr.pos == rcvr.start == |log| && rcvr.popped == rcvr.skipped == 0
    {
      rcvr.lap, rcvr.tail := lapNum, head;
      rcvr.pos, rcvr.start, rcvr.popped, rcvr.skipped := |log|, |log|, 0, 0;
    }

    /** The underrun branch: the reader is moved to the oldest item still in the ring. */
    method JumpToOldest(rcvr: Receiver)
      requires Valid() && Reads(rcvr) && rcvr.pos + data.Length <= |log|
      modifies rcvr
      ensures Valid() && Reads(rcvr) && rcvr.start == old(rcvr.start) && rcvr.popped == old(rcvr.popped)
      ensures rcvr.pos == |log| - data.Length && rcvr.skipped == old(rcvr.skipped) + (rcvr.pos - old(rcvr.pos))
    {
      ghost var oldest := |log| - data.Length;
      Ahead(oldest, data.Length, data.Length);
      ModAdd(Lap(oldest, data.Length), 1);
      rcvr.lap := (lapNum - 1) % LAPS;
      rcvr.tail := head;
      rcvr.skipped := rcvr.skipped + (oldest - rcvr.pos);
      rcvr.pos := oldest;
    }

    /** The common end: read the item at the tail and advance the tail. */
    method Take(rcvr: Receiver) returns (item: T)
      requires Valid() && Reads(rcvr) && rcvr.pos < |log|
      modifies rcvr
      ensures Valid() && Reads(rcvr) && rcvr.start == old(rcvr.start) && rcvr.skipped == old(rcvr.skipped)
      ensures rcvr.pos == old(rcvr.pos) + 1 && rcvr.popped == old(rcvr.popped) + 1
      ensures item == log[Occupant(|log|, old(rcvr.pos), data.Length)]
    {
      assert data[Slot(Occupant(|log|, rcvr.pos, data.Length), data.Length)] == data[rcvr.tail];
      item := data[rcvr.tail];
      Advance(rcvr);
    }

    /** The tail moves one slot on, and into the next lap at the end of the ring. */
    method Advance(rcvr: Receiver)
      requires Valid() && Reads(rcvr) && rcvr.pos < |log|
      modifies rcvr
      ensures Valid() && Reads(rcvr) && rcvr.start == old(rcvr.start) && rcvr.skipped == old(rcvr.skipped)
      ensures rcvr.pos == old(rcvr.pos) + 1 && rcvr.popped == old(rcvr.popped) + 1
    {
      ModAdd(Lap(rcvr.pos, data.Length), 1);
      rcvr.tail := rcvr.tail + 1;
      if rcvr.tail >= data.Length {
        rcvr.tail := 0;
        rcvr.lap := (rcvr.lap + 1) % LAPS;
      }
      rcvr.pos := rcvr.pos + 1;
      rcvr.popped := rcvr.popped + 1;
    }

    /** fifo_wait_and_read without waiting: for every reader what the indices decide, and for a reader
        the lap arithmetic is exact for, what it should be. */
    method Pop(rcvr: Receiver, buffer: T) returns (rv: PopRv, item: T)
      requires Valid() && Reads(rcvr)
      modifies rcvr
      ensures Valid() && Reads(rcvr) && rcvr.start == old(rcvr.start)
      ensures var step := PopAt(|log|, old(rcvr.pos), data.Length);
              && rv == step.rv && rcvr.pos == step.pos && item == if rv == NoUpdate then buffer else log[step.at]
      ensures old(Exact(rcvr)) <==>
                PopAt(|log|, old(rcvr.pos), data.Length) == Wanted(|log|, old(rcvr.pos), data.Length)
      ensures rcvr.popped == old(rcvr.popped) + (if rv == NoUpdate then 0 else 1)
    {
      hide Slot, Lap, LooksUnderrun, Occupant, InReach;
      rv, item := PopOk, buffer;
      ghost var w, r, len := |log|, rcvr.pos, data.Length;
      PopExact(w, r, len);
      if LooksUnderrun(lapNum, head, rcvr.lap, rcvr.tail) {
        rv := RcvrUnderrun;
        UnderrunIsReal(w, r, len);
        JumpToOldest(rcvr);
      } else if head == rcvr.tail {
        return NoUpdate, buffer;
      }
      OldestStays(w, len);
      item := Take(rcvr);
    }
  }

  lemma OldestStays(w: nat, len: nat)
    requires 0 < len
    ensures w >= len ==> Occupant(w, w - len, len) == w - len
  {
  }

  // ------------------------------------------------------------------ whole runs of one reader

  /** What happens around one reader: somebody pushes, it pops, it flushes. */
  datatype Op = PushOp | PopOp | FlushOp

  /** Items pushed, the reader's position, and the items it was given, in order. */
  datatype Run = Run(pushed: nat, pos: nat, given: seq<nat>)

  predicate RunOk(s: Run) {
    s.pos <= s.pushed
  }

  /** A pop is one of the ring, with its 16-bit indices. */
  function Apply(s: Run, op: Op, len: nat): (t: Run)
    requires 0 < len && RunOk(s)
    ensures RunOk(t)
  {
    match op
    case PushOp => s.(pushed := s.pushed + 1)
    case FlushOp => s.(pos := s.pushed)
    case PopOp =>
      var step := PopAt(s.pushed, s.pos, len);
      Run(s.pushed, step.pos, if step.rv == NoUpdate then s.given else s.given + [step.at])
  }

  function ApplyAll(s: Run, ops: seq<Op>, len: nat): (t: Run)
    requires 0 < len && RunOk(s)
    ensures RunOk(t)
    decreases |ops|
  {
    if ops == [] then s else ApplyAll(Apply(s, ops[0], len), ops[1..], len)
  }

  /** Every pop of the run happens within the reach of the lap arithmetic. */
  predicate AllInReach(s: Run, ops: seq<Op>, len: nat)
    requires 0 < len && RunOk(s)
    decreases |ops|
  {
    ops != [] ==>
      && (ops[0] == PopOp ==> InReach(s.pushed, s.pos, len))
      && AllInReach(Apply(s, ops[0], len), ops[1..], len)
  }

  ghost predicate InOrder(s: Run) {
    && s.pos <= s.pushed
    && (forall i, j :: 0 <= i < j < |s.given| ==> s.given[i] < s.given[j])
    && (forall i :: 0 <= i < |s.given| ==> s.given[i] < s.pos)
  }

  /** Over any run all of whose pops are within reach, a reader is given items in the order they were
      pushed and none of them twice. */
  lemma {:induction false} NeverTwice(s: Run, ops: seq<Op>, len: nat)
    requires 0 < len && InOrder(s) && AllInReach(s, ops, len)
    ensures InOrder(ApplyAll(s, ops, len))
    decreases |ops|
  {
    if ops != [] {
      hide PopAt, InReach;
      if ops[0] == PopOp {
        PopExact(s.pushed, s.pos, len);
      }
      NeverTwice(Apply(s, ops[0], len), ops[1..], len);
    }
  }

  /** A reader that never lags a lap and does not flush misses nothing. */
  lemma {:induction false} NothingMissed(s: Run, ops: seq<Op>, len: nat)
    requires 0 < len && RunOk(s) && FlushOp !in ops && KeepsUp(s, ops, len)
    ensures var t := ApplyAll(s, ops, len);
            && s.pos <= t.pos && |t.given| == |s.given| + (t.pos - s.pos) && s.given <= t.given
            && forall i :: |s.given| <= i < |t.given| ==> t.given[i] == s.pos + (i - |s.given|)
    decreases |ops|
  {
    if ops != [] {
      hide PopAt;
      if ops[0] == PopOp {
        PopExact(s.pushed, s.pos, len);
      }
      NothingMissed(Apply(s, ops[0], len), ops[1..], len);
    }
  }

  predicate KeepsUp(s: Run, ops: seq<Op>, len: nat)
    requires 0 < len && RunOk(s)
    decreases |ops|
  {
    s.pushed < s.pos + len && (ops != [] ==> KeepsUp(Apply(s, ops[0], len), ops[1..], len))
  }

  // ------------------------------------------------------------------ past the wrap

  lemma {:induction false} ApplyConcat(s: Run, a: seq<Op>, b: seq<Op>, len: nat)
    requires 0 < len && RunOk(s)
    ensures ApplyAll(s, a + b, len) == ApplyAll(ApplyAll(s, a, len), b, len)
    decreases |a|
  {
    hide Apply;
    if a == [] {
      assert a + b == b;
    } else {
      assert (a + b)[1..] == a[1..] + b;
      ApplyConcat(Apply(s, a[0], len), a[1..], b, len);
    }
  }

  function Times(op: Op, n: nat): seq<Op> {
    if n == 0 then [] else [op] + Times(op, n - 1)
  }

  lemma {:induction false} PushMany(s: Run, n: nat, len: nat)
    requires 0 < len && RunOk(s)
    ensures ApplyAll(s, Times(PushOp, n), len) == s.(pushed := s.pushed + n)
    decreases n
  {
    if n > 0 {
      assert Times(PushOp, n)[1..] == Times(PushOp, n - 1);
      PushMany(s.(pushed := s.pushed + 1), n - 1, len);
    }
  }

  /** The first item of the last lap before the lap counter wraps. */
  ghost predicate LastLapAt(r: nat, len: nat)
    requires 0 < len
  {
    Lap(r, len) == LAPS - 1 && Slot(r, len) == 0
  }

  /** A reader left behind at the beginning of that lap, at item `r + i`, with the writer in the next lap or
      just at its end, is handed the item one lap further on, as if nothing had been lost. */
  lemma StalePop(r: nat, i: nat, w: nat, len: nat)
    requires 1 < len && LastLapAt(r, len) && i < len && r + len + i < w <= r + 2 * len && (w == r + 2 * len ==> i > 0)
    ensures PopAt(w, r + i, len) == PopStep(PopOk, r + len + i, r + i + 1)
  {
    StaleIndices(r, i, w, len);
    StaleOccupant(r, i, w, len);
    hide Slot, Lap, LooksUnderrun, Occupant;
  }

  lemma StaleIndices(r: nat, i: nat, w: nat, len: nat)
    requires 1 < len && LastLapAt(r, len) && i < len && r + len + i < w <= r + 2 * len && (w == r + 2 * len ==> i > 0)
    ensures !Underrun(w, r + i, len) && Slot(w, len) != Slot(r + i, len)
  {
    Ahead(r, i, len);
    Ahead(r, len, len);
    Ahead(r + len, w - (r + len), len);
    hide Slot, Lap;
    ModAdd(LAPS - 1, 1);
    ModAdd(LAPS, 1);
  }

  lemma StaleOccupant(r: nat, i: nat, w: nat, len: nat)
    requires 0 < len && r + len + i < w <= r + 2 * len
    ensures Occupant(w, r + i, len) == r + len + i
  {
    assert Occupant(w, r + i + len, len) == r + i + len;
  }

  lemma {:induction false} StalePops(s: Run, r: nat, i: nat, len: nat) returns (t: Run)
    requires 1 < len && LastLapAt(r, len) && i <= len - 1 && s.pushed == r + 2 * len - 1 && s.pos == r + i
    ensures t == ApplyAll(s, Times(PopOp, len - 1 - i), len)
    ensures t.pushed == s.pushed && t.pos == r + len - 1 && s.given <= t.given
    ensures i < len - 1 ==> |s.given| < |t.given| && t.given[|s.given|] == r + len + i
    decreases len - i
  {
    if i < len - 1 {
      StalePop(r, i, s.pushed, len);
      hide PopAt, LastLapAt;
      assert Times(PopOp, len - 1 - i)[1..] == Times(PopOp, len - 2 - i);
      var u := Apply(s, PopOp, len);
      assert u.given == s.given + [r + len + i];
      t := StalePops(u, r, i + 1, len);
      FirstGiven(s.given, r + len + i, t.given);
    } else {
      t := s;
    }
  }

  lemma FirstGiven(a: seq<nat>, x: nat, c: seq<nat>)
    requires a + [x] <= c
    ensures a <= c && |a| < |c| && c[|a|] == x
  {
    assert (a + [x])[|a|] == x;
    assert c[..|a| + 1] == a + [x];
    assert c[..|a|] == (a + [x])[..|a|] == a;
  }

  ghost predicate GivenTwice(given: seq<nat>) {
    exists i, j :: 0 <= i < j < |given| && given[i] == given[j]
  }

  /** Past the wrap a reader can be given the same item twice: left behind for a whole lap it is handed the
      next one without notice, and when the underrun is noticed at last it is moved back to its beginning. */
  lemma RepeatsPastWrap(len: nat) returns (start: nat, ops: seq<Op>)
    requires 1 < len
    ensures GivenTwice(ApplyAll(Run(start, start, []), ops, len).given)
  {
    hide ApplyAll, Times, LastLapAt, GivenTwice;
    start := FirstOfLastLap(len);
    ops := Times(PushOp, 2 * len - 1) + (Times(PopOp, len - 1) + [PushOp, PopOp, PopOp]);
    var u := LeftBehind(start, len);
    CaughtUp(u, start, len);
    InParts(Run(start, start, []), 2 * len - 1, len - 1, [PushOp, PopOp, PopOp], len);
    FirstAgain(u.given, start + 2 * len - 1, start + len);
  }

  /** A ring of one slot is the exception: head and tail are always the same, so whatever is handed out is
      handed out as an underrun, and is the newest item. */
  lemma OneSlot(w: nat, r: nat)
    requires r <= w
    ensures PopAt(w, r, 1) == PopStep(NoUpdate, r, r) || (r < w && PopAt(w, r, 1) == PopStep(RcvrUnderrun, w - 1, w))
  {
    hide LooksUnderrun;
  }

  lemma {:induction false} OneSlotNeverTwice(s: Run, ops: seq<Op>)
    requires InOrder(s)
    ensures InOrder(ApplyAll(s, ops, 1))
    decreases |ops|
  {
    if ops != [] {
      hide PopAt;
      OneSlot(s.pushed, s.pos);
      OneSlotNeverTwice(Apply(s, ops[0], 1), ops[1..]);
    }
  }

  ghost predicate CanRepeat(len: nat)
    requires 0 < len
  {
    exists start: nat, ops: seq<Op> :: GivenTwice(ApplyAll(Run(start, start, []), ops, len).given)
  }

  /** With no bound on how far behind a reader falls, an item can be handed out twice if and only if the ring
      has more than one slot. */
  lemma RepeatsExactly(len: nat)
    requires 0 < len
    ensures CanRepeat(len) <==> 1 < len
  {
    hide ApplyAll;
    if 1 < len {
      var start, ops := RepeatsPastWrap(len);
    } else {
      forall start: nat, ops: seq<Op>
        ensures !GivenTwice(ApplyAll(Run(start, start, []), ops, len).given)
      {
        OneSlotNeverTwice(Run(start, start, []), ops);
      }
    }
  }

  lemma FirstOfLastLap(len: nat) returns (start: nat)
    requires 0 < len
    ensures LastLapAt(start, len)
  {
    hide Slot, Lap;
    start := LapStart(LAPS - 1, len);
  }

  lemma FirstAgain(given: seq<nat>, x: nat, y: nat)
    requires given != [] && given[0] == y
    ensures GivenTwice(given + [x] + [y])
  {
    var all := given + [x] + [y];
    assert all[0] == y && all[|given| + 1] == y;
  }

  lemma InParts(s: Run, pushes: nat, pops: nat, last: seq<Op>, len: nat)
    requires 0 < len && RunOk(s)
    ensures ApplyAll(s, Times(PushOp, pushes) + (Times(PopOp, pops) + last), len)
         == ApplyAll(ApplyAll(s.(pushed := s.pushed + pushes), Times(PopOp, pops), len), last, len)
  {
    hide ApplyAll, Times;
    ApplyConcat(s, Times(PushOp, pushes), Times(PopOp, pops) + last, len);
    PushMany(s, pushes, len);
    ApplyConcat(s.(pushed := s.pushed + pushes), Times(PopOp, pops), last, len);
  }

  /** The run up to the moment at which the reader has been handed all but one item of the second lap. */
  lemma LeftBehind(r: nat, len: nat) returns (u: Run)
    requires 1 < len && LastLapAt(r, len)
    ensures u == ApplyAll(Run(r + 2 * len - 1, r, []), Times(PopOp, len - 1), len)
    ensures u.pushed == r + 2 * len - 1 && u.pos == r + len - 1 && u.given != [] && u.given[0] == r + len
  {
    u := StalePops(Run(r + 2 * len - 1, r, []), r, 0, len);
  }

  lemma CaughtUp(u: Run, r: nat, len: nat)
    requires 1 < len && LastLapAt(r, len) && u.pushed == r + 2 * len - 1 && u.pos == r + len - 1
    ensures ApplyAll(u, [PushOp, PopOp, PopOp], len).given == u.given + [r + 2 * len - 1] + [r + len]
  {
    var w := r + 2 * len;
    hide PopAt, LastLapAt, ApplyAll, Apply;
    ApplyThree(u, PushOp, PopOp, PopOp, len);
    var behind := Run(w, r + len - 1, u.given);
    Pushed(u, len);
    StalePop(r, len - 1, w, len);
    Popped(behind, PopStep(PopOk, w - 1, r + len), len);
    NoticedAtLast(r, len);
    Popped(Run(w, r + len, u.given + [w - 1]), PopStep(RcvrUnderrun, r + len, r + len + 1), len);
  }

  lemma Pushed(s: Run, len: nat)
    requires 0 < len && RunOk(s)
    ensures Apply(s, PushOp, len) == s.(pushed := s.pushed + 1)
  {
  }

  lemma Popped(s: Run, step: PopStep, len: nat)
    requires 0 < len && RunOk(s) && PopAt(s.pushed, s.pos, len) == step && step.rv != NoUpdate
    ensures Apply(s, PopOp, len) == Run(s.pushed, step.pos, s.given + [step.at])
  {
    hide PopAt;
  }

  lemma NoticedAtLast(r: nat, len: nat)
    requires 1 < len && LastLapAt(r, len)
    ensures PopAt(r + 2 * len, r + len, len) == PopStep(RcvrUnderrun, r + len, r + len + 1)
  {
    Ahead(r, len, len);
    Ahead(r + len, len, len);
    ModAdd(Lap(r, len), 1);
    ModAdd(Lap(r + len, len), 1);
    hide Slot, Lap, Occupant;
  }

  lemma ApplyThree(s: Run, a: Op, b: Op, c: Op, len: nat)
    requires 0 < len && RunOk(s)
    ensures ApplyAll(s, [a, b, c], len) == Apply(Apply(Apply(s, a, len), b, len), c, len)
  {
    hide Apply;
    assert [a, b, c][1..] == [b, c] && [b, c][1..] == [c] && [c][1..] == [];
    var t := Apply(s, a, len);
    var u := Apply(t, b, len);
    assert ApplyAll(u, [c], len) == ApplyAll(Apply(u, c, len), [], len);
    assert ApplyAll(t, [b, c], len) == ApplyAll(u, [c], len);
  }
}
