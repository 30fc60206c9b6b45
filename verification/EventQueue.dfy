/** The event queue of topic_mem.c and topic_io.c, a ring of records and a ring of payload bytes. */
module EventQueue {

  // The records point into the bytes. Writing bytes may overwrite payloads still in the ring of records, so every
  // write scans the records and erases those the write position has run into. The queue refines an unbounded log
  // of (record, payload).

  import opened Bytes
  import opened Fifo

  /** What a record is about; an erased record has type `Nothing` and no channel. */
  datatype EventType = Nothing | TopicProclaim | TopicUpdate | FifoPush

  /** event_queue_record_t: `channels` is the channel mask, `data` the offset into the byte ring. */
  datatype Record = Record(size: nat, topicId: nat, channels: set<nat>, typ: EventType, stamp: nat, data: nat)

  function Erase(r: Record): Record {
    r.(typ := Nothing, channels := {})
  }

  /** ptr_crosses_record, for the write position `p` and a byte ring of `size` bytes. */
  predicate PtrCrosses(r: Record, size: nat, p: int) {
    var left: int := r.data;
    var right: int := left + r.size;
    var (l, h) := if right > size then (left - size, right - size) else (left, right);
    l < p < h
  }

  /** Where the write position is once `total` bytes have been written: at the very end of the ring it rests
      until the next byte. */
  function HeadAt(total: nat, size: nat): (head: nat)
    requires size > 0
    ensures head <= size
  {
    if total > 0 && Slot(total, size) == 0 then size else Slot(total, size)
  }

  /** An event as it was pushed, with the number of the first byte of its payload. */
  datatype Event = Event(topicId: nat, channels: set<nat>, typ: EventType, stamp: nat, payload: seq<byte>, start: nat)

  function EndOf(e: Event): nat {
    e.start + |e.payload|
  }

  /** No byte of the payload has been overwritten once `total` bytes have been written. */
  predicate Intact(e: Event, total: nat, size: nat) {
    total <= e.start + size
  }

  /** A write that ended at position `t` of the stream ended inside the payload: between its first and its last
      byte, or, if the payload goes around the end of the ring, in the part behind the end. */
  predicate EndsInside(e: Event, t: nat, size: nat)
    requires size > 0
  {
    var first := Slot(e.start, size);
    if first + |e.payload| <= size then first < Slot(t, size) < first + |e.payload|
    else 0 < Slot(t, size) < first + |e.payload| - size
  }

  /** This happened to event `k`, at the latest with the last push. */
  ghost predicate Hit(events: seq<Event>, k: nat, size: nat)
    requires size > 0 && k < |events|
  {
    exists j :: k <= j < |events| && EndsInside(events[k], EndOf(events[j]), size)
  }

  /** The record a reader should find for an event. */
  ghost predicate RecordOf(r: Record, e: Event, size: nat)
    requires size > 0
  {
    && r.size == |e.payload| <= size && r.topicId == e.topicId && r.stamp == e.stamp
    && r.data == HeadAt(e.start, size)
  }

  /** It is as pushed, or erased if a write has ended inside its payload. */
  ghost predicate RecordOk(r: Record, events: seq<Event>, k: nat, size: nat)
    requires size > 0 && k < |events|
  {
    && RecordOf(r, events[k], size)
    && (if Hit(events, k, size) then r == Erase(r)
        else r.typ == events[k].typ && r.channels == events[k].channels)
  }

  /** The scan finds exactly these. */
  lemma CrossedExactly(r: Record, e: Event, t: nat, size: nat)
    requires size > 0 && RecordOf(r, e, size) && EndOf(e) <= t
    ensures PtrCrosses(r, size, HeadAt(t, size)) <==> EndsInside(e, t, size)
  {
    if e.payload != [] {
      Ahead(e.start, |e.payload|, size);
    }
  }

  /** While no byte has been overwritten no write has ended inside. */
  lemma IntactNotCrossed(e: Event, t: nat, size: nat)
    requires size > 0 && |e.payload| <= size && EndOf(e) <= t && Intact(e, t, size)
    ensures !EndsInside(e, t, size)
  {
    Ahead(e.start, t - e.start, size);
  }

  /** One lap of the byte ring behind a payload, in positions of the stream: it is hit from behind its first
      byte on, or, if it goes around the end of the ring at position `turn`, from behind `turn` on. */
  lemma HitInTheNextLap(e: Event, t: nat, size: nat)
    requires size > 0 && |e.payload| <= size && e.start + size <= t <= e.start + 2 * size
    ensures var first := Slot(e.start, size);
            var from := if first + |e.payload| <= size then e.start else e.start + (size - first);
            EndsInside(e, t, size) <==> from + size < t < EndOf(e) + size
  {
    Ahead(e.start, size, size);
    Ahead(e.start + size, t - (e.start + size), size);
  }

  ghost predicate LaidAt(e: Event, stream: seq<byte>) {
    EndOf(e) <= |stream| && stream[e.start..EndOf(e)] == e.payload
  }

  /** The events lie one behind the other in the stream of all bytes written. */
  ghost predicate Laid(events: seq<Event>, stream: seq<byte>) {
    && (forall k :: 0 <= k < |events| ==> LaidAt(events[k], stream))
    && (forall k :: 0 < k < |events| ==> events[k].start == EndOf(events[k - 1]))
    && (if events == [] then stream == [] else EndOf(events[|events| - 1]) == |stream|)
  }

  lemma LaidAtLonger(e: Event, stream: seq<byte>, more: seq<byte>)
    requires LaidAt(e, stream)
    ensures LaidAt(e, stream + more)
  {
    assert (stream + more)[e.start..EndOf(e)] == stream[e.start..EndOf(e)];
  }

  lemma LaidLast(e: Event, stream: seq<byte>)
    requires e.start == |stream|
    ensures LaidAt(e, stream + e.payload)
  {
  }

  /** Where the bytes written from the write position on land. */
  lemma NewBytePlace(total: nat, i: nat, size: nat)
    requires size > 0 && i < size
    ensures var head := HeadAt(total, size);
            Slot(total + i, size) == if head + i < size then head + i else head + i - size
  {
    Ahead(total, i, size);
  }

  /** A byte that is not pushed out of the ring by `n` more bytes is not where they land. */
  lemma OldBytePlace(total: nat, n: nat, b: nat, size: nat)
    requires size > 0 && b < total && total + n <= b + size
    ensures var head := HeadAt(total, size);
            !(head <= Slot(b, size) < head + n) && !(Slot(b, size) < head + n - size)
  {
    Ahead(b, total - b, size);
  }

  /** How the write position moves. */
  lemma HeadMoves(total: nat, n: nat, size: nat)
    requires size > 0 && n <= size
    ensures var head := HeadAt(total, size);
            HeadAt(total + n, size) == if head + n <= size then head + n else head + n - size
  {
    Ahead(total, n, size);
  }

  lemma LaidSnoc(events: seq<Event>, stream: seq<byte>, e: Event)
    requires Laid(events, stream) && e.start == |stream|
    ensures Laid(events + [e], stream + e.payload)
  {
    hide LaidAt;
    LaidLast(e, stream);
    forall k | 0 <= k < |events|
      ensures LaidAt(events[k], stream + e.payload)
    {
      LaidAtLonger(events[k], stream, e.payload);
    }
  }

  lemma HitSnoc(events: seq<Event>, e: Event, k: nat, size: nat)
    requires size > 0 && k < |events|
    ensures Hit(events + [e], k, size) <==> Hit(events, k, size) || EndsInside(events[k], EndOf(e), size)
  {
    hide EndsInside;
    var more := events + [e];
    if Hit(events, k, size) {
      var j :| k <= j < |events| && EndsInside(events[k], EndOf(events[j]), size);
      assert EndsInside(more[k], EndOf(more[j]), size);
    }
    if EndsInside(events[k], EndOf(e), size) {
      assert EndsInside(more[k], EndOf(more[|events|]), size);
    }
    if Hit(more, k, size) {
      var j :| k <= j < |more| && EndsInside(more[k], EndOf(more[j]), size);
      assert j < |events| ==> EndsInside(events[k], EndOf(events[j]), size);
    }
  }

  /** A good record stays good when the next event is pushed and the scan has passed over it. */
  lemma RecordSurvives(r: Record, events: seq<Event>, e: Event, k: nat, size: nat)
    requires size > 0 && k < |events| && RecordOk(r, events, k, size) && EndOf(events[k]) <= EndOf(e)
    ensures RecordOk(if PtrCrosses(r, size, HeadAt(EndOf(e), size)) then Erase(r) else r, events + [e], k, size)
  {
    hide PtrCrosses, EndsInside, Hit;
    HitSnoc(events, e, k, size);
    CrossedExactly(r, events[k], EndOf(e), size);
  }

  /** The record just written is not hit by its own push. */
  lemma FreshRecordOk(r: Record, events: seq<Event>, e: Event, size: nat)
    requires size > 0 && RecordOf(r, e, size) && r.typ == e.typ && r.channels == e.channels
    ensures !PtrCrosses(r, size, HeadAt(EndOf(e), size))
    ensures RecordOk(r, events + [e], |events|, size)
  {
    CrossedExactly(r, e, EndOf(e), size);
    IntactNotCrossed(e, EndOf(e), size);
    hide PtrCrosses, EndsInside;
  }

  /** The records of the events still in a ring of `len` slots. */
  ghost predicate RecordsOk(log: seq<Record>, events: seq<Event>, len: nat, size: nat)
    requires size > 0
  {
    |events| == |log| &&
    forall k :: 0 <= k < |events| && |events| - len <= k ==> RecordOk(log[k], events, k, size)
  }

  lemma EndsInOrder(events: seq<Event>, stream: seq<byte>, k: nat)
    requires Laid(events, stream) && k < |events|
    ensures EndOf(events[k]) <= |stream|
  {
  }

  /** The log after a push: the new record at the end, and the scan passed over all. */
  lemma RecordsAfterPush(log: seq<Record>, after: seq<Record>, events: seq<Event>, r: Record, e: Event, len: nat,
                         stream: seq<byte>, size: nat)
    requires size > 0 && RecordsOk(log, events, len, size) && Laid(events, stream)
    requires e.start == |stream| && RecordOf(r, e, size) && r.typ == e.typ && r.channels == e.channels
    requires |after| == |log| + 1
    requires forall k :: 0 <= k < |after| && |after| - len <= k ==>
               var was := (log + [r])[k];
               after[k] == if PtrCrosses(was, size, HeadAt(EndOf(e), size)) then Erase(was) else was
    ensures RecordsOk(after, events + [e], len, size)
  {
    hide PtrCrosses, RecordOk, RecordOf, HeadAt;
    forall k | 0 <= k < |after| && |after| - len <= k
      ensures RecordOk(after[k], events + [e], k, size)
    {
      if k < |events| {
        EndsInOrder(events, stream, k);
        RecordSurvives(log[k], events, e, k, size);
      } else {
        FreshRecordOk(r, events, e, size);
      }
    }
  }

  // ------------------------------------------------------------------ the byte ring

  class ByteRing {
    const data: array<byte>
    var head: nat
    var lapNum: nat
    ghost var stream: seq<byte>

    ghost predicate Valid()
      reads this, data
    {
      && 0 < data.Length <= 65535
      && head == HeadAt(|stream|, data.Length)
      && forall b :: 0 <= b < |stream| && |stream| - data.Length <= b ==> data[Slot(b, data.Length)] == stream[b]
    }

    constructor (len: nat)
      requires 0 < len <= 65535
      ensures Valid() && stream == [] && fresh(data) && data.Length == len
    {
      data := new byte[len](_ => 0);
      head, lapNum, stream := 0, 0, [];
    }

    /** One memcpy into the ring. */
    method CopyIn(at: nat, bytes: seq<byte>)
      requires at + |bytes| <= data.Length
      modifies data
      ensures forall i :: 0 <= i < data.Length ==>
                data[i] == if at <= i < at + |bytes| then bytes[i - at] else old(data[i])
    {
      for j := 0 to |bytes|
        invariant forall i :: 0 <= i < data.Length ==>
                    data[i] == if at <= i < at + j then bytes[i - at] else old(data[i])
      {
        data[at + j] := bytes[j];
      }
    }

    /** The two copies of topic_write_byte_buffer. */
    method CopyWrapped(bytes: seq<byte>)
      requires |bytes| <= data.Length && head <= data.Length
      modifies `head, `lapNum, data
      ensures head == if old(head) + |bytes| <= data.Length then old(head) + |bytes|
                      else old(head) + |bytes| - data.Length
      ensures forall i :: 0 <= i < data.Length ==>
                data[i] == if old(head) <= i < old(head) + |bytes| then bytes[i - old(head)]
                           else if i < old(head) + |bytes| - data.Length then bytes[i + data.Length - old(head)]
                           else old(data[i])
    {
      var btw := if |bytes| < data.Length - head then |bytes| else data.Length - head;
      CopyIn(head, bytes[..btw]);
      if btw < |bytes| {
        CopyIn(0, bytes[btw..]);
        head := |bytes| - btw;
        lapNum := (lapNum + 1) % LAPS;
      } else {
        head := head + btw;
      }
    }

    /** topic_write_byte_buffer: appends to the stream, wrapping at the end of the ring, and returns
        where the bytes begin. */
    method Write(bytes: seq<byte>) returns (origin: nat)
      requires Valid() && |bytes| <= data.Length
      modifies this, data
      ensures Valid() && stream == old(stream) + bytes
      ensures origin == HeadAt(|old(stream)|, data.Length)
    {
      origin := head;
      ghost var total, size := |stream|, data.Length;
      ghost var before := data[..];
      HeadMoves(total, |bytes|, size);
      CopyWrapped(bytes);
      stream := stream + bytes;
      forall b | 0 <= b < |stream| && |stream| - size <= b
        ensures data[Slot(b, size)] == stream[b]
      {
        if b < total {
          OldBytePlace(total, |bytes|, b, size);
          assert before[Slot(b, size)] == old(stream)[b];
        } else {
          NewBytePlace(total, b - total, size);
        }
      }
    }

    /** topic_read_byte_buffer: the payload is exact if none of it has been overwritten. */
    method Read(src: nat, size: nat, ghost start: nat) returns (bytes: seq<byte>)
      requires Valid() && src <= data.Length && size <= data.Length
      requires src == HeadAt(start, data.Length) && start + size <= |stream|
      ensures |stream| <= start + data.Length ==> bytes == stream[start..start + size]
      ensures |bytes| == size
    {
      var btr := if size < data.Length - src then size else data.Length - src;
      bytes := data[src..src + btr];
      if btr < size {
        bytes := bytes + data[..size - btr];
      }
      if |stream| <= start + data.Length {
        forall i | 0 <= i < size
          ensures bytes[i] == stream[start + i]
        {
          Ahead(start, i, data.Length);
        }
      }
    }
  }

  // ------------------------------------------------------------------ the queue

  datatype PopOutcome = Delivered(topicId: nat, typ: EventType, stamp: nat, payload: seq<byte>) | Asleep

  predicate Matches(r: Record, mask: set<nat>) {
    r.channels * mask != {} && r.typ != Nothing
  }

  lemma {:induction false} TimesAtLeast(q: nat, n: nat)
    ensures q * n >= if q == 0 then 0 else if q == 1 then n else 2 * n
    decreases q
  {
    if q > 0 {
      TimesAtLeast(q - 1, n);
      assert q * n == (q - 1) * n + n;
    }
  }

  lemma ModOnce(a: nat, n: nat)
    requires 0 < n && a < 2 * n
    ensures a % n == if a < n then a else a - n
  {
    TimesAtLeast(a / n, n);
    assert a == a / n * n + a % n;
  }

  /** The slots visited by the first `i` turns of the scan, which starts at `head`. */
  predicate Visited(s: nat, head: nat, i: nat, n: nat) {
    if s >= head then s - head < i else s + n - head < i
  }

  lemma NothingVisited(head: nat, n: nat)
    requires head < n
    ensures forall s :: 0 <= s < n ==> !Visited(s, head, 0, n)
  {
  }

  lemma AllVisited(head: nat, n: nat)
    requires head < n
    ensures forall s :: 0 <= s < n ==> Visited(s, head, n, n)
  {
  }

  lemma VisitedNext(s: nat, head: nat, i: nat, slot: nat, n: nat)
    requires head < n && i < n && s < n && slot == if i + head < n then i + head else i + head - n
    ensures Visited(s, head, i + 1, n) <==> Visited(s, head, i, n) || s == slot
    ensures !Visited(slot, head, i, n)
  {
  }

  /** The record ring after the first `i` turns of the scan. */
  ghost predicate Scanned(before: seq<Record>, now: seq<Record>, head: nat, i: nat, size: nat, tail: nat) {
    |now| == |before| &&
    forall s :: 0 <= s < |before| ==>
      now[s] == if Visited(s, head, i, |before|) && PtrCrosses(before[s], size, tail) then Erase(before[s])
                else before[s]
  }

  lemma ScanSlot(before: seq<Record>, now: seq<Record>, head: nat, i: nat, slot: nat, size: nat, tail: nat)
    requires head < |before| && i < |before| && Scanned(before, now, head, i, size, tail)
    requires slot == if i + head < |before| then i + head else i + head - |before|
    ensures now[slot] == before[slot]
    ensures PtrCrosses(now[slot], size, tail) ==>
              Scanned(before, now[slot := Erase(now[slot])], head, i + 1, size, tail)
    ensures !PtrCrosses(now[slot], size, tail) ==> Scanned(before, now, head, i + 1, size, tail)
  {
    hide PtrCrosses, Visited;
    var n := |before|;
    VisitedNext(slot, head, i, slot, n);
    forall s | 0 <= s < n
      ensures Visited(s, head, i + 1, n) <==> Visited(s, head, i, n) || s == slot
    {
      VisitedNext(s, head, i, slot, n);
    }
  }

  /** The payload bytes of a stretch of events. */
  function TotalSize(events: seq<Event>): nat {
    if events == [] then 0 else TotalSize(events[..|events| - 1]) + |events[|events| - 1].payload|
  }

  lemma {:induction false} StartsAddUp(events: seq<Event>, stream: seq<byte>, i: nat, j: nat)
    requires Laid(events, stream) && i < j <= |events|
    ensures events[j - 1].start + |events[j - 1].payload| == events[i].start + TotalSize(events[i..j])
    decreases j
  {
    assert events[i..j][..j - i - 1] == events[i..j - 1];
    if i < j - 1 {
      StartsAddUp(events, stream, i, j - 1);
    } else {
      assert events[i..j - 1] == [];
    }
  }

  /** Any `len` consecutive payloads fit into `size` bytes. */
  ghost predicate WithinBudget(events: seq<Event>, len: nat, size: nat) {
    forall i, j :: 0 <= i < j <= |events| && j - i <= len ==> TotalSize(events[i..j]) <= size
  }

  /** If any `len` consecutive payloads fit into the byte ring, no payload in the ring of records has
      lost a byte. */
  lemma BudgetKeepsIntact(events: seq<Event>, stream: seq<byte>, len: nat, size: nat, k: nat)
    requires Laid(events, stream) && WithinBudget(events, len, size)
    requires k < |events| && |events| - len <= k
    ensures Intact(events[k], |stream|, size)
  {
    StartsAddUp(events, stream, k, |events|);
    assert TotalSize(events[k..|events|]) <= size;
  }

  /** The oldest item a reader at item `r` can still get. */
  function Oldest(w: nat, r: nat, len: nat): nat
    requires r <= w
  {
    if w - r >= len then w - len else r
  }

  /** The event a reader is handed: exactly what was pushed, if no byte of its payload has been overwritten. */
  ghost predicate HandedOver(outcome: PopOutcome, events: seq<Event>, k: nat, total: nat, size: nat)
    requires size > 0 && k < |events|
  {
    var e := events[k];
    && outcome.Delivered? && outcome.topicId == e.topicId && outcome.stamp == e.stamp
    && outcome.typ == (if Hit(events, k, size) then Nothing else e.typ) && |outcome.payload| == |e.payload|
    && (Intact(e, total, size) ==> outcome.payload == e.payload)
  }

  predicate OnMask(e: Event, mask: set<nat>) {
    e.typ != Nothing && exists c :: c in e.channels && c in mask
  }

  /** A reader with this mask should get event `k`: it is on one of its channels, is about something, and no
      write has ended inside its payload. */
  ghost predicate Due(events: seq<Event>, k: nat, mask: set<nat>, size: nat)
    requires size > 0 && k < |events|
  {
    OnMask(events[k], mask) && !Hit(events, k, size)
  }

  lemma CommonChannel(a: set<nat>, b: set<nat>)
    ensures a * b != {} <==> exists c :: c in a && c in b
  {
    if c :| c in a && c in b {
      assert c in a * b;
    }
    if a * b != {} {
      var c :| c in a * b;
    }
  }

  /** What the test on the record comes to for the event. */
  lemma MatchesExactly(r: Record, events: seq<Event>, k: nat, mask: set<nat>, size: nat)
    requires size > 0 && k < |events| && RecordOk(r, events, k, size)
    ensures Matches(r, mask) <==> Due(events, k, mask, size)
  {
    hide Hit, RecordOf;
    CommonChannel(r.channels, mask);
  }

  /** A payload a write has ended inside has lost a byte. */
  lemma HitLostByte(events: seq<Event>, stream: seq<byte>, k: nat, size: nat)
    requires size > 0 && k < |events| && Laid(events, stream) && |events[k].payload| <= size && Hit(events, k, size)
    ensures !Intact(events[k], |stream|, size)
  {
    var j :| k <= j < |events| && EndsInside(events[k], EndOf(events[j]), size);
    EndsGrow(events, stream, k, j);
    if Intact(events[k], |stream|, size) {
      EndsInOrder(events, stream, j);
      IntactNotCrossed(events[k], EndOf(events[j]), size);
    }
  }

  lemma {:induction false} EndsGrow(events: seq<Event>, stream: seq<byte>, k: nat, j: nat)
    requires Laid(events, stream) && k <= j < |events|
    ensures EndOf(events[k]) <= EndOf(events[j])
    decreases j
  {
    if k < j {
      EndsGrow(events, stream, k, j - 1);
    }
  }

  /** The events on the mask from number `lo` up to `hi`, in order. */
  function Selected(events: seq<Event>, lo: nat, hi: nat, mask: set<nat>): seq<Event>
    requires lo <= hi <= |events|
    decreases hi
  {
    if lo == hi then []
    else Selected(events, lo, hi - 1, mask) + if OnMask(events[hi - 1], mask) then [events[hi - 1]] else []
  }

  lemma {:induction false} NoneSelected(events: seq<Event>, lo: nat, mid: nat, hi: nat, mask: set<nat>)
    requires lo <= mid <= hi <= |events| && forall k :: mid <= k < hi ==> !OnMask(events[k], mask)
    ensures Selected(events, lo, hi, mask) == Selected(events, lo, mid, mask)
    decreases hi
  {
    if mid < hi {
      NoneSelected(events, lo, mid, hi - 1, mask);
    }
  }

  /** Each handed over as it was pushed. */
  function AsPushed(events: seq<Event>): (outcomes: seq<PopOutcome>)
    ensures |outcomes| == |events|
  {
    seq(|events|, k requires 0 <= k < |events| =>
          Delivered(events[k].topicId, events[k].typ, events[k].stamp, events[k].payload))
  }

  class Queue {
    const ring: Ring<Record>
    const buf: ByteRing
    ghost var events: seq<Event>

    ghost predicate Valid()
      reads this, ring, ring.data, buf, buf.data
    {
      && ring.Valid() && buf.Valid()
      && ring.data as object != buf.data
      && |events| == |ring.log|
      && Laid(events, buf.stream)
      && RecordsOk(ring.log, events, ring.data.Length, buf.data.Length)
    }

    constructor (len: nat, size: nat)
      requires 0 < len <= 65535 && 0 < size <= 65535
      ensures Valid() && events == [] && fresh(ring) && fresh(ring.data) && fresh(buf) && fresh(buf.data)
      ensures ring.data.Length == len && buf.data.Length == size
    {
      ring := new Ring<Record>(len, Record(0, 0, {}, Nothing, 0, 0));
      buf := new ByteRing(size);
      events := [];
    }

    /** The scan over all slots of the record ring: erases exactly the records the write position lies
        strictly inside of. */
    method EraseCrossed()
      requires ring.Valid()
      modifies ring`log, ring.data
      ensures ring.Valid() && |ring.log| == old(|ring.log|)
      ensures forall k :: 0 <= k < |ring.log| && |ring.log| - ring.data.Length <= k ==>
                ring.log[k] == if PtrCrosses(old(ring.log)[k], buf.data.Length, buf.head)
                               then Erase(old(ring.log)[k]) else old(ring.log)[k]
    {
      hide PtrCrosses, Visited;
      ghost var before := ring.data[..];
      ghost var log := ring.log;
      var n, head, size, tail := ring.data.Length, ring.head, buf.data.Length, buf.head;
      NothingVisited(head, n);
      for i := 0 to n
        invariant ring.Valid() && |ring.log| == |log| && ring.head == head
        invariant Scanned(before, ring.data[..], head, i, size, tail)
      {
        hide Scanned;
        var slot := (i + head) % n;
        ModOnce(i + head, n);
        ScanSlot(before, ring.data[..], head, i, slot, size, tail);
        if PtrCrosses(ring.data[slot], size, tail) {
          ring.Overwrite(slot, Erase(ring.data[slot]));
        }
      }
      AllVisited(head, n);
    }

    /** The record is pushed, then the scan runs over the whole ring. */
    method PushRecord(record: Record)
      requires ring.Valid()
      modifies ring, ring.data
      ensures ring.Valid() && |ring.log| == |old(ring.log)| + 1
      ensures forall k :: 0 <= k < |ring.log| && |ring.log| - ring.data.Length <= k ==>
                var was := (old(ring.log) + [record])[k];
                ring.log[k] == if PtrCrosses(was, buf.data.Length, buf.head) then Erase(was) else was
    {
      hide PtrCrosses, Slot, Lap;
      ring.Push(record);
      EraseCrossed();
    }

    /** topic_mem_event_queue_write: refuses payloads larger than the byte ring; otherwise the event
        is added to the log, whatever it overwrites. */
    method Push(topicId: nat, channels: set<nat>, typ: EventType, stamp: nat, payload: seq<byte>) returns (ok: bool)
      requires Valid()
      modifies this, ring, ring.data, buf, buf.data
      ensures Valid() && ok == (|payload| <= buf.data.Length)
      ensures events == if ok then old(events) + [Event(topicId, channels, typ, stamp, payload, |old(buf.stream)|)]
                        else old(events)
      ensures buf.stream == if ok then old(buf.stream) + payload else old(buf.stream)
      ensures !ok ==> unchanged(this, ring, ring.data, buf, buf.data)
    {
      hide PtrCrosses, Laid, RecordOk, Slot, Lap, RecordsOk;
      if |payload| > buf.data.Length {
        return false;
      }
      ghost var e := Event(topicId, channels, typ, stamp, payload, |buf.stream|);
      ghost var log, stream := ring.log, buf.stream;
      var origin := buf.Write(payload);
      var record := Record(|payload|, topicId, channels, typ, stamp, origin);
      PushRecord(record);
      LaidSnoc(events, stream, e);
      RecordsAfterPush(log, ring.log, events, record, e, ring.data.Length, stream, buf.data.Length);
      events := events + [e];
      ok := true;
    }

    /** One turn of the loop of topic_io_event_queue_pop: the next record in the ring, if any, for every
        reader the one the 16-bit indices lead to. */
    method NextRecord(rcvr: Receiver) returns (rv: PopRv, r: Record, ghost at: nat)
      requires Valid() && ring.Reads(rcvr)
      modifies rcvr
      ensures Valid() && ring.Reads(rcvr) && rcvr.pos >= old(rcvr.pos) && (old(ring.Exact(rcvr)) ==> ring.Exact(rcvr))
      ensures rv != NoUpdate ==> rcvr.pos > old(rcvr.pos) && InHand(r, at)
      ensures old(ring.Exact(rcvr)) ==>
                if rv == NoUpdate then old(rcvr.pos) == |events| == rcvr.pos
                else at == Oldest(|events|, old(rcvr.pos), ring.data.Length) && rcvr.pos == at + 1
    {
      hide Slot, Lap, RecordOk, PopAt;
      ghost var step := PopAt(|events|, rcvr.pos, ring.data.Length);
      at := step.at;
      rv, r := ring.Pop(rcvr, Record(0, 0, {}, Nothing, 0, 0));
    }

    /** The record is that of event `at`, which is still in the ring. */
    ghost predicate InHand(r: Record, at: nat)
      reads this, ring, ring.data, buf, buf.data
      requires Valid()
    {
      && at < |events| <= at + ring.data.Length
      && r == ring.log[at] && RecordOk(r, events, at, buf.data.Length)
    }

    /** topic_io_event_queue_pop without sleeping. Whatever is handed over is an event still in the ring
        and, on a synchronized bus, one due for `mask`. For a reader the lap arithmetic is exact for, it is
        the first such event pending, and all before it are skipped. `Asleep` stands for the point at which
        the call would go to sleep. */
    method Pop(mask: set<nat>, rcvr: Receiver, synced: bool) returns (outcome: PopOutcome)
      requires Valid() && ring.Reads(rcvr)
      modifies rcvr
      ensures Valid() && ring.Reads(rcvr) && (old(ring.Exact(rcvr)) ==> ring.Exact(rcvr))
      ensures outcome != Asleep ==>
                exists at: nat :: (
                  && at < |events| <= at + ring.data.Length
                  && HandedOver(outcome, events, at, |buf.stream|, buf.data.Length)
                  && (synced ==> Due(events, at, mask, buf.data.Length)))
      ensures old(ring.Exact(rcvr)) ==>
              var first := Oldest(|events|, old(rcvr.pos), ring.data.Length);
              if outcome == Asleep then
                && rcvr.pos == |events| && (first < |events| ==> synced)
                && forall k :: first <= k < |events| ==> !Due(events, k, mask, buf.data.Length)
              else
                && first < rcvr.pos <= |events|
                && HandedOver(outcome, events, rcvr.pos - 1, |buf.stream|, buf.data.Length)
                && (if synced then
                      && Due(events, rcvr.pos - 1, mask, buf.data.Length)
                      && forall k :: first <= k < rcvr.pos - 1 ==> !Due(events, k, mask, buf.data.Length)
                    else rcvr.pos - 1 == first)
    {
      hide Slot, Lap, Matches, RecordOk, HandedOver, Laid, RecordsOk, Due, Hit;
      var rv, event;
      ghost var at;
      rv, event, at := Search(mask, rcvr, synced);
      if rv == NoUpdate {
        return Asleep;
      }
      outcome := HandOver(event, at);
    }

    /** Popping on a synchronized bus until nothing is pending: while any `len` consecutive payloads fit into
        the byte ring, an exact reader gets precisely the pending events on its mask, in order, each as it
        was pushed. */
    method PopAll(mask: set<nat>, rcvr: Receiver) returns (outcomes: seq<PopOutcome>)
      requires Valid() && ring.Reads(rcvr) && ring.Exact(rcvr)
      requires WithinBudget(events, ring.data.Length, buf.data.Length)
      modifies rcvr
      ensures Valid() && ring.Reads(rcvr) && rcvr.pos == |events|
      ensures var first := Oldest(|events|, old(rcvr.pos), ring.data.Length);
              outcomes == AsPushed(Selected(events, first, |events|, mask))
    {
      hide Slot, Lap, RecordOk, HandedOver, Laid, RecordsOk, Due, Hit, OnMask, AsPushed, WithinBudget;
      ghost var first := Oldest(|events|, rcvr.pos, ring.data.Length);
      outcomes := [];
      var outcome := Pop(mask, rcvr, true);
      ghost var done := first;
      NothingPushed();
      while outcome != Asleep
        invariant Valid() && ring.Reads(rcvr) && ring.Exact(rcvr)
        invariant |events| <= done + ring.data.Length && first <= done <= |events|
        invariant outcomes == AsPushed(Selected(events, first, done, mask))
        invariant Next(outcome, done, rcvr.pos, mask)
        decreases |events| - done
      {
        TakeNext(outcome, first, done, rcvr.pos, mask);
        outcomes := outcomes + [outcome];
        done := rcvr.pos;
        outcome := Pop(mask, rcvr, true);
      }
      TakeRest(first, done, mask);
    }

    /** What a pop by a reader that has got as far as event `done` has to offer. */
    ghost predicate Next(outcome: PopOutcome, done: nat, pos: nat, mask: set<nat>)
      reads this, ring, ring.data, buf, buf.data
      requires Valid()
    {
      if outcome == Asleep then
        pos == |events| && forall k :: done <= k < |events| ==> !Due(events, k, mask, buf.data.Length)
      else
        && done < pos <= |events| && Due(events, pos - 1, mask, buf.data.Length)
        && HandedOver(outcome, events, pos - 1, |buf.stream|, buf.data.Length)
        && forall k :: done <= k < pos - 1 ==> !Due(events, k, mask, buf.data.Length)
    }

    lemma NothingPushed()
      ensures AsPushed([]) == []
    {
    }

    /** Within the budget an event in the ring is due exactly if it is on the mask. */
    lemma DueWithinBudget(k: nat, mask: set<nat>)
      requires Valid() && WithinBudget(events, ring.data.Length, buf.data.Length)
      requires k < |events| <= k + ring.data.Length
      ensures Due(events, k, mask, buf.data.Length) <==> OnMask(events[k], mask)
      ensures Intact(events[k], |buf.stream|, buf.data.Length) && !Hit(events, k, buf.data.Length)
    {
      BudgetKeepsIntact(events, buf.stream, ring.data.Length, buf.data.Length, k);
      assert RecordOf(ring.log[k], events[k], buf.data.Length);
      if Hit(events, k, buf.data.Length) {
        HitLostByte(events, buf.stream, k, buf.data.Length);
      }
    }

    lemma TakeNext(outcome: PopOutcome, first: nat, done: nat, pos: nat, mask: set<nat>)
      requires Valid() && WithinBudget(events, ring.data.Length, buf.data.Length)
      requires outcome != Asleep && first <= done && |events| <= done + ring.data.Length
      requires Next(outcome, done, pos, mask)
      ensures AsPushed(Selected(events, first, done, mask)) + [outcome] == AsPushed(Selected(events, first, pos, mask))
    {
      hide Due, Hit, Laid, RecordsOk, WithinBudget, OnMask;
      forall k | done <= k < pos - 1
        ensures !OnMask(events[k], mask)
      {
        DueWithinBudget(k, mask);
      }
      DueWithinBudget(pos - 1, mask);
      NoneSelected(events, first, done, pos - 1, mask);
    }

    lemma TakeRest(first: nat, done: nat, mask: set<nat>)
      requires Valid() && WithinBudget(events, ring.data.Length, buf.data.Length)
      requires first <= done && |events| <= done + ring.data.Length && Next(Asleep, done, |events|, mask)
      ensures done <= |events| ==> Selected(events, first, |events|, mask) == Selected(events, first, done, mask)
    {
      hide Due, Hit, Laid, RecordsOk, WithinBudget, OnMask;
      if done <= |events| {
        forall k | done <= k < |events|
          ensures !OnMask(events[k], mask)
        {
          DueWithinBudget(k, mask);
        }
        NoneSelected(events, first, done, |events|, mask);
      }
    }

    /** The loop of topic_io_event_queue_pop. */
    method Search(mask: set<nat>, rcvr: Receiver, synced: bool) returns (rv: PopRv, event: Record, ghost at: nat)
      requires Valid() && ring.Reads(rcvr)
      modifies rcvr
      ensures Valid() && ring.Reads(rcvr) && (old(ring.Exact(rcvr)) ==> ring.Exact(rcvr))
      ensures rv != NoUpdate ==> InHand(event, at) && (synced ==> Due(events, at, mask, buf.data.Length))
      ensures old(ring.Exact(rcvr)) ==>
                && Searched(Oldest(|events|, old(rcvr.pos), ring.data.Length), rcvr.pos, rv, mask, synced)
                && (rv != NoUpdate ==> at == rcvr.pos - 1)
    {
      hide Slot, Lap, Matches, RecordOk, Laid, RecordsOk, Due, Hit;
      ghost var first, exact := Oldest(|events|, rcvr.pos, ring.data.Length), ring.Exact(rcvr);
      rv, event, at := NextRecord(rcvr);
      if rv != NoUpdate {
        MatchesExactly(event, events, at, mask, buf.data.Length);
      }
      while rv != NoUpdate && synced && !Matches(event, mask)
        invariant Valid() && ring.Reads(rcvr) && (exact ==> ring.Exact(rcvr))
        invariant rv != NoUpdate ==>
                    InHand(event, at) && (Matches(event, mask) <==> Due(events, at, mask, buf.data.Length))
        invariant exact ==> Searched(first, rcvr.pos, rv, mask, synced) && (rv != NoUpdate ==> at == rcvr.pos - 1)
        decreases rv != NoUpdate, |events| - rcvr.pos
      {
        rv, event, at := NextRecord(rcvr);
        if rv != NoUpdate {
          MatchesExactly(event, events, at, mask, buf.data.Length);
        }
      }
    }

    /** How far the loop has got with an exact reader: everything before the record in hand was skipped. */
    ghost predicate Searched(first: nat, pos: nat, rv: PopRv, mask: set<nat>, synced: bool)
      reads this, ring, ring.data, buf, buf.data
      requires Valid()
    {
      && first <= pos <= |events|
      && (if rv == NoUpdate then
            && pos == |events| && (first < pos ==> synced)
            && forall k :: first <= k < pos ==> !Due(events, k, mask, buf.data.Length)
          else
            && first < pos
            && (!synced ==> pos - 1 == first)
            && forall k :: first <= k < pos - 1 ==> !Due(events, k, mask, buf.data.Length))
    }

    /** topic_mem_event_queue_get_data, and the copy of the record into the transfer. */
    method HandOver(event: Record, ghost at: nat) returns (outcome: PopOutcome)
      requires Valid() && at < |events| && RecordOk(event, events, at, buf.data.Length)
      ensures outcome.Delivered? && HandedOver(outcome, events, at, |buf.stream|, buf.data.Length)
    {
      hide Slot, Lap, Hit;
      var payload := buf.Read(event.data, event.size, events[at].start);
      outcome := Delivered(event.topicId, event.typ, event.stamp, payload);
    }

    /** While any `len` consecutive payloads fit into the byte ring, no record is ever erased. */
    lemma NothingLostWithinBudget(k: nat)
      requires Valid() && WithinBudget(events, ring.data.Length, buf.data.Length)
      requires k < |events| && |events| - ring.data.Length <= k
      ensures Intact(events[k], |buf.stream|, buf.data.Length)
      ensures ring.log[k].typ == events[k].typ && ring.log[k].channels == events[k].channels
    {
      DueWithinBudget(k, {});
      assert RecordOk(ring.log[k], events, k, buf.data.Length);
    }

    /** The scan erases exactly what it should: the record of an event in the ring is as pushed unless a push
        has ended inside its payload, and then it is about nothing and on no channel. */
    lemma ErasedExactly(k: nat)
      requires Valid() && k < |events| && |events| - ring.data.Length <= k
      ensures ring.log[k].typ == (if Hit(events, k, buf.data.Length) then Nothing else events[k].typ)
      ensures ring.log[k].channels == (if Hit(events, k, buf.data.Length) then {} else events[k].channels)
    {
      assert RecordOk(ring.log[k], events, k, buf.data.Length);
    }

    /** The scan never destroys what is still there: if the record of an event in the ring has been
        erased, the first byte of its payload has been overwritten, by byte number `later`. */
    lemma ErasedWasOverwritten(k: nat) returns (later: nat)
      requires Valid() && k < |events| && |events| - ring.data.Length <= k
      requires ring.log[k].typ == Nothing && events[k].typ != Nothing
      ensures events[k].start < later < |buf.stream|
      ensures Slot(later, buf.data.Length) == Slot(events[k].start, buf.data.Length)
    {
      ErasedExactly(k);
      assert RecordOf(ring.log[k], events[k], buf.data.Length);
      HitLostByte(events, buf.stream, k, buf.data.Length);
      later := events[k].start + buf.data.Length;
      Ahead(events[k].start, buf.data.Length, buf.data.Length);
    }

    /** The record just written is never erased. */
    lemma NewestKept()
      requires Valid() && events != []
      ensures var k := |events| - 1; ring.log[k].typ == events[k].typ && ring.log[k].channels == events[k].channels
    {
      var k := |events| - 1;
      ErasedExactly(k);
      assert RecordOf(ring.log[k], events[k], buf.data.Length);
      IntactNotCrossed(events[k], EndOf(events[k]), buf.data.Length);
    }
  }
}
