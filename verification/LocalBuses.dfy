/** The table of local buses (local_buses.c): buses are created into the first free slot, deleted, and looked
    up by name and kind. However it has been used, a path printed for a topic leads back to its bus. */
module LocalBuses {

  import opened TopicTree
  import opened TopicGrowth
  import opened Paths
  import opened TopicPaths

  const BUSES_MAX := 24
  const BUS_NAME_MAX_LEN := 32

  datatype Slot = Free | Bus(name: string, synced: bool)

  datatype BusRv = BusOk | BusNameTooLong | BusExists | BusesMax | BusTopicNa

  /** What local_bus_lookup asks of a slot. */
  predicate Fits(s: Slot, name: string, typ: BusType) {
    s.Bus? && s.name == name && (typ == NotDefined || typ == KindOf(s.synced))
  }

  /** The first slot from `from` that fits, or -1. */
  function Find(slots: seq<Slot>, name: string, typ: BusType, from: nat): (i: int)
    requires from <= |slots|
    ensures -1 <= i < |slots| && (i != -1 ==> from <= i && Fits(slots[i], name, typ))
    ensures forall k :: from <= k < (if i == -1 then |slots| else i) ==> !Fits(slots[k], name, typ)
    decreases |slots| - from
  {
    if from == |slots| then -1
    else if Fits(slots[from], name, typ) then from
    else Find(slots, name, typ, from + 1)
  }

  /** The first free slot, or -1. */
  function FirstFree(slots: seq<Slot>, from: nat): (i: int)
    requires from <= |slots|
    ensures -1 <= i < |slots| && (i != -1 ==> from <= i && slots[i] == Free)
    ensures forall k :: from <= k < (if i == -1 then |slots| else i) ==> slots[k] != Free
    decreases |slots| - from
  {
    if from == |slots| then -1 else if slots[from] == Free then from else FirstFree(slots, from + 1)
  }

  /** local_bus_create. */
  function Created(slots: seq<Slot>, name: string, synced: bool, maxTopics: nat): (r: (BusRv, seq<Slot>))
    ensures |r.1| == |slots|
  {
    if |name| >= BUS_NAME_MAX_LEN then (BusNameTooLong, slots)
    else if Find(slots, name, KindOf(synced), 0) != -1 then (BusExists, slots)
    else
      var i := FirstFree(slots, 0);
      if i == -1 then (BusesMax, slots)
      else if |name| > TOPIC_NAME_MAX_LEN then (BusNameTooLong, slots)
      else if maxTopics == 0 then (BusTopicNa, slots)
      else (BusOk, slots[i := Bus(name, synced)])
  }

  class BusTable {
    const slots: array<Slot>

    ghost predicate Valid()
      reads slots
    {
      slots.Length == BUSES_MAX && Unique(slots[..])
    }

    /** local_buses_init. */
    constructor ()
      ensures Valid() && fresh(slots) && forall i :: 0 <= i < BUSES_MAX ==> slots[i] == Free
    {
      slots := new Slot[BUSES_MAX](_ => Free);
    }

    /** local_bus_lookup. */
    method Lookup(name: string, typ: BusType) returns (i: int)
      ensures i == Find(slots[..], name, typ, 0)
    {
      for k := 0 to slots.Length
        invariant Find(slots[..], name, typ, 0) == Find(slots[..], name, typ, k)
      {
        if Fits(slots[k], name, typ) {
          return k;
        }
      }
      i := -1;
    }

    method FreeSlot() returns (i: int)
      ensures i == FirstFree(slots[..], 0)
    {
      for k := 0 to slots.Length
        invariant FirstFree(slots[..], 0) == FirstFree(slots[..], k)
      {
        if slots[k] == Free {
          return k;
        }
      }
      i := -1;
    }

    /** local_bus_create; the registry is refused for a name over thirty characters and for no topics. */
    method Create(name: string, synced: bool, maxTopics: nat) returns (rv: BusRv)
      requires Valid()
      modifies slots
      ensures Valid() && (rv, slots[..]) == Created(old(slots[..]), name, synced, maxTopics)
    {
      CreatedUnique(slots[..], name, synced, maxTopics);
      if |name| >= BUS_NAME_MAX_LEN {
        return BusNameTooLong;
      }
      var found := Lookup(name, KindOf(synced));
      if found != -1 {
        return BusExists;
      }
      var i := FreeSlot();
      if i == -1 {
        return BusesMax;
      }
      if |name| > TOPIC_NAME_MAX_LEN {
        return BusNameTooLong;
      }
      if maxTopics == 0 {
        return BusTopicNa;
      }
      slots[i] := Bus(name, synced);
      rv := BusOk;
    }

    /** local_bus_delete. */
    method Delete(i: nat)
      requires Valid() && i < BUSES_MAX
      modifies slots
      ensures Valid() && slots[..] == old(slots[..])[i := Free]
    {
      slots[i] := Free;
    }
  }

  // ------------------------------------------------------------------ any use of the table

  /** No two buses of one name and kind. */
  ghost predicate Unique(slots: seq<Slot>) {
    forall i, j :: 0 <= i < j < |slots| && slots[i].Bus? ==> slots[i] != slots[j]
  }

  lemma CreatedUnique(slots: seq<Slot>, name: string, synced: bool, maxTopics: nat)
    requires Unique(slots)
    ensures Unique(Created(slots, name, synced, maxTopics).1)
  {
  }

  datatype BusOp = CreateOp(name: string, synced: bool, maxTopics: nat) | DeleteOp(i: nat)

  function ApplyOp(slots: seq<Slot>, op: BusOp): seq<Slot> {
    match op
    case CreateOp(name, synced, maxTopics) => Created(slots, name, synced, maxTopics).1
    case DeleteOp(i) => if i < |slots| then slots[i := Free] else slots
  }

  function ApplyOps(slots: seq<Slot>, ops: seq<BusOp>): seq<Slot>
    decreases |ops|
  {
    if ops == [] then slots else ApplyOps(ApplyOp(slots, ops[0]), ops[1..])
  }

  lemma {:induction false} OpsUnique(slots: seq<Slot>, ops: seq<BusOp>)
    requires Unique(slots)
    ensures Unique(ApplyOps(slots, ops)) && |ApplyOps(slots, ops)| == |slots|
    decreases |ops|
  {
    if ops != [] {
      match ops[0] {
        case CreateOp(name, synced, maxTopics) => CreatedUnique(slots, name, synced, maxTopics);
        case DeleteOp(_) =>
      }
      OpsUnique(ApplyOp(slots, ops[0]), ops[1..]);
    }
  }

  lemma OnlyOne(slots: seq<Slot>, i: nat, j: nat)
    requires Unique(slots) && i < |slots| && j < |slots| && slots[i].Bus? && slots[i] == slots[j]
    ensures i == j
  {
  }

  /** With the kind given, a lookup finds a bus exactly by its name and kind; without, exactly if no earlier
      slot has the name. */
  lemma FoundExactly(slots: seq<Slot>, i: nat, name: string, typ: BusType)
    requires Unique(slots) && i < |slots| && slots[i].Bus?
    ensures typ != NotDefined ==>
              (Find(slots, name, typ, 0) == i <==> name == slots[i].name && typ == KindOf(slots[i].synced))
    ensures Find(slots, name, NotDefined, 0) == i <==>
              name == slots[i].name && forall k :: 0 <= k < i && slots[k].Bus? ==> slots[k].name != name
  {
    var j := Find(slots, name, typ, 0);
    if typ != NotDefined && j != -1 && Fits(slots[i], name, typ) {
      OnlyOne(slots, i, j);
    }
  }

  /** After any use of the table, the path printed for a topic of a bus in it parses to a name and kind under
      which exactly that bus is found. */
  lemma PrintedLeadsToOwnBus(ops: seq<BusOp>, b: nat, ts: seq<Node>, i: nat)
    requires Linked(ts) && DistinctSiblings(ts) && i < |ts| && (i == 0 || IsBelow(ts, 0, i))
    requires AllValid(Names(ts, i)) && b < BUSES_MAX
    requires var slots := ApplyOps(seq(BUSES_MAX, _ => Free), ops);
             b < |slots| && slots[b].Bus? && slots[b].name == ts[0].info.name
             && |FullPath(ts, slots[b].synced, i)| < PATH_MAX
    ensures var slots := ApplyOps(seq(BUSES_MAX, _ => Free), ops);
            var (rv, r) := Parse(Printed(ts, slots[b].synced, i));
            && rv == PathOk && Find(slots, r.busName, r.typ, 0) == b
            && Tokens(r.localPath) != [] && TopicPaths.FindTopic(ts, r.localPath) == i
  {
    var empty: seq<Slot> := seq(BUSES_MAX, _ => Free);
    OpsUnique(empty, ops);
    var slots := ApplyOps(empty, ops);
    hide Parse, Printed, FullPath, Names, Linked, Find, ApplyOps;
    PathRoundTrip(ts, slots[b].synced, i);
    FoundExactly(slots, b, ts[0].info.name, KindOf(slots[b].synced));
  }

  /** A bus of the name and kind is there. */
  ghost predicate Present(slots: seq<Slot>, name: string, synced: bool) {
    Bus(name, synced) in slots
  }

  /** How a creation ends, in terms of the name and the table, and that only a first free slot changes. */
  lemma CreatedExactly(slots: seq<Slot>, name: string, synced: bool, maxTopics: nat)
    ensures var (rv, now) := Created(slots, name, synced, maxTopics);
            && (rv == BusExists <==> |name| < 32 && Present(slots, name, synced))
            && (rv == BusesMax <==> |name| < 32 && !Present(slots, name, synced) && Free !in slots)
            && (rv == BusNameTooLong <==>
                  |name| >= 32 || (|name| > 30 && !Present(slots, name, synced) && Free in slots))
            && (rv == BusOk <==>
                  |name| <= 30 && maxTopics > 0 && !Present(slots, name, synced) && Free in slots)
            && (rv != BusOk ==> now == slots)
            && (rv == BusOk ==>
                  exists i :: 0 <= i < |slots| && slots[i] == Free && Free !in slots[..i]
                              && now == slots[i := Bus(name, synced)])
  {
    var j := Find(slots, name, KindOf(synced), 0);
    if j != -1 {
      assert slots[j] == Bus(name, synced);
    } else if Present(slots, name, synced) {
      var k :| 0 <= k < |slots| && slots[k] == Bus(name, synced);
      assert Fits(slots[k], name, KindOf(synced));
    }
    var i := FirstFree(slots, 0);
    if i == -1 {
      assert forall k :: 0 <= k < |slots| ==> slots[k] != Free;
    } else {
      assert slots[i] == Free && Free !in slots[..i];
    }
  }
}
