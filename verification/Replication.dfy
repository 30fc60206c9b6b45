/** Replicating a bus (event_queue.c, eqrb_server.c): the server enumerates its topics and sends each one
    with the id of its parent; the client registers it below the local counterpart of that parent and
    remembers the new counterpart in the id map. On values; Replicator.dfy runs it. */
module Replication {

  import opened TopicTree
  import opened TopicGrowth
  import opened TopicEnumeration
  import opened Paths
  import opened TopicPaths
  import opened IdMap

  /** The receiving side: room for topics and pairs, where the copy goes, the kind of bus. */
  datatype Config = Config(max: nat, size: nat, mount: nat, synced: bool)

  /** The local registry and the id map. */
  datatype Replica = Replica(ts: seq<Node>, ids: map<nat, nat>)

  /** A proclaim event: the id of the parent (0 for the mount point), the id of the first record at the
      source, the records, and how many bytes do not fill a record. */
  datatype Event = Event(parentId: nat, srcId: nat, pool: seq<Node>, stray: nat)

  datatype ConnectRv = Connected(t: nat) | PathRefused(why: PathRv) | NotSupported | BusNotExist | NoSuchTopic

  datatype ReplicateRv = Replicated | FramingError | AlreadyThere | NotMapped | RegisterFailed(why: RegRv)
    | ConnectFailed(how: ConnectRv) | MapFailed(what: MapRv)

  // ------------------------------------------------------------------ connecting to a topic

  /** ds_connect and local_bus_connect with this bus as the only one of its name: the topic the path
      leads to, or the fifo it belongs to. */
  function Connect(ts: seq<Node>, synced: bool, path: string): (c: ConnectRv)
    requires Linked(ts) && ts != []
    ensures c.Connected? ==> c.t < |ts|
  {
    var (rv, r) := Parse(path);
    if rv != PathOk then PathRefused(rv)
    else if r.typ == InterProcess then NotSupported
    else if r.busName != ts[0].info.name || (r.typ != NotDefined && r.typ != KindOf(synced)) then BusNotExist
    else if Tokens(r.localPath) == [] then NoSuchTopic
    else
      var t := TopicPaths.FindTopic(ts, r.localPath);
      if t == -1 then NoSuchTopic
      else
        assert NodeLinked(ts, t);
        if ts[t].parent != -1 && IsQueue(ts[ts[t].parent].info.typ) then Connected(ts[t].parent) else Connected(t)
  }

  /** eswb_connect_nested: by the printed path of `d`. */
  function ConnectNested(ts: seq<Node>, synced: bool, d: nat, name: string): (c: ConnectRv)
    requires Linked(ts) && d < |ts|
    ensures c.Connected? ==> c.t < |ts|
  {
    var path := Printed(ts, synced, d);
    if |path| + |name| + 1 >= PATH_MAX then PathRefused(PathTooLong)
    else Connect(ts, synced, path + "/" + name)
  }

  // ------------------------------------------------------------------ one event

  /** The map leads into the registry. */
  ghost predicate ValidReplica(c: Config, s: Replica) {
    Linked(s.ts) && c.mount < |s.ts| && forall k :: k in s.ids ==> s.ids[k] < |s.ts|
  }

  /** eswb_proclaim_tree: register below `d`, connect to the new root. */
  function ProclaimTree(c: Config, ts: seq<Node>, d: nat, pool: seq<Node>): (r: (RegRv, ConnectRv, seq<Node>))
    requires Linked(ts) && d < |ts| && Linked(pool) && pool != []
    ensures Linked(r.2) && Prefix(ts, r.2) && (r.1.Connected? ==> r.1.t < |r.2|)
  {
    var (rv, us) := RegisterTree(ts, c.max, d, pool, 0);
    if rv != RegOk then (rv, NoSuchTopic, us)
    else (rv, ConnectNested(us, c.synced, d, pool[0].info.name), us)
  }

  /** eswb_event_queue_replicate on a proclaim event. */
  function Replicate(c: Config, s: Replica, e: Event): (r: (ReplicateRv, Replica))
    requires ValidReplica(c, s) && Linked(e.pool) && e.pool != []
    ensures ValidReplica(c, r.1) && Prefix(s.ts, r.1.ts)
  {
    if e.stray != 0 then (FramingError, s)
    else if e.srcId in s.ids then (AlreadyThere, s)
    else if e.parentId != 0 && e.parentId !in s.ids then (NotMapped, s)
    else
      var d := if e.parentId != 0 then s.ids[e.parentId] else c.mount;
      var (reg, con, us) := ProclaimTree(c, s.ts, d, e.pool);
      if reg != RegOk then (RegisterFailed(reg), Replica(us, s.ids))
      else if !con.Connected? then (ConnectFailed(con), Replica(us, s.ids))
      else
        var (rv, ids) := Add(s.ids, c.size, e.srcId, con.t);
        (if rv == MapOk then Replicated else MapFailed(rv), Replica(us, ids))
  }

  ghost predicate AllLinked(es: seq<Event>) {
    forall k :: 0 <= k < |es| ==> Linked(es[k].pool) && es[k].pool != []
  }

  /** A run of events: the answers and the state they leave. */
  function ReplicateAll(c: Config, s: Replica, es: seq<Event>): (r: (seq<ReplicateRv>, Replica))
    requires ValidReplica(c, s) && AllLinked(es)
    ensures ValidReplica(c, r.1) && Prefix(s.ts, r.1.ts) && |r.0| == |es|
    decreases |es|
  {
    if es == [] then ([], s)
    else
      var (rv, s1) := Replicate(c, s, es[0]);
      var (rvs, s2) := ReplicateAll(c, s1, es[1..]);
      ([rv] + rvs, s2)
  }

  lemma {:induction false} ReplicateConcat(c: Config, s: Replica, a: seq<Event>, b: seq<Event>)
    requires ValidReplica(c, s) && AllLinked(a) && AllLinked(b)
    ensures AllLinked(a + b)
    ensures var (rvs, s1) := ReplicateAll(c, s, a);
            var (more, s2) := ReplicateAll(c, s1, b);
            ReplicateAll(c, s, a + b) == (rvs + more, s2)
    decreases |a|
  {
    hide Replicate;
    if a == [] {
      assert a + b == b;
      var more := ReplicateAll(c, s, b).0;
      assert [] + more == more;
    } else {
      var (rv, s1) := Replicate(c, s, a[0]);
      ReplicateConcat(c, s1, a[1..], b);
      assert (a + b)[1..] == a[1..] + b;
      var (rvs, s2) := ReplicateAll(c, s1, a[1..]);
      var more := ReplicateAll(c, s2, b).0;
      assert [rv] + rvs + more == [rv] + (rvs + more);
    }
  }

  // ------------------------------------------------------------------ replays

  /** Which events are refused before anything is registered, and that they change nothing: records cut off, a
      topic that has a counterpart already, a parent that has none. */
  lemma RefusedExactly(c: Config, s: Replica, e: Event)
    requires ValidReplica(c, s) && Linked(e.pool) && e.pool != []
    ensures var (rv, r) := Replicate(c, s, e);
            && (rv == FramingError <==> e.stray != 0)
            && (rv == AlreadyThere <==> e.stray == 0 && e.srcId in s.ids)
            && (rv == NotMapped <==>
                  e.stray == 0 && e.srcId !in s.ids && e.parentId != 0 && e.parentId !in s.ids)
            && (rv == FramingError || rv == AlreadyThere || rv == NotMapped ==> r == s)
  {
    hide ProclaimTree;
  }

  /** The map only ever grows. */
  lemma {:induction false} MapKept(c: Config, s: Replica, es: seq<Event>, k: nat)
    requires ValidReplica(c, s) && AllLinked(es) && k in s.ids
    ensures var ids := ReplicateAll(c, s, es).1.ids; k in ids && ids[k] == s.ids[k]
    decreases |es|
  {
    if es != [] {
      hide ProclaimTree;
      MapKept(c, Replicate(c, s, es[0]).1, es[1..], k);
    }
  }

  /** An event that has once been replicated is refused ever after, whatever came in between. */
  lemma ReplayChangesNothing(c: Config, s: Replica, e: Event, es: seq<Event>)
    requires ValidReplica(c, s) && Linked(e.pool) && e.pool != [] && AllLinked(es)
    requires Replicate(c, s, e).0 == Replicated
    ensures var s1 := ReplicateAll(c, Replicate(c, s, e).1, es).1;
            Replicate(c, s1, e) == (AlreadyThere, s1)
  {
    hide ProclaimTree;
    MapKept(c, Replicate(c, s, e).1, es, e.srcId);
  }

  // ------------------------------------------------------------------ what the server sends

  /** One enumerated topic as a proclaim event of one record. */
  function EventOf(e: Extract): (r: Event)
    requires e.Extract?
    ensures Linked(r.pool) && r.pool != []
  {
    var pool := [Node(e.info, -1, -1, -1)];
    assert NodeLinked(pool, 0);
    Event(e.parentId, e.topicId, pool, 0)
  }

  /** The events for the given topics. */
  function EventsFor(src: seq<Node>, s: seq<nat>): (es: seq<Event>)
    requires Linked(src) && InRange(s, |src|)
    ensures |es| == |s| && AllLinked(es)
  {
    if s == [] then []
    else
      var rest := EventsFor(src, s[1..]);
      var first := [EventOf(Describe(src, s[0]))];
      assert forall k :: 0 < k < |first + rest| ==> (first + rest)[k] == rest[k - 1];
      first + rest
  }

  lemma EventsCons(src: seq<Node>, x: nat, s: seq<nat>)
    requires Linked(src) && x < |src| && InRange(s, |src|)
    ensures InRange([x] + s, |src|) && EventsFor(src, [x] + s) == [EventOf(Describe(src, x))] + EventsFor(src, s)
  {
    hide Linked, EventOf, Describe, AllLinked;
    assert ([x] + s)[1..] == s;
  }

  lemma {:induction false} EventsConcat(src: seq<Node>, a: seq<nat>, b: seq<nat>)
    requires Linked(src) && InRange(a, |src|) && InRange(b, |src|)
    ensures InRange(a + b, |src|) && EventsFor(src, a + b) == EventsFor(src, a) + EventsFor(src, b)
  {
    if a == [] {
      assert a + b == b;
    } else {
      var x, rest := a[0], a[1..];
      assert a == [x] + rest && a + b == [x] + (rest + b);
      hide Linked, EventsFor, EventOf, Describe, AllLinked;
      EventsConcat(src, rest, b);
      EventsCons(src, x, rest);
      EventsCons(src, x, rest + b);
    }
  }
}
