/** Replication as it runs: events applied to a registry and an id map that are updated in place, and the
    loop that walks the source and sends its topics one by one.

    The state of a replica is the view of its registry and the finite map its id map stands for. Each
    method is proved to be the function of Replication.dfy on that state, so the results about whole
    synchronisations in ReplicationResult.dfy are results about these loops. A topic descriptor is the
    topic it refers to. */
module Replicator {

  import opened TopicTree
  import opened TopicGrowth
  import opened TopicEnumeration
  import opened ProclaimingTree
  import opened Paths
  import opened TopicPaths
  import opened IdMap
  import opened Registry
  import opened Replication
  import opened ReplicationResult

  lemma {:induction false} EnumerationEnds(ts: seq<Node>, p: nat, id: nat)
    requires Linked(ts) && p < |ts| && id < |ts|
    ensures forall k :: 0 <= k < |Enumerate(ts, p, id)| ==> Enumerate(ts, p, id)[k].Extract?
    decreases |Rest(ts, id)|
  {
    var e := NextInfo(ts, p, id);
    if e.Extract? {
      NextShownLater(ts, id);
      EnumerationEnds(ts, p, e.topicId);
    }
  }

  /** What remains to be sent after topic `id`. */
  ghost function ToSend(ts: seq<Node>, p: nat, id: nat): (es: seq<Event>)
    requires Linked(ts) && p < |ts| && id < |ts|
    ensures AllLinked(es)
  {
    EnumerationEnds(ts, p, id);
    SendAll(Enumerate(ts, p, id))
  }

  lemma ToSendUnfold(ts: seq<Node>, p: nat, id: nat)
    requires Linked(ts) && p < |ts| && id < |ts|
    ensures var e := NextInfo(ts, p, id);
            if !e.Extract? then ToSend(ts, p, id) == []
            else |Rest(ts, e.topicId)| < |Rest(ts, id)| && ToSend(ts, p, id) == [EventOf(e)] + ToSend(ts, p, e.topicId)
  {
    var e := NextInfo(ts, p, id);
    NextShownLater(ts, id);
    EnumerationEnds(ts, p, id);
    if e.Extract? {
      EnumerationEnds(ts, p, e.topicId);
      assert ([e] + Enumerate(ts, p, e.topicId))[1..] == Enumerate(ts, p, e.topicId);
    }
  }

  lemma SyncIsToSend(ts: seq<Node>, p: nat)
    requires Linked(ts) && p < |ts|
    ensures Sync(ts, p) == ToSend(ts, p, p)
  {
  }

  /** A run of `whole` from `s0` has given `answers`, has reached `s`, and `rest` is still to come. */
  ghost predicate SoFar(c: Config, s0: Replica, whole: seq<Event>, answers: seq<ReplicateRv>, s: Replica,
                        rest: seq<Event>)
    requires ValidReplica(c, s0) && ValidReplica(c, s) && AllLinked(whole) && AllLinked(rest)
  {
    var (rvs, r) := ReplicateAll(c, s, rest);
    ReplicateAll(c, s0, whole) == (answers + rvs, r)
  }

  lemma Begin(c: Config, s0: Replica, whole: seq<Event>)
    requires ValidReplica(c, s0) && AllLinked(whole)
    ensures SoFar(c, s0, whole, [], s0, whole)
  {
    hide ReplicateAll;
    var rvs := ReplicateAll(c, s0, whole).0;
    assert [] + rvs == rvs;
  }

  lemma Continue(c: Config, s0: Replica, whole: seq<Event>, answers: seq<ReplicateRv>, s: Replica, e: Event,
                 rest: seq<Event>)
    requires ValidReplica(c, s0) && ValidReplica(c, s) && AllLinked(whole) && AllLinked(rest)
    requires Linked(e.pool) && e.pool != [] && AllLinked([e] + rest) && SoFar(c, s0, whole, answers, s, [e] + rest)
    ensures var (rv, s1) := Replication.Replicate(c, s, e);
            SoFar(c, s0, whole, answers + [rv], s1, rest)
  {
    hide Replication.Replicate;
    var (rv, s1) := Replication.Replicate(c, s, e);
    var (rvs, r) := ReplicateAll(c, s1, rest);
    assert ([e] + rest)[1..] == rest;
    assert answers + [rv] + rvs == answers + ([rv] + rvs);
  }

  lemma End(c: Config, s0: Replica, whole: seq<Event>, answers: seq<ReplicateRv>, s: Replica)
    requires ValidReplica(c, s0) && ValidReplica(c, s) && AllLinked(whole) && SoFar(c, s0, whole, answers, s, [])
    ensures ReplicateAll(c, s0, whole) == (answers, s)
  {
    assert answers + [] == answers;
  }

  class BusReplica {
    const registry: TopicRegistry
    const ids: TopicIdMap
    const mount: nat
    const synced: bool

    ghost predicate Valid()
      reads registry, registry.topics, ids, ids.records
    {
      registry.Valid() && ids.Valid() && ValidReplica(Setup(), State())
    }

    function Setup(): Config {
      Config(registry.topics.Length, ids.records.Length, mount, synced)
    }

    ghost function State(): Replica
      reads registry, registry.topics, ids, ids.records
      requires registry.Valid() && ids.Valid()
    {
      Replica(registry.View(), ids.Contents())
    }

    /** map_alloc beside an existing registry and mount point. */
    constructor (registry: TopicRegistry, mount: nat, synced: bool, mapSize: nat)
      requires registry.Valid() && mount < registry.topicsNum
      ensures Valid() && fresh(ids) && fresh(ids.records) && this.registry == registry && State().ids == map[]
      ensures Setup() == Config(registry.topics.Length, mapSize, mount, synced)
    {
      this.registry := registry;
      this.mount := mount;
      this.synced := synced;
      this.ids := new TopicIdMap(mapSize);
    }

    /** ds_connect and local_bus_connect. */
    method Connect(path: string) returns (con: ConnectRv)
      requires Valid()
      ensures con == Replication.Connect(registry.View(), synced, path)
    {
      hide TopicPaths.FindTopic, Tokens, Collapse, GoodPath;
      var rv, r := ParsePath(path);
      if rv != PathOk {
        return PathRefused(rv);
      }
      if r.typ == InterProcess {
        return NotSupported;
      }
      if r.busName != registry.topics[0].info.name || (r.typ != NotDefined && r.typ != KindOf(synced)) {
        return BusNotExist;
      }
      var found, _, _ := NextToken(r.localPath);
      if !found {
        return NoSuchTopic;
      }
      var t := registry.FindTopic(r.localPath);
      if t == -1 {
        return NoSuchTopic;
      }
      assert NodeLinked(registry.View(), t);
      var p := registry.topics[t].parent;
      if p != -1 && (registry.topics[p].info.typ == FifoType || registry.topics[p].info.typ == EventQueueType) {
        t := p;
      }
      con := Connected(t);
    }

    /** eswb_connect_nested. */
    method ConnectNested(d: nat, name: string) returns (con: ConnectRv)
      requires Valid() && d < registry.topicsNum
      ensures con == Replication.ConnectNested(registry.View(), synced, d, name)
    {
      var path := registry.GetMountingPoint(d, synced);
      if |path| + |name| + 1 >= PATH_MAX {
        return PathRefused(PathTooLong);
      }
      con := Connect(path + "/" + name);
    }

    /** eswb_proclaim_tree. */
    method ProclaimTree(d: nat, records: TreeContext) returns (reg: RegRv, con: ConnectRv)
      requires Valid() && records.Valid() && records.tNum > 0 && d < registry.topicsNum
      modifies registry`topicsNum, registry.topics
      ensures Valid() && ids.Contents() == old(ids.Contents())
      ensures (reg, con, registry.View()) == Replication.ProclaimTree(Setup(), old(registry.View()), d, records.Tree())
    {
      hide RegisterTree, Replication.ConnectNested, Linked;
      con := NoSuchTopic;
      reg := registry.TopicsTreeRegister(d, records, 0);
      if reg == RegOk {
        con := ConnectNested(d, records.pool[0].info.name);
      }
    }

    /** eswb_event_queue_replicate on a proclaim event. */
    method Replicate(parentId: nat, srcId: nat, records: TreeContext, stray: nat) returns (rv: ReplicateRv)
      requires Valid() && records.Valid() && records.tNum > 0
      modifies registry`topicsNum, registry.topics, ids`recordsNum, ids.records
      ensures Valid()
      ensures (rv, State())
           == Replication.Replicate(Setup(), old(State()), Event(parentId, srcId, records.Tree(), stray))
    {
      hide Replication.ProclaimTree, Linked, Add;
      ghost var result := Replication.Replicate(Setup(), State(), Event(parentId, srcId, records.Tree(), stray));
      if stray != 0 {
        return FramingError;
      }
      var look, _ := ids.MapFind(srcId);
      if look == MapOk {
        return AlreadyThere;
      }
      var d := mount;
      if parentId != 0 {
        look, d := ids.MapFind(parentId);
        if look != MapOk {
          return NotMapped;
        }
      }
      var reg, con := ProclaimTree(d, records);
      if reg != RegOk {
        return RegisterFailed(reg);
      }
      if !con.Connected? {
        return ConnectFailed(con);
      }
      var add := ids.MapAddPair(srcId, con.t);
      rv := if add == MapOk then Replicated else MapFailed(add);
      assert State() == result.1;
    }

    /** send_topic, and what the event does here. */
    method Apply(e: Extract) returns (rv: ReplicateRv)
      requires Valid() && e.Extract?
      modifies registry`topicsNum, registry.topics, ids`recordsNum, ids.records
      ensures Valid() && (rv, State()) == Replication.Replicate(Setup(), old(State()), EventOf(e))
    {
      hide Replication.Replicate, Linked;
      var records := new TreeContext.Single(e.info);
      rv := Replicate(e.parentId, e.topicId, records, 0);
    }

    /** The loop of the initial synchronisation, each topic it sends being applied on this side. `root` is
        where it starts; a bus with fifos outside event queues, or with vectors, is not sent one by one. */
    method InitialSync(server: TopicRegistry, root: nat) returns (answers: seq<ReplicateRv>)
      requires Valid() && server.Valid() && root < server.topicsNum
      requires server != registry && server.topics != registry.topics
      requires forall x :: 0 <= x < server.topicsNum && Shown(server.View(), x) ==>
                 server.topics[x].info.typ != FifoType && server.topics[x].info.typ != Vector
      modifies registry`topicsNum, registry.topics, ids`recordsNum, ids.records
      ensures Valid()
      ensures (answers, State()) == ReplicateAll(Setup(), old(State()), Sync(server.View(), root))
    {
      ghost var src, s0, c := server.View(), State(), Setup();
      ghost var whole := Sync(src, root);
      hide Linked, ReplicateAll, Replication.Replicate, ToSend, SoFar, NextInfo, ValidView, Sync, Rest,
        AllLinked, Sorted, AsMap, EventOf;
      Begin(c, s0, whole);
      SyncIsToSend(src, root);
      answers := [];
      var tid: nat := root;
      var e := server.GetNextTopicInfo(root, tid);
      while e.Extract?
        invariant Valid() && server.Valid() && server.View() == src && tid < |src| && e == NextInfo(src, root, tid)
        invariant SoFar(c, s0, whole, answers, State(), ToSend(src, root, tid))
        decreases |Rest(src, tid)|
      {
        ToSendUnfold(src, root, tid);
        Continue(c, s0, whole, answers, State(), EventOf(e), ToSend(src, root, e.topicId));
        var rv := Apply(e);
        answers := answers + [rv];
        tid := e.topicId;
        e := server.GetNextTopicInfo(root, tid);
      }
      ToSendUnfold(src, root, tid);
      End(c, s0, whole, answers, State());
    }
  }
}
