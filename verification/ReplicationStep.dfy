/** One step of the copy: a topic whose parent has its counterpart gets its own, at the end of the local
    registry, under the same name, with the same type, size, offset and flags.

    The step goes through text: after the registration the local side prints the path of the parent,
    appends the name, parses the result, and looks the topic up from the root. That this leads back to
    the topic just registered rests on the path round trip of TopicPaths.dfy, and it fails for exactly
    one reason, the length of the path. */
module ReplicationStep {

  import opened TopicTree
  import opened TopicGrowth
  import opened ProclaimingTree
  import opened Paths
  import opened TopicPaths
  import opened Replication

  /** Names and parents only depend on what is in front. */
  lemma {:induction false} NamesKept(ts: seq<Node>, us: seq<Node>, i: nat)
    requires Linked(ts) && Linked(us) && Prefix(ts, us) && i < |ts|
    ensures Names(us, i) == Names(ts, i)
    ensures IsBelow(us, 0, i) == IsBelow(ts, 0, i)
    decreases i
  {
    assert NodeLinked(ts, i) && NodeLinked(us, i);
    if ts[i].parent != -1 {
      NamesKept(ts, us, ts[i].parent);
    }
  }

  /** `d` is a topic of the bus whose printed path is usable. */
  ghost predicate OnBus(ts: seq<Node>, d: nat) {
    && Linked(ts) && DistinctSiblings(ts) && Proper(ts) && d < |ts|
    && (d == 0 || IsBelow(ts, 0, d)) && AllValid(Names(ts, d))
  }

  /** A topic that can be a child of `d` and is not there yet. */
  ghost predicate Fits(ts: seq<Node>, d: nat, info: Info)
    requires Linked(ts) && d < |ts|
  {
    && ValidName(info.name) && ProperInfo(info, ts[d].info.typ)
    && !IsQueue(ts[d].info.typ) && info.typ != FifoType
    && -1 <= ts[d].firstChild < |ts| && FindAmong(ts, ts[d].firstChild, info.name) == -1
  }

  function OneRecord(info: Info): (pool: seq<Node>)
    ensures Linked(pool) && |pool| == 1 && pool[0] == Node(info, -1, -1, -1)
  {
    var pool := [Node(info, -1, -1, -1)];
    assert NodeLinked(pool, 0);
    pool
  }

  /** Registering it attaches it, unchanged. */
  lemma RegisterOne(ts: seq<Node>, max: nat, d: nat, info: Info)
    requires Linked(ts) && d < |ts| < max && Fits(ts, d, info)
    ensures RegisterTree(ts, max, d, OneRecord(info), 0) == (RegOk, Attach(ts, d, info))
  {
    hide Attach, FindAmong;
    assert Settle(info, ts[d].info.typ) == info;
    AddChildGrows(ts, max, d, OneRecord(info), 0);
    AttachLinks(ts, d, info);
  }

  lemma AttachedName(ts: seq<Node>, d: nat, info: Info)
    requires OnBus(ts, d) && ValidName(info.name)
    ensures var us := Attach(ts, d, info);
            && Linked(us) && Names(us, |ts|) == Names(ts, d) + [info.name] && Names(us, d) == Names(ts, d)
            && IsBelow(us, 0, |ts|) && AllValid(Names(us, |ts|))
  {
    hide Attach;
    var us := Attach(ts, d, info);
    AttachLinks(ts, d, info);
    NamesKept(ts, us, d);
    assert NodeLinked(us, |ts|);
  }

  lemma AttachedOnBus(ts: seq<Node>, max: nat, d: nat, info: Info)
    requires OnBus(ts, d) && d < |ts| < max && Fits(ts, d, info)
    ensures OnBus(Attach(ts, d, info), |ts|)
  {
    hide Attach, Names, IsBelow, DistinctSiblings, Proper;
    RegisterGrows(ts, max, d, OneRecord(info), 0);
    RegisterOne(ts, max, d, info);
    AttachedName(ts, d, info);
  }

  /** The path by which the new topic is connected to is its own. */
  lemma PathOfChild(synced: bool, us: seq<Node>, d: nat, n: nat)
    requires Linked(us) && d < |us| && n < |us| && Names(us, n) == Names(us, d) + [us[n].info.name]
    ensures FullPath(us, synced, d) + "/" + us[n].info.name == FullPath(us, synced, n)
    ensures |FullPath(us, synced, n)| == |FullPath(us, synced, d)| + 1 + |us[n].info.name|
  {
    hide Names;
    JoinSnoc(Names(us, d), us[n].info.name);
  }

  /** What connecting to topic `n` leads to: the fifo or event queue it is the element of, or the topic itself. */
  function Entrance(us: seq<Node>, n: nat): int
    requires n < |us|
  {
    var p := us[n].parent;
    if 0 <= p < |us| && (us[p].info.typ == FifoType || us[p].info.typ == EventQueueType) then p else n
  }

  lemma ConnectsWhereFound(us: seq<Node>, synced: bool, path: string, local: string, n: nat)
    requires Linked(us) && n < |us|
    requires Parse(path) == (PathOk, Parsed(KindOf(synced), us[0].info.name, local))
    requires Tokens(local) != [] && FindTopic(us, local) == n
    ensures Entrance(us, n) >= 0 && Connect(us, synced, path) == Connected(Entrance(us, n))
  {
    assert NodeLinked(us, n);
    hide Parse, Tokens, FindTopic, Linked;
  }

  /** Connecting by the printed path of a topic leads there, and by that of the element of a fifo or event queue
      to the fifo or queue. */
  lemma ConnectsByPath(us: seq<Node>, synced: bool, n: nat)
    requires OnBus(us, n) && |FullPath(us, synced, n)| < PATH_MAX
    ensures Entrance(us, n) >= 0 && Connect(us, synced, FullPath(us, synced, n)) == Connected(Entrance(us, n))
  {
    PathRoundTrip(us, synced, n);
    assert Linked(us);
    hide Names, Join, Tokens, Parse, FindTopic, FullPath, OnBus, Linked, Connect, Entrance;
    assert Printed(us, synced, n) == FullPath(us, synced, n);
    ConnectsWhereFound(us, synced, FullPath(us, synced, n), Join(Names(us, n))[1..], n);
  }

  lemma NestedPath(us: seq<Node>, synced: bool, d: nat, n: nat)
    requires Linked(us) && d < |us| && n < |us| && Names(us, n) == Names(us, d) + [us[n].info.name]
    requires |FullPath(us, synced, n)| < PATH_MAX
    ensures ConnectNested(us, synced, d, us[n].info.name) == Connect(us, synced, FullPath(us, synced, n))
  {
    hide Names, FullPath, Connect, Linked;
    PathOfChild(synced, us, d, n);
  }

  /** Connecting by name finds the new topic. */
  lemma ConnectsToChild(us: seq<Node>, synced: bool, d: nat, n: nat)
    requires OnBus(us, n) && d < |us| && us[n].parent == d && !IsQueue(us[d].info.typ)
    requires Names(us, n) == Names(us, d) + [us[n].info.name]
    requires |FullPath(us, synced, n)| < PATH_MAX
    ensures ConnectNested(us, synced, d, us[n].info.name) == Connected(n)
  {
    hide ConnectNested, Connect, FullPath, Names, Linked;
    NestedPath(us, synced, d, n);
    ConnectsByPath(us, synced, n);
  }

  /** One event, when there is room: the topic is registered in any case, but it gets into the map exactly
      when its path is short enough. */
  lemma ReplicateOne(c: Config, s: Replica, pid: nat, id: nat, d: nat, info: Info)
    requires ValidReplica(c, s) && OnBus(s.ts, d) && Fits(s.ts, d, info)
    requires if pid == 0 then d == c.mount else pid in s.ids && d == s.ids[pid]
    requires id !in s.ids && |s.ts| < c.max && |s.ids| < c.size
    ensures var us := Attach(s.ts, d, info);
            && OnBus(us, |s.ts|) && |FullPath(us, c.synced, |s.ts|)| == |FullPath(s.ts, c.synced, d)| + 1 + |info.name|
            && Replicate(c, s, Event(pid, id, OneRecord(info), 0)) == (
                 if |FullPath(us, c.synced, |s.ts|)| < PATH_MAX then (Replicated, Replica(us, s.ids[id := |s.ts|]))
                 else (ConnectFailed(PathRefused(PathTooLong)), Replica(us, s.ids)))
  {
    hide Attach, Names, IsBelow, DistinctSiblings, Proper, ConnectNested, RegisterTree, Join;
    var n := |s.ts|;
    var us := Attach(s.ts, d, info);
    RegisterOne(s.ts, c.max, d, info);
    AttachLinks(s.ts, d, info);
    AttachedOnBus(s.ts, c.max, d, info);
    AttachedName(s.ts, d, info);
    PathOfChild(c.synced, us, d, n);
    if |FullPath(us, c.synced, n)| < PATH_MAX {
      ConnectsToChild(us, c.synced, d, n);
    } else {
      TooLong(us, c.synced, d, info.name);
    }
  }

  lemma TooLong(us: seq<Node>, synced: bool, d: nat, name: string)
    requires Linked(us) && d < |us| && |FullPath(us, synced, d)| + 1 + |name| >= PATH_MAX
    ensures ConnectNested(us, synced, d, name) == PathRefused(PathTooLong)
  {
  }

  /** A topic whose path is too long stays registered without a pair, and so every replay of its event
      fails as well: the registry refuses it as an existing topic. */
  lemma LongPathStrands(c: Config, s: Replica, pid: nat, id: nat, d: nat, info: Info)
    requires ValidReplica(c, s) && OnBus(s.ts, d) && Fits(s.ts, d, info)
    requires if pid == 0 then d == c.mount else pid in s.ids && d == s.ids[pid]
    requires id !in s.ids && |s.ts| < c.max && |s.ids| < c.size
    requires |FullPath(s.ts, c.synced, d)| + 1 + |info.name| >= PATH_MAX
    ensures var e := Event(pid, id, OneRecord(info), 0);
            var (rv, s1) := Replicate(c, s, e);
            && rv == ConnectFailed(PathRefused(PathTooLong)) && |s1.ts| == |s.ts| + 1 && s1.ids == s.ids
            && Replicate(c, s1, e) == (RegisterFailed(TopicExist), s1)
  {
    ReplicateOne(c, s, pid, id, d, info);
    var us := Attach(s.ts, d, info);
    AttachLinks(s.ts, d, info);
    RefusesTwin(us, c.max, d, |s.ts|);
    hide Attach, Names, IsBelow, DistinctSiblings, Proper, RegisterTree, Join, ConnectNested, FullPath, Fits;
  }

  lemma RefusesTwin(us: seq<Node>, max: nat, d: nat, n: nat)
    requires Linked(us) && DistinctSiblings(us) && n < |us| && us[n].parent == d < |us|
    ensures RegisterTree(us, max, d, OneRecord(us[n].info), 0) == (TopicExist, us)
  {
    assert NodeLinked(us, d) && NodeLinked(us, n);
    FindKid(us, us[d].firstChild, n);
    hide FindAmong, Attach;
  }
}
