/** The main results about replication, for whole runs of the initial synchronisation. */
module ReplicationResult {

  import opened TopicTree
  import opened TopicGrowth
  import opened TopicCopy
  import opened TopicEnumeration
  import opened TopicPaths
  import opened Replication
  import opened ReplicationStep
  import opened ReplicationCopy

  /** The events the server sends: one for each extract of the enumeration. */
  function SendAll(xs: seq<Extract>): (es: seq<Event>)
    requires forall k :: 0 <= k < |xs| ==> xs[k].Extract?
    ensures AllLinked(es) && |es| == |xs|
  {
    if xs == [] then []
    else
      var rest := SendAll(xs[1..]);
      var first := [EventOf(xs[0])];
      assert forall k :: 0 < k < |first + rest| ==> (first + rest)[k] == rest[k - 1];
      first + rest
  }

  lemma {:induction false} SendDescribed(src: seq<Node>, l: seq<nat>)
    requires Linked(src) && InRange(l, |src|)
    ensures forall k :: 0 <= k < |DescribeAll(src, l)| ==> DescribeAll(src, l)[k].Extract?
    ensures SendAll(DescribeAll(src, l)) == EventsFor(src, l)
  {
    if l != [] {
      var e, rest := Describe(src, l[0]), DescribeAll(src, l[1..]);
      SendDescribed(src, l[1..]);
      assert forall k :: 0 < k < |[e] + rest| ==> ([e] + rest)[k] == rest[k - 1];
      assert ([e] + rest)[1..] == rest;
    }
  }

  /** All events of an initial synchronisation that starts at topic `p`. */
  function Sync(src: seq<Node>, p: nat): (es: seq<Event>)
    requires Linked(src) && p < |src|
    ensures AllLinked(es)
  {
    EnumerationComplete(src, p);
    SendDescribed(src, OnlyShown(src, Below(src, p)));
    SendAll(Enumerate(src, p, p))
  }

  /** They are those for the shown topics below `p` in preorder. */
  lemma SyncSends(src: seq<Node>, p: nat)
    requires Linked(src) && p < |src|
    ensures InRange(Below(src, p), |src|) && Sync(src, p) == EventsFor(src, OnlyShown(src, Below(src, p)))
  {
    EnumerationComplete(src, p);
    SendDescribed(src, OnlyShown(src, Below(src, p)));
  }

  /** The shown topics below the root, in preorder. */
  function SentIds(src: seq<Node>): (l: seq<nat>)
    requires Linked(src) && src != []
    ensures InRange(l, |src|)
  {
    EnumerationComplete(src, 0);
    OnlyShown(src, Below(src, 0))
  }

  /** What the local side needs for the copy to succeed: a directory on the bus as mount point where no
      name clashes, room for the topics and the pairs, and short paths. */
  ghost predicate Receivable(c: Config, src: seq<Node>, ts: seq<Node>)
    requires Sendable(src)
  {
    && OnBus(ts, c.mount) && ts[c.mount].info.typ == Dir && -1 <= ts[c.mount].firstChild < |ts|
    && Apart(Forest(ts, ts[c.mount].firstChild), PruneForest(TreeOf(src, 0).kids))
    && |ts| + |SentIds(src)| <= c.max && |SentIds(src)| <= c.size
    && Short(src, |FullPath(ts, c.synced, c.mount)|)
  }

  /** Replicating a bus copies its tree: every event succeeds, the mount point gets the source's tree
      without its event queues behind what it had, nothing else changes, and the map takes the j-th topic
      sent to the j-th topic of the copy and knows no other. */
  lemma BusCopied(c: Config, src: seq<Node>, ts: seq<Node>)
    requires Sendable(src) && Receivable(c, src, ts)
    ensures ValidReplica(c, Replica(ts, map[]))
    ensures var l := SentIds(src);
            var (rvs, r) := ReplicateAll(c, Replica(ts, map[]), Sync(src, 0));
            && (forall k :: 0 <= k < |rvs| ==> rvs[k] == Replicated)
            && KidsCopied(ts, r.ts, c.mount, PruneForest(TreeOf(src, 0).kids))
            && |r.ts| == |ts| + |l|
            && (forall j :: 0 <= j < |l| ==> l[j] in r.ids && r.ids[l[j]] == |ts| + j)
            && (forall x :: x in r.ids ==> x in l)
  {
    var s, l := Replica(ts, map[]), SentIds(src);
    SyncSends(src, 0);
    BusRun(c, src, ts);
    EnumeratedOnce(src, 0, 0);
    hide Sendable, EventsFor, Sync, ReplicateAll, KidsCopied, PruneForest, OnlyShown, Receivable;
    var r := ReplicateAll(c, s, EventsFor(src, l)).1;
    forall j | 0 <= j < |l|
      ensures l[j] in r.ids && r.ids[l[j]] == |ts| + j
    {
      ZipAt(map[], l, |ts|, j);
    }
    forall x | x in r.ids
      ensures x in l
    {
      ZipKeys(map[], l, |ts|, x);
    }
  }

  lemma BusRun(c: Config, src: seq<Node>, ts: seq<Node>)
    requires Sendable(src) && Receivable(c, src, ts)
    ensures ValidReplica(c, Replica(ts, map[]))
    ensures Copied(c, src, Replica(ts, map[]), c.mount, SentIds(src), PruneForest(TreeOf(src, 0).kids))
  {
    var s, f := Replica(ts, map[]), src[0].firstChild;
    assert NodeLinked(src, 0) && NodeLinked(ts, c.mount);
    assert Names(src, 0)[1..] == [];
    RestDistinct(src, 0);
    assert Rest(src, 0)[..|Preorder(src, f)|] == Preorder(src, f);
    hide Apart, OnBus, Short, Preorder, Forest, FullPath, Sendable, Copied;
    CopyChain(c, |FullPath(ts, c.synced, c.mount)|, src, 0, f, s, c.mount);
  }

  /** Below an empty mount point the copy is the whole tree. */
  lemma EmptyMountCopied(c: Config, src: seq<Node>, ts: seq<Node>)
    requires Sendable(src) && Receivable(c, src, ts) && ts[c.mount].firstChild == -1
    ensures ValidReplica(c, Replica(ts, map[]))
    ensures var r := ReplicateAll(c, Replica(ts, map[]), Sync(src, 0)).1;
            && TreeOf(r.ts, c.mount) == Tree(ts[c.mount].info, PruneForest(TreeOf(src, 0).kids))
            && Below(r.ts, c.mount) == Range(|ts|, |r.ts|)
  {
    BusCopied(c, src, ts);
    var r := ReplicateAll(c, Replica(ts, map[]), Sync(src, 0)).1;
    NoChain(ts);
    hide ReplicateAll, Sync, Receivable, Sendable, PruneForest, Range;
    var kids := PruneForest(TreeOf(src, 0).kids);
    assert TreeOf(r.ts, c.mount).kids == [] + kids;
    assert Below(r.ts, c.mount) == [] + Range(|ts|, |r.ts|);
  }

  // ------------------------------------------------------------------ counterparts

  lemma OneRecordAdds(ts: seq<Node>, max: nat, d: nat, info: Info)
    requires Linked(ts) && d < |ts| && RegisterTree(ts, max, d, OneRecord(info), 0).0 == RegOk
    ensures var us := RegisterTree(ts, max, d, OneRecord(info), 0).1;
            |us| == |ts| + 1 && us[|ts|].parent == d && us[|ts|].info == Settle(info, ts[d].info.typ)
  {
    AddChildGrows(ts, max, d, OneRecord(info), 0);
    hide AddChild, Settle;
  }

  /** In any run of single topics that are all replicated, each new topic has the name, type and size of
      its original, and its parent is the counterpart of the parent of its original. */
  lemma {:induction false} CounterpartsMatch(c: Config, src: seq<Node>, s: Replica, l: seq<nat>, j: nat)
    requires Linked(src) && InRange(l, |src|) && ValidReplica(c, s) && j < |l|
    requires forall k :: 0 <= k < |l| ==> ReplicateAll(c, s, EventsFor(src, l)).0[k] == Replicated
    requires src[l[j]].parent >= 0
    ensures var r := ReplicateAll(c, s, EventsFor(src, l)).1;
            var x, n := l[j], |s.ts| + j;
            && n < |r.ts| && r.ts[n].info.name == src[x].info.name && r.ts[n].info.typ == src[x].info.typ
            && r.ts[n].info.size == src[x].info.size
            && (if src[x].parent == 0 then r.ts[n].parent == c.mount
                else src[x].parent in r.ids && r.ts[n].parent == r.ids[src[x].parent])
    decreases |l|
  {
    hide Replicate, Linked, EventsFor, ReplicateAll, AllLinked;
    RunUnfold(c, src, s, l);
    var (rv, s1) := Replicate(c, s, EventOf(Describe(src, l[0])));
    var rvs := ReplicateAll(c, s, EventsFor(src, l)).0;
    var more := ReplicateAll(c, s1, EventsFor(src, l[1..])).0;
    assert rvs[0] == rv && forall k :: 0 <= k < |more| ==> more[k] == rvs[k + 1];
    StepAdds(c, src, s, l[0]);
    if j == 0 {
      FirstStays(c, src, s, l);
    } else {
      CounterpartsMatch(c, src, s1, l[1..], j - 1);
    }
  }

  lemma RunUnfold(c: Config, src: seq<Node>, s: Replica, l: seq<nat>)
    requires Linked(src) && InRange(l, |src|) && ValidReplica(c, s) && l != []
    ensures InRange(l[1..], |src|)
    ensures var (rv, s1) := Replicate(c, s, EventOf(Describe(src, l[0])));
            var (rvs, r) := ReplicateAll(c, s1, EventsFor(src, l[1..]));
            ReplicateAll(c, s, EventsFor(src, l)) == ([rv] + rvs, r)
  {
    hide Replicate, Linked, Prefix;
    var es := EventsFor(src, l);
    assert es[0] == EventOf(Describe(src, l[0])) && es[1..] == EventsFor(src, l[1..]);
  }

  /** Once a topic is in, the rest of the run keeps it and the counterpart of its parent. */
  lemma FirstStays(c: Config, src: seq<Node>, s: Replica, l: seq<nat>)
    requires Linked(src) && InRange(l, |src|) && ValidReplica(c, s) && l != []
    ensures var s1 := Replicate(c, s, EventOf(Describe(src, l[0]))).1;
            var r := ReplicateAll(c, s, EventsFor(src, l)).1;
            && Prefix(s1.ts, r.ts)
            && forall k :: k in s.ids ==> k in r.ids && r.ids[k] == s.ids[k]
  {
    hide Replicate, Linked, EventsFor, ReplicateAll, Prefix;
    RunUnfold(c, src, s, l);
    forall k | k in s.ids
      ensures var r := ReplicateAll(c, s, EventsFor(src, l)).1;
              k in r.ids && r.ids[k] == s.ids[k]
    {
      MapKept(c, s, EventsFor(src, l), k);
    }
  }

  lemma StepAdds(c: Config, src: seq<Node>, s: Replica, x: nat)
    requires Linked(src) && x < |src| && ValidReplica(c, s)
    requires Replicate(c, s, EventOf(Describe(src, x))).0 == Replicated
    ensures var s1 := Replicate(c, s, EventOf(Describe(src, x))).1;
            var n := |s.ts|;
            && |s1.ts| == n + 1 && s1.ts[n].info.name == src[x].info.name && s1.ts[n].info.typ == src[x].info.typ
            && s1.ts[n].info.size == src[x].info.size
            && (src[x].parent > 0 ==> src[x].parent in s.ids && s1.ts[n].parent == s.ids[src[x].parent])
            && (src[x].parent <= 0 ==> s1.ts[n].parent == c.mount)
  {
    assert NodeLinked(src, x);
    var e := EventOf(Describe(src, x));
    assert e.pool == OneRecord(src[x].info);
    var d := if e.parentId != 0 then s.ids[e.parentId] else c.mount;
    OneRecordAdds(s.ts, c.max, d, src[x].info);
    hide RegisterTree, ConnectNested, Linked;
  }

  // ------------------------------------------------------------------ replays

  /** Sending everything again changes nothing: every event is refused as already there. */
  lemma {:induction false} AllRefused(c: Config, r: Replica, es: seq<Event>)
    requires ValidReplica(c, r) && AllLinked(es)
    requires forall k :: 0 <= k < |es| ==> es[k].stray == 0 && es[k].srcId in r.ids
    ensures ReplicateAll(c, r, es).1 == r
    ensures forall k :: 0 <= k < |es| ==> ReplicateAll(c, r, es).0[k] == AlreadyThere
    decreases |es|
  {
    if es != [] {
      RefusedExactly(c, r, es[0]);
      hide Replicate;
      AllRefused(c, r, es[1..]);
    }
  }

  lemma {:induction false} EventIds(src: seq<Node>, l: seq<nat>)
    requires Linked(src) && InRange(l, |src|)
    ensures forall k :: 0 <= k < |l| ==> EventsFor(src, l)[k].srcId == l[k] && EventsFor(src, l)[k].stray == 0
    ensures forall k :: 0 <= k < |l| ==>
      EventsFor(src, l)[k].parentId == if src[l[k]].parent == -1 then 0 else src[l[k]].parent
  {
    if l != [] {
      EventIds(src, l[1..]);
    }
  }

  /** A second synchronisation with the same source. */
  lemma SecondSyncChangesNothing(c: Config, src: seq<Node>, ts: seq<Node>)
    requires Sendable(src) && Receivable(c, src, ts)
    ensures ValidReplica(c, Replica(ts, map[]))
    ensures var r := ReplicateAll(c, Replica(ts, map[]), Sync(src, 0)).1;
            var (rvs, again) := ReplicateAll(c, r, Sync(src, 0));
            again == r && forall k :: 0 <= k < |rvs| ==> rvs[k] == AlreadyThere
  {
    BusCopied(c, src, ts);
    SyncSends(src, 0);
    EventIds(src, SentIds(src));
    hide ReplicateAll, EventsFor, Sync, OnlyShown, Receivable, Sendable;
    AllRefused(c, ReplicateAll(c, Replica(ts, map[]), Sync(src, 0)).1, Sync(src, 0));
  }

  // ------------------------------------------------------------------ only from the root

  lemma {:induction false} NoneMapped(c: Config, s: Replica, es: seq<Event>)
    requires ValidReplica(c, s) && AllLinked(es) && s.ids == map[]
    requires forall k :: 0 <= k < |es| ==> es[k].stray == 0 && es[k].parentId != 0
    ensures ReplicateAll(c, s, es).1 == s
    ensures forall k :: 0 <= k < |es| ==> ReplicateAll(c, s, es).0[k] == NotMapped
    decreases |es|
  {
    if es != [] {
      NoneMapped(c, s, es[1..]);
    }
  }

  /** A synchronisation that starts below the root of the source copies nothing at all: the topics next to
      the start are sent with its id, which no map knows. */
  lemma OnlyFromTheRoot(c: Config, src: seq<Node>, p: nat, ts: seq<Node>)
    requires Linked(src) && 0 < p < |src| && ValidReplica(c, Replica(ts, map[]))
    ensures var (rvs, r) := ReplicateAll(c, Replica(ts, map[]), Sync(src, p));
            r == Replica(ts, map[]) && forall k :: 0 <= k < |rvs| ==> rvs[k] == NotMapped
  {
    SyncSends(src, p);
    var l := OnlyShown(src, Below(src, p));
    EventIds(src, l);
    forall k | 0 <= k < |l|
      ensures src[l[k]].parent > 0
    {
      EnumeratedOnce(src, p, l[k]);
      ParentBelow(src, p, l[k]);
    }
    hide OnlyShown, EventsFor, Sync, Linked;
    NoneMapped(c, Replica(ts, map[]), Sync(src, p));
  }

  lemma ParentBelow(src: seq<Node>, p: nat, x: nat)
    requires Linked(src) && 0 < p && x < |src| && IsBelow(src, p, x)
    ensures src[x].parent > 0
  {
    assert NodeLinked(src, x);
    if src[x].parent != p {
      BelowIsLater(src, p, src[x].parent);
    }
  }
}
