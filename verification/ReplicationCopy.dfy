/** Replicating a bus copies its tree: after all enumerated topics have been sent and applied, the mount
    point holds the tree of the source without its event queues, and the id map takes the j-th topic of the
    enumeration to the j-th topic of the copy.

    The proof follows the preorder of the source: a topic is sent, then everything below it, then its
    later siblings. `Ready` says that a source topic has its counterpart, `CanCopy` that what is to come
    has room and clashes with no name, `Todo` that none of it has been sent before; `Copied` is what a
    part of the run has achieved. Runs, trees and pairs are put together part by part. */
module ReplicationCopy {

  import opened Sequences
  import opened TopicTree
  import opened TopicGrowth
  import opened TopicCopy
  import opened TopicEnumeration
  import opened ProclaimingTree
  import opened Paths
  import opened TopicPaths
  import opened Replication
  import opened ReplicationStep

  // ------------------------------------------------------------------ what is copied

  /** A list of trees without the event queues in it and below. */
  function PruneForest(kids: seq<Tree>): seq<Tree> {
    if kids == [] then []
    else
      (if kids[0].info.typ == EventQueueType then [] else [Tree(kids[0].info, PruneForest(kids[0].kids))])
      + PruneForest(kids[1..])
  }

  /** The pairs that take the topics of `s` to consecutive ids from `n` on, added to `m`. */
  function Zip(m: map<nat, nat>, s: seq<nat>, n: nat): map<nat, nat>
    decreases |s|
  {
    if s == [] then m else Zip(m[s[0] := n], s[1..], n + 1)
  }

  /** A bus whose topics can be sent one by one: below the root, apart from event queues with their direct
      children, there are neither fifos nor vectors, and the names are names. */
  ghost predicate Sendable(src: seq<Node>) {
    && src != [] && Linked(src) && DistinctSiblings(src) && Proper(src) && src[0].info.typ == Dir
    && forall x :: 0 <= x < |src| && 0 <= src[x].parent < |src| ==>
         if src[src[x].parent].info.typ == EventQueueType then src[x].firstChild == -1
         else src[x].info.typ != EventQueueType ==>
                ValidName(src[x].info.name) && src[x].info.typ != FifoType && src[x].info.typ != Vector
  }

  /** How long the path of `x` is below the root of the source. */
  function Trail(src: seq<Node>, x: nat): nat
    requires Linked(src) && x < |src|
  {
    |Join(Names(src, x)[1..])|
  }

  /** Below a mount point with a path of `base` characters no path gets too long. */
  ghost predicate Short(src: seq<Node>, base: nat)
    requires Linked(src)
  {
    forall x :: 0 <= x < |src| && src[x].parent != -1 && Shown(src, x) ==> base + Trail(src, x) < PATH_MAX
  }

  // ------------------------------------------------------------------ lists

  lemma ShownUncons(src: seq<Node>, x: nat, s: seq<nat>)
    requires Linked(src) && InRange(s, |src|) && x < |src|
    ensures InRange([x] + s, |src|)
    ensures OnlyShown(src, [x] + s) == (if Shown(src, x) then [x] else []) + OnlyShown(src, s)
  {
    hide Linked, Shown;
    assert ([x] + s)[1..] == s;
  }

  lemma {:induction false} ShownConcat(src: seq<Node>, a: seq<nat>, b: seq<nat>)
    requires Linked(src) && InRange(a, |src|) && InRange(b, |src|)
    ensures InRange(a + b, |src|) && OnlyShown(src, a + b) == OnlyShown(src, a) + OnlyShown(src, b)
  {
    if a == [] {
      assert a + b == b && OnlyShown(src, a) == [];
      assert [] + OnlyShown(src, b) == OnlyShown(src, b);
    } else {
      hide Linked, Shown, OnlyShown;
      var x, tail := a[0], a[1..];
      ShownConcat(src, tail, b);
      ShownUncons(src, x, tail);
      ShownUncons(src, x, tail + b);
      assert a == [x] + tail && a + b == [x] + (tail + b);
      Assoc(if Shown(src, x) then [x] else [], OnlyShown(src, tail), OnlyShown(src, b));
    }
  }

  lemma {:induction false} ShownFrom(src: seq<Node>, s: seq<nat>, x: nat)
    requires Linked(src) && InRange(s, |src|) && x in OnlyShown(src, s)
    ensures x in s && |OnlyShown(src, s)| <= |s|
  {
    if !(Shown(src, s[0]) && x == s[0]) {
      ShownFrom(src, s[1..], x);
    } else if OnlyShown(src, s[1..]) != [] {
      ShownFrom(src, s[1..], OnlyShown(src, s[1..])[0]);
    }
  }

  lemma {:induction false} ZipConcat(m: map<nat, nat>, a: seq<nat>, b: seq<nat>, n: nat)
    ensures Zip(m, a + b, n) == Zip(Zip(m, a, n), b, n + |a|)
    decreases |a|
  {
    if a == [] {
      assert a + b == b;
    } else {
      ZipConcat(m[a[0] := n], a[1..], b, n + 1);
      assert (a + b)[1..] == a[1..] + b;
    }
  }

  lemma {:induction false} ZipKeys(m: map<nat, nat>, s: seq<nat>, n: nat, x: nat)
    ensures x in Zip(m, s, n) <==> x in m || x in s
    ensures x !in s && x in m ==> Zip(m, s, n)[x] == m[x]
    decreases |s|
  {
    if s != [] {
      ZipKeys(m[s[0] := n], s[1..], n + 1, x);
      assert s == [s[0]] + s[1..];
    }
  }

  lemma {:induction false} ZipSize(m: map<nat, nat>, s: seq<nat>, n: nat)
    ensures |Zip(m, s, n)| <= |m| + |s|
    decreases |s|
  {
    if s != [] {
      ZipSize(m[s[0] := n], s[1..], n + 1);
    }
  }

  /** Pointwise, for a list without repetitions. */
  lemma {:induction false} ZipAt(m: map<nat, nat>, s: seq<nat>, n: nat, j: nat)
    requires Distinct(s) && j < |s|
    ensures s[j] in Zip(m, s, n) && Zip(m, s, n)[s[j]] == n + j
    decreases |s|
  {
    var m1 := m[s[0] := n];
    if j == 0 {
      ZipKeys(m1, s[1..], n + 1, s[0]);
    } else {
      ZipAt(m1, s[1..], n + 1, j - 1);
    }
  }

  /** None of the topics to be sent is mapped yet, and none is listed twice. */
  ghost predicate Todo(s: seq<nat>, ids: map<nat, nat>) {
    Distinct(s) && forall k :: 0 <= k < |s| ==> s[k] !in ids
  }

  lemma TodoParts(a: seq<nat>, b: seq<nat>, ids: map<nat, nat>)
    requires Todo(a + b, ids)
    ensures Todo(a, ids) && Todo(b, ids)
  {
    assert forall k :: 0 <= k < |a| ==> (a + b)[k] == a[k];
    assert forall k :: 0 <= k < |b| ==> (a + b)[|a| + k] == b[k];
  }

  /** When the first part has been dealt with, the second is still to be done. */
  lemma TodoNext(src: seq<Node>, a: seq<nat>, b: seq<nat>, ids: map<nat, nat>, n: nat)
    requires Linked(src) && InRange(a, |src|) && Todo(a + b, ids)
    ensures Todo(b, Zip(ids, OnlyShown(src, a), n))
  {
    TodoParts(a, b, ids);
    var done := OnlyShown(src, a);
    forall k | 0 <= k < |b|
      ensures b[k] !in Zip(ids, done, n)
    {
      ZipKeys(ids, done, n, b[k]);
      NotInBoth(a, b, k);
      if b[k] in done {
        ShownFrom(src, a, b[k]);
      }
    }
  }

  lemma NotInBoth(a: seq<nat>, b: seq<nat>, k: nat)
    requires Distinct(a + b) && k < |b|
    ensures b[k] !in a
  {
    assert forall j :: 0 <= j < |a| ==> (a + b)[j] == a[j];
    assert (a + b)[|a| + k] == b[k];
  }

  // ------------------------------------------------------------------ names

  /** No tree of `kids` has the name. */
  ghost predicate NotIn(kids: seq<Tree>, name: string) {
    forall k :: 0 <= k < |kids| ==> !SameName(kids[k].info.name, name)
  }

  /** No two trees of the two lists have the same name. */
  ghost predicate Apart(kids: seq<Tree>, more: seq<Tree>) {
    forall k :: 0 <= k < |more| ==> NotIn(kids, more[k].info.name)
  }

  lemma {:induction false} FoundInForest(ts: seq<Node>, c: int, name: string)
    requires Linked(ts) && -1 <= c < |ts|
    ensures FindAmong(ts, c, name) == -1 <==> NotIn(Forest(ts, c), name)
    decreases if c == -1 then 0 else 1 + |ts| - c
  {
    if c != -1 {
      assert NodeLinked(ts, c);
      var s := ts[c].nextSibling;
      FoundInForest(ts, s, name);
      ForestUnfold(ts, c);
      var f, rest := Forest(ts, c), Forest(ts, s);
      hide Forest;
      assert f[0] == TreeOf(ts, c) && f[0].info == ts[c].info;
      assert forall k :: 0 <= k < |rest| ==> rest[k] == f[k + 1];
      assert forall k :: 0 < k < |f| ==> f[k] == rest[k - 1];
    }
  }

  lemma {:induction false} PrunedNames(kids: seq<Tree>, name: string)
    requires NotIn(kids, name)
    ensures NotIn(PruneForest(kids), name)
  {
    if kids != [] {
      PrunedNames(kids[1..], name);
    }
  }

  lemma SameNameSym(a: string, b: string)
    ensures SameName(a, b) == SameName(b, a)
  {
  }

  /** The name of a topic is not among the names of its later siblings. */
  lemma LaterSiblings(src: seq<Node>, x: nat)
    requires Linked(src) && DistinctSiblings(src) && x < |src| && src[x].parent >= 0
    ensures -1 <= src[x].nextSibling < |src|
    ensures NotIn(PruneForest(Forest(src, src[x].nextSibling)), src[x].info.name)
  {
    assert NodeLinked(src, x);
    var s := src[x].nextSibling;
    FoundInForest(src, s, src[x].info.name);
    if s != -1 {
      assert NodeLinked(src, s);
    }
    PrunedNames(Forest(src, s), src[x].info.name);
  }

  lemma ApartNext(kids: seq<Tree>, t: Tree, more: seq<Tree>)
    requires Apart(kids, [t] + more) && NotIn(more, t.info.name)
    ensures NotIn(kids, t.info.name) && Apart(kids + [t], more)
  {
    assert ([t] + more)[0] == t;
    forall k | 0 <= k < |more|
      ensures NotIn(kids + [t], more[k].info.name)
    {
      assert ([t] + more)[k + 1] == more[k];
      SameNameSym(more[k].info.name, t.info.name);
    }
  }

  // ------------------------------------------------------------------ the state of a copy

  /** `d` is the counterpart of source topic `p`. */
  ghost predicate Ready(c: Config, base: nat, src: seq<Node>, p: nat, s: Replica, d: nat)
    requires Linked(src) && p < |src|
  {
    && ValidReplica(c, s) && OnBus(s.ts, d)
    && s.ts[d].info.typ == src[p].info.typ && !IsQueue(src[p].info.typ)
    && (if p == 0 then d == c.mount else p in s.ids && s.ids[p] == d)
    && |FullPath(s.ts, c.synced, d)| == base + Trail(src, p)
  }

  /** Replicating the topics of `s` has added `kids` below `d` and the pairs to the map. */
  ghost predicate Copied(c: Config, src: seq<Node>, s: Replica, d: nat, l: seq<nat>, kids: seq<Tree>)
    requires ValidReplica(c, s) && Linked(src) && InRange(l, |src|)
  {
    var (rvs, r) := ReplicateAll(c, s, EventsFor(src, l));
    && (forall k :: 0 <= k < |rvs| ==> rvs[k] == Replicated)
    && KidsCopied(s.ts, r.ts, d, kids) && |r.ts| == |s.ts| + |l|
    && r.ids == Zip(s.ids, l, |s.ts|)
    && DistinctSiblings(r.ts) && Proper(r.ts)
  }

  lemma NothingCopied(c: Config, src: seq<Node>, s: Replica, d: nat)
    requires ValidReplica(c, s) && Linked(src) && OnBus(s.ts, d)
    ensures Copied(c, src, s, d, [], [])
  {
    hide KidsCopied, DistinctSiblings, Proper;
    NoneCopied(s.ts, d);
  }

  lemma CopiedConcat(c: Config, src: seq<Node>, s: Replica, d: nat, l: seq<nat>, kids: seq<Tree>, l2: seq<nat>,
                     more: seq<Tree>)
    requires ValidReplica(c, s) && Linked(src) && InRange(l, |src|) && InRange(l2, |src|)
    requires Copied(c, src, s, d, l, kids)
    requires Copied(c, src, ReplicateAll(c, s, EventsFor(src, l)).1, d, l2, more)
    ensures InRange(l + l2, |src|) && Copied(c, src, s, d, l + l2, kids + more)
  {
    hide KidsCopied, DistinctSiblings, Proper, ReplicateAll, EventsFor, Zip;
    var (rvs, r) := ReplicateAll(c, s, EventsFor(src, l));
    var (rvs2, r2) := ReplicateAll(c, r, EventsFor(src, l2));
    EventsConcat(src, l, l2);
    ReplicateConcat(c, s, EventsFor(src, l), EventsFor(src, l2));
    MoreCopied(s.ts, r.ts, r2.ts, d, kids, more);
    ZipConcat(s.ids, l, l2, |s.ts|);
  }

  /** A counterpart stays one while the copy grows. */
  lemma ReadyKept(c: Config, base: nat, src: seq<Node>, p: nat, s: Replica, d: nat, r: Replica)
    requires Linked(src) && p < |src| && Ready(c, base, src, p, s, d)
    requires ValidReplica(c, r) && Prefix(s.ts, r.ts) && DistinctSiblings(r.ts) && Proper(r.ts)
    requires p != 0 ==> p in r.ids && r.ids[p] == s.ids[p]
    ensures Ready(c, base, src, p, r, d)
  {
    NamesKept(s.ts, r.ts, d);
    hide Names, IsBelow, DistinctSiblings, Proper, Join;
  }

  // ------------------------------------------------------------------ one topic and what is below it

  /** What has to hold before the topics of `l` are sent, below `d`, as `kids`. */
  ghost predicate CanCopy(c: Config, s: Replica, d: nat, l: seq<nat>, kids: seq<Tree>)
    requires Linked(s.ts) && d < |s.ts|
  {
    && |s.ts| + |l| <= c.max && |s.ids| + |l| <= c.size
    && -1 <= s.ts[d].firstChild < |s.ts|
    && Apart(Forest(s.ts, s.ts[d].firstChild), kids)
  }

  lemma ParentTrail(src: seq<Node>, x: nat)
    requires Linked(src) && x < |src| && src[x].parent >= 0
    ensures src[x].parent < x && Trail(src, x) == Trail(src, src[x].parent) + 1 + |src[x].info.name|
  {
    assert NodeLinked(src, x);
    var p := src[x].parent;
    assert Names(src, x)[1..] == Names(src, p)[1..] + [src[x].info.name];
    JoinSnoc(Names(src, p)[1..], src[x].info.name);
  }

  /** Sending topic `x`, whose parent `p` has the counterpart `d`. */
  lemma SendOne(c: Config, base: nat, src: seq<Node>, p: nat, x: nat, s: Replica, d: nat)
    requires Sendable(src) && Short(src, base) && x < |src| && src[x].parent == p < |src|
    requires src[x].info.typ != EventQueueType
    requires Ready(c, base, src, p, s, d) && |s.ts| < c.max && |s.ids| < c.size && x !in s.ids
    requires -1 <= s.ts[d].firstChild < |s.ts| && NotIn(Forest(s.ts, s.ts[d].firstChild), src[x].info.name)
    ensures Shown(src, x) && p < x
    ensures var us := Attach(s.ts, d, src[x].info);
            var s1 := Replica(us, s.ids[x := |s.ts|]);
            && ReplicateAll(c, s, EventsFor(src, [x])) == ([Replicated], s1)
            && Ready(c, base, src, x, s1, |s.ts|)
  {
    assert Linked(src);
    hide Attach, Replicate, OnBus, Linked, Trail, FullPath, DistinctSiblings, Proper, NotIn, Forest, Fits, Sendable,
      Short, Shown, ReplicateAll, EventsFor;
    SendFits(c, base, src, p, x, s, d);
    ReplicateOne(c, s, p, x, d, src[x].info);
    AttachLinks(s.ts, d, src[x].info);
    RunOne(c, src, s, x);
  }

  lemma SendFits(c: Config, base: nat, src: seq<Node>, p: nat, x: nat, s: Replica, d: nat)
    requires Sendable(src) && Short(src, base) && x < |src| && src[x].parent == p < |src|
    requires src[x].info.typ != EventQueueType && Ready(c, base, src, p, s, d)
    requires -1 <= s.ts[d].firstChild < |s.ts| && NotIn(Forest(s.ts, s.ts[d].firstChild), src[x].info.name)
    ensures Shown(src, x) && p < x && Fits(s.ts, d, src[x].info) && !IsQueue(src[x].info.typ)
    ensures Trail(src, x) == Trail(src, p) + 1 + |src[x].info.name|
    ensures |FullPath(s.ts, c.synced, d)| + 1 + |src[x].info.name| < PATH_MAX
  {
    hide Trail, FullPath;
    assert NodeLinked(src, x);
    ParentTrail(src, x);
    FoundInForest(s.ts, s.ts[d].firstChild, src[x].info.name);
    hide Forest, FindAmong;
  }

  /** A run of one event. */
  lemma RunOne(c: Config, src: seq<Node>, s: Replica, x: nat)
    requires ValidReplica(c, s) && Linked(src) && x < |src| && src[x].parent >= 0
    ensures var (rv, s1) := Replicate(c, s, Event(src[x].parent, x, OneRecord(src[x].info), 0));
            ReplicateAll(c, s, EventsFor(src, [x])) == ([rv], s1)
  {
    hide Replicate, ValidReplica, Prefix, Linked;
    var e := Event(src[x].parent, x, OneRecord(src[x].info), 0);
    assert [x][1..] == [] && EventsFor(src, []) == [] && EventsFor(src, [x]) == [e] + [];
    assert ([e] + [])[1..] == [];
    var (rv, s1) := Replicate(c, s, e);
    assert [rv] + [] == [rv];
  }

  lemma ChainRange(src: seq<Node>, c: int)
    requires Linked(src) && -1 <= c < |src|
    ensures InRange(Preorder(src, c), |src|)
  {
    PreorderInRange(src, c);
    var s := Preorder(src, c);
    assert forall k :: 0 <= k < |s| ==> s[k] in s;
  }

  /** The shown topics of a chain. */
  function ShownChain(src: seq<Node>, c: int): (r: seq<nat>)
    requires Linked(src) && -1 <= c < |src|
    ensures InRange(r, |src|)
  {
    ChainRange(src, c);
    OnlyShown(src, Preorder(src, c))
  }

  function ChainKids(src: seq<Node>, c: int): seq<Tree>
    requires Linked(src) && -1 <= c < |src|
  {
    PruneForest(Forest(src, c))
  }

  /** What a topic that is not an event queue is copied to. */
  function CopyOf(src: seq<Node>, x: nat): Tree
    requires Linked(src) && x < |src|
  {
    assert NodeLinked(src, x);
    Tree(src[x].info, ChainKids(src, src[x].firstChild))
  }

  lemma TreeSent(c: Config, src: seq<Node>, s: Replica, d: nat, x: nat, s1: Replica, l: seq<nat>, kids: seq<Tree>)
    requires Linked(src) && InRange(l, |src|) && ValidReplica(c, s) && ValidReplica(c, s1) && x < |src| && d < |s.ts|
    requires ReplicateAll(c, s, EventsFor(src, [x])) == ([Replicated], s1)
    requires s1 == Replica(Attach(s.ts, d, src[x].info), s.ids[x := |s.ts|])
    requires Copied(c, src, s1, |s.ts|, l, kids)
    ensures InRange([x] + l, |src|) && Copied(c, src, s, d, [x] + l, [Tree(src[x].info, kids)])
  {
    hide KidsCopied, DistinctSiblings, Proper, ReplicateAll, EventsFor, Zip, Attach, Linked, Prefix, AllLinked;
    var r := ReplicateAll(c, s1, EventsFor(src, l)).1;
    TreeCopied(s.ts, s1.ts, r.ts, d, src[x].info, kids);
    EventsConcat(src, [x], l);
    ReplicateConcat(c, s, EventsFor(src, [x]), EventsFor(src, l));
    ZipFirst(s.ids, x, l, |s.ts|);
  }

  lemma ZipFirst(m: map<nat, nat>, x: nat, l: seq<nat>, n: nat)
    ensures Zip(m, [x] + l, n) == Zip(m[x := n], l, n + 1)
  {
    assert ([x] + l)[1..] == l;
  }

  // ------------------------------------------------------------------ what is not sent

  lemma {:induction false} HiddenChain(src: seq<Node>, c: int)
    requires Sendable(src) && -1 <= c < |src|
    requires c != -1 ==> 0 <= src[c].parent < |src| && src[src[c].parent].info.typ == EventQueueType
    ensures ShownChain(src, c) == []
    decreases if c == -1 then 0 else 1 + |src| - c
  {
    if c == -1 {
      assert Preorder(src, c) == [];
    } else {
      HiddenHead(src, c);
      var n := src[c].nextSibling;
      ChainRange(src, n);
      hide OnlyShown, Linked, Preorder, Shown;
      HiddenChain(src, n);
      ShownUncons(src, c, Preorder(src, n));
    }
  }

  /** A topic in an event queue is hidden and has nothing below it. */
  lemma HiddenHead(src: seq<Node>, c: nat)
    requires Sendable(src) && c < |src|
    requires 0 <= src[c].parent < |src| && src[src[c].parent].info.typ == EventQueueType
    ensures var n := src[c].nextSibling;
            && (n == -1 || (c < n < |src| && src[n].parent == src[c].parent))
            && Preorder(src, c) == [c] + Preorder(src, n) && !Shown(src, c)
  {
    assert NodeLinked(src, c);
  }

  /** The shown topics of a chain: those of its first topic, then those of the others. */
  lemma ShownUnfold(src: seq<Node>, x: nat)
    requires Sendable(src) && x < |src| && 0 <= src[x].parent < |src|
    requires !IsQueue(src[src[x].parent].info.typ)
    ensures -1 <= src[x].nextSibling < |src| && -1 <= src[x].firstChild < |src|
    ensures ShownChain(src, x)
         == (if src[x].info.typ == EventQueueType then [] else [x] + ShownChain(src, src[x].firstChild))
            + ShownChain(src, src[x].nextSibling)
  {
    assert NodeLinked(src, x);
    OwnShown(src, x);
    PreorderUnfold(src, x);
    ChainRange(src, src[x].nextSibling);
    hide OnlyShown, Preorder, Linked, Sendable;
    ShownConcat(src, [x] + Below(src, x), Preorder(src, src[x].nextSibling));
  }

  lemma KidsUnfold(src: seq<Node>, x: nat)
    requires Linked(src) && x < |src|
    ensures -1 <= src[x].nextSibling < |src|
    ensures ChainKids(src, x) == (if src[x].info.typ == EventQueueType then [] else [CopyOf(src, x)])
                                 + ChainKids(src, src[x].nextSibling)
  {
    ForestUnfold(src, x);
    var kids := Forest(src, x);
    var rest := Forest(src, src[x].nextSibling);
    assert TreeOf(src, x).info == src[x].info;
    assert NodeLinked(src, x);
    assert TreeOf(src, x).kids == Forest(src, src[x].firstChild);
    hide Forest, TreeOf;
    assert kids[0] == TreeOf(src, x) && kids[1..] == rest;
  }

  /** What is to be sent for the chain from `x` splits into the two parts. */
  lemma TodoUnfold(src: seq<Node>, x: nat, ids: map<nat, nat>, n: nat)
    requires Sendable(src) && x < |src| && Todo(Preorder(src, x), ids)
    requires 0 <= src[x].parent < |src| && !IsQueue(src[src[x].parent].info.typ)
    ensures -1 <= src[x].nextSibling < |src| && -1 <= src[x].firstChild < |src|
    ensures x !in ids && Todo(Below(src, x), ids[x := n])
    ensures var own := if src[x].info.typ == EventQueueType then [] else [x] + ShownChain(src, src[x].firstChild);
            Todo(Preorder(src, src[x].nextSibling), Zip(ids, own, n))
  {
    assert NodeLinked(src, x);
    var f, s := src[x].firstChild, src[x].nextSibling;
    PreorderUnfold(src, x);
    ChainRange(src, f);
    var own := if src[x].info.typ == EventQueueType then [] else [x] + ShownChain(src, f);
    assert OnlyShown(src, [x] + Below(src, x)) == own by {
      OwnShown(src, x);
    }
    hide Preorder, Linked, Sendable, OnlyShown, Zip;
    var below := Below(src, x);
    TodoNext(src, [x] + below, Preorder(src, s), ids, n);
    TodoParts([x] + below, Preorder(src, s), ids);
    TodoParts([x], below, ids);
    assert [x][0] !in ids;
    NotFirst(x, below);
  }

  lemma NotFirst(x: nat, s: seq<nat>)
    requires Distinct([x] + s)
    ensures forall k :: 0 <= k < |s| ==> s[k] != x
  {
    assert forall k :: 0 <= k < |s| ==> ([x] + s)[k + 1] == s[k] && ([x] + s)[0] == x;
  }

  lemma OwnShown(src: seq<Node>, x: nat)
    requires Sendable(src) && x < |src| && 0 <= src[x].parent < |src| && !IsQueue(src[src[x].parent].info.typ)
    ensures -1 <= src[x].firstChild < |src| && InRange([x] + Below(src, x), |src|)
    ensures OnlyShown(src, [x] + Below(src, x))
         == if src[x].info.typ == EventQueueType then [] else [x] + ShownChain(src, src[x].firstChild)
  {
    assert NodeLinked(src, x);
    var f := src[x].firstChild;
    if src[x].info.typ == EventQueueType {
      if f != -1 {
        assert NodeLinked(src, f);
      }
      HiddenChain(src, f);
    }
    var own := OnlyShown(src, [x]);
    assert [x][1..] == [] && OnlyShown(src, []) == [];
    assert own == if src[x].info.typ == EventQueueType then [] else [x];
    ChainRange(src, f);
    hide OnlyShown, Preorder, Linked, Sendable;
    ShownConcat(src, [x], Below(src, x));
  }

  // ------------------------------------------------------------------ the copy

  lemma CanCopyParts(c: Config, s: Replica, d: nat, l: seq<nat>, rest: seq<nat>, t: Tree, more: seq<Tree>)
    requires Linked(s.ts) && d < |s.ts| && CanCopy(c, s, d, l + rest, [t] + more)
    ensures CanCopy(c, s, d, l, [t])
  {
    assert ([t] + more)[0] == t;
  }

  /** A topic that already has a counterpart is not among those to be sent. */
  lemma NotSentAgain(src: seq<Node>, x: nat, ids: map<nat, nat>, k: nat)
    requires Sendable(src) && x < |src| && Todo(Preorder(src, x), ids) && k in ids
    requires 0 <= src[x].parent < |src| && !IsQueue(src[src[x].parent].info.typ)
    ensures -1 <= src[x].firstChild < |src|
    ensures src[x].info.typ != EventQueueType ==> k !in [x] + ShownChain(src, src[x].firstChild)
  {
    OwnShown(src, x);
    PreorderUnfold(src, x);
    hide Preorder, OnlyShown, Sendable, Linked;
    TodoParts([x] + Below(src, x), Preorder(src, src[x].nextSibling), ids);
    if src[x].info.typ != EventQueueType && k in [x] + ShownChain(src, src[x].firstChild) {
      ShownFrom(src, [x] + Below(src, x), k);
    }
  }

  /** After one tree of the chain everything is ready for the next. */
  lemma AfterTree(c: Config, base: nat, src: seq<Node>, p: nat, s: Replica, d: nat, own: seq<nat>, t: Tree,
                  rest: seq<nat>, more: seq<Tree>)
    requires Linked(src) && p < |src| && Ready(c, base, src, p, s, d) && InRange(own, |src|)
    requires CanCopy(c, s, d, own + rest, [t] + more) && NotIn(more, t.info.name)
    requires Copied(c, src, s, d, own, [t])
    requires p in s.ids ==> p !in own
    ensures var r := ReplicateAll(c, s, EventsFor(src, own)).1;
            Ready(c, base, src, p, r, d) && CanCopy(c, r, d, rest, more)
  {
    hide OnBus, DistinctSiblings, Proper, Zip, ReplicateAll, EventsFor, Linked, Forest, Below, Apart, Names, Trail;
    var r := ReplicateAll(c, s, EventsFor(src, own)).1;
    ZipSize(s.ids, own, |s.ts|);
    ZipKeys(s.ids, own, |s.ts|, p);
    ReadyKept(c, base, src, p, s, d, r);
    ApartNext(Forest(s.ts, s.ts[d].firstChild), t, more);
  }

  /** The chain from `x`, and a topic with everything below it, by induction over the source. */
  lemma {:induction false} CopyTree(c: Config, base: nat, src: seq<Node>, p: nat, x: nat, s: Replica, d: nat)
    requires Sendable(src) && Short(src, base) && x < |src| && src[x].parent == p < |src|
    requires src[x].info.typ != EventQueueType && Ready(c, base, src, p, s, d) && -1 <= src[x].firstChild < |src|
    requires x !in s.ids && Todo(Below(src, x), s.ids[x := |s.ts|])
    requires CanCopy(c, s, d, [x] + ShownChain(src, src[x].firstChild), [CopyOf(src, x)])
    ensures InRange([x] + ShownChain(src, src[x].firstChild), |src|)
    ensures Copied(c, src, s, d, [x] + ShownChain(src, src[x].firstChild), [CopyOf(src, x)])
    decreases |src| - x, 0
  {
    var f, n := src[x].firstChild, |s.ts|;
    assert f != -1 ==> src[f].parent == x && x < f by {
      assert NodeLinked(src, x);
    }
    var s1 := Replica(Attach(s.ts, d, src[x].info), s.ids[x := n]);
    BelowCanCopy(c, src, x, s, d);
    hide Copied, Ready, ReplicateAll, EventsFor, Attach, ChainKids, ShownChain, Todo, Preorder, Forest, Sendable, Short,
      CanCopy, Linked;
    SendOne(c, base, src, p, x, s, d);
    CopyChain(c, base, src, x, f, s1, n);
    TreeSent(c, src, s, d, x, s1, ShownChain(src, f), ChainKids(src, f));
  }

  /** There is room for a topic and what is below it, and nothing below the new topic can clash. */
  lemma BelowCanCopy(c: Config, src: seq<Node>, x: nat, s: Replica, d: nat)
    requires Linked(src) && x < |src| && Linked(s.ts) && d < |s.ts| && -1 <= src[x].firstChild < |src| && x !in s.ids
    requires CanCopy(c, s, d, [x] + ShownChain(src, src[x].firstChild), [CopyOf(src, x)])
    ensures |s.ts| < c.max && |s.ids| < c.size && -1 <= s.ts[d].firstChild < |s.ts|
    ensures NotIn(Forest(s.ts, s.ts[d].firstChild), src[x].info.name)
    ensures var s1 := Replica(Attach(s.ts, d, src[x].info), s.ids[x := |s.ts|]);
            && Linked(s1.ts)
            && CanCopy(c, s1, |s.ts|, ShownChain(src, src[x].firstChild), ChainKids(src, src[x].firstChild))
  {
    NewLeaf(s.ts, d, src[x].info);
    assert [CopyOf(src, x)][0] == CopyOf(src, x);
    hide Attach, ChainKids, ShownChain, Forest, NotIn, Linked;
    assert Apart([], ChainKids(src, src[x].firstChild)) by {
      NothingIn();
    }
  }

  lemma NothingIn()
    ensures forall name :: NotIn([], name)
  {
  }

  lemma {:induction false} CopyChain(c: Config, base: nat, src: seq<Node>, p: nat, x: int, s: Replica, d: nat)
    requires Sendable(src) && Short(src, base) && p < |src| && -1 <= x < |src| && (x != -1 ==> src[x].parent == p)
    requires Ready(c, base, src, p, s, d) && Todo(Preorder(src, x), s.ids)
    requires CanCopy(c, s, d, ShownChain(src, x), ChainKids(src, x))
    ensures Copied(c, src, s, d, ShownChain(src, x), ChainKids(src, x))
    decreases if x == -1 then 0 else |src| - x, 1
  {
    if x == -1 {
      NoChain(src);
      NothingCopied(c, src, s, d);
    } else {
      assert NodeLinked(src, x);
      var n, f := src[x].nextSibling, src[x].firstChild;
      assert !IsQueue(src[p].info.typ);
      ShownUnfold(src, x);
      KidsUnfold(src, x);
      TodoUnfold(src, x, s.ids, |s.ts|);
      var rest, more := ShownChain(src, n), ChainKids(src, n);
      hide Copied, ReplicateAll, EventsFor, ChainKids, ShownChain, Todo, Preorder, Forest, Sendable, Short, CanCopy;
      if src[x].info.typ == EventQueueType {
        assert [] + rest == rest && [] + more == more;
        CopyChain(c, base, src, p, n, s, d);
      } else {
        var own, t := [x as nat] + ShownChain(src, f), CopyOf(src, x);
        CanCopyParts(c, s, d, own, rest, t, more);
        CopyTree(c, base, src, p, x, s, d);
        LaterSiblings(src, x);
        if p in s.ids {
          NotSentAgain(src, x, s.ids, p);
        }
        AfterTree(c, base, src, p, s, d, own, t, rest, more);
        var r := ReplicateAll(c, s, EventsFor(src, own)).1;
        assert r.ids == Zip(s.ids, own, |s.ts|);
        CopyChain(c, base, src, p, n, r, d);
        CopiedConcat(c, src, s, d, own, [t], rest, more);
      }
    }
  }
}
