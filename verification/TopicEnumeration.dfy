/** Enumerating the topics below a topic with reg_get_next_topic_info (registry.c): asking again and
    again for the successor of the last topic visits everything below the starting topic exactly once, in
    preorder, except event queues and their direct children, and then stops. */
module TopicEnumeration {

  import opened TopicTree

  /** The enumeration leaves out event queues and their direct children. */
  predicate Shown(ts: seq<Node>, x: nat)
    requires Linked(ts) && x < |ts|
  {
    assert NodeLinked(ts, x);
    ts[x].info.typ != EventQueueType && (ts[x].parent == -1 || ts[ts[x].parent].info.typ != EventQueueType)
  }

  predicate InRange(s: seq<nat>, n: nat) {
    forall k :: 0 <= k < |s| ==> s[k] < n
  }

  function OnlyShown(ts: seq<Node>, s: seq<nat>): (r: seq<nat>)
    requires Linked(ts) && InRange(s, |ts|)
    ensures InRange(r, |ts|)
  {
    if s == [] then [] else (if Shown(ts, s[0]) then [s[0]] else []) + OnlyShown(ts, s[1..])
  }

  /** topic_tree_next_filtered. */
  function NextShown(ts: seq<Node>, i: nat): (j: int)
    requires Linked(ts) && i < |ts|
    ensures -1 <= j < |ts| && (j != -1 ==> Shown(ts, j))
    decreases |Rest(ts, i)|
  {
    NextIsFirstOfRest(ts, i);
    var j := TreeNext(ts, i);
    if j == -1 || Shown(ts, j) then j else NextShown(ts, j)
  }

  datatype Extract = Extract(info: Info, parentId: nat, topicId: nat) | NoTopic | InvalidId

  /** What the extract says about topic `j`. */
  function Describe(ts: seq<Node>, j: nat): Extract
    requires Linked(ts) && j < |ts|
  {
    assert NodeLinked(ts, j);
    Extract(ts[j].info, if ts[j].parent == -1 then 0 else ts[j].parent, j)
  }

  /** reg_get_next_topic_info. */
  function NextInfo(ts: seq<Node>, p: nat, id: nat): (e: Extract)
    requires Linked(ts) && p < |ts|
    ensures e.Extract? ==> id < |ts| && e.topicId < |ts|
  {
    if id >= |ts| then InvalidId
    else
      var j := NextShown(ts, id);
      if j == -1 || !IsBelow(ts, p, j) then NoTopic else Describe(ts, j)
  }

  /** All the extracts until the enumeration ends. */
  function Enumerate(ts: seq<Node>, p: nat, id: nat): seq<Extract>
    requires Linked(ts) && p < |ts| && id < |ts|
    decreases |Rest(ts, id)|
  {
    var e := NextInfo(ts, p, id);
    if !e.Extract? then []
    else
      NextShownLater(ts, id);
      [e] + Enumerate(ts, p, e.topicId)
  }

  function DescribeAll(ts: seq<Node>, s: seq<nat>): seq<Extract>
    requires Linked(ts) && InRange(s, |ts|)
  {
    if s == [] then [] else [Describe(ts, s[0])] + DescribeAll(ts, s[1..])
  }

  lemma {:induction false} NextShownLater(ts: seq<Node>, i: nat)
    requires Linked(ts) && i < |ts|
    ensures NextShown(ts, i) != -1 ==> |Rest(ts, NextShown(ts, i))| < |Rest(ts, i)|
    decreases |Rest(ts, i)|
  {
    NextIsFirstOfRest(ts, i);
    var j := TreeNext(ts, i);
    if j != -1 && !Shown(ts, j) {
      NextShownLater(ts, j);
    }
  }

  lemma SameHead(a: nat, s: seq<nat>, b: nat, t: seq<nat>)
    requires [a] + s == [b] + t
    ensures a == b && s == t
  {
    assert ([a] + s)[0] == a && ([b] + t)[0] == b && ([a] + s)[1..] == s && ([b] + t)[1..] == t;
  }

  /** How many topics are to be skipped before a shown one. */
  function HiddenFirst(ts: seq<Node>, todo: seq<nat>): (k: nat)
    requires Linked(ts) && InRange(todo, |ts|)
    ensures k <= |todo| && (k < |todo| ==> Shown(ts, todo[k]))
  {
    if todo == [] || Shown(ts, todo[0]) then 0 else 1 + HiddenFirst(ts, todo[1..])
  }

  lemma {:induction false} ShownFirst(ts: seq<Node>, todo: seq<nat>)
    requires Linked(ts) && InRange(todo, |ts|)
    ensures var k := HiddenFirst(ts, todo);
            && (k < |todo| ==> InRange(todo[k + 1..], |ts|))
            && OnlyShown(ts, todo) == if k == |todo| then [] else [todo[k]] + OnlyShown(ts, todo[k + 1..])
  {
    HiddenFirstUnfold(ts, todo);
    OnlyShownUnfold(ts, todo);
    hide Linked, Shown, HiddenFirst, OnlyShown, InRange;
    if todo != [] {
      if Shown(ts, todo[0]) {
        assert todo[0 + 1..] == todo[1..];
      } else {
        var k := HiddenFirst(ts, todo[1..]);
        ShownFirst(ts, todo[1..]);
        DropFirst(todo, k);
        assert [] + OnlyShown(ts, todo[1..]) == OnlyShown(ts, todo[1..]);
      }
    }
  }

  lemma OnlyShownUnfold(ts: seq<Node>, todo: seq<nat>)
    requires Linked(ts) && InRange(todo, |ts|)
    ensures todo == [] ==> OnlyShown(ts, todo) == []
    ensures todo != [] ==> InRange(todo[1..], |ts|)
    ensures todo != [] ==>
              OnlyShown(ts, todo) == (if Shown(ts, todo[0]) then [todo[0]] else []) + OnlyShown(ts, todo[1..])
  {
  }

  /** The next shown topic is the first one shown of what remains. */
  lemma {:induction false} NextShownIsFirst(ts: seq<Node>, i: nat, todo: seq<nat>, after: seq<nat>)
    requires Linked(ts) && i < |ts| && Rest(ts, i) == todo + after && InRange(todo, |ts|)
    ensures var j, k := NextShown(ts, i), HiddenFirst(ts, todo);
            if k == |todo| then j == -1 || j in after
            else j == todo[k] && Rest(ts, j) == todo[k + 1..] + after
    decreases |Rest(ts, i)|
  {
    NextIsFirstOfRest(ts, i);
    hide Linked, Shown, Rest, TreeNext, NextShown, HiddenFirst;
    NextShownUnfold(ts, i);
    HiddenFirstUnfold(ts, todo);
    var j := TreeNext(ts, i);
    if todo == [] {
      FirstShownOf(ts, i);
      assert todo + after == after;
    } else {
      assert todo + after == [todo[0]] + (todo[1..] + after);
      SameHead(j, Rest(ts, j), todo[0], todo[1..] + after);
      if !Shown(ts, j) {
        NextShownIsFirst(ts, j, todo[1..], after);
        DropFirst(todo, HiddenFirst(ts, todo[1..]));
      }
    }
  }

  lemma NextShownUnfold(ts: seq<Node>, i: nat)
    requires Linked(ts) && i < |ts| && -1 <= TreeNext(ts, i) < |ts|
    ensures var j := TreeNext(ts, i);
            NextShown(ts, i) == if j == -1 || Shown(ts, j) then j else NextShown(ts, j)
  {
  }

  lemma HiddenFirstUnfold(ts: seq<Node>, todo: seq<nat>)
    requires Linked(ts) && InRange(todo, |ts|)
    ensures todo == [] ==> HiddenFirst(ts, todo) == 0
    ensures todo != [] ==> InRange(todo[1..], |ts|)
    ensures todo != [] ==> HiddenFirst(ts, todo) == if Shown(ts, todo[0]) then 0 else 1 + HiddenFirst(ts, todo[1..])
  {
  }

  lemma DropFirst(s: seq<nat>, k: nat)
    requires s != [] && k <= |s[1..]|
    ensures k < |s[1..]| ==> s[1..][k] == s[k + 1] && s[1..][k + 1..] == s[k + 2..]
  {
  }

  lemma {:induction false} FirstShownOf(ts: seq<Node>, i: nat)
    requires Linked(ts) && i < |ts|
    ensures NextShown(ts, i) == -1 || NextShown(ts, i) in Rest(ts, i)
    decreases |Rest(ts, i)|
  {
    NextIsFirstOfRest(ts, i);
    var j := TreeNext(ts, i);
    if j != -1 && !Shown(ts, j) {
      FirstShownOf(ts, j);
    }
  }

  lemma {:induction false} EnumerateRest(ts: seq<Node>, p: nat, i: nat, todo: seq<nat>)
    requires Linked(ts) && p < |ts| && i < |ts| && Rest(ts, i) == todo + RestAfter(ts, p)
    requires InRange(todo, |ts|) && forall k :: 0 <= k < |todo| ==> IsBelow(ts, p, todo[k])
    ensures Enumerate(ts, p, i) == DescribeAll(ts, OnlyShown(ts, todo))
    decreases |Rest(ts, i)|
  {
    hide Linked, Shown, Rest, TreeNext, NextShown, HiddenFirst, OnlyShown, RestAfter, IsBelow;
    NextShownIsFirst(ts, i, todo, RestAfter(ts, p));
    ShownFirst(ts, todo);
    var j, k := NextShown(ts, i), HiddenFirst(ts, todo);
    if k == |todo| {
      if j != -1 {
        RestMembers(ts, p, j);
      }
    } else {
      NextShownLater(ts, i);
      EnumerateRest(ts, p, j, todo[k + 1..]);
      DescribeCons(ts, todo[k], OnlyShown(ts, todo[k + 1..]));
    }
  }

  lemma DescribeCons(ts: seq<Node>, x: nat, s: seq<nat>)
    requires Linked(ts) && x < |ts| && InRange(s, |ts|)
    ensures InRange([x] + s, |ts|) && DescribeAll(ts, [x] + s) == [Describe(ts, x)] + DescribeAll(ts, s)
  {
    assert ([x] + s)[1..] == s;
  }

  lemma BelowInRange(ts: seq<Node>, p: nat)
    requires Linked(ts) && p < |ts|
    ensures InRange(Below(ts, p), |ts|)
    ensures forall k :: 0 <= k < |Below(ts, p)| ==> IsBelow(ts, p, Below(ts, p)[k])
  {
    RestInRange(ts, p);
    var b := Below(ts, p);
    forall k | 0 <= k < |b|
      ensures b[k] < |ts| && IsBelow(ts, p, b[k])
    {
      assert b[k] in b && b[k] in Rest(ts, p);
      RestMembers(ts, p, b[k]);
    }
  }

  /** Starting at any topic and repeating until no_topic visits exactly its descendants in preorder,
      except event queues and their direct children. */
  lemma EnumerationComplete(ts: seq<Node>, p: nat)
    requires Linked(ts) && p < |ts|
    ensures InRange(Below(ts, p), |ts|)
    ensures Enumerate(ts, p, p) == DescribeAll(ts, OnlyShown(ts, Below(ts, p)))
  {
    BelowInRange(ts, p);
    EnumerateRest(ts, p, p, Below(ts, p));
  }

  lemma {:induction false} ShownMembers(ts: seq<Node>, s: seq<nat>)
    requires Linked(ts) && Distinct(s) && InRange(s, |ts|)
    ensures Distinct(OnlyShown(ts, s))
    ensures forall x :: x in OnlyShown(ts, s) <==> x in s && Shown(ts, x)
  {
    if s != [] {
      assert Distinct(s[1..]);
      ShownMembers(ts, s[1..]);
      assert s == [s[0]] + s[1..];
      assert s[0] !in s[1..];
    }
  }

  /** Directly below an event queue. */
  predicate InEventQueue(ts: seq<Node>, x: nat)
    requires x < |ts|
  {
    0 <= ts[x].parent < |ts| && ts[ts[x].parent].info.typ == EventQueueType
  }

  /** Each of them once. */
  lemma EnumeratedOnce(ts: seq<Node>, p: nat, x: nat)
    requires Linked(ts) && p < |ts| && x < |ts|
    ensures InRange(Below(ts, p), |ts|)
    ensures var s := OnlyShown(ts, Below(ts, p));
            Distinct(s) && (x in s <==> IsBelow(ts, p, x) && ts[x].info.typ != EventQueueType && !InEventQueue(ts, x))
  {
    assert NodeLinked(ts, x);
    BelowInRange(ts, p);
    RestDistinct(ts, p);
    var b := Below(ts, p);
    assert Distinct(b) by {
      assert Rest(ts, p)[..|b|] == b;
    }
    ShownMembers(ts, b);
    BelowMembers(ts, p, x);
  }

  /** What one answer means: an unused id is told apart, and an extract is that of a shown topic below the
      starting topic, with its parent. */
  lemma AnswerMeans(ts: seq<Node>, p: nat, id: nat)
    requires Linked(ts) && p < |ts|
    ensures var e := NextInfo(ts, p, id);
            && (e == InvalidId <==> id >= |ts|)
            && (e.Extract? ==>
                  && e.topicId < |ts| && e.topicId in Rest(ts, id) && IsBelow(ts, p, e.topicId)
                  && e.info == ts[e.topicId].info && ts[e.topicId].info.typ != EventQueueType
                  && !InEventQueue(ts, e.topicId)
                  && (if ts[e.topicId].parent == -1 then e.parentId == 0 else ts[e.topicId].parent == e.parentId))
  {
    if id < |ts| {
      FirstShownOf(ts, id);
      var j := NextShown(ts, id);
      assert j != -1 ==> NodeLinked(ts, j);
    }
  }
}
