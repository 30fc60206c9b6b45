/** The topic registry (registry.c) and the path printer (local_buses.c) as they run: topics in one array,
    links patched in place, loops that follow them. Every method is proved to be the function on the
    view of the array that TopicGrowth, TopicEnumeration and TopicPaths reason about.

    Slots behind the last topic are as the allocation left them. A registered topic is first allocated
    at the end of the array, then filled in, then checked against its parent, and only then linked, so a
    refused one stays behind as a topic that no chain leads to. The proclaimed tree is read through the
    relative indices of its pool. */
module Registry {

  import opened TopicTree
  import opened TopicGrowth
  import opened TopicEnumeration
  import opened ProclaimingTree
  import opened Paths
  import opened TopicPaths

  const ZERO := Node(BLANK, -1, -1, -1)

  const TOPICS_MAX := 0x1_0000 // topic ids are handed out in 16 bits

  ghost predicate ValidView(ts: seq<Node>) {
    ts != [] && Linked(ts) && DistinctSiblings(ts) && Proper(ts)
  }

  lemma AddChildValid(ts: seq<Node>, max: nat, p: nat, pool: seq<Node>, i: nat)
    requires ValidView(ts) && p < |ts| && Linked(pool) && i < |pool|
    ensures ValidView(AddChild(ts, max, p, pool, i).1) && |ts| <= |AddChild(ts, max, p, pool, i).1|
  {
    AddChildGrows(ts, max, p, pool, i);
    AddChildDistinct(ts, max, p, pool, i);
    AddChildProper(ts, max, p, pool, i);
    hide AddChild;
  }

  class TopicRegistry {
    const topics: array<Node>
    var topicsNum: nat

    ghost predicate Valid()
      reads this, topics
    {
      && topicsNum <= topics.Length <= TOPICS_MAX
      && (forall k :: topicsNum <= k < topics.Length ==> topics[k] == ZERO)
      && ValidView(View())
    }

    ghost function View(): (ts: seq<Node>)
      reads this, topics
      requires topicsNum <= topics.Length
      ensures |ts| == topicsNum
    {
      topics[..topicsNum]
    }

    /** reg_create, once the name has been found short enough and there is room for the root. */
    constructor (rootName: string, maxTopics: nat)
      requires |rootName| <= TOPIC_NAME_MAX_LEN && 0 < maxTopics <= TOPICS_MAX
      ensures Valid() && fresh(topics) && topics.Length == maxTopics
      ensures View() == [Node(Info(rootName, Dir, 0, 0, false, false), -1, -1, -1)]
    {
      topics := new Node[maxTopics](_ => ZERO);
      topicsNum := 1;
      new;
      topics[0] := topics[0].(info := topics[0].info.(name := rootName, typ := Dir));
      assert NodeLinked(View(), 0);
    }

    // ---------------------------------------------------------------- registration

    /** reg_find_topic_among_siblings. */
    method FindAmongSiblings(first: int, name: string) returns (j: int)
      requires Valid() && -1 <= first < topicsNum
      ensures j == FindAmong(View(), first, name)
    {
      j := first;
      while j != -1 && !SameName(topics[j].info.name, name)
        invariant -1 <= j < topicsNum && FindAmong(View(), first, name) == FindAmong(View(), j, name)
        decreases topicsNum - (if j == -1 then topicsNum else j)
      {
        assert NodeLinked(View(), j);
        j := topics[j].nextSibling;
      }
    }

    /** alloc_topic; -1 for NULL. */
    method AllocTopic() returns (id: int)
      requires topicsNum <= topics.Length
      requires forall k :: topicsNum <= k < topics.Length ==> topics[k] == ZERO
      modifies this`topicsNum
      ensures topicsNum <= topics.Length
      ensures id == if old(topicsNum) < topics.Length then old(topicsNum) else -1
      ensures View() == if id == -1 then old(View()) else old(View()) + [ZERO]
    {
      if topicsNum >= topics.Length {
        return -1;
      }
      id := topicsNum;
      topicsNum := topicsNum + 1;
    }

    /** fill_in_topic. */
    method FillIn(id: nat, src: Info) returns (rv: RegRv)
      requires id < topics.Length
      modifies topics
      ensures forall k :: 0 <= k < topics.Length && k != id ==> topics[k] == old(topics[k])
      ensures rv == if src.name == "" then InvArgs else if |src.name| > TOPIC_NAME_MAX_LEN then NameTooLong else RegOk
      ensures topics[id] == if rv != RegOk then old(topics[id]) else
                old(topics[id]).(info := old(topics[id].info).(name := src.name, typ := src.typ, size := src.size))
    {
      if |src.name| == 0 {
        return InvArgs;
      }
      if |src.name| > TOPIC_NAME_MAX_LEN {
        return NameTooLong;
      }
      topics[id] := topics[id].(info := topics[id].info.(name := src.name, typ := src.typ, size := src.size));
      rv := RegOk;
    }

    /** The first part of topic_add_child: a topic, linked to nothing, with its name, type and size. */
    method NewTopic(src: Info) returns (rv: RegRv, id: int)
      requires topicsNum <= topics.Length
      requires forall k :: topicsNum <= k < topics.Length ==> topics[k] == ZERO
      modifies this`topicsNum, topics
      ensures topicsNum <= topics.Length && forall k :: topicsNum <= k < topics.Length ==> topics[k] == ZERO
      ensures rv == if old(topicsNum) >= topics.Length then TopicMax else if src.name == "" then InvArgs
                    else if |src.name| > TOPIC_NAME_MAX_LEN then NameTooLong else RegOk
      ensures rv == RegOk ==> id == old(topicsNum) == topicsNum - 1 && View()[..id] == old(View())
                              && topics[id] == ZERO.(info := Unsettled(src))
      ensures rv == TopicMax ==> View() == old(View())
      ensures rv == InvArgs || rv == NameTooLong ==> View() == Abandon(old(View()), BLANK)
    {
      id := AllocTopic();
      if id == -1 {
        return TopicMax, id;
      }
      rv := FillIn(id, src);
    }

    /** The flags, data and resources of a new topic below `p`. */
    method Establish(id: nat, p: nat, ctx: TreeContext, i: nat) returns (rv: RegRv)
      requires p < id < topics.Length && ctx.Valid() && i < ctx.tNum
      requires topics[id] == ZERO.(info := Unsettled(ctx.pool[i].info))
      modifies topics
      ensures forall k :: 0 <= k < topics.Length && k != id ==> topics[k] == old(topics[k])
      ensures rv == var src, typ := ctx.pool[i].info, topics[p].info.typ;
                    if !src.mapped && typ != Dir && !IsQueue(typ) then NotDir
                    else if !src.mapped && src.typ == FifoType && !OneChild(ctx.Tree(), i) then InvArgs
                    else RegOk
      ensures rv == RegOk ==> topics[id] == ZERO.(info := Settle(ctx.pool[i].info, topics[p].info.typ))
      ensures rv != RegOk ==> topics[id] == old(topics[id])
    {
      var src := ctx.pool[i].info;
      var typ := topics[p].info.typ;
      rv := RegOk;
      if src.mapped {
        if typ == FifoType || typ == EventQueueType {
          topics[id] := topics[id].(info := topics[id].info.(mapped := true, offset := 0));
        } else {
          topics[id] := topics[id].(info := topics[id].info.(mapped := true, offset := src.offset));
        }
      } else {
        if typ != Dir && typ != FifoType && typ != EventQueueType {
          return NotDir;
        }
        if topics[id].info.typ == FifoType {
          var child := ctx.pool[i].firstChildInd;
          assert NodeLinked(ctx.Tree(), i);
          if child == PR_TREE_NO_REF_IND || ctx.pool[i + child].nextSiblingInd != PR_TREE_NO_REF_IND {
            return InvArgs;
          }
        }
        if src.parentSync {
          topics[id] := topics[id].(info := topics[id].info.(parentSync := true));
        }
      }
    }

    /** The end of topic_add_child: linking topic `id`, the last one, behind the children of `p`. */
    method Link(id: nat, p: nat)
      requires 0 < topicsNum <= topics.Length && id == topicsNum - 1 && p < id
      requires Linked(View()[..id]) && topics[id] == ZERO.(info := topics[id].info)
      modifies topics
      ensures View() == Attach(old(View()[..id]), p, old(topics[id].info))
      ensures forall k :: topicsNum <= k < topics.Length ==> topics[k] == old(topics[k])
    {
      ghost var was := View()[..id];
      assert NodeLinked(was, p);
      topics[id] := topics[id].(parent := p);
      assert topics[..id] == was;
      if topics[p].firstChild == -1 {
        topics[p] := topics[p].(firstChild := id);
      } else {
        var n := LastOf(id, topics[p].firstChild);
        topics[n] := topics[n].(nextSibling := id);
      }
      assert View() == Attach(was, p, topics[id].info);
    }

    method LastOf(num: nat, first: nat) returns (n: nat)
      requires first < num <= topics.Length && Linked(topics[..num])
      ensures n < num && n == LastSibling(topics[..num], first)
    {
      n := first;
      while topics[n].nextSibling != -1
        invariant n < num && LastSibling(topics[..num], n) == LastSibling(topics[..num], first)
        decreases num - n
      {
        assert NodeLinked(topics[..num], n);
        n := topics[n].nextSibling;
      }
    }

    /** The second part of topic_add_child. */
    method Adopt(ghost was: seq<Node>, id: nat, p: nat, ctx: TreeContext, i: nat) returns (rv: RegRv)
      requires 0 < topicsNum <= topics.Length && id == |was| == topicsNum - 1 && p < id
      requires Linked(was) && View()[..id] == was && ctx.Valid() && i < ctx.tNum
      requires topics[id] == ZERO.(info := Unsettled(ctx.pool[i].info))
      modifies topics
      ensures forall k :: topicsNum <= k < topics.Length ==> topics[k] == old(topics[k])
      ensures rv == var src, typ := ctx.pool[i].info, old(topics[p].info.typ);
                    if !src.mapped && typ != Dir && !IsQueue(typ) then NotDir
                    else if !src.mapped && src.typ == FifoType && !OneChild(ctx.Tree(), i) then InvArgs
                    else RegOk
      ensures View() == if rv != RegOk then Abandon(was, old(topics[id].info))
                        else Attach(was, p, Settle(ctx.pool[i].info, old(topics[p].info.typ)))
    {
      hide Linked, OneChild, Attach, Settle;
      rv := Establish(id, p, ctx, i);
      assert View()[..id] == was && View() == was + [topics[id]];
      if rv == RegOk {
        Link(id, p);
      }
    }

    /** topic_add_child once the name has been found to be new. */
    method AddNew(p: nat, ctx: TreeContext, i: nat) returns (rv: RegRv, id: int)
      requires topicsNum <= topics.Length && forall k :: topicsNum <= k < topics.Length ==> topics[k] == ZERO
      requires Linked(View()) && p < topicsNum && ctx.Valid() && i < ctx.tNum
      modifies this`topicsNum, topics
      ensures topicsNum <= topics.Length && forall k :: topicsNum <= k < topics.Length ==> topics[k] == ZERO
      ensures (rv, View()) == AddedNew(old(View()), topics.Length, p, ctx.Tree(), i)
      ensures rv == RegOk ==> id == old(topicsNum)
    {
      hide Attach, Settle, Linked, OneChild, Abandon;
      ghost var was := View();
      rv, id := NewTopic(ctx.pool[i].info);
      if rv == RegOk {
        rv := Adopt(was, id, p, ctx, i);
      }
    }

    /** topic_add_child; `id` is the new topic. */
    method TopicAddChild(p: nat, ctx: TreeContext, i: nat) returns (rv: RegRv, id: int)
      requires Valid() && p < topicsNum && ctx.Valid() && i < ctx.tNum
      modifies this`topicsNum, topics
      ensures Valid() && (rv, View()) == AddChild(old(View()), topics.Length, p, ctx.Tree(), i)
      ensures rv == RegOk ==> id == old(topicsNum)
    {
      ghost var was := View();
      assert Linked(was) && NodeLinked(was, p);
      AddChildValid(was, topics.Length, p, ctx.Tree(), i);
      hide AddedNew, FindAmong, ValidView, Linked, NodeLinked;
      var t := FindAmongSiblings(topics[p].firstChild, ctx.pool[i].info.name);
      if t != -1 {
        return TopicExist, -1;
      }
      rv, id := AddNew(p, ctx, i);
    }

    /** topics_tree_register. */
    method TopicsTreeRegister(p: nat, ctx: TreeContext, i: nat) returns (rv: RegRv)
      requires Valid() && p < topicsNum && ctx.Valid() && i < ctx.tNum
      modifies this`topicsNum, topics
      ensures Valid() && (rv, View()) == RegisterTree(old(View()), topics.Length, p, ctx.Tree(), i)
      decreases ctx.tNum - i
    {
      ghost var pool, max := ctx.Tree(), topics.Length;
      hide AddChild, ValidView, NodeLinked;
      var id;
      rv, id := TopicAddChild(p, ctx, i);
      if rv != RegOk {
        return;
      }
      assert NodeLinked(pool, i);
      ghost var start := View();
      var n := Target(i, ctx.pool[i].firstChildInd);
      ghost var c := n;
      while n != -1
        invariant Valid() && id < topicsNum && -1 <= n < ctx.tNum && (n != -1 ==> i < n)
        invariant rv == RegOk && RegisterKids(start, max, id, pool, c) == RegisterKids(View(), max, id, pool, n)
        decreases ctx.tNum - (if n == -1 then ctx.tNum else n)
      {
        assert NodeLinked(pool, n);
        rv := TopicsTreeRegister(id, ctx, n);
        if rv != RegOk {
          return;
        }
        n := Target(n, ctx.pool[n].nextSiblingInd);
      }
    }

    // ---------------------------------------------------------------- lookups

    /** find_topic. */
    method FindTopic(path: string) returns (t: int)
      requires Valid() && |path| < PATH_MAX && Tokens(path) != []
      ensures t == TopicPaths.FindTopic(View(), path)
    {
      var found, name, rest := NextToken(path);
      if name != topics[0].info.name {
        return -1;
      }
      t := 0;
      assert Tokens(path)[1..] == Tokens(rest);
      found, name, rest := NextToken(rest);
      ghost var names := if found then [name] + Tokens(rest) else [];
      while found
        invariant 0 <= t < topicsNum && names == if found then [name] + Tokens(rest) else []
        invariant TopicPaths.FindTopic(View(), path) == FindBelow(View(), t, names)
        decreases |names|
      {
        assert NodeLinked(View(), t);
        t := FindAmongSiblings(topics[t].firstChild, name);
        assert names[1..] == Tokens(rest);
        if t == -1 {
          return;
        }
        found, name, rest := NextToken(rest);
        names := if found then [name] + Tokens(rest) else [];
      }
    }

    /** topic_tree_next. */
    method TopicTreeNext(r: nat) returns (j: int)
      requires Valid() && r < topicsNum
      ensures j == TreeNext(View(), r)
    {
      assert NodeLinked(View(), r);
      if topics[r].firstChild != -1 {
        return topics[r].firstChild;
      }
      if topics[r].nextSibling != -1 {
        return topics[r].nextSibling;
      }
      var n := topics[r].parent;
      while n != -1
        invariant -1 <= n < topicsNum && After(View(), r) == if n == -1 then -1 else After(View(), n)
        decreases n
      {
        if topics[n].nextSibling != -1 {
          return topics[n].nextSibling;
        }
        assert NodeLinked(View(), n);
        n := topics[n].parent;
      }
      j := -1;
    }

    /** topic_tree_next_filtered. */
    method TopicTreeNextFiltered(r: nat) returns (j: int)
      requires Valid() && r < topicsNum
      ensures j == NextShown(View(), r)
    {
      NextIsFirstOfRest(View(), r);
      j := TopicTreeNext(r);
      var loop := Skip(j);
      while loop
        invariant -1 <= j < topicsNum && loop == (j != -1 && !Shown(View(), j))
        invariant NextShown(View(), r) == if loop then NextShown(View(), j) else j
        decreases if j == -1 then 0 else 1 + |Rest(View(), j)|
      {
        NextIsFirstOfRest(View(), j);
        j := TopicTreeNext(j);
        loop := Skip(j);
      }
    }

    /** The condition of its loop. */
    method Skip(j: int) returns (loop: bool)
      requires Valid() && -1 <= j < topicsNum
      ensures loop == (j != -1 && !Shown(View(), j))
    {
      loop := false;
      if j != -1 {
        assert NodeLinked(View(), j);
        loop := topics[j].info.typ == EventQueueType
          || (topics[j].parent != -1 && topics[topics[j].parent].info.typ == EventQueueType);
      }
    }

    /** parent_has_child. */
    method ParentHasChild(p: nat, child: nat) returns (has: bool)
      requires Valid() && p < topicsNum && child < topicsNum
      ensures has == IsBelow(View(), p, child)
    {
      var n: int := child;
      while n != -1
        invariant -1 <= n < topicsNum && IsBelow(View(), p, child) == (n != -1 && IsBelow(View(), p, n))
        decreases n
      {
        if p == topics[n].parent {
          return true;
        }
        assert NodeLinked(View(), n);
        n := topics[n].parent;
      }
      has := false;
    }

    /** reg_get_next_topic_info. */
    method GetNextTopicInfo(p: nat, id: nat) returns (e: Extract)
      requires Valid() && p < topicsNum && id < topics.Length
      ensures e == NextInfo(View(), p, id)
    {
      if id >= topicsNum {
        return InvalidId; // the id in a slot not in use is 0
      }
      var t := TopicTreeNextFiltered(id);
      if t == -1 {
        return NoTopic;
      }
      var has := ParentHasChild(p, t);
      if !has {
        return NoTopic;
      }
      assert NodeLinked(View(), t);
      e := Extract(topics[t].info, if topics[t].parent != -1 then topics[t].parent else 0, t);
    }

    // ---------------------------------------------------------------- printing a path

    /** local_get_mounting_point: for each level, climb to it from the topic. */
    method GetMountingPoint(li: nat, synced: bool) returns (mp: string)
      requires Valid() && li < topicsNum
      ensures mp == Printed(View(), synced, li)
    {
      mp := BusPrefix(synced);
      var depth := Depth(li);
      assert mp + Join([]) == mp && Fit(mp) == mp;
      assert Linked(View());
      hide Join, Names, BusPrefix, Linked, ValidView, Fit, StrNCat;
      ghost var names := Names(View(), li);
      var i := 0;
      while i < depth
        invariant 0 <= i <= depth && depth == |names|
        invariant mp == Fit(BusPrefix(synced) + Join(names[..i]))
      {
        var t := Climb(li, depth - 1 - i);
        NameAt(View(), t);
        LevelPrinted(synced, names, i);
        mp := StrNCat(mp, "/");
        mp := StrNCat(mp, topics[t].info.name);
        i := i + 1;
      }
      assert names[..depth] == names;
    }

    method Depth(li: nat) returns (depth: nat)
      requires Valid() && li < topicsNum
      ensures depth == |Names(View(), li)|
    {
      depth := 0;
      var n: int := li;
      while n != -1
        invariant -1 <= n < topicsNum && |Names(View(), li)| == depth + if n == -1 then 0 else |Names(View(), n)|
        decreases n
      {
        assert NodeLinked(View(), n);
        depth := depth + 1;
        n := topics[n].parent;
      }
    }

    method Climb(li: nat, steps: nat) returns (t: nat)
      requires Valid() && li < topicsNum && steps < |Names(View(), li)|
      ensures t < topicsNum && Names(View(), t) == Names(View(), li)[..|Names(View(), li)| - steps]
    {
      ghost var names := Names(View(), li);
      t := li;
      assert names[..|names| - 0] == names;
      var j := 0;
      while j < steps
        invariant 0 <= j <= steps && t < topicsNum && Names(View(), t) == names[..|names| - j]
      {
        ParentNames(View(), t);
        t := topics[t].parent;
        j := j + 1;
      }
    }
  }

  /** reg_create. */
  method Create(rootName: string, maxTopics: nat) returns (rv: RegRv, reg: TopicRegistry?)
    requires maxTopics <= TOPICS_MAX
    ensures rv == if |rootName| > TOPIC_NAME_MAX_LEN then NameTooLong else if maxTopics == 0 then TopicNa else RegOk
    ensures rv == RegOk <==> reg != null
    ensures reg != null ==> fresh(reg) && fresh(reg.topics) && reg.Valid() && reg.topics.Length == maxTopics
    ensures reg != null ==> reg.View() == [Node(Info(rootName, Dir, 0, 0, false, false), -1, -1, -1)]
  {
    if |rootName| > TOPIC_NAME_MAX_LEN {
      return NameTooLong, null;
    }
    if maxTopics == 0 {
      return TopicNa, null;
    }
    reg := new TopicRegistry(rootName, maxTopics);
    rv := RegOk;
  }

  /** strncat with the room that is left. */
  function StrNCat(mp: string, s: string): string
    requires |mp| <= PATH_MAX
  {
    mp + (if |s| <= PATH_MAX - |mp| then s else s[..PATH_MAX - |mp|])
  }

  lemma FitConcat(a: string, s: string)
    ensures StrNCat(Fit(a), s) == Fit(a + s)
  {
  }

  /** One level of the printed path. */
  lemma LevelPrinted(synced: bool, names: seq<string>, i: nat)
    requires i < |names|
    ensures StrNCat(StrNCat(Fit(BusPrefix(synced) + Join(names[..i])), "/"), names[i])
         == Fit(BusPrefix(synced) + Join(names[..i + 1]))
  {
    hide StrNCat, Fit, Join;
    var s := BusPrefix(synced) + Join(names[..i]);
    assert names[..i + 1] == names[..i] + [names[i]];
    JoinSnoc(names[..i], names[i]);
    FitConcat(s, "/");
    FitConcat(s + "/", names[i]);
    assert s + "/" + names[i] == BusPrefix(synced) + (Join(names[..i]) + "/" + names[i]);
  }

  lemma ParentNames(ts: seq<Node>, t: nat)
    requires Linked(ts) && t < |ts| && |Names(ts, t)| > 1
    ensures 0 <= ts[t].parent < |ts| && Names(ts, ts[t].parent) == Names(ts, t)[..|Names(ts, t)| - 1]
  {
    assert NodeLinked(ts, t);
  }

  lemma NameAt(ts: seq<Node>, t: nat)
    requires Linked(ts) && t < |ts|
    ensures Names(ts, t)[|Names(ts, t)| - 1] == ts[t].info.name
  {
  }
}
