/** How each proclaimed record ends up in the registry: topic by topic, field by field. */
module TopicSettled {

  import opened TopicTree
  import opened TopicGrowth
  import opened TopicVerdict

  /** A topic as it should be below a parent of that type: as proclaimed, with its offset only if it is mapped
      into the data of a parent that is no fifo or event queue, and with the parent's lock only if it asked for
      it and is not mapped. */
  predicate Settled(info: Info, src: Info, parentType: TopicType) {
    && info.name == src.name && info.typ == src.typ && info.size == src.size && info.mapped == src.mapped
    && info.offset == (if src.mapped && parentType != FifoType && parentType != EventQueueType then src.offset else 0)
    && info.parentSync == (src.parentSync && !src.mapped)
  }

  /** Topics from number `n` on are these records, in this order. */
  ghost predicate Placed(us: seq<Node>, n: nat, pool: seq<Node>, nodes: seq<nat>) {
    && n + |nodes| <= |us|
    && forall k :: 0 <= k < |nodes| ==>
         && nodes[k] < |pool| && 0 <= pool[nodes[k]].parent < |pool|
         && Settled(us[n + k].info, pool[nodes[k]].info, pool[pool[nodes[k]].parent].info.typ)
  }

  lemma PlacedPrefix(us: seq<Node>, vs: seq<Node>, n: nat, pool: seq<Node>, nodes: seq<nat>)
    requires Placed(us, n, pool, nodes) && Prefix(us, vs)
    ensures Placed(vs, n, pool, nodes)
  {
    hide Settled;
  }

  lemma PlacedParts(us: seq<Node>, n: nat, pool: seq<Node>, c: nat, below: seq<nat>, after: seq<nat>)
    requires c < |pool| && 0 <= pool[c].parent < |pool| && n < |us|
    requires Settled(us[n].info, pool[c].info, pool[pool[c].parent].info.typ)
    requires Placed(us, n + 1, pool, below) && Placed(us, n + 1 + |below|, pool, after)
    ensures Placed(us, n, pool, [c] + below + after)
  {
    hide Settled;
    var nodes := [c] + below + after;
    forall k | 0 <= k < |nodes|
      ensures nodes[k] < |pool| && 0 <= pool[nodes[k]].parent < |pool|
      ensures Settled(us[n + k].info, pool[nodes[k]].info, pool[pool[nodes[k]].parent].info.typ)
    {
      if 1 <= k <= |below| {
        assert nodes[k] == below[k - 1];
      } else if k > 0 {
        assert nodes[k] == after[k - 1 - |below|];
      }
    }
  }

  lemma SettleSettles(src: Info, parentType: TopicType)
    requires !Misplaced(src, parentType)
    ensures Settled(Settle(src, parentType), src, parentType)
  {
  }

  lemma {:induction false} TreeSettled(ts: seq<Node>, max: nat, p: nat, pool: seq<Node>, i: nat)
    requires Linked(ts) && p < |ts| && Linked(pool) && i < |pool| && RegisterTree(ts, max, p, pool, i).0 == RegOk
    ensures var us := RegisterTree(ts, max, p, pool, i).1;
            && |us| == |ts| + 1 + |Below(pool, i)|
            && Settled(us[|ts|].info, pool[i].info, ts[p].info.typ) && Placed(us, |ts| + 1, pool, Below(pool, i))
    decreases |pool| - i, 0
  {
    hide AddChild, Settle, Settled;
    AddChildGrows(ts, max, p, pool, i);
    NotMisplaced(ts, max, p, pool, i);
    SettleSettles(pool[i].info, ts[p].info.typ);
    var (rv, us) := AddChild(ts, max, p, pool, i);
    assert NodeLinked(pool, i);
    SameType(pool[i].info, ts[p].info.typ);
    KidsSettled(us, max, |ts|, pool, i, pool[i].firstChild);
  }

  lemma SameType(src: Info, parentType: TopicType)
    ensures Settle(src, parentType).typ == src.typ
  {
  }

  lemma NotMisplaced(ts: seq<Node>, max: nat, p: nat, pool: seq<Node>, i: nat)
    requires Linked(ts) && p < |ts| && Linked(pool) && i < |pool| && AddChild(ts, max, p, pool, i).0 == RegOk
    ensures !Misplaced(pool[i].info, ts[p].info.typ)
  {
    hide FindAmong, Attach;
  }

  lemma {:induction false} KidsSettled(ts: seq<Node>, max: nat, p: nat, pool: seq<Node>, q: nat, c: int)
    requires Linked(ts) && p < |ts| && Linked(pool) && q < |pool| && -1 <= c < |pool|
    requires (c != -1 ==> pool[c].parent == q) && ts[p].info.typ == pool[q].info.typ
    requires RegisterKids(ts, max, p, pool, c).0 == RegOk
    ensures var us := RegisterKids(ts, max, p, pool, c).1;
            |us| == |ts| + |Preorder(pool, c)| && Placed(us, |ts|, pool, Preorder(pool, c))
    decreases if c == -1 then 0 else |pool| - c, 1
  {
    if c == -1 {
      assert Preorder(pool, c) == [];
    } else {
      var us := RegisterTree(ts, max, p, pool, c).1;
      var next := pool[c].nextSibling;
      assert next != -1 ==> pool[next].parent == q by {
        assert NodeLinked(pool, c);
      }
      KidsUnfold(ts, max, p, pool, c);
      PreorderUnfold(pool, c);
      hide Linked, Preorder, RegisterTree, RegisterKids, Placed, Settled, Prefix;
      TreeSettled(ts, max, p, pool, c);
      KidsSettled(us, max, p, pool, q, next);
      ChainPlaced(us, RegisterKids(us, max, p, pool, next).1, |ts|, pool, c, Below(pool, c), Preorder(pool, next));
    }
  }

  /** A tree followed by the rest of its chain. */
  lemma ChainPlaced(us: seq<Node>, vs: seq<Node>, n: nat, pool: seq<Node>, c: nat, below: seq<nat>, after: seq<nat>)
    requires c < |pool| && 0 <= pool[c].parent < |pool| && Prefix(us, vs)
    requires |us| == n + 1 + |below| && Settled(us[n].info, pool[c].info, pool[pool[c].parent].info.typ)
    requires Placed(us, n + 1, pool, below)
    requires |vs| == |us| + |after| && Placed(vs, |us|, pool, after)
    ensures |vs| == n + |[c] + below + after| && Placed(vs, n, pool, [c] + below + after)
  {
    PlacedPrefix(us, vs, n + 1, pool, below);
    hide Placed, Settled;
    PlacedParts(vs, n, pool, c, below, after);
  }

  /** After a successful registration topic number |ts| is the root of the proclaimed tree and the topics behind
      it are the records below that root in preorder, each settled below its parent. */
  lemma RegisteredAsProclaimed(ts: seq<Node>, max: nat, p: nat, pool: seq<Node>, i: nat)
    requires Linked(ts) && p < |ts| && Linked(pool) && i < |pool| && RegisterTree(ts, max, p, pool, i).0 == RegOk
    ensures var us := RegisterTree(ts, max, p, pool, i).1;
            && |us| == |ts| + 1 + |Below(pool, i)|
            && Settled(us[|ts|].info, pool[i].info, ts[p].info.typ) && Placed(us, |ts| + 1, pool, Below(pool, i))
            && Prefix(ts, us)
  {
    TreeSettled(ts, max, p, pool, i);
  }
}
