/** When a registration succeeds, and with which code it fails, in terms of what is registered and where. */
module TopicVerdict {

  // The records of the proclaimed tree are judged one by one in preorder. The result code is that of the first
  // record that is refused, and the registration succeeds exactly if none is.

  import opened Sequences
  import opened TopicTree
  import opened TopicGrowth
  import opened TopicCopy

  /** `p` has a child of that name. */
  ghost predicate ChildNamed(ts: seq<Node>, p: int, name: string) {
    exists k :: 0 <= k < |ts| && ts[k].parent == p && SameName(ts[k].info.name, name)
  }

  /** A record in front of record `i` has the same parent and the same name. */
  ghost predicate EarlierSibling(pool: seq<Node>, i: nat)
    requires i < |pool|
  {
    ChildNamed(pool[..i], pool[i].parent, pool[i].info.name)
  }

  ghost predicate HasOneChild(pool: seq<Node>, i: nat) {
    exists k :: 0 <= k < |pool| && pool[k].parent == i && forall j :: 0 <= j < |pool| && pool[j].parent == i ==> j == k
  }

  /** A record that is neither mapped to its parent nor below a directory, fifo or event queue. */
  predicate Misplaced(src: Info, parentType: TopicType) {
    !src.mapped && parentType != Dir && parentType != FifoType && parentType != EventQueueType
  }

  /** What is said of a record: is its name taken, is there room, and is it a topic that can be there. */
  function Verdict(src: Info, taken: bool, room: bool, parentType: TopicType, oneChild: bool): RegRv {
    if taken then TopicExist
    else if !room then TopicMax
    else if src.name == "" then InvArgs
    else if |src.name| > 30 then NameTooLong
    else if Misplaced(src, parentType) then NotDir
    else if src.typ == FifoType && !src.mapped && !oneChild then InvArgs
    else RegOk
  }

  /** The verdict on a record below another, as topic number `n`. */
  ghost function RecordVerdict(pool: seq<Node>, i: nat, n: nat, max: nat): RegRv
    requires Linked(pool) && i < |pool|
  {
    assert NodeLinked(pool, i);
    if pool[i].parent == -1 then InvArgs
    else Verdict(pool[i].info, EarlierSibling(pool, i), n < max, pool[pool[i].parent].info.typ, HasOneChild(pool, i))
  }

  /** The first refusal among these records, the first of them being topic number `n`. */
  ghost function FirstRefusal(pool: seq<Node>, nodes: seq<nat>, n: nat, max: nat): RegRv
    requires Linked(pool) && forall k :: 0 <= k < |nodes| ==> nodes[k] < |pool|
  {
    if nodes == [] then RegOk
    else
      var rv := RecordVerdict(pool, nodes[0], n, max);
      if rv != RegOk then rv else FirstRefusal(pool, nodes[1..], n + 1, max)
  }

  predicate AllBelow(nodes: seq<nat>, n: nat) {
    forall k :: 0 <= k < |nodes| ==> nodes[k] < n
  }

  lemma {:induction false} FirstRefusalConcat(pool: seq<Node>, a: seq<nat>, b: seq<nat>, n: nat, max: nat)
    requires Linked(pool) && AllBelow(a, |pool|) && AllBelow(b, |pool|)
    ensures AllBelow(a + b, |pool|)
    ensures FirstRefusal(pool, a + b, n, max) ==
              if FirstRefusal(pool, a, n, max) != RegOk then FirstRefusal(pool, a, n, max)
              else FirstRefusal(pool, b, n + |a|, max)
    decreases |a|
  {
    hide RecordVerdict, Linked;
    if a == [] {
      assert a + b == b;
    } else {
      assert (a + b)[1..] == a[1..] + b;
      FirstRefusalConcat(pool, a[1..], b, n + 1, max);
    }
  }

  lemma {:induction false} PreorderInPool(pool: seq<Node>, c: int)
    requires Linked(pool) && -1 <= c < |pool|
    ensures AllBelow(Preorder(pool, c), |pool|)
    decreases if c == -1 then 0 else 1 + |pool| - c
  {
    if c != -1 {
      assert NodeLinked(pool, c);
      PreorderInPool(pool, pool[c].firstChild);
      PreorderInPool(pool, pool[c].nextSibling);
    }
  }

  // ------------------------------------------------------------------ one record

  lemma {:induction false} FoundIsChild(ts: seq<Node>, c: int, name: string)
    requires Linked(ts) && -1 <= c < |ts| && FindAmong(ts, c, name) != -1
    ensures c != -1 && ChildNamed(ts, ts[c].parent, name)
  {
    var j := FindAmong(ts, c, name);
    assert ts[j].parent == ts[c].parent && SameName(ts[j].info.name, name);
  }

  /** The scan of the children finds a name exactly if a child has it. */
  lemma FoundExactly(ts: seq<Node>, p: nat, name: string)
    requires Linked(ts) && p < |ts|
    ensures -1 <= ts[p].firstChild < |ts|
    ensures FindAmong(ts, ts[p].firstChild, name) != -1 <==> ChildNamed(ts, p, name)
  {
    assert NodeLinked(ts, p);
    var c := ts[p].firstChild;
    if FindAmong(ts, c, name) != -1 {
      FoundIsChild(ts, c, name);
    } else if ChildNamed(ts, p, name) {
      var k :| 0 <= k < |ts| && ts[k].parent == p && SameName(ts[k].info.name, name);
      assert NodeLinked(ts, k);
      NotFoundMeansNew(ts, c, name, k);
      assert false;
    }
  }

  lemma OneChildExactly(pool: seq<Node>, i: nat)
    requires Linked(pool) && i < |pool|
    ensures OneChild(pool, i) <==> HasOneChild(pool, i)
  {
    assert NodeLinked(pool, i);
    var c := pool[i].firstChild;
    if c != -1 {
      assert NodeLinked(pool, c);
      var d := pool[c].nextSibling;
      forall j | 0 <= j < |pool| && pool[j].parent == i
        ensures c <= j && (j == c || (d != -1 && d <= j))
      {
        assert NodeLinked(pool, j);
      }
      if d == -1 {
        assert pool[c].parent == i && forall j :: 0 <= j < |pool| && pool[j].parent == i ==> j == c;
      } else {
        assert pool[d].parent == i && pool[c].parent == i && c != d;
      }
    } else {
      forall j | 0 <= j < |pool|
        ensures pool[j].parent != i
      {
        assert NodeLinked(pool, j);
      }
    }
  }

  lemma AddChildVerdict(ts: seq<Node>, max: nat, p: nat, pool: seq<Node>, i: nat)
    requires Linked(ts) && p < |ts| && Linked(pool) && i < |pool|
    ensures var src := pool[i].info;
            AddChild(ts, max, p, pool, i).0
            == Verdict(src, ChildNamed(ts, p, src.name), |ts| < max, ts[p].info.typ, HasOneChild(pool, i))
  {
    FoundExactly(ts, p, pool[i].info.name);
    OneChildExactly(pool, i);
    hide FindAmong, ChildNamed, HasOneChild, OneChild, Attach, Abandon, Settle;
  }

  // ------------------------------------------------------------------ whole trees

  /** The children of `p` are the siblings in front of record `c`. */
  ghost predicate InStep(ts: seq<Node>, p: nat, pool: seq<Node>, c: nat)
    requires p < |ts| && c < |pool|
  {
    && 0 <= pool[c].parent < |pool| && ts[p].info.typ == pool[pool[c].parent].info.typ
    && forall name :: ChildNamed(ts, p, name) <==> ChildNamed(pool[..c], pool[c].parent, name)
  }

  /** The code a whole tree is registered with, and the number of topics afterwards. */
  ghost predicate Judged(rv: RegRv, us: seq<Node>, first: RegRv, pool: seq<Node>, nodes: seq<nat>, n: nat, max: nat)
    requires Linked(pool) && AllBelow(nodes, |pool|)
  {
    && rv == (if first != RegOk then first else FirstRefusal(pool, nodes, n + 1, max))
    && (rv == RegOk ==> |us| == n + 1 + |nodes|)
  }

  /** A topic just added has no children, and the first record below it no sibling in front. */
  lemma FirstKidInStep(ts: seq<Node>, us: seq<Node>, p: nat, pool: seq<Node>, i: nat)
    requires Linked(ts) && p < |ts| && Linked(us) && Prefix(ts, us) && |us| == |ts| + 1 && us[|ts|].parent == p
    requires Linked(pool) && i < |pool| && pool[i].firstChild != -1 && us[|ts|].info.typ == pool[i].info.typ
    ensures 0 <= pool[i].firstChild < |pool| && InStep(us, |ts|, pool, pool[i].firstChild)
  {
    assert NodeLinked(pool, i);
    var c := pool[i].firstChild;
    forall k | 0 <= k < c
      ensures pool[k].parent != i
    {
      assert NodeLinked(pool, k);
    }
    forall k | 0 <= k < |us|
      ensures us[k].parent != |ts|
    {
      assert NodeLinked(us, k);
    }
  }

  lemma NextInPool(pool: seq<Node>, c: nat)
    requires Linked(pool) && c < |pool| && pool[c].parent >= 0 && pool[c].nextSibling != -1
    ensures c < pool[c].nextSibling < |pool| && pool[pool[c].nextSibling].parent == pool[c].parent
    ensures forall k :: c < k < pool[c].nextSibling ==> pool[k].parent != pool[c].parent
  {
    assert NodeLinked(pool, c);
  }

  /** When the tree of record `c` has been added, its next sibling is in step. */
  lemma NextKidInStep(ts: seq<Node>, us: seq<Node>, p: nat, pool: seq<Node>, c: nat)
    requires OneMore(ts, us, p) && Linked(pool) && c < |pool| && InStep(ts, p, pool, c)
    requires us[|ts|].info.name == pool[c].info.name && pool[c].nextSibling != -1
    ensures 0 <= pool[c].nextSibling < |pool| && InStep(us, p, pool, pool[c].nextSibling)
  {
    NextInPool(pool, c);
    var d, q := pool[c].nextSibling, pool[c].parent;
    hide SameName;
    forall name
      ensures ChildNamed(us, p, name) <==> ChildNamed(pool[..d], q, name)
    {
      NamesAfterTree(ts, us, p, name);
      NamesUpTo(pool, c, d, q, name);
    }
  }

  lemma NamesAfterTree(ts: seq<Node>, us: seq<Node>, p: nat, name: string)
    requires OneMore(ts, us, p)
    ensures ChildNamed(us, p, name) <==> ChildNamed(ts, p, name) || SameName(us[|ts|].info.name, name)
  {
    hide SameName, Linked;
    if ChildNamed(ts, p, name) {
      var k :| 0 <= k < |ts| && ts[k].parent == p && SameName(ts[k].info.name, name);
      assert us[k].parent == p && SameName(us[k].info.name, name);
    }
    if ChildNamed(us, p, name) {
      var k :| 0 <= k < |us| && us[k].parent == p && SameName(us[k].info.name, name);
      assert k < |ts| ==> ts[k].parent == p && SameName(ts[k].info.name, name);
    }
  }

  lemma NamesUpTo(pool: seq<Node>, c: nat, d: nat, q: int, name: string)
    requires c < d <= |pool| && pool[c].parent == q && forall k :: c < k < d ==> pool[k].parent != q
    ensures ChildNamed(pool[..d], q, name) <==> ChildNamed(pool[..c], q, name) || SameName(pool[c].info.name, name)
  {
    hide SameName;
    if ChildNamed(pool[..c], q, name) {
      var k :| 0 <= k < c && pool[..c][k].parent == q && SameName(pool[..c][k].info.name, name);
      assert pool[..d][k].parent == q && SameName(pool[..d][k].info.name, name);
    }
    if SameName(pool[c].info.name, name) {
      assert pool[..d][c].parent == q && SameName(pool[..d][c].info.name, name);
    }
    if ChildNamed(pool[..d], q, name) {
      var k :| 0 <= k < d && pool[..d][k].parent == q && SameName(pool[..d][k].info.name, name);
      assert k < c ==> pool[..c][k].parent == q && SameName(pool[..c][k].info.name, name);
    }
  }

  lemma {:induction false} TreeJudged(ts: seq<Node>, max: nat, p: nat, pool: seq<Node>, i: nat)
    requires Linked(ts) && p < |ts| && Linked(pool) && i < |pool|
    ensures AllBelow(Below(pool, i), |pool|)
    ensures var (rv, us) := RegisterTree(ts, max, p, pool, i);
            var src := pool[i].info;
            var first := Verdict(src, ChildNamed(ts, p, src.name), |ts| < max, ts[p].info.typ, HasOneChild(pool, i));
            Judged(rv, us, first, pool, Below(pool, i), |ts|, max)
    decreases |pool| - i, 0
  {
    hide AddChild, Verdict, ChildNamed, HasOneChild, FirstRefusal, InStep;
    AddChildVerdict(ts, max, p, pool, i);
    AddChildGrows(ts, max, p, pool, i);
    var (rv, us) := AddChild(ts, max, p, pool, i);
    assert NodeLinked(pool, i);
    var c := pool[i].firstChild;
    PreorderInPool(pool, c);
    if rv == RegOk {
      if c != -1 {
        FirstKidInStep(ts, us, p, pool, i);
      }
      KidsJudged(us, max, |ts|, pool, c);
    }
  }

  /** The same for a chain. */
  ghost predicate JudgedChain(r: (RegRv, seq<Node>), pool: seq<Node>, nodes: seq<nat>, n: nat, max: nat)
    requires Linked(pool) && AllBelow(nodes, |pool|)
  {
    r.0 == FirstRefusal(pool, nodes, n, max) && (r.0 == RegOk ==> |r.1| == n + |nodes|)
  }

  lemma {:induction false} KidsJudged(ts: seq<Node>, max: nat, p: nat, pool: seq<Node>, c: int)
    requires Linked(ts) && p < |ts| && Linked(pool) && -1 <= c < |pool| && (c != -1 ==> InStep(ts, p, pool, c))
    ensures AllBelow(Preorder(pool, c), |pool|)
    ensures JudgedChain(RegisterKids(ts, max, p, pool, c), pool, Preorder(pool, c), |ts|, max)
    decreases if c == -1 then 0 else |pool| - c, 1
  {
    PreorderInPool(pool, c);
    if c == -1 {
      assert Preorder(pool, c) == [];
    } else {
      var (rv, us) := RegisterTree(ts, max, p, pool, c);
      var next := pool[c].nextSibling;
      KidsUnfold(ts, max, p, pool, c);
      PreorderUnfold(pool, c);
      PreorderInPool(pool, next);
      PreorderInPool(pool, pool[c].firstChild);
      hide Verdict, ChildNamed, HasOneChild, FirstRefusal, InStep, RecordVerdict, OneMore, Preorder, RegisterTree,
        RegisterKids, Linked, Judged, JudgedChain, Prefix, AllBelow;
      var src := pool[c].info;
      var first := Verdict(src, ChildNamed(ts, p, src.name), |ts| < max, ts[p].info.typ, HasOneChild(pool, c));
      ChainVerdict(ts, max, p, pool, c);
      TreeJudged(ts, max, p, pool, c);
      if rv == RegOk {
        TreeAdded(ts, max, p, pool, c);
        if next != -1 {
          NextKidInStep(ts, us, p, pool, c);
        }
        KidsJudged(us, max, p, pool, next);
        Combined(us, first, pool, c, Below(pool, c), Preorder(pool, next), |ts|, max,
                 RegisterKids(us, max, p, pool, next));
      } else {
        Stopped(rv, us, first, pool, c, Below(pool, c), Preorder(pool, next), |ts|, max);
      }
    }
  }

  lemma KidsUnfold(ts: seq<Node>, max: nat, p: nat, pool: seq<Node>, c: nat)
    requires Linked(ts) && p < |ts| && Linked(pool) && c < |pool|
    ensures -1 <= pool[c].firstChild < |pool| && (pool[c].nextSibling == -1 || c < pool[c].nextSibling < |pool|)
    ensures Below(pool, c) == Preorder(pool, pool[c].firstChild)
    ensures var (rv, us) := RegisterTree(ts, max, p, pool, c);
            RegisterKids(ts, max, p, pool, c)
            == if rv != RegOk then (rv, us) else RegisterKids(us, max, p, pool, pool[c].nextSibling)
  {
    assert NodeLinked(pool, c);
    hide RegisterTree, Preorder;
  }

  lemma Combined(us: seq<Node>, first: RegRv, pool: seq<Node>, c: nat, below: seq<nat>, after: seq<nat>, n: nat,
                 max: nat, r: (RegRv, seq<Node>))
    requires Linked(pool) && c < |pool| && AllBelow(below, |pool|) && AllBelow(after, |pool|)
    requires first == RecordVerdict(pool, c, n, max) && Judged(RegOk, us, first, pool, below, n, max)
    requires JudgedChain(r, pool, after, |us|, max)
    ensures AllBelow([c] + below + after, |pool|) && JudgedChain(r, pool, [c] + below + after, n, max)
  {
    hide RecordVerdict, Linked, FirstRefusal;
    Parts(pool, c, below, after, n, max);
  }

  lemma Stopped(rv: RegRv, us: seq<Node>, first: RegRv, pool: seq<Node>, c: nat, below: seq<nat>, after: seq<nat>,
                n: nat, max: nat)
    requires Linked(pool) && c < |pool| && AllBelow(below, |pool|) && AllBelow(after, |pool|) && rv != RegOk
    requires first == RecordVerdict(pool, c, n, max) && Judged(rv, us, first, pool, below, n, max)
    ensures AllBelow([c] + below + after, |pool|) && JudgedChain((rv, us), pool, [c] + below + after, n, max)
  {
    hide RecordVerdict, Linked, FirstRefusal;
    Parts(pool, c, below, after, n, max);
  }

  lemma TreeAdded(ts: seq<Node>, max: nat, p: nat, pool: seq<Node>, c: nat)
    requires Linked(ts) && p < |ts| && Linked(pool) && c < |pool| && RegisterTree(ts, max, p, pool, c).0 == RegOk
    ensures var us := RegisterTree(ts, max, p, pool, c).1;
            OneMore(ts, us, p) && us[|ts|].info.name == pool[c].info.name
  {
    RegisterCopies(ts, max, p, pool, c);
    hide RegisterTree, Forest, Preorder, SettleForest, OneMore;
    assert TreeOf(RegisterTree(ts, max, p, pool, c).1, |ts|).info.name == TreeOf(pool, c).info.name;
  }

  /** The record of a chain is judged by the registry as by the pool. */
  lemma ChainVerdict(ts: seq<Node>, max: nat, p: nat, pool: seq<Node>, c: nat)
    requires Linked(ts) && p < |ts| && Linked(pool) && c < |pool| && InStep(ts, p, pool, c)
    ensures var src := pool[c].info;
            RecordVerdict(pool, c, |ts|, max)
            == Verdict(src, ChildNamed(ts, p, src.name), |ts| < max, ts[p].info.typ, HasOneChild(pool, c))
  {
    hide ChildNamed, HasOneChild, Verdict;
  }

  lemma Parts(pool: seq<Node>, c: nat, below: seq<nat>, after: seq<nat>, n: nat, max: nat)
    requires Linked(pool) && c < |pool| && AllBelow(below, |pool|) && AllBelow(after, |pool|)
    ensures AllBelow([c] + below + after, |pool|)
    ensures FirstRefusal(pool, [c] + below + after, n, max) ==
              if RecordVerdict(pool, c, n, max) != RegOk then RecordVerdict(pool, c, n, max)
              else if FirstRefusal(pool, below, n + 1, max) != RegOk then FirstRefusal(pool, below, n + 1, max)
              else FirstRefusal(pool, after, n + 1 + |below|, max)
  {
    hide RecordVerdict, Linked;
    FirstRefusalConcat(pool, below, after, n + 1, max);
    Assoc([c], below, after);
    assert ([c] + (below + after))[1..] == below + after;
  }

  // ------------------------------------------------------------------ success

  /** Everything that can be wrong with a record apart from the room for it. */
  ghost predicate Usable(pool: seq<Node>, i: nat, taken: bool, parentType: TopicType) {
    && i < |pool| && !taken && 0 < |pool[i].info.name| <= 30 && !Misplaced(pool[i].info, parentType)
    && (pool[i].info.typ == FifoType && !pool[i].info.mapped ==> HasOneChild(pool, i))
  }

  ghost predicate UsableBelow(pool: seq<Node>, i: nat) {
    && i < |pool| && 0 <= pool[i].parent < |pool|
    && Usable(pool, i, EarlierSibling(pool, i), pool[pool[i].parent].info.typ)
  }

  lemma {:induction false} NoRefusalExactly(pool: seq<Node>, nodes: seq<nat>, n: nat, max: nat)
    requires Linked(pool) && AllBelow(nodes, |pool|) && n <= max
    ensures FirstRefusal(pool, nodes, n, max) == RegOk <==>
              n + |nodes| <= max && forall k :: 0 <= k < |nodes| ==> UsableBelow(pool, nodes[k])
    decreases |nodes|
  {
    if nodes != [] {
      assert NodeLinked(pool, nodes[0]);
      hide EarlierSibling, HasOneChild, Misplaced;
      if n < max {
        NoRefusalExactly(pool, nodes[1..], n + 1, max);
        hide FirstRefusal, UsableBelow;
        assert nodes == [nodes[0]] + nodes[1..];
      }
    }
  }

  /** A registration below `p` succeeds if and only if there is room for the record and all below it, the name
      is new among the children of `p`, names of siblings in the pool are distinct, all names have 1 to 30
      characters, what is not mapped to its parent lies below a directory or queue, and fifos have one child. */
  lemma RegistersExactly(ts: seq<Node>, max: nat, p: nat, pool: seq<Node>, i: nat)
    requires Linked(ts) && p < |ts| <= max && Linked(pool) && i < |pool|
    ensures RegisterTree(ts, max, p, pool, i).0 == RegOk <==>
              && |ts| + 1 + |Below(pool, i)| <= max
              && Usable(pool, i, ChildNamed(ts, p, pool[i].info.name), ts[p].info.typ)
              && forall k :: 0 <= k < |Below(pool, i)| ==> UsableBelow(pool, Below(pool, i)[k])
  {
    TreeJudged(ts, max, p, pool, i);
    if |ts| < max {
      NoRefusalExactly(pool, Below(pool, i), |ts| + 1, max);
    }
    hide RegisterTree, Below, FirstRefusal, UsableBelow, ChildNamed, HasOneChild, Misplaced;
  }

  /** The code of a registration is that of the first record, in preorder, that is refused. */
  lemma RefusedExactly(ts: seq<Node>, max: nat, p: nat, pool: seq<Node>, i: nat)
    requires Linked(ts) && p < |ts| && Linked(pool) && i < |pool|
    ensures AllBelow(Below(pool, i), |pool|)
    ensures var src := pool[i].info;
            var first := Verdict(src, ChildNamed(ts, p, src.name), |ts| < max, ts[p].info.typ, HasOneChild(pool, i));
            RegisterTree(ts, max, p, pool, i).0
            == if first != RegOk then first else FirstRefusal(pool, Below(pool, i), |ts| + 1, max)
  {
    TreeJudged(ts, max, p, pool, i);
  }
}
