/** A successful registration copies the proclaimed tree: same names, types and sizes, same child
    order, and consecutive ids in preorder, while every other subtree of the registry stays as it was. */
module TopicCopy {

  import opened Sequences
  import opened TopicTree
  import opened TopicGrowth

  // ------------------------------------------------------------------ subtrees that do not change

  /** `us` extends `ts`, and no new node is attached below `lo` .. |ts|. */
  ghost predicate Outside(ts: seq<Node>, us: seq<Node>, lo: nat) {
    && Linked(ts) && Linked(us) && Prefix(ts, us)
    && forall j :: |ts| <= j < |us| ==> us[j].parent < lo || us[j].parent >= |ts|
  }

  lemma {:induction false} NoneFound(us: seq<Node>, q: int, from: nat)
    requires from <= |us| && forall j :: from <= j < |us| ==> us[j].parent != q
    ensures NextWithParent(us, q, from) == -1
    decreases |us| - from
  {
    if from < |us| {
      NoneFound(us, q, from + 1);
    }
  }

  /** Links below nodes that get no new children stay as they are. */
  lemma LinksKept(ts: seq<Node>, us: seq<Node>, lo: nat, i: nat)
    requires Outside(ts, us, lo) && lo <= i < |ts|
    ensures us[i].firstChild == ts[i].firstChild
    ensures ts[i].parent >= lo ==> us[i].nextSibling == ts[i].nextSibling
  {
    assert NodeLinked(ts, i) && NodeLinked(us, i);
    NextInPrefix(ts, us, i, i + 1);
    NoneFound(us, i, |ts|);
    if ts[i].parent >= lo {
      NextInPrefix(ts, us, ts[i].parent, i + 1);
      NoneFound(us, ts[i].parent, |ts|);
    }
  }

  lemma {:induction false} TreeKept(ts: seq<Node>, us: seq<Node>, lo: nat, i: nat)
    requires Outside(ts, us, lo) && lo <= i < |ts|
    ensures TreeOf(us, i) == TreeOf(ts, i) && Below(us, i) == Below(ts, i)
    decreases |ts| - i, 0
  {
    LinksKept(ts, us, lo, i);
    assert NodeLinked(ts, i) && NodeLinked(us, i);
    ForestKept(ts, us, lo, ts[i].firstChild);
  }

  lemma {:induction false} ForestKept(ts: seq<Node>, us: seq<Node>, lo: nat, c: int)
    requires Outside(ts, us, lo) && -1 <= c < |ts| && (c != -1 ==> lo <= c && ts[c].parent >= lo)
    ensures Forest(us, c) == Forest(ts, c) && Preorder(us, c) == Preorder(ts, c)
    decreases if c == -1 then 0 else |ts| - c, 1
  {
    if c != -1 {
      LinksKept(ts, us, lo, c);
      assert NodeLinked(ts, c) && NodeLinked(us, c);
      TreeKept(ts, us, lo, c);
      ForestKept(ts, us, lo, ts[c].nextSibling);
    }
  }

  // ------------------------------------------------------------------ one more tree in a chain

  /** `us` extends `ts` by one subtree below `p`, whose root is the first new node. */
  ghost predicate OneMore(ts: seq<Node>, us: seq<Node>, p: nat) {
    && Linked(ts) && Linked(us) && Prefix(ts, us) && p < |ts| < |us|
    && us[|ts|].parent == p
    && forall j :: |ts| < j < |us| ==> us[j].parent >= |ts|
  }

  /** The new root is the only new child of an old node. */
  lemma NewKid(ts: seq<Node>, us: seq<Node>, p: nat, q: nat)
    requires OneMore(ts, us, p) && q < |ts|
    ensures NextWithParent(us, q, |ts|) == if q == p then |ts| else -1
  {
    if q != p {
      NoneFound(us, q, |ts|);
    }
  }

  lemma OneMoreFirstChild(ts: seq<Node>, us: seq<Node>, p: nat, i: nat)
    requires OneMore(ts, us, p) && i < |ts|
    ensures us[i].firstChild == if i == p && ts[i].firstChild == -1 then |ts| else ts[i].firstChild
  {
    NewKid(ts, us, p, i);
    NextInPrefix(ts, us, i, i + 1);
    hide NextWithParent;
    assert NodeLinked(ts, i) && NodeLinked(us, i);
  }

  lemma OneMoreSibling(ts: seq<Node>, us: seq<Node>, p: nat, i: nat)
    requires OneMore(ts, us, p) && i < |ts|
    ensures us[i].nextSibling == if ts[i].parent == p && ts[i].nextSibling == -1 then |ts| else ts[i].nextSibling
  {
    hide NextWithParent;
    assert NodeLinked(ts, i) && NodeLinked(us, i);
    if ts[i].parent != -1 {
      NewKid(ts, us, p, ts[i].parent);
      NextInPrefix(ts, us, ts[i].parent, i + 1);
    }
  }

  lemma NewRootLast(ts: seq<Node>, us: seq<Node>, p: nat)
    requires OneMore(ts, us, p)
    ensures us[|ts|].nextSibling == -1
  {
    assert NodeLinked(us, |ts|);
    NoneFound(us, p, |ts| + 1);
  }

  /** The chain of `p` gets the new tree at its end; its other trees stay. */
  lemma {:induction false} ChainGrows(ts: seq<Node>, us: seq<Node>, p: nat, c: nat)
    requires OneMore(ts, us, p) && p < c < |ts| && ts[c].parent == p
    ensures Forest(us, c) == Forest(ts, c) + [TreeOf(us, |ts|)]
    ensures Preorder(us, c) == Preorder(ts, c) + Preorder(us, |ts|)
    decreases |ts| - c
  {
    hide Forest, Preorder, TreeOf, Below;
    assert NodeLinked(ts, c);
    OneMoreSibling(ts, us, p, c);
    NewRootLast(ts, us, p);
    TreeKept(ts, us, p + 1, c);
    ForestUnfold(ts, c);
    ForestUnfold(us, c);
    PreorderUnfold(ts, c);
    PreorderUnfold(us, c);
    if ts[c].nextSibling == -1 {
      NoChain(ts);
      NoChain(us);
      ForestUnfold(us, |ts|);
    } else {
      ChainGrows(ts, us, p, ts[c].nextSibling);
    }
  }

  /** The same seen from the parent. */
  lemma KidsGrow(ts: seq<Node>, us: seq<Node>, p: nat)
    requires OneMore(ts, us, p)
    ensures -1 <= ts[p].firstChild < |ts| && -1 <= us[p].firstChild < |us|
    ensures Forest(us, us[p].firstChild) == Forest(ts, ts[p].firstChild) + [TreeOf(us, |ts|)]
    ensures Below(us, p) == Below(ts, p) + [|ts|] + Below(us, |ts|)
  {
    var n := |ts|;
    assert NodeLinked(ts, p) && NodeLinked(us, p);
    OneMoreFirstChild(ts, us, p, p);
    NewRootLast(ts, us, p);
    PreorderUnfold(us, n);
    ForestUnfold(us, n);
    NoChain(ts);
    NoChain(us);
    hide Forest, Preorder, TreeOf, OneMore, NodeLinked, Linked;
    NoTail(n, Below(us, n));
    if ts[p].firstChild == -1 {
      assert [TreeOf(us, n)] + [] == [TreeOf(us, n)] && [] + [TreeOf(us, n)] == [TreeOf(us, n)];
      assert Below(ts, p) == [];
    } else {
      ChainGrows(ts, us, p, ts[p].firstChild);
      Assoc(Below(ts, p), [n], Below(us, n));
    }
  }

  lemma NoTail(n: nat, s: seq<nat>)
    ensures [n] + s + [] == [n] + s && [] + [n] + s == [n] + s
  {
  }

  // ------------------------------------------------------------------ registration

  /** A proclaimed tree as the registry keeps it. */
  function SettleTree(t: Tree, parentType: TopicType): Tree {
    Tree(Settle(t.info, parentType), SettleForest(t.kids, t.info.typ))
  }

  function SettleForest(kids: seq<Tree>, parentType: TopicType): seq<Tree> {
    if kids == [] then [] else [SettleTree(kids[0], parentType)] + SettleForest(kids[1..], parentType)
  }

  function Range(lo: nat, hi: nat): seq<nat>
    requires lo <= hi
    decreases hi - lo
  {
    if lo == hi then [] else [lo] + Range(lo + 1, hi)
  }

  lemma {:induction false} RangeConcat(lo: nat, mid: nat, hi: nat)
    requires lo <= mid <= hi
    ensures Range(lo, mid) + Range(mid, hi) == Range(lo, hi)
    decreases mid - lo
  {
    if lo < mid {
      RangeConcat(lo + 1, mid, hi);
      assert [lo] + Range(lo + 1, mid) + Range(mid, hi) == [lo] + (Range(lo + 1, mid) + Range(mid, hi));
    }
  }

  /** Trees `kids` have been added behind the children of `p`, with ids consecutive in preorder, and
      nothing has been added anywhere else. */
  ghost predicate KidsCopied(ts: seq<Node>, us: seq<Node>, p: nat, kids: seq<Tree>) {
    && Linked(ts) && Linked(us) && Prefix(ts, us) && p < |ts|
    && (forall j :: |ts| <= j < |us| ==> us[j].parent == p || us[j].parent >= |ts|)
    && -1 <= ts[p].firstChild < |ts| && -1 <= us[p].firstChild < |us|
    && Forest(us, us[p].firstChild) == Forest(ts, ts[p].firstChild) + kids
    && Below(us, p) == Below(ts, p) + Range(|ts|, |us|)
  }

  lemma NoneCopied(ts: seq<Node>, p: nat)
    requires Linked(ts) && p < |ts|
    ensures KidsCopied(ts, ts, p, [])
  {
    hide Forest, Below;
    assert NodeLinked(ts, p);
    assert Forest(ts, ts[p].firstChild) + [] == Forest(ts, ts[p].firstChild);
    assert Below(ts, p) + [] == Below(ts, p);
  }

  lemma OneCopied(ts: seq<Node>, us: seq<Node>, p: nat, t: Tree)
    requires OneMore(ts, us, p) && TreeOf(us, |ts|) == t && Below(us, |ts|) == Range(|ts| + 1, |us|)
    ensures KidsCopied(ts, us, p, [t])
  {
    hide Forest, Below, Preorder, TreeOf, Range, NodeLinked, Linked, Prefix;
    KidsGrow(ts, us, p);
    RangeStep(|ts|, |us|);
    Assoc(Below(ts, p), [|ts|], Range(|ts| + 1, |us|));
  }

  lemma MoreCopied(ts: seq<Node>, us: seq<Node>, vs: seq<Node>, p: nat, kids: seq<Tree>, more: seq<Tree>)
    requires KidsCopied(ts, us, p, kids) && KidsCopied(us, vs, p, more)
    ensures KidsCopied(ts, vs, p, kids + more)
  {
    hide Forest, Below, Preorder, TreeOf, Range;
    RangeConcat(|ts|, |us|, |vs|);
    Assoc(Below(ts, p), Range(|ts|, |us|), Range(|us|, |vs|));
    assert Forest(ts, ts[p].firstChild) + kids + more == Forest(ts, ts[p].firstChild) + (kids + more);
  }

  /** The new topic has no children yet, and is the last one. */
  lemma NewLeaf(ts: seq<Node>, d: nat, info: Info)
    requires Linked(ts) && d < |ts|
    ensures var us := Attach(ts, d, info);
            && Linked(us) && us[|ts|] == Node(info, d, -1, -1) && Forest(us, -1) == [] && Below(us, |ts|) == []
  {
    AttachLinks(ts, d, info);
    NoChain(Attach(ts, d, info));
    hide Attach;
  }

  /** A new topic with all that has been copied below it is one more tree below `d`. */
  lemma TreeCopied(ts: seq<Node>, us: seq<Node>, vs: seq<Node>, d: nat, info: Info, kids: seq<Tree>)
    requires Linked(ts) && d < |ts| && us == Attach(ts, d, info) && KidsCopied(us, vs, |ts|, kids)
    ensures KidsCopied(ts, vs, d, [Tree(info, kids)])
  {
    var n := |ts|;
    NewLeaf(ts, d, info);
    AttachLinks(ts, d, info);
    assert OneMore(ts, vs, d);
    assert NodeLinked(vs, n);
    hide Attach, Range, Preorder;
    assert TreeOf(vs, n).kids == [] + kids;
    assert Below(vs, n) == [] + Range(n + 1, |vs|);
    OneCopied(ts, vs, d, Tree(info, kids));
  }

  /** What one topic_add_child in the registry and one usr_topic_add_child in the pool do to the tree: a
      leaf behind the children of `p`, and nothing else. */
  lemma AttachAddsLeaf(ts: seq<Node>, p: nat, info: Info)
    requires Linked(ts) && p < |ts|
    ensures KidsCopied(ts, Attach(ts, p, info), p, [Tree(info, [])])
  {
    AttachLinks(ts, p, info);
    hide KidsCopied, Attach;
    NoneCopied(Attach(ts, p, info), |ts|);
    TreeCopied(ts, Attach(ts, p, info), Attach(ts, p, info), p, info, []);
  }

  /** A successful registration under `p` copies the proclaimed tree, with ids consecutive in preorder
      from the old number of topics on, and adds nothing anywhere else. */
  lemma {:induction false} RegisterCopies(ts: seq<Node>, max: nat, p: nat, pool: seq<Node>, i: nat)
    requires Linked(ts) && p < |ts| && Linked(pool) && i < |pool|
    requires RegisterTree(ts, max, p, pool, i).0 == RegOk
    ensures var us := RegisterTree(ts, max, p, pool, i).1;
            && OneMore(ts, us, p)
            && TreeOf(us, |ts|) == SettleTree(TreeOf(pool, i), ts[p].info.typ)
            && Below(us, |ts|) == Range(|ts| + 1, |us|)
    decreases |pool| - i, 0
  {
    hide AddChild, Preorder, SettleForest, Range;
    var b := |ts|;
    AddChildGrows(ts, max, p, pool, i);
    var (rv, us) := AddChild(ts, max, p, pool, i);
    assert NodeLinked(pool, i);
    RegisterKidsCopies(us, max, b, pool, pool[i].firstChild);
    var vs := RegisterKids(us, max, b, pool, pool[i].firstChild).1;
    NoChain(us);
    assert Forest(us, us[b].firstChild) == [] && Below(us, b) == [];
    assert NodeLinked(vs, b);
    assert TreeOf(vs, b).kids == [] + SettleForest(TreeOf(pool, i).kids, pool[i].info.typ);
    assert Below(vs, b) == [] + Range(b + 1, |vs|);
  }

  lemma {:induction false} RegisterKidsCopies(ts: seq<Node>, max: nat, p: nat, pool: seq<Node>, c: int)
    requires Linked(ts) && p < |ts| && Linked(pool) && -1 <= c < |pool|
    requires RegisterKids(ts, max, p, pool, c).0 == RegOk
    ensures KidsCopied(ts, RegisterKids(ts, max, p, pool, c).1, p, SettleForest(Forest(pool, c), ts[p].info.typ))
    decreases if c == -1 then 0 else |pool| - c, 1
  {
    hide Preorder, TreeOf, Below, KidsCopied, Forest, SettleForest, SettleTree, RegisterTree, OneMore;
    if c == -1 {
      NoChain(pool);
      NoForest(ts[p].info.typ);
      NoneCopied(ts, p);
    } else {
      var typ := ts[p].info.typ;
      var us := RegisterTree(ts, max, p, pool, c).1;
      RegisterCopies(ts, max, p, pool, c);
      OneCopied(ts, us, p, SettleTree(TreeOf(pool, c), typ));
      assert NodeLinked(pool, c);
      var s := pool[c].nextSibling;
      RegisterKidsCopies(us, max, p, pool, s);
      var vs := RegisterKids(us, max, p, pool, s).1;
      MoreCopied(ts, us, vs, p, [SettleTree(TreeOf(pool, c), typ)], SettleForest(Forest(pool, s), typ));
      ForestStep(pool, c, typ);
    }
  }

  lemma NoForest(typ: TopicType)
    ensures SettleForest([], typ) == []
  {
  }

  lemma ForestStep(pool: seq<Node>, c: nat, typ: TopicType)
    requires Linked(pool) && c < |pool|
    ensures -1 <= pool[c].nextSibling < |pool|
    ensures [SettleTree(TreeOf(pool, c), typ)] + SettleForest(Forest(pool, pool[c].nextSibling), typ)
         == SettleForest(Forest(pool, c), typ)
  {
    ForestUnfold(pool, c);
    hide Forest, TreeOf, SettleTree;
    var kids := Forest(pool, c);
    assert kids[0] == TreeOf(pool, c) && kids[1..] == Forest(pool, pool[c].nextSibling);
  }

  lemma RangeStep(a: nat, b: nat)
    requires a < b
    ensures [a] + Range(a + 1, b) == Range(a, b)
  {
  }

  // ------------------------------------------------------------------ what is preserved

  /** A tree with only the names, types and sizes of its topics. */
  function Bare(t: Tree): Tree {
    Tree(Info(t.info.name, t.info.typ, t.info.size, 0, false, false), BareForest(t.kids))
  }

  function BareForest(kids: seq<Tree>): seq<Tree> {
    if kids == [] then [] else [Bare(kids[0])] + BareForest(kids[1..])
  }

  lemma {:induction false} SettleKeepsBare(t: Tree, parentType: TopicType)
    ensures Bare(SettleTree(t, parentType)) == Bare(t)
    decreases t
  {
    SettleKeepsBareForest(t.kids, t.info.typ);
  }

  lemma {:induction false} SettleKeepsBareForest(kids: seq<Tree>, parentType: TopicType)
    ensures BareForest(SettleForest(kids, parentType)) == BareForest(kids)
    decreases kids
  {
    if kids != [] {
      SettleKeepsBare(kids[0], parentType);
      SettleKeepsBareForest(kids[1..], parentType);
      var settled := SettleForest(kids, parentType);
      assert settled[0] == SettleTree(kids[0], parentType) && settled[1..] == SettleForest(kids[1..], parentType);
    }
  }

  /** When registration succeeds, the new subtree has the names, types and sizes, the parent links and the
      child order of the proclaimed tree; it is the last child of the mount point, and its ids are
      consecutive in preorder. */
  lemma RegistrationPreservesTree(ts: seq<Node>, max: nat, p: nat, pool: seq<Node>, i: nat)
    requires Linked(ts) && p < |ts| && Linked(pool) && i < |pool|
    requires RegisterTree(ts, max, p, pool, i).0 == RegOk
    ensures var us := RegisterTree(ts, max, p, pool, i).1;
            && |ts| < |us| && Bare(TreeOf(us, |ts|)) == Bare(TreeOf(pool, i))
            && KidsCopied(ts, us, p, [TreeOf(us, |ts|)])
            && Below(us, |ts|) == Range(|ts| + 1, |us|)
  {
    RegisterCopies(ts, max, p, pool, i);
    var us := RegisterTree(ts, max, p, pool, i).1;
    SettleKeepsBare(TreeOf(pool, i), ts[p].info.typ);
    hide RegisterTree, TreeOf, SettleTree, Below, Range, KidsCopied;
    OneCopied(ts, us, p, TreeOf(us, |ts|));
  }
}
