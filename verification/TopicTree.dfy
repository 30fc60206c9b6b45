/** A first-child / next-sibling tree held in a growing array: the shape shared by the topic registry
    and by the proclaiming tree. Indices stand for the pointers of the C code, -1 for NULL. */
module TopicTree {

  // New nodes are always appended to the array and to the end of their parent's chain, so a chain is
  // the list of the nodes with that parent, in order of their indices.

  datatype TopicType = Dir | Struct | FifoType | Vector | ByteBuffer | EventQueueType | Plain(code: nat)

  type u16 = x: int | 0 <= x < 0x1_0000

  /** What a topic is, apart from its place in the tree. */
  datatype Info = Info(name: string, typ: TopicType, size: u16, offset: u16, mapped: bool, parentSync: bool)

  datatype Node = Node(info: Info, parent: int, firstChild: int, nextSibling: int)

  /** The first index from `from` on whose parent is `p`, or -1. */
  function NextWithParent(ts: seq<Node>, p: int, from: nat): (j: int)
    ensures j == -1 || (from <= j < |ts| && ts[j].parent == p)
    ensures forall k :: from <= k < |ts| && (j == -1 || k < j) ==> ts[k].parent != p
    decreases |ts| - from
  {
    if from >= |ts| then -1
    else if ts[from].parent == p then from
    else NextWithParent(ts, p, from + 1)
  }

  /** Node `i` is linked as the construction links it; a node without parent is in no chain. */
  ghost predicate NodeLinked(ts: seq<Node>, i: nat)
    requires i < |ts|
  {
    && -1 <= ts[i].parent < i
    && ts[i].firstChild == NextWithParent(ts, i, i + 1)
    && ts[i].nextSibling == (if ts[i].parent == -1 then -1 else NextWithParent(ts, ts[i].parent, i + 1))
  }

  ghost predicate Linked(ts: seq<Node>) {
    forall i :: 0 <= i < |ts| ==> NodeLinked(ts, i)
  }

  // ------------------------------------------------------------------ the tree in the array

  datatype Tree = Tree(info: Info, kids: seq<Tree>)

  function TreeOf(ts: seq<Node>, i: nat): Tree
    requires Linked(ts) && i < |ts|
    decreases |ts| - i, 0
  {
    assert NodeLinked(ts, i);
    Tree(ts[i].info, Forest(ts, ts[i].firstChild))
  }

  /** The trees of the chain that starts at `c`. */
  function Forest(ts: seq<Node>, c: int): seq<Tree>
    requires Linked(ts) && -1 <= c < |ts|
    decreases if c == -1 then 0 else |ts| - c, 1
  {
    if c == -1 then [] else
    assert NodeLinked(ts, c);
    [TreeOf(ts, c)] + Forest(ts, ts[c].nextSibling)
  }

  /** The indices of the chain that starts at `c` and of everything below it, in preorder. */
  function Preorder(ts: seq<Node>, c: int): seq<nat>
    requires Linked(ts) && -1 <= c < |ts|
    decreases if c == -1 then 0 else 1 + |ts| - c
  {
    if c == -1 then [] else
    assert NodeLinked(ts, c);
    [c as nat] + Preorder(ts, ts[c].firstChild) + Preorder(ts, ts[c].nextSibling)
  }

  /** The nodes strictly below node `i`, in preorder. */
  function Below(ts: seq<Node>, i: nat): seq<nat>
    requires Linked(ts) && i < |ts|
  {
    assert NodeLinked(ts, i);
    Preorder(ts, ts[i].firstChild)
  }

  /** `x` lies strictly below `p`. */
  predicate IsBelow(ts: seq<Node>, p: nat, x: nat)
    requires Linked(ts) && x < |ts|
    decreases x
  {
    assert NodeLinked(ts, x);
    ts[x].parent != -1 && (ts[x].parent == p || IsBelow(ts, p, ts[x].parent))
  }

  /** The child of `p` that `x` is or lies below. */
  function Branch(ts: seq<Node>, p: nat, x: nat): (c: nat)
    requires Linked(ts) && x < |ts| && IsBelow(ts, p, x)
    ensures c < |ts| && ts[c].parent == p && p < c <= x
    decreases x
  {
    assert NodeLinked(ts, x);
    if ts[x].parent == p then x else Branch(ts, p, ts[x].parent)
  }

  // ------------------------------------------------------------------ the successor

  /** Where the climb of topic_tree_next from `i` ends: the next sibling of the nearest node at or
      above `i` that has one. */
  function After(ts: seq<Node>, i: nat): (j: int)
    requires Linked(ts) && i < |ts|
    ensures -1 <= j < |ts|
    decreases i
  {
    assert NodeLinked(ts, i);
    if ts[i].nextSibling != -1 then ts[i].nextSibling
    else if ts[i].parent == -1 then -1
    else After(ts, ts[i].parent)
  }

  /** topic_tree_next. */
  function TreeNext(ts: seq<Node>, i: nat): (j: int)
    requires Linked(ts) && i < |ts|
    ensures -1 <= j < |ts|
  {
    assert NodeLinked(ts, i);
    if ts[i].firstChild != -1 then ts[i].firstChild else After(ts, i)
  }

  /** Everything topic_tree_next will still visit after the subtree of `i`. */
  function RestAfter(ts: seq<Node>, i: nat): seq<nat>
    requires Linked(ts) && i < |ts|
    decreases i, 1
  {
    assert NodeLinked(ts, i);
    Preorder(ts, ts[i].nextSibling) + RestAbove(ts, i)
  }

  /** What of it lies outside the subtree of the parent of `i`. */
  function RestAbove(ts: seq<Node>, i: nat): seq<nat>
    requires Linked(ts) && i < |ts|
    decreases i, 0
  {
    assert NodeLinked(ts, i);
    if ts[i].parent == -1 then [] else RestAfter(ts, ts[i].parent)
  }

  /** Everything topic_tree_next will still visit after `i`. */
  function Rest(ts: seq<Node>, i: nat): seq<nat>
    requires Linked(ts) && i < |ts|
  {
    Below(ts, i) + RestAfter(ts, i)
  }

  lemma Regroup(c: nat, below: seq<nat>, siblings: seq<nat>, above: seq<nat>)
    ensures ([c] + below + siblings) + above == [c] + (below + (siblings + above))
  {
  }

  lemma PreorderUnfold(ts: seq<Node>, c: nat)
    requires Linked(ts) && c < |ts|
    ensures -1 <= ts[c].nextSibling < |ts|
    ensures Preorder(ts, c) == [c] + Below(ts, c) + Preorder(ts, ts[c].nextSibling)
  {
    assert NodeLinked(ts, c);
  }

  lemma ForestUnfold(ts: seq<Node>, c: nat)
    requires Linked(ts) && c < |ts|
    ensures -1 <= ts[c].nextSibling < |ts|
    ensures Forest(ts, c) == [TreeOf(ts, c)] + Forest(ts, ts[c].nextSibling)
  {
    assert NodeLinked(ts, c);
  }

  lemma NoChain(ts: seq<Node>)
    requires Linked(ts)
    ensures Forest(ts, -1) == [] && Preorder(ts, -1) == []
  {
  }

  lemma ChainUnfold(ts: seq<Node>, c: nat)
    requires Linked(ts) && c < |ts|
    ensures Preorder(ts, c) + RestAbove(ts, c) == [c] + Rest(ts, c)
  {
    hide RestAbove, Preorder, Below;
    PreorderUnfold(ts, c);
    Regroup(c, Below(ts, c), Preorder(ts, ts[c].nextSibling), RestAbove(ts, c));
  }

  lemma {:induction false} AfterIsNext(ts: seq<Node>, i: nat)
    requires Linked(ts) && i < |ts|
    ensures var j := After(ts, i);
            RestAfter(ts, i) == if j == -1 then [] else [j as nat] + Rest(ts, j)
    decreases i
  {
    assert NodeLinked(ts, i);
    var s := ts[i].nextSibling;
    if s != -1 {
      ChainUnfold(ts, s);
    } else if ts[i].parent != -1 {
      AfterIsNext(ts, ts[i].parent);
      assert RestAfter(ts, i) == [] + RestAfter(ts, ts[i].parent);
    }
  }

  /** The successor steps through what remains, one node at a time, and stops at its end. */
  lemma NextIsFirstOfRest(ts: seq<Node>, i: nat)
    requires Linked(ts) && i < |ts|
    ensures var j := TreeNext(ts, i);
            Rest(ts, i) == if j == -1 then [] else [j as nat] + Rest(ts, j)
  {
    assert NodeLinked(ts, i);
    var f := ts[i].firstChild;
    if f != -1 {
      ChainUnfold(ts, f);
    } else {
      AfterIsNext(ts, i);
      assert Rest(ts, i) == [] + RestAfter(ts, i);
    }
  }

  // ------------------------------------------------------------------ who is in the preorder

  lemma {:induction false} BelowIsLater(ts: seq<Node>, p: nat, x: nat)
    requires Linked(ts) && x < |ts| && IsBelow(ts, p, x)
    ensures p < x
    decreases x
  {
    assert NodeLinked(ts, x);
    if ts[x].parent != p {
      BelowIsLater(ts, p, ts[x].parent);
    }
  }

  /** Below a child of `p` is below `p`, through that child. */
  lemma {:induction false} BelowChild(ts: seq<Node>, p: nat, c: nat, x: nat)
    requires Linked(ts) && c < |ts| && x < |ts| && ts[c].parent == p && (x == c || IsBelow(ts, c, x))
    ensures IsBelow(ts, p, x) && Branch(ts, p, x) == c
    decreases x
  {
    assert NodeLinked(ts, x);
    if x != c {
      BelowIsLater(ts, c, x);
      BelowChild(ts, p, c, ts[x].parent);
      NoOwnAncestor(ts, p, x);
    }
  }

  lemma NoOwnAncestor(ts: seq<Node>, p: nat, x: nat)
    requires Linked(ts) && x < |ts| && 0 <= ts[x].parent < |ts| && IsBelow(ts, p, ts[x].parent)
    ensures ts[x].parent != p
  {
    assert NodeLinked(ts, x);
    BelowIsLater(ts, p, ts[x].parent);
  }

  lemma {:induction false} BranchLeads(ts: seq<Node>, p: nat, x: nat)
    requires Linked(ts) && x < |ts| && IsBelow(ts, p, x)
    ensures var c := Branch(ts, p, x); x == c || IsBelow(ts, c, x)
    decreases x
  {
    assert NodeLinked(ts, x);
    if ts[x].parent != p {
      BranchLeads(ts, p, ts[x].parent);
    }
  }

  /** The preorder of a chain from `c` holds exactly what lies below its parent through `c` or a later
      sibling. */
  lemma {:induction false} PreorderMembers(ts: seq<Node>, c: nat, x: nat)
    requires Linked(ts) && c < |ts| && ts[c].parent >= 0 && x < |ts|
    ensures x in Preorder(ts, c) <==> IsBelow(ts, ts[c].parent, x) && Branch(ts, ts[c].parent, x) >= c
    decreases |ts| - c
  {
    assert NodeLinked(ts, c);
    var p := ts[c].parent;
    var f, s := ts[c].firstChild, ts[c].nextSibling;
    if f != -1 {
      PreorderMembers(ts, f, x);
      if IsBelow(ts, c, x) {
        FirstChildFirst(ts, c, x);
      }
    }
    if s != -1 {
      PreorderMembers(ts, s, x);
    }
    if x == c || IsBelow(ts, c, x) {
      BelowChild(ts, p, c, x);
    }
    if IsBelow(ts, p, x) {
      BranchLeads(ts, p, x);
    }
    if f == -1 {
      NothingBelowLeaf(ts, c, x);
    }
  }

  lemma NothingBelowLeaf(ts: seq<Node>, c: nat, x: nat)
    requires Linked(ts) && c < |ts| && x < |ts| && ts[c].firstChild == -1
    ensures !IsBelow(ts, c, x)
  {
    assert NodeLinked(ts, c);
    if IsBelow(ts, c, x) {
      var b := Branch(ts, c, x);
      assert false;
    }
  }

  lemma FirstChildFirst(ts: seq<Node>, c: nat, x: nat)
    requires Linked(ts) && c < |ts| && x < |ts| && ts[c].firstChild != -1 && IsBelow(ts, c, x)
    ensures Branch(ts, c, x) >= ts[c].firstChild
  {
    assert NodeLinked(ts, c);
  }

  /** `Below` is what it says. */
  lemma BelowMembers(ts: seq<Node>, i: nat, x: nat)
    requires Linked(ts) && i < |ts| && x < |ts|
    ensures x in Below(ts, i) <==> IsBelow(ts, i, x)
  {
    assert NodeLinked(ts, i);
    if ts[i].firstChild == -1 {
      NothingBelowLeaf(ts, i, x);
    } else {
      PreorderMembers(ts, ts[i].firstChild, x);
      if IsBelow(ts, i, x) {
        FirstChildFirst(ts, i, x);
      }
    }
  }

  /** `i` itself and everything below it is behind the climb from `i`. */
  lemma {:induction false} RestAfterMembers(ts: seq<Node>, a: nat, i: nat, x: nat)
    requires Linked(ts) && i < |ts| && a < |ts| && x < |ts|
    requires (a == i || IsBelow(ts, a, i)) && x in RestAfter(ts, a)
    ensures x != i && !IsBelow(ts, i, x)
    decreases a
  {
    assert NodeLinked(ts, a);
    var s, p := ts[a].nextSibling, ts[a].parent;
    if s != -1 && x in Preorder(ts, s) {
      PreorderMembers(ts, s, x);
      BelowChild(ts, p, a, i);
      if IsBelow(ts, i, x) {
        BelowTransitive(ts, a, i, x);
        BelowChild(ts, p, a, x);
      }
    } else {
      BelowChild(ts, p, a, i);
      RestAfterMembers(ts, p, i, x);
    }
  }

  lemma {:induction false} BelowTransitive(ts: seq<Node>, a: nat, i: nat, x: nat)
    requires Linked(ts) && a < |ts| && i < |ts| && x < |ts|
    requires (a == i || IsBelow(ts, a, i)) && IsBelow(ts, i, x)
    ensures IsBelow(ts, a, x)
    decreases x
  {
    assert NodeLinked(ts, x);
    if ts[x].parent != i {
      BelowTransitive(ts, a, i, ts[x].parent);
    }
  }

  predicate Distinct(s: seq<nat>) {
    forall i, j :: 0 <= i < j < |s| ==> s[i] != s[j]
  }

  /** What remains after `i` consists of what lies below `i`, and then of nodes that do not. */
  lemma RestMembers(ts: seq<Node>, i: nat, x: nat)
    requires Linked(ts) && i < |ts| && x < |ts|
    ensures x in Below(ts, i) ==> x != i && IsBelow(ts, i, x)
    ensures x in RestAfter(ts, i) ==> x != i && !IsBelow(ts, i, x)
  {
    BelowMembers(ts, i, x);
    if IsBelow(ts, i, x) {
      BelowIsLater(ts, i, x);
    }
    if x in RestAfter(ts, i) {
      RestAfterMembers(ts, i, i, x);
    }
  }

  lemma {:induction false} PreorderInRange(ts: seq<Node>, c: int)
    requires Linked(ts) && -1 <= c < |ts|
    ensures forall x :: x in Preorder(ts, c) ==> x < |ts|
    decreases if c == -1 then 0 else 1 + |ts| - c
  {
    if c != -1 {
      assert NodeLinked(ts, c);
      PreorderInRange(ts, ts[c].firstChild);
      PreorderInRange(ts, ts[c].nextSibling);
    }
  }

  lemma {:induction false} RestInRange(ts: seq<Node>, i: nat)
    requires Linked(ts) && i < |ts|
    ensures forall x :: x in RestAfter(ts, i) ==> x < |ts|
    ensures forall x :: x in Rest(ts, i) ==> x < |ts|
    decreases i
  {
    assert NodeLinked(ts, i);
    PreorderInRange(ts, ts[i].firstChild);
    PreorderInRange(ts, ts[i].nextSibling);
    if ts[i].parent != -1 {
      RestInRange(ts, ts[i].parent);
      assert RestAbove(ts, i) == RestAfter(ts, ts[i].parent);
    } else {
      assert RestAbove(ts, i) == [];
    }
    InConcat(Preorder(ts, ts[i].nextSibling), RestAbove(ts, i), |ts|);
    InConcat(Below(ts, i), RestAfter(ts, i), |ts|);
  }

  lemma InConcat(a: seq<nat>, b: seq<nat>, n: nat)
    requires (forall x :: x in a ==> x < n) && (forall x :: x in b ==> x < n)
    ensures forall x :: x in a + b ==> x < n
  {
  }

  /** No node is visited twice. */
  lemma {:induction false} RestDistinct(ts: seq<Node>, i: nat)
    requires Linked(ts) && i < |ts|
    ensures Distinct(Rest(ts, i)) && i !in Rest(ts, i)
    decreases |Rest(ts, i)|
  {
    NextIsFirstOfRest(ts, i);
    RestInRange(ts, i);
    RestMembers(ts, i, i);
    var j := TreeNext(ts, i);
    if j != -1 {
      RestDistinct(ts, j);
    }
  }
}
