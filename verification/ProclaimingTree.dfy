/** Building the description of a topic tree (topic_proclaiming_tree.c): records in a pool that refer to
    each other by relative indices. However it is built, the pool is a first-child / next-sibling tree
    in the sense of TopicTree, so everything proved about registration applies to it. */
module ProclaimingTree {

  import opened TopicTree
  import opened TopicGrowth

  const PR_TREE_NO_REF_IND := -1024
  const POOL_MAX := 0x8000 // relative indices are 16 bit signed
  const UINT16 := 0x1_0000

  datatype Record = Record(info: Info, absInd: int, parentInd: int, firstChildInd: int, nextSiblingInd: int)

  predicate NameChar(c: char) {
    c == '.' || 'a' <= c <= 'z' || 'A' <= c <= 'Z' || '0' <= c <= '9' || c == '_'
  }

  predicate ValidName(name: string) {
    name != "" && forall i :: 0 <= i < |name| ==> NameChar(name[i])
  }

  /** Where relative index `ind` of record `k` leads. */
  function Target(k: int, ind: int): int {
    if ind == PR_TREE_NO_REF_IND then -1 else k + ind
  }

  /** Record `k` with absolute indices. Only the root has no parent, so the parent index is not compared
      with the marker (see `ParentMarkerClash`). */
  function Absolute(r: Record, k: int): Node {
    Node(r.info, if k == 0 then -1 else k + r.parentInd, Target(k, r.firstChildInd), Target(k, r.nextSiblingInd))
  }

  function PoolView(rs: seq<Record>): (ts: seq<Node>)
    ensures |ts| == |rs| && forall k :: 0 <= k < |rs| ==> ts[k] == Absolute(rs[k], k)
  {
    seq(|rs|, k requires 0 <= k < |rs| => Absolute(rs[k], k))
  }

  /** Record `k` of the pool knows its place, and its links lead forward. */
  predicate InPlace(r: Record, k: int) {
    && r.absInd == k
    && (r.firstChildInd == PR_TREE_NO_REF_IND || r.firstChildInd > 0)
    && (r.nextSiblingInd == PR_TREE_NO_REF_IND || r.nextSiblingInd > 0)
  }

  /** The record whose link changes when a child of `p` is added, and the record afterwards. */
  predicate LinksTo(rs: seq<Record>, p: nat, l: nat, r: Record)
    requires Linked(PoolView(rs)) && p < |rs| && l < |rs|
  {
    var ts := PoolView(rs);
    assert NodeLinked(ts, p);
    if ts[p].firstChild == -1 then l == p && r == rs[p].(firstChildInd := |rs| - p)
    else l == LastSibling(ts, ts[p].firstChild) && r == rs[l].(nextSiblingInd := |rs| - l)
  }

  ghost predicate ValidPool(rs: seq<Record>) {
    (forall k :: 0 <= k < |rs| ==> InPlace(rs[k], k)) && Linked(PoolView(rs))
  }

  /** One relative link has been patched and a record appended. */
  ghost predicate Patched(rs: seq<Record>, us: seq<Record>, p: nat, l: nat)
    requires ValidPool(rs) && p < |rs| && l < |rs|
  {
    && |us| == |rs| + 1 && (forall k :: 0 <= k < |rs| && k != l ==> us[k] == rs[k]) && LinksTo(rs, p, l, us[l])
    && us[|rs|] == Record(us[|rs|].info, |rs|, p - |rs|, PR_TREE_NO_REF_IND, PR_TREE_NO_REF_IND)
  }

  /** This attaches a node to the tree. */
  lemma PatchAttaches(rs: seq<Record>, us: seq<Record>, p: nat, l: nat)
    requires ValidPool(rs) && p < |rs| && l < |rs| && Patched(rs, us, p, l)
    ensures PoolView(us) == Attach(PoolView(rs), p, us[|rs|].info) && ValidPool(us)
  {
    PatchedView(rs, us, p, l);
    AttachLinks(PoolView(rs), p, us[|rs|].info);
    hide Linked, Attach, PoolView;
    assert InPlace(us[l], l);
  }

  lemma PatchedView(rs: seq<Record>, us: seq<Record>, p: nat, l: nat)
    requires ValidPool(rs) && p < |rs| && l < |rs| && Patched(rs, us, p, l)
    ensures PoolView(us) == Attach(PoolView(rs), p, us[|rs|].info)
  {
    assert NodeLinked(PoolView(rs), p);
    hide LastSibling, Linked, InPlace;
    assert Target(p, |rs| - p) == |rs| && Target(l, |rs| - l) == |rs|;
  }

  class TreeContext {
    var pool: array<Record>
    var tNum: nat

    ghost predicate Valid()
      reads this, pool
    {
      && tNum <= pool.Length <= POOL_MAX
      && ValidPool(pool[..tNum])
    }

    /** The tree in the pool. */
    ghost function Tree(): seq<Node>
      reads this, pool
      requires tNum <= pool.Length
    {
      PoolView(pool[..tNum])
    }

    constructor (max: nat)
      requires max <= POOL_MAX
      ensures Valid() && fresh(pool) && pool.Length == max && tNum == 0
    {
      pool := new Record[max](_ => Record(BLANK, 0, 0, 0, 0));
      tNum := 0;
      new;
    }

    /** A record as it arrives in an event, with its links reset. */
    constructor Single(info: Info)
      ensures Valid() && fresh(pool) && tNum == 1 && Tree() == [Node(info, -1, -1, -1)]
    {
      pool := new Record[1](_ => Record(info, 0, PR_TREE_NO_REF_IND, PR_TREE_NO_REF_IND, PR_TREE_NO_REF_IND));
      tNum := 1;
      new;
      assert NodeLinked(Tree(), 0);
    }

    /** check_topic_naming: the scan keeps the longest acceptable prefix of the name, which must agree with
        the name as far as names are compared. */
    static method CheckNaming(name: string) returns (ok: bool)
      ensures ok == ValidName(Cut(name))
    {
      var i := 0;
      while i < |name| && NameChar(name[i])
        invariant 0 <= i <= |name| && forall k :: 0 <= k < i ==> NameChar(name[k])
      {
        i := i + 1;
      }
      ok := i >= 1 && (i == |name| || i >= TOPIC_NAME_MAX_LEN);
      assert i < |name| && i < TOPIC_NAME_MAX_LEN ==> Cut(name)[i] == name[i];
    }

    static function NewInfo(name: string, typ: TopicType, offset: nat, size: nat, mapped: bool, parentSync: bool)
      : Info
    {
      Info(Cut(name), typ, size % UINT16, offset % UINT16, mapped, parentSync)
    }

    /** usr_topic_setup. */
    method Setup(k: nat, name: string, typ: TopicType, offset: nat, size: nat, mapped: bool, parentSync: bool)
      returns (ok: bool)
      requires k < pool.Length
      modifies pool
      ensures ok == ValidName(Cut(name))
      ensures forall j :: 0 <= j < pool.Length && (j != k || !ok) ==> pool[j] == old(pool[j])
      ensures ok ==> pool[k] == Record(NewInfo(name, typ, offset, size, mapped, parentSync), 0,
                                       PR_TREE_NO_REF_IND, PR_TREE_NO_REF_IND, PR_TREE_NO_REF_IND)
    {
      ok := CheckNaming(name);
      if ok {
        pool[k] := Record(NewInfo(name, typ, offset, size, mapped, parentSync), 0,
                          PR_TREE_NO_REF_IND, PR_TREE_NO_REF_IND, PR_TREE_NO_REF_IND);
      }
    }

    /** usr_topic_set_root: record 0 becomes a root without children. On a context in use the count grows all
        the same, so the pool is a tree again only if the context was fresh. */
    method SetRoot(name: string, typ: TopicType, size: nat) returns (k: int)
      requires pool.Length > 0
      modifies this`tNum, pool
      ensures pool == old(pool) && k == if ValidName(Cut(name)) then 0 else -1
      ensures forall j :: 0 <= j < pool.Length && (j != 0 || k == -1) ==> pool[j] == old(pool[j])
      ensures tNum == if k == -1 then old(tNum) else old(tNum) + 1
      ensures k == 0 ==> pool[0] == Record(NewInfo(name, typ, 0, size, false, false), 0,
                                           PR_TREE_NO_REF_IND, PR_TREE_NO_REF_IND, PR_TREE_NO_REF_IND)
      ensures k == 0 && old(Valid()) && old(tNum) == 0 ==>
                Valid() && Tree() == [Node(NewInfo(name, typ, 0, size, false, false), -1, -1, -1)]
    {
      var ok := Setup(0, name, typ, 0, size, false, false);
      if !ok {
        return -1;
      }
      pool[0] := pool[0].(absInd := 0);
      tNum := tNum + 1;
      k := 0;
      if old(Valid()) && old(tNum) == 0 {
        assert NodeLinked(Tree(), 0);
      }
    }

    /** usr_topic_add_child: the new record goes to the end of the pool and of its parent's chain. */
    method AddChild(root: nat, name: string, typ: TopicType, offset: nat, size: nat, mapped: bool, parentSync: bool)
      returns (k: int)
      requires Valid() && root < tNum
      modifies this`tNum, pool
      ensures Valid() && pool == old(pool)
      ensures k == if old(tNum) < pool.Length && ValidName(Cut(name)) then old(tNum) else -1
      ensures Tree() == if k == -1 then old(Tree())
                        else Attach(old(Tree()), root, NewInfo(name, typ, offset, size, mapped, parentSync))
    {
      ghost var rs := pool[..tNum];
      k := -1;
      if tNum < pool.Length {
        var ok := Setup(tNum, name, typ, offset, size, mapped, parentSync);
        assert pool[..tNum] == rs;
        if ok {
          k := tNum;
          Append(root);
        }
      }
    }

    /** The rest of usr_topic_add_child: the record set up behind the others becomes a child of `root`. */
    method Append(root: nat)
      requires Valid() && root < tNum < pool.Length
      requires pool[tNum].firstChildInd == PR_TREE_NO_REF_IND && pool[tNum].nextSiblingInd == PR_TREE_NO_REF_IND
      modifies this`tNum, pool
      ensures Valid() && pool == old(pool) && tNum == old(tNum) + 1
      ensures Tree() == Attach(old(Tree()), root, old(pool[tNum].info))
    {
      ghost var rs := pool[..tNum];
      pool[tNum] := pool[tNum].(absInd := tNum);
      assert pool[..tNum] == rs;
      var l := ChainEnd(root);
      Patch(root, l);
      tNum := tNum + 1;
      ghost var us := pool[..tNum];
      hide LinksTo;
      assert LinksTo(rs, root, l, us[l]);
      PatchAttaches(rs, us, root, l);
    }

    /** The record whose link is to be patched. */
    method ChainEnd(root: nat) returns (l: nat)
      requires Valid() && root < tNum
      ensures l < tNum
      ensures pool[root].firstChildInd == PR_TREE_NO_REF_IND ==>
        l == root && LinksTo(pool[..tNum], root, l, pool[l].(firstChildInd := tNum - root))
      ensures pool[root].firstChildInd != PR_TREE_NO_REF_IND ==>
        LinksTo(pool[..tNum], root, l, pool[l].(nextSiblingInd := tNum - l))
    {
      assert NodeLinked(Tree(), root);
      l := root;
      if pool[root].firstChildInd != PR_TREE_NO_REF_IND {
        l := LastOf(root + pool[root].firstChildInd);
      }
    }

    /** The link to the new record, from its parent or from its last sibling `l`, and back. */
    method Patch(root: nat, l: nat)
      requires tNum < pool.Length && root < tNum && l < tNum
      requires forall k :: 0 <= k <= tNum ==> pool[k].absInd == k
      requires pool[root].firstChildInd == PR_TREE_NO_REF_IND ==> l == root
      modifies pool
      ensures pool[l] == if old(pool[root].firstChildInd) == PR_TREE_NO_REF_IND
                         then old(pool[root]).(firstChildInd := tNum - root)
                         else old(pool[l]).(nextSiblingInd := tNum - l)
      ensures pool[tNum] == old(pool[tNum]).(parentInd := root - tNum)
      ensures forall k :: 0 <= k < pool.Length && k != l && k != tNum ==> pool[k] == old(pool[k])
    {
      if pool[root].firstChildInd == PR_TREE_NO_REF_IND {
        pool[root] := pool[root].(firstChildInd := pool[tNum].absInd - pool[root].absInd);
      } else {
        pool[l] := pool[l].(nextSiblingInd := pool[tNum].absInd - pool[l].absInd);
      }
      pool[tNum] := pool[tNum].(parentInd := pool[root].absInd - pool[tNum].absInd);
    }

    /** The search for the end of a chain. */
    method LastOf(first: nat) returns (last: nat)
      requires Valid() && first < tNum
      ensures last == LastSibling(Tree(), first)
    {
      last := first;
      while pool[last].nextSiblingInd != PR_TREE_NO_REF_IND
        invariant last < tNum && LastSibling(Tree(), last) == LastSibling(Tree(), first)
        decreases tNum - last
      {
        assert NodeLinked(Tree(), last);
        last := last + pool[last].nextSiblingInd;
      }
    }
  }

  /** The relative parent index of a record reads as "no parent" exactly for a child 1024 records behind
      its parent; the registry never reads it. */
  lemma ParentMarkerClash(parent: nat, k: nat)
    requires parent < k
    ensures Target(k, parent - k) != parent <==> k == parent + 1024
  {
  }
}
