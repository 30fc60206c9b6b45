/** Registration of a proclaimed tree in the topic registry (registry.c), on values: what one
    topic_add_child and one topics_tree_register do to the array, and what they preserve. */
module TopicGrowth {

  // The proclaimed tree is itself a first-child / next-sibling tree in an array, with the relative
  // indices of the C structure already turned into absolute ones (ProclaimingTree.dfy).

  import opened TopicTree

  const TOPIC_NAME_MAX_LEN := 30

  datatype RegRv = RegOk | TopicExist | TopicMax | InvArgs | NameTooLong | NotDir | TopicNa

  /** strncmp over the longest name there can be. */
  predicate SameName(a: string, b: string) {
    Cut(a) == Cut(b)
  }

  function Cut(a: string): string {
    if |a| <= TOPIC_NAME_MAX_LEN then a else a[..TOPIC_NAME_MAX_LEN]
  }

  /** reg_find_topic_among_siblings: the first topic with the name in the chain from `c`. */
  function FindAmong(ts: seq<Node>, c: int, name: string): (j: int)
    requires Linked(ts) && -1 <= c < |ts|
    ensures j == -1 || (0 <= c <= j < |ts| && SameName(ts[j].info.name, name) && ts[j].parent == ts[c].parent)
    decreases if c == -1 then 0 else 1 + |ts| - c
  {
    if c == -1 then -1 else
    assert NodeLinked(ts, c);
    if SameName(ts[c].info.name, name) then c else FindAmong(ts, ts[c].nextSibling, name)
  }

  // ------------------------------------------------------------------ attaching one node

  function LastSibling(ts: seq<Node>, c: nat): (j: nat)
    requires Linked(ts) && c < |ts|
    ensures c <= j < |ts| && ts[j].nextSibling == -1 && ts[j].parent == ts[c].parent
    decreases |ts| - c
  {
    assert NodeLinked(ts, c);
    if ts[c].nextSibling == -1 then c else LastSibling(ts, ts[c].nextSibling)
  }

  /** A new node at the end of the array and of the chain of `p`. */
  function Attach(ts: seq<Node>, p: nat, info: Info): (r: seq<Node>)
    requires Linked(ts) && p < |ts|
    ensures |r| == |ts| + 1
  {
    assert NodeLinked(ts, p);
    var added := Node(info, p, -1, -1);
    if ts[p].firstChild == -1 then
      ts[p := ts[p].(firstChild := |ts|)] + [added]
    else
      var last := LastSibling(ts, ts[p].firstChild);
      ts[last := ts[last].(nextSibling := |ts|)] + [added]
  }

  /** A node allocated but never linked, as a failed registration leaves it. */
  function Abandon(ts: seq<Node>, info: Info): seq<Node> {
    ts + [Node(info, -1, -1, -1)]
  }

  /** A link that was there is kept, and one that was not may now lead to something new. */
  predicate KeptOrNew(was: int, now: int, n: nat) {
    now == was || (was == -1 && now >= n)
  }

  /** `us` is `ts` with nodes added behind it, chains only ever growing at their ends. */
  ghost predicate Grown(ts: seq<Node>, us: seq<Node>) {
    && |ts| <= |us|
    && forall i :: 0 <= i < |ts| ==>
         && us[i].info == ts[i].info && us[i].parent == ts[i].parent
         && KeptOrNew(ts[i].firstChild, us[i].firstChild, |ts|)
         && KeptOrNew(ts[i].nextSibling, us[i].nextSibling, |ts|)
  }

  lemma GrownTrans(ts: seq<Node>, us: seq<Node>, vs: seq<Node>)
    requires Grown(ts, us) && Grown(us, vs)
    ensures Grown(ts, vs)
  {
  }

  /** The same infos and parents in front. */
  ghost predicate Prefix(ts: seq<Node>, us: seq<Node>) {
    && |ts| <= |us|
    && forall i :: 0 <= i < |ts| ==> us[i].info == ts[i].info && us[i].parent == ts[i].parent
  }

  lemma {:induction false} NextInPrefix(ts: seq<Node>, us: seq<Node>, q: int, from: nat)
    requires Prefix(ts, us) && from <= |ts|
    ensures NextWithParent(us, q, from) == (if NextWithParent(ts, q, from) != -1 then NextWithParent(ts, q, from)
                                            else NextWithParent(us, q, |ts|))
    decreases |ts| - from
  {
    if from < |ts| && ts[from].parent != q {
      NextInPrefix(ts, us, q, from + 1);
    }
  }

  /** Chains that only grow at their ends are all that parents in front can mean. */
  lemma PrefixGrown(ts: seq<Node>, us: seq<Node>)
    requires Linked(ts) && Linked(us) && Prefix(ts, us)
    ensures Grown(ts, us)
  {
    forall i | 0 <= i < |ts|
      ensures KeptOrNew(ts[i].firstChild, us[i].firstChild, |ts|)
      ensures KeptOrNew(ts[i].nextSibling, us[i].nextSibling, |ts|)
    {
      assert NodeLinked(ts, i) && NodeLinked(us, i);
      NextInPrefix(ts, us, i, i + 1);
      NextInPrefix(ts, us, ts[i].parent, i + 1);
    }
  }

  lemma LastIsLast(ts: seq<Node>, p: nat, i: nat)
    requires Linked(ts) && p < |ts| && i < |ts| && 0 <= ts[p].firstChild < |ts|
    requires ts[i].parent == p && ts[i].nextSibling == -1
    ensures i == LastSibling(ts, ts[p].firstChild)
  {
    assert NodeLinked(ts, p) && NodeLinked(ts, i);
    var l := LastSibling(ts, ts[p].firstChild);
    assert NodeLinked(ts, l);
  }

  /** The chains of the array with one more node `n` below `p`. */
  lemma NextWithOneMore(ts: seq<Node>, us: seq<Node>, q: int, from: nat)
    requires Prefix(ts, us) && |us| == |ts| + 1 && from <= |ts|
    ensures NextWithParent(us, q, from) == if NextWithParent(ts, q, from) != -1 then NextWithParent(ts, q, from)
                                           else if us[|ts|].parent == q then |ts| else -1
  {
    NextInPrefix(ts, us, q, from);
    assert NextWithParent(us, q, |ts| + 1) == -1;
  }

  /** What attaching changes in an old node: a childless parent gets a child, the last child of any
      other parent a sibling. */
  lemma AttachedFields(ts: seq<Node>, p: nat, info: Info, i: nat)
    requires Linked(ts) && p < |ts| && i < |ts|
    ensures var us := Attach(ts, p, info);
            && -1 <= ts[p].firstChild < |ts|
            && us[i].info == ts[i].info && us[i].parent == ts[i].parent
            && us[i].firstChild == (if i == p && ts[p].firstChild == -1 then |ts| else ts[i].firstChild)
            && us[i].nextSibling == (if ts[p].firstChild != -1 && i == LastSibling(ts, ts[p].firstChild) then |ts|
                                     else ts[i].nextSibling)
  {
    assert NodeLinked(ts, p);
  }

  lemma AttachedPrefix(ts: seq<Node>, p: nat, info: Info)
    requires Linked(ts) && p < |ts|
    ensures Prefix(ts, Attach(ts, p, info)) && Attach(ts, p, info)[|ts|] == Node(info, p, -1, -1)
  {
    hide LastSibling;
    assert NodeLinked(ts, p);
  }

  lemma AttachedFirstChild(ts: seq<Node>, p: nat, info: Info, i: nat)
    requires Linked(ts) && p < |ts| && i < |ts|
    ensures Attach(ts, p, info)[i].firstChild == NextWithParent(Attach(ts, p, info), i, i + 1)
  {
    hide LastSibling, Attach, NextWithParent, Prefix;
    AttachedPrefix(ts, p, info);
    AttachedFields(ts, p, info, i);
    assert NodeLinked(ts, i);
    NextWithOneMore(ts, Attach(ts, p, info), i, i + 1);
  }

  lemma AttachedSibling(ts: seq<Node>, p: nat, info: Info, i: nat)
    requires Linked(ts) && p < |ts| && i < |ts|
    ensures Attach(ts, p, info)[i].nextSibling ==
              if ts[i].parent == -1 then -1 else NextWithParent(Attach(ts, p, info), ts[i].parent, i + 1)
  {
    hide LastSibling, Attach, NextWithParent, Prefix;
    AttachedPrefix(ts, p, info);
    AttachedFields(ts, p, info, i);
    assert NodeLinked(ts, i) && NodeLinked(ts, p);
    NextWithOneMore(ts, Attach(ts, p, info), ts[i].parent, i + 1);
    if ts[p].firstChild != -1 && ts[i].parent == p && ts[i].nextSibling == -1 {
      LastIsLast(ts, p, i);
    }
  }

  lemma AttachedNode(ts: seq<Node>, p: nat, info: Info, i: nat)
    requires Linked(ts) && p < |ts| && i < |ts|
    ensures NodeLinked(Attach(ts, p, info), i)
  {
    hide LastSibling, Attach, NextWithParent;
    AttachedFields(ts, p, info, i);
    AttachedFirstChild(ts, p, info, i);
    AttachedSibling(ts, p, info, i);
    assert NodeLinked(ts, i);
  }

  lemma AttachLinks(ts: seq<Node>, p: nat, info: Info)
    requires Linked(ts) && p < |ts|
    ensures Linked(Attach(ts, p, info)) && Prefix(ts, Attach(ts, p, info)) && Grown(ts, Attach(ts, p, info))
    ensures Attach(ts, p, info)[|ts|] == Node(info, p, -1, -1)
  {
    var us := Attach(ts, p, info);
    AttachedPrefix(ts, p, info);
    hide Attach;
    forall i | 0 <= i < |us|
      ensures NodeLinked(us, i)
    {
      if i < |ts| {
        AttachedNode(ts, p, info, i);
      }
    }
    PrefixGrown(ts, us);
  }

  lemma AbandonLinks(ts: seq<Node>, info: Info)
    requires Linked(ts)
    ensures Linked(Abandon(ts, info)) && Prefix(ts, Abandon(ts, info)) && Grown(ts, Abandon(ts, info))
  {
    var us := Abandon(ts, info);
    forall i | 0 <= i < |us|
      ensures NodeLinked(us, i)
    {
      if i < |ts| {
        assert NodeLinked(ts, i);
        NextWithOneMore(ts, us, i, i + 1);
        NextWithOneMore(ts, us, ts[i].parent, i + 1);
      }
    }
    PrefixGrown(ts, us);
  }

  // ------------------------------------------------------------------ registering a tree

  predicate IsQueue(typ: TopicType) {
    typ == FifoType || typ == EventQueueType
  }

  /** A proclaimed topic as the registry keeps it below a parent of the given type. */
  function Settle(info: Info, parentType: TopicType): Info {
    if info.mapped then info.(offset := if IsQueue(parentType) then 0 else info.offset, parentSync := false)
    else info.(offset := 0)
  }

  /** What a new topic takes over before its flags are looked at. */
  function Unsettled(src: Info): Info {
    Info(src.name, src.typ, src.size, 0, false, false)
  }

  const BLANK := Info("", Plain(0), 0, 0, false, false)

  /** A proclaimed fifo has exactly one child. */
  predicate OneChild(pool: seq<Node>, i: nat)
    requires Linked(pool) && i < |pool|
  {
    assert NodeLinked(pool, i);
    pool[i].firstChild != -1 && pool[pool[i].firstChild].nextSibling == -1
  }

  /** topic_add_child once the name has been found to be new: the result code and the array. A topic that
      has been allocated and then refused stays in the array, unlinked. */
  function AddedNew(ts: seq<Node>, max: nat, p: nat, pool: seq<Node>, i: nat): (RegRv, seq<Node>)
    requires Linked(ts) && p < |ts| && Linked(pool) && i < |pool|
  {
    var src := pool[i].info;
    var added := Unsettled(src);
    if |ts| >= max then (TopicMax, ts)
    else if src.name == "" then (InvArgs, Abandon(ts, BLANK))
    else if |src.name| > TOPIC_NAME_MAX_LEN then (NameTooLong, Abandon(ts, BLANK))
    else if !src.mapped && ts[p].info.typ != Dir && !IsQueue(ts[p].info.typ) then (NotDir, Abandon(ts, added))
    else if !src.mapped && src.typ == FifoType && !OneChild(pool, i) then (InvArgs, Abandon(ts, added))
    else (RegOk, Attach(ts, p, Settle(src, ts[p].info.typ)))
  }

  /** topic_add_child. */
  function AddChild(ts: seq<Node>, max: nat, p: nat, pool: seq<Node>, i: nat): (RegRv, seq<Node>)
    requires Linked(ts) && p < |ts| && Linked(pool) && i < |pool|
  {
    assert NodeLinked(ts, p);
    if FindAmong(ts, ts[p].firstChild, pool[i].info.name) != -1 then (TopicExist, ts)
    else AddedNew(ts, max, p, pool, i)
  }

  lemma AddChildGrows(ts: seq<Node>, max: nat, p: nat, pool: seq<Node>, i: nat)
    requires Linked(ts) && p < |ts| && Linked(pool) && i < |pool|
    ensures var (rv, us) := AddChild(ts, max, p, pool, i);
            && Linked(us) && Prefix(ts, us) && Grown(ts, us)
            && (|ts| <= max ==> |us| <= max) && (rv == RegOk ==> |us| == |ts| + 1)
            && (rv == RegOk ==> us[|ts|] == Node(Settle(pool[i].info, ts[p].info.typ), p, -1, -1))
            && (rv != RegOk && |us| > |ts| ==> |us| == |ts| + 1 && us[|ts|].parent == -1)
  {
    hide Attach, FindAmong;
    var (rv, us) := AddChild(ts, max, p, pool, i);
    assert NodeLinked(ts, p);
    AttachLinks(ts, p, Settle(pool[i].info, ts[p].info.typ));
    if |us| > |ts| && rv != RegOk {
      AbandonLinks(ts, us[|ts|].info);
    }
  }

  /** topics_tree_register: preorder, stopping at the first failure. */
  function RegisterTree(ts: seq<Node>, max: nat, p: nat, pool: seq<Node>, i: nat): (r: (RegRv, seq<Node>))
    requires Linked(ts) && p < |ts| && Linked(pool) && i < |pool|
    ensures Linked(r.1) && Prefix(ts, r.1)
    decreases |pool| - i, 0
  {
    AddChildGrows(ts, max, p, pool, i);
    var (rv, us) := AddChild(ts, max, p, pool, i);
    if rv != RegOk then (rv, us)
    else
      assert NodeLinked(pool, i);
      RegisterKids(us, max, |ts|, pool, pool[i].firstChild)
  }

  /** The loop over the children of a proclaimed topic. */
  function RegisterKids(ts: seq<Node>, max: nat, p: nat, pool: seq<Node>, c: int): (r: (RegRv, seq<Node>))
    requires Linked(ts) && p < |ts| && Linked(pool) && -1 <= c < |pool|
    ensures Linked(r.1) && Prefix(ts, r.1)
    decreases if c == -1 then 0 else |pool| - c, 1
  {
    if c == -1 then (RegOk, ts)
    else
      var (rv, us) := RegisterTree(ts, max, p, pool, c);
      if rv != RegOk then (rv, us)
      else
        assert NodeLinked(pool, c);
        RegisterKids(us, max, p, pool, pool[c].nextSibling)
  }

  /** Sibling names are distinct. */
  ghost predicate DistinctSiblings(ts: seq<Node>) {
    forall i, j :: 0 <= i < j < |ts| && ts[i].parent == ts[j].parent >= 0 ==>
      !SameName(ts[i].info.name, ts[j].info.name)
  }

  /** A name not found in the chain of `p` is the name of no child of `p`. */
  lemma {:induction false} NotFoundMeansNew(ts: seq<Node>, c: int, name: string, i: nat)
    requires Linked(ts) && -1 <= c < |ts| && i < |ts| && FindAmong(ts, c, name) == -1
    requires c != -1 && ts[c].parent >= 0 && ts[i].parent == ts[c].parent && c <= i
    ensures !SameName(ts[i].info.name, name)
    decreases |ts| - c
  {
    assert NodeLinked(ts, c);
    if c < i {
      NotFoundMeansNew(ts, ts[c].nextSibling, name, i);
    }
  }

  lemma AddChildDistinct(ts: seq<Node>, max: nat, p: nat, pool: seq<Node>, i: nat)
    requires Linked(ts) && p < |ts| && Linked(pool) && i < |pool| && DistinctSiblings(ts)
    ensures DistinctSiblings(AddChild(ts, max, p, pool, i).1)
  {
    hide Attach;
    AddChildGrows(ts, max, p, pool, i);
    var (rv, us) := AddChild(ts, max, p, pool, i);
    assert NodeLinked(ts, p);
    if rv == RegOk {
      forall k | 0 <= k < |ts| && ts[k].parent == p
        ensures !SameName(ts[k].info.name, us[|ts|].info.name)
      {
        assert NodeLinked(ts, k);
        NotFoundMeansNew(ts, ts[p].firstChild, pool[i].info.name, k);
      }
    }
  }

  /** What registration makes sure of for every topic it links below a parent. */
  predicate ProperInfo(info: Info, parentType: TopicType) {
    && 0 < |info.name| <= TOPIC_NAME_MAX_LEN
    && (if info.mapped then !info.parentSync && (IsQueue(parentType) ==> info.offset == 0)
        else info.offset == 0 && (parentType == Dir || IsQueue(parentType)))
  }

  ghost predicate Proper(ts: seq<Node>) {
    forall i :: 0 <= i < |ts| && 0 <= ts[i].parent < |ts| ==> ProperInfo(ts[i].info, ts[ts[i].parent].info.typ)
  }

  lemma AddChildProper(ts: seq<Node>, max: nat, p: nat, pool: seq<Node>, i: nat)
    requires Linked(ts) && p < |ts| && Linked(pool) && i < |pool| && Proper(ts)
    ensures Proper(AddChild(ts, max, p, pool, i).1)
  {
    hide Attach, FindAmong, OneChild;
    AddChildGrows(ts, max, p, pool, i);
    var us := AddChild(ts, max, p, pool, i).1;
    forall k | 0 <= k < |ts| && 0 <= us[k].parent < |us|
      ensures us[k].parent < |ts|
    {
      assert NodeLinked(us, k);
    }
  }

  /** Whatever its result, a registration keeps every topic, every chain in front of its old end, the
      distinctness of sibling names, what is true of every registered topic, and the capacity. */
  lemma {:induction false} RegisterGrows(ts: seq<Node>, max: nat, p: nat, pool: seq<Node>, i: nat)
    requires Linked(ts) && p < |ts| && Linked(pool) && i < |pool|
    ensures var us := RegisterTree(ts, max, p, pool, i).1;
            && Grown(ts, us) && (|ts| <= max ==> |us| <= max)
            && (DistinctSiblings(ts) ==> DistinctSiblings(us)) && (Proper(ts) ==> Proper(us))
    decreases |pool| - i, 0
  {
    hide AddChild, Settle, Proper, DistinctSiblings;
    AddChildGrows(ts, max, p, pool, i);
    if DistinctSiblings(ts) {
      AddChildDistinct(ts, max, p, pool, i);
    }
    if Proper(ts) {
      AddChildProper(ts, max, p, pool, i);
    }
    var (rv, us) := AddChild(ts, max, p, pool, i);
    if rv == RegOk {
      assert NodeLinked(pool, i);
      RegisterKidsGrows(us, max, |ts|, pool, pool[i].firstChild);
      GrownTrans(ts, us, RegisterKids(us, max, |ts|, pool, pool[i].firstChild).1);
    }
  }

  lemma {:induction false} RegisterKidsGrows(ts: seq<Node>, max: nat, p: nat, pool: seq<Node>, c: int)
    requires Linked(ts) && p < |ts| && Linked(pool) && -1 <= c < |pool|
    ensures var us := RegisterKids(ts, max, p, pool, c).1;
            && Grown(ts, us) && (|ts| <= max ==> |us| <= max)
            && (DistinctSiblings(ts) ==> DistinctSiblings(us)) && (Proper(ts) ==> Proper(us))
    decreases if c == -1 then 0 else |pool| - c, 1
  {
    if c != -1 {
      RegisterGrows(ts, max, p, pool, c);
      var (rv, us) := RegisterTree(ts, max, p, pool, c);
      if rv == RegOk {
        assert NodeLinked(pool, c);
        RegisterKidsGrows(us, max, p, pool, pool[c].nextSibling);
        GrownTrans(ts, us, RegisterKids(us, max, p, pool, pool[c].nextSibling).1);
      }
    }
  }

  // ------------------------------------------------------------------ paths

  /** find_topic below a topic: follow the names. */
  function FindBelow(ts: seq<Node>, i: nat, names: seq<string>): (j: int)
    requires Linked(ts) && i < |ts|
    ensures -1 <= j < |ts|
    decreases |names|
  {
    if names == [] then i
    else
      assert NodeLinked(ts, i);
      var c := FindAmong(ts, ts[i].firstChild, names[0]);
      if c == -1 then -1 else FindBelow(ts, c, names[1..])
  }

  lemma {:induction false} FindAmongKept(ts: seq<Node>, us: seq<Node>, c: int, name: string)
    requires Linked(ts) && Linked(us) && Grown(ts, us) && -1 <= c < |ts| && FindAmong(ts, c, name) != -1
    ensures FindAmong(us, c, name) == FindAmong(ts, c, name)
    decreases if c == -1 then 0 else 1 + |ts| - c
  {
    assert NodeLinked(ts, c) && NodeLinked(us, c);
    if !SameName(ts[c].info.name, name) {
      FindAmongKept(ts, us, ts[c].nextSibling, name);
    }
  }

  /** Every path that resolves goes on resolving to the same topic when the registry grows. */
  lemma {:induction false} PathsKept(ts: seq<Node>, us: seq<Node>, i: nat, names: seq<string>)
    requires Linked(ts) && Linked(us) && Grown(ts, us) && i < |ts| && FindBelow(ts, i, names) != -1
    ensures FindBelow(us, i, names) == FindBelow(ts, i, names)
    decreases |names|
  {
    if names != [] {
      assert NodeLinked(ts, i) && NodeLinked(us, i);
      var c := FindAmong(ts, ts[i].firstChild, names[0]);
      FindAmongKept(ts, us, ts[i].firstChild, names[0]);
      PathsKept(ts, us, c, names[1..]);
    }
  }

  /** After any registration, also one that fails half way, every path that resolved before resolves
      to the same topic. */
  lemma RegistrationKeepsPaths(ts: seq<Node>, max: nat, p: nat, pool: seq<Node>, i: nat, from: nat, names: seq<string>)
    requires Linked(ts) && p < |ts| && Linked(pool) && i < |pool|
    requires from < |ts| && FindBelow(ts, from, names) != -1
    ensures FindBelow(RegisterTree(ts, max, p, pool, i).1, from, names) == FindBelow(ts, from, names)
  {
    RegisterGrows(ts, max, p, pool, i);
    PathsKept(ts, RegisterTree(ts, max, p, pool, i).1, from, names);
  }
}
