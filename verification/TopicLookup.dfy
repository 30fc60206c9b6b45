/** Which paths lead to which topic: looking a topic up finds it exactly by its own names. */
module TopicLookup {

  import opened TopicTree
  import opened TopicGrowth
  import opened Paths
  import opened TopicPaths

  /** Names are compared over thirty characters: shorter ones with their lengths, longer ones by those thirty. */
  lemma SameNameExactly(a: string, b: string)
    ensures SameName(a, b) <==>
              && (|a| == |b| || (|a| >= 30 && |b| >= 30))
              && forall k :: 0 <= k < |a| && k < |b| && k < 30 ==> a[k] == b[k]
  {
    var x, y := Cut(a), Cut(b);
    assert forall k :: 0 <= k < |x| ==> x[k] == a[k];
    assert forall k :: 0 <= k < |y| ==> y[k] == b[k];
    if x == y {
      forall k | 0 <= k < |a| && k < |b| && k < 30
        ensures a[k] == b[k]
      {
        assert x[k] == y[k];
      }
    }
  }

  ghost predicate Matches(tokens: seq<string>, names: seq<string>) {
    |tokens| == |names| && forall k :: 0 <= k < |tokens| ==> SameName(tokens[k], names[k])
  }

  // ------------------------------------------------------------------ what is found has the names

  lemma FoundChild(ts: seq<Node>, p: nat, n: string)
    requires Linked(ts) && p < |ts| && FindBelow(ts, p, [n]) != -1
    ensures var j := FindBelow(ts, p, [n]);
            && p < j < |ts| && ts[j].parent == p && SameName(n, ts[j].info.name)
            && Names(ts, j) == Names(ts, p) + [ts[j].info.name]
  {
    assert NodeLinked(ts, p);
    assert [n][1..] == [];
    var j := FindAmong(ts, ts[p].firstChild, n);
    assert FindBelow(ts, p, [n]) == j;
    assert NodeLinked(ts, j);
  }

  lemma {:induction false} FoundHasNames(ts: seq<Node>, i: nat, tokens: seq<string>)
    requires Linked(ts) && i < |ts| && FindBelow(ts, i, tokens) != -1
    ensures var j := FindBelow(ts, i, tokens);
            && i <= j < |ts| && (j == i || IsBelow(ts, i, j)) && Names(ts, i) <= Names(ts, j)
            && Matches(tokens, Names(ts, j)[|Names(ts, i)|..])
    decreases |tokens|
  {
    if tokens != [] {
      var front, n := tokens[..|tokens| - 1], tokens[|tokens| - 1];
      assert tokens == front + [n];
      FindBelowSnoc(ts, i, front, n);
      FoundHasNames(ts, i, front);
      var k := FindBelow(ts, i, front);
      FoundChild(ts, k, n);
      var j := FindBelow(ts, k, [n]);
      assert NodeLinked(ts, j);
      hide Names, FindBelow, SameName, Linked;
      NamesLonger(Names(ts, i), Names(ts, k), ts[j].info.name, front, n);
    }
  }

  lemma NamesLonger(base: seq<string>, names: seq<string>, name: string, front: seq<string>, n: string)
    requires base <= names && Matches(front, names[|base|..]) && SameName(n, name)
    ensures base <= names + [name] && Matches(front + [n], (names + [name])[|base|..])
  {
    hide SameName;
    assert (names + [name])[|base|..] == names[|base|..] + [name];
  }

  // ------------------------------------------------------------------ what has the names is found

  lemma {:induction false} AmongSame(ts: seq<Node>, c: int, a: string, b: string)
    requires Linked(ts) && -1 <= c < |ts| && SameName(a, b)
    ensures FindAmong(ts, c, a) == FindAmong(ts, c, b)
    decreases if c == -1 then 0 else 1 + |ts| - c
  {
    if c != -1 {
      assert NodeLinked(ts, c);
      AmongSame(ts, ts[c].nextSibling, a, b);
    }
  }

  lemma {:induction false} BelowSame(ts: seq<Node>, i: nat, a: seq<string>, b: seq<string>)
    requires Linked(ts) && i < |ts| && Matches(a, b)
    ensures FindBelow(ts, i, a) == FindBelow(ts, i, b)
    decreases |a|
  {
    if a != [] {
      assert NodeLinked(ts, i);
      AmongSame(ts, ts[i].firstChild, a[0], b[0]);
      var c := FindAmong(ts, ts[i].firstChild, a[0]);
      hide SameName;
      if c != -1 {
        assert Matches(a[1..], b[1..]);
        BelowSame(ts, c, a[1..], b[1..]);
      }
    }
  }

  /** A path leads to a topic of the tree if and only if its first part is the name of the root and the others
      are, over thirty characters, the names on the way from the root to the topic. */
  lemma FoundExactly(ts: seq<Node>, path: string, j: nat)
    requires Linked(ts) && DistinctSiblings(ts) && j < |ts| && Tokens(path) != []
    ensures FindTopic(ts, path) == j <==>
              && (j == 0 || IsBelow(ts, 0, j)) && Tokens(path)[0] == ts[0].info.name
              && Matches(Tokens(path)[1..], Names(ts, j)[1..])
  {
    var tokens := Tokens(path);
    assert NodeLinked(ts, 0);
    assert Names(ts, 0) == [ts[0].info.name];
    if FindTopic(ts, path) == j {
      FoundHasNames(ts, 0, tokens[1..]);
    }
    if (j == 0 || IsBelow(ts, 0, j)) && Matches(tokens[1..], Names(ts, j)[1..]) {
      FindNames(ts, j);
      BelowSame(ts, 0, tokens[1..], Names(ts, j)[1..]);
    }
  }
}
