/** Printing the path of a topic (local_get_mounting_point) and finding the topic again from the text:
    printing and parsing undo each other. */
module TopicPaths {

  import opened TopicTree
  import opened TopicGrowth
  import opened ProclaimingTree
  import opened Paths

  /** The names from the root down to topic `i`. */
  function Names(ts: seq<Node>, i: nat): (r: seq<string>)
    requires Linked(ts) && i < |ts|
    ensures r != []
    decreases i
  {
    assert NodeLinked(ts, i);
    (if ts[i].parent == -1 then [] else Names(ts, ts[i].parent)) + [ts[i].info.name]
  }

  /** Every name preceded by a slash. */
  function Join(names: seq<string>): string {
    if names == [] then "" else "/" + names[0] + Join(names[1..])
  }

  function BusPrefix(synced: bool): string {
    if synced then "itb:" else "nsb:"
  }

  function KindOf(synced: bool): BusType {
    if synced then InterThread else NonSynced
  }

  /** The whole path. */
  function FullPath(ts: seq<Node>, synced: bool, i: nat): string
    requires Linked(ts) && i < |ts|
  {
    BusPrefix(synced) + Join(Names(ts, i))
  }

  /** The buffer has room for that many characters. */
  function Fit(s: string): string {
    if |s| <= PATH_MAX then s else s[..PATH_MAX]
  }

  /** local_get_mounting_point. */
  function Printed(ts: seq<Node>, synced: bool, i: nat): string
    requires Linked(ts) && i < |ts|
  {
    Fit(FullPath(ts, synced, i))
  }

  /** find_topic: the first token names the root, the others lead down from it. */
  function FindTopic(ts: seq<Node>, path: string): (j: int)
    requires Linked(ts) && ts != [] && Tokens(path) != []
    ensures -1 <= j < |ts|
  {
    if Tokens(path)[0] != ts[0].info.name then -1 else FindBelow(ts, 0, Tokens(path)[1..])
  }

  /** Names are made of the characters paths are made of, without the separators. */
  lemma NameChars(c: char)
    ensures NameChar(c) <==> PathChar(c) && c != '/' && c != ':'
  {
  }

  // ------------------------------------------------------------------ joining and splitting

  ghost predicate AllValid(names: seq<string>) {
    forall k :: 0 <= k < |names| ==> ValidName(names[k])
  }

  lemma {:induction false} JoinSnoc(a: seq<string>, n: string)
    ensures Join(a + [n]) == Join(a) + "/" + n
  {
    if a == [] {
      assert [n][1..] == [];
    } else {
      assert (a + [n])[1..] == a[1..] + [n];
      JoinSnoc(a[1..], n);
    }
  }

  lemma FirstSlash(n: string, rest: string)
    requires ValidName(n) && (rest == "" || rest[0] == '/')
    ensures FirstAt(n + rest, '/', |n|) && SlashAt(n + rest) == |n|
  {
    assert forall i :: 0 <= i < |n| ==> NameChar((n + rest)[i]);
    SameFirst(n + rest, '/', |n|, SlashAt(n + rest));
  }

  /** Splitting undoes joining. */
  lemma {:induction false} TokensOfJoin(names: seq<string>)
    requires AllValid(names)
    ensures Tokens(Join(names)) == names
  {
    if names != [] {
      var rest := Join(names[1..]);
      TokensOfJoin(names[1..]);
      JoinTail(names);
      hide Join, Tokens;
      TokensOfLocal(names[0], rest);
    }
  }

  lemma JoinTail(names: seq<string>)
    requires names != []
    ensures Join(names) != "" && Join(names)[1..] == names[0] + Join(names[1..])
    ensures Tokens(Join(names)) == Tokens(Join(names)[1..])
    ensures Join(names[1..]) == "" || Join(names[1..])[0] == '/'
  {
    hide Tokens;
    JoinStart(names[1..]);
    assert Join(names) == "/" + names[0] + Join(names[1..]);
    hide Join;
    TokensSkip(Join(names));
  }

  lemma JoinStart(names: seq<string>)
    ensures Join(names) == "" || Join(names)[0] == '/'
  {
  }

  lemma TokensSkip(s: string)
    requires s != "" && s[0] == '/'
    ensures Tokens(s) == Tokens(s[1..])
  {
  }

  lemma TokensOfLocal(n: string, rest: string)
    requires ValidName(n) && (rest == "" || rest[0] == '/')
    ensures Tokens(n + rest) == [n] + Tokens(rest)
  {
    FirstSlash(n, rest);
    assert NameChar((n + rest)[0]);
    assert (n + rest)[..|n|] == n && (n + rest)[|n|..] == rest;
  }

  // ------------------------------------------------------------------ the printed path is in order

  /** Text of name characters and single slashes. */
  ghost predicate Clean(s: string, afterSlash: bool) {
    && (forall k :: 0 <= k < |s| ==> NameChar(s[k]) || s[k] == '/')
    && (forall k :: 0 <= k < |s| - 1 ==> s[k] != '/' || s[k + 1] != '/')
    && (s != "" && afterSlash ==> s[0] != '/')
  }

  lemma {:induction false} CleanStays(s: string, afterSlash: bool)
    requires Clean(s, afterSlash)
    ensures Collapse(s, afterSlash) == s
  {
    if s != "" {
      assert forall k :: 0 <= k < |s[1..]| ==> s[1..][k] == s[k + 1];
      CleanStays(s[1..], s[0] == '/');
    }
  }

  lemma CleanConcat(n: string, rest: string)
    requires ValidName(n) && Clean(rest, false)
    ensures Clean("/" + n + rest, false)
  {
    var s := "/" + n + rest;
    assert s[0] == '/' && s[1] == n[0];
    forall k | 0 <= k < |s|
      ensures NameChar(s[k]) || s[k] == '/'
      ensures k < |s| - 1 ==> s[k] != '/' || s[k + 1] != '/'
    {
      if 1 <= k < 1 + |n| {
        assert s[k] == n[k - 1];
      } else if k > |n| {
        assert s[k] == rest[k - 1 - |n|];
      }
    }
  }

  lemma {:induction false} JoinClean(names: seq<string>)
    requires AllValid(names)
    ensures Clean(Join(names), false)
  {
    if names != [] {
      JoinClean(names[1..]);
      CleanConcat(names[0], Join(names[1..]));
    }
  }

  lemma CollapsePrefix(synced: bool, s: string)
    ensures Collapse(BusPrefix(synced) + s, false) == BusPrefix(synced) + Collapse(s, false)
  {
    var p := BusPrefix(synced) + s;
    assert p[1..][1..][1..][1..] == s;
    assert p[0] != '/' && p[1] != '/' && p[2] != '/' && p[3] == ':';
    var t := Collapse(s, false);
    assert Collapse(p[1..][1..][1..], false) == [':'] + t;
    assert Collapse(p[1..][1..], false) == [p[2]] + ([':'] + t);
    assert Collapse(p[1..], false) == [p[1]] + ([p[2]] + ([':'] + t));
  }

  /** A printed path is normalised and acceptable as it stands. */
  lemma PrintedGood(synced: bool, names: seq<string>)
    requires AllValid(names)
    ensures var p := BusPrefix(synced) + Join(names);
            Collapse(p, false) == p && GoodPath(p)
  {
    JoinClean(names);
    CleanStays(Join(names), false);
    CollapsePrefix(synced, Join(names));
    var p := BusPrefix(synced) + Join(names);
    forall k | 4 <= k < |p|
      ensures PathChar(p[k]) && p[k] != ':'
    {
      assert p[k] == Join(names)[k - 4];
    }
  }

  /** Parsing splits it into the bus type, the name of the root, and the local path. */
  lemma SplitPrinted(synced: bool, names: seq<string>)
    requires AllValid(names) && names != []
    ensures Join(names) != ""
    ensures Split(BusPrefix(synced) + Join(names)) == Parsed(KindOf(synced), names[0], Join(names)[1..])
  {
    hide Join, BusPrefix, FirstSpecAt, FirstAt, AllValid, BusTypeOf, Split;
    LocalName(names);
    SpecFirst(synced, Join(names));
    SplitAt(BusPrefix(synced) + Join(names), 3, |names[0]|);
  }

  lemma SplitAt(n: string, k: nat, l: nat)
    requires FirstSpecAt(n, k) && k < |n| && k + 2 <= |n| && FirstAt(n[k + 2..], '/', l)
    ensures Split(n) == Parsed(BusTypeOf(n[..k]), n[k + 2..][..l], n[k + 2..])
  {
    hide FirstSpecAt, FirstAt, BusTypeOf, SpecIndex, SlashAt;
    SameSpec(n, SpecIndex(n), k);
    SameFirst(n[k + 2..], '/', SlashAt(n[k + 2..]), l);
  }

  lemma SpecFirst(synced: bool, s: string)
    requires s != "" && s[0] == '/'
    ensures var p := BusPrefix(synced) + s;
            && |p| > 4 && FirstSpecAt(p, 3) && p[5..] == s[1..]
            && BusTypeOf(p[..3]) == KindOf(synced)
  {
    var p := BusPrefix(synced) + s;
    assert p[..3] == BusPrefix(synced)[..3];
    assert p[3] == ':' && p[4] == '/';
  }

  lemma LocalName(names: seq<string>)
    requires AllValid(names) && names != []
    ensures Join(names) != "" && Join(names)[0] == '/'
    ensures var local := Join(names)[1..];
            FirstAt(local, '/', |names[0]|) && local[..|names[0]|] == names[0]
  {
    JoinTail(names);
    FirstSlash(names[0], Join(names[1..]));
    hide Join;
    assert (names[0] + Join(names[1..]))[..|names[0]|] == names[0];
  }

  // ------------------------------------------------------------------ finding the topic again

  lemma {:induction false} FindBelowSnoc(ts: seq<Node>, i: nat, a: seq<string>, n: string)
    requires Linked(ts) && i < |ts|
    ensures FindBelow(ts, i, a + [n]) == (var j := FindBelow(ts, i, a); if j == -1 then -1 else FindBelow(ts, j, [n]))
    decreases |a|
  {
    if a == [] {
      assert a + [n] == [n];
    } else {
      assert NodeLinked(ts, i);
      assert (a + [n])[1..] == a[1..] + [n];
      var c := FindAmong(ts, ts[i].firstChild, a[0]);
      if c != -1 {
        FindBelowSnoc(ts, c, a[1..], n);
      }
    }
  }

  /** Among distinct siblings a name leads to its owner. */
  lemma {:induction false} FindKid(ts: seq<Node>, c: nat, i: nat)
    requires Linked(ts) && DistinctSiblings(ts) && c <= i < |ts| && ts[c].parent == ts[i].parent >= 0
    ensures FindAmong(ts, c, ts[i].info.name) == i
    decreases |ts| - c
  {
    assert NodeLinked(ts, c);
    if c < i {
      FindKid(ts, ts[c].nextSibling, i);
    }
  }

  lemma {:induction false} FindNames(ts: seq<Node>, i: nat)
    requires Linked(ts) && DistinctSiblings(ts) && i < |ts| && (i == 0 || IsBelow(ts, 0, i))
    ensures Names(ts, i)[0] == ts[0].info.name
    ensures FindBelow(ts, 0, Names(ts, i)[1..]) == i
    decreases i
  {
    assert NodeLinked(ts, i);
    if i == 0 {
      assert Names(ts, i)[1..] == [];
    } else {
      var p := ts[i].parent;
      FindNames(ts, p);
      assert Names(ts, i)[1..] == Names(ts, p)[1..] + [ts[i].info.name];
      hide Names;
      FindBelowSnoc(ts, 0, Names(ts, p)[1..], ts[i].info.name);
      FindChild(ts, i);
    }
  }

  lemma FindChild(ts: seq<Node>, i: nat)
    requires Linked(ts) && DistinctSiblings(ts) && i < |ts| && ts[i].parent >= 0
    ensures ts[i].parent < i && FindBelow(ts, ts[i].parent, [ts[i].info.name]) == i
  {
    assert NodeLinked(ts, i);
    var p := ts[i].parent;
    assert NodeLinked(ts, p);
    FindKid(ts, ts[p].firstChild, i);
    assert [ts[i].info.name][1..] == [];
  }

  // ------------------------------------------------------------------ the round trip

  lemma {:induction false} FitClean(synced: bool, names: seq<string>)
    requires AllValid(names) && |BusPrefix(synced) + Join(names)| >= PATH_MAX
    ensures |Collapse(Fit(BusPrefix(synced) + Join(names)), false)| == PATH_MAX
  {
    JoinClean(names);
    var s := Join(names)[..PATH_MAX - 4];
    assert Clean(s, false);
    CleanStays(s, false);
    CollapsePrefix(synced, s);
    assert Fit(BusPrefix(synced) + Join(names)) == BusPrefix(synced) + s;
  }

  /** The printed path of any topic of the bus parses exactly when it is shorter than the limit, and
      then to the type and name of the bus and a local path that leads to that topic. */
  lemma PathRoundTrip(ts: seq<Node>, synced: bool, i: nat)
    requires Linked(ts) && DistinctSiblings(ts) && i < |ts| && (i == 0 || IsBelow(ts, 0, i))
    requires AllValid(Names(ts, i))
    ensures var names := Names(ts, i);
            && names[0] == ts[0].info.name && Join(names) != ""
            && Parse(Printed(ts, synced, i)) == (
                 if |FullPath(ts, synced, i)| >= PATH_MAX then (PathTooLong, NOTHING)
                 else (PathOk, Parsed(KindOf(synced), ts[0].info.name, Join(names)[1..])))
            && Tokens(Join(names)[1..]) == names && FindTopic(ts, Join(names)[1..]) == i
  {
    var names := Names(ts, i);
    FindNames(ts, i);
    PrintedGood(synced, names);
    SplitPrinted(synced, names);
    if |FullPath(ts, synced, i)| >= PATH_MAX {
      FitClean(synced, names);
    }
    TokensOfJoin(names);
    JoinTail(names);
  }
}
