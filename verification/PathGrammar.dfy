/** Which texts are paths, and what normalising and parsing make of them. */
module PathGrammar {

  import opened Paths

  // ------------------------------------------------------------------ acceptance

  /** Letters, digits, dots and underscores. */
  predicate Word(s: string) {
    forall k :: 0 <= k < |s| ==> s[k] == '.' || s[k] == '_' || IsAlnum(s[k])
  }

  /** The same and slashes. */
  predicate Route(s: string) {
    forall k :: 0 <= k < |s| ==> s[k] == '.' || s[k] == '_' || s[k] == '/' || IsAlnum(s[k])
  }

  /** A path is a route, or a word, a colon and a route; it begins with a letter, a digit or a slash. */
  lemma AcceptedExactly(p: string)
    ensures GoodPath(p) <==>
              && p != "" && (IsAlnum(p[0]) || p[0] == '/')
              && (Route(p) || exists k :: 0 < k < |p| && p[k] == ':' && Word(p[..k]) && Route(p[k + 1..]))
  {
    if GoodPath(p) && !Route(p) {
      var k :| 0 <= k < |p| && p[k] == ':';
      assert 0 < k && Word(p[..k]) && Route(p[k + 1..]);
    }
    if k :| 0 < k < |p| && p[k] == ':' && Word(p[..k]) && Route(p[k + 1..]) {
      PartsAreAll(p, k);
    }
  }

  lemma PartsAreAll(p: string, k: nat)
    requires 0 < k < |p| && p[k] == ':' && Word(p[..k]) && Route(p[k + 1..])
    ensures forall i :: 0 <= i < |p| ==> PathChar(p[i]) && (i < k ==> p[i] != '/') && (p[i] == ':' <==> i == k)
  {
    forall i | 0 <= i < |p|
      ensures PathChar(p[i]) && (i < k ==> p[i] != '/') && (p[i] == ':' <==> i == k)
    {
      if i < k {
        assert p[..k][i] == p[i];
      } else if i > k {
        assert p[k + 1..][i - (k + 1)] == p[i];
      }
    }
  }

  // ------------------------------------------------------------------ normalising

  predicate NoDoubleSlash(s: string) {
    forall k :: 0 <= k < |s| - 1 ==> s[k] != '/' || s[k + 1] != '/'
  }

  lemma CollapseStep(p: string, afterSlash: bool)
    requires p != ""
    ensures Collapse(p, afterSlash) == if p[0] == '/' && afterSlash then Collapse(p[1..], true)
                                       else [p[0]] + Collapse(p[1..], p[0] == '/')
  {
  }

  /** Normalising leaves no two slashes side by side, and none in front behind a slash. */
  lemma {:induction false} CollapsedSingle(p: string, afterSlash: bool)
    ensures var n := Collapse(p, afterSlash);
            NoDoubleSlash(n) && (n != "" && afterSlash ==> n[0] != '/')
    decreases |p|
  {
    if p != "" {
      CollapseStep(p, afterSlash);
      CollapsedSingle(p[1..], p[0] == '/' || (p[0] == '/' && afterSlash));
    }
  }

  /** Up to the first slash nothing changes. */
  lemma {:induction false} CollapseHead(p: string)
    ensures SlashAt(Collapse(p, false)) == SlashAt(p)
    ensures Collapse(p, false)[..SlashAt(p)] == p[..SlashAt(p)]
    ensures Collapse(p, false)[SlashAt(p)..] == Collapse(p[SlashAt(p)..], false)
    decreases |p|
  {
    if p != "" && p[0] != '/' {
      CollapseStep(p, false);
      CollapseHead(p[1..]);
      SlashStep(p);
      SlashStep(Collapse(p, false));
      var k := SlashAt(p[1..]);
      assert Collapse(p, false)[1..] == Collapse(p[1..], false);
      assert p[1..][k..] == p[k + 1..] && p[1..][..k] == p[1..k + 1];
    } else if p != "" {
      CollapseStep(p, false);
    }
  }

  lemma SlashStep(s: string)
    requires s != "" && s[0] != '/'
    ensures SlashAt(s) == SlashAt(s[1..]) + 1
  {
  }

  lemma TokensStep(s: string)
    requires s != ""
    ensures Tokens(s) == if s[0] == '/' then Tokens(s[1..]) else [s[..SlashAt(s)]] + Tokens(s[SlashAt(s)..])
    ensures s[0] != '/' ==> SlashAt(s) > 0
  {
  }

  /** Normalising changes none of the names in a path. */
  lemma {:induction false} CollapseKeepsTokens(p: string, afterSlash: bool)
    ensures Tokens(Collapse(p, afterSlash)) == Tokens(p)
    decreases |p|
  {
    if p == "" {
    } else if p[0] == '/' {
      CollapseStep(p, afterSlash);
      CollapseKeepsTokens(p[1..], true);
      TokensStep(p);
      if !afterSlash {
        TokensStep(Collapse(p, afterSlash));
        assert Collapse(p, afterSlash)[1..] == Collapse(p[1..], true);
      }
    } else {
      CollapseStep(p, afterSlash);
      CollapseStep(p, false);
      CollapseHead(p);
      TokensStep(p);
      TokensStep(Collapse(p, false));
      CollapseKeepsTokens(p[SlashAt(p)..], false);
    }
  }

  // ------------------------------------------------------------------ parsing

  /** The kinds of bus and the words for them. */
  function KindNamed(word: string): BusType {
    match word
    case "nsb" => NonSynced
    case "itb" => InterThread
    case "ipb" => InterProcess
    case _ => NotDefined
  }

  lemma {:induction false} SinglesStay(p: string, afterSlash: bool)
    requires NoDoubleSlash(p) && (p != "" && afterSlash ==> p[0] != '/')
    ensures Collapse(p, afterSlash) == p
    decreases |p|
  {
    if p != "" {
      assert forall k :: 0 <= k < |p[1..]| ==> p[1..][k] == p[k + 1];
      SinglesStay(p[1..], p[0] == '/');
    }
  }

  lemma KindsAgree(word: string)
    ensures BusTypeOf(word) == KindNamed(word)
  {
  }

  /** The kind in front of ":/" and the route behind it. */
  predicate KindAt(p: string, k: nat) {
    && 0 < k && k + 2 <= |p| && p[k] == ':' && p[k + 1] == '/'
    && IsAlnum(p[0]) && Word(p[..k]) && Route(p[k + 1..]) && NoDoubleSlash(p[k + 1..])
  }

  lemma KindInOrder(p: string, k: nat)
    requires KindAt(p, k)
    ensures Collapse(p, false) == p && GoodPath(p) && SpecIndex(p) == k
  {
    PartsAreAll(p, k);
    NoDoubles(p, k);
    SinglesStay(p, false);
    AcceptedExactly(p);
    assert FirstSpecAt(p, k);
    SameSpec(p, SpecIndex(p), k);
  }

  lemma KindParsed(p: string, k: nat)
    requires KindAt(p, k) && |p| < 100
    ensures var word, route := p[..k], p[k + 2..];
            Parse(p) == if KindNamed(word) == NotDefined then (InvBusSpec, NOTHING)
                        else (PathOk, Parsed(KindNamed(word), route[..SlashAt(route)], route))
  {
    KindInOrder(p, k);
    KindsAgree(p[..k]);
    hide Collapse, GoodPath, SpecIndex, SlashAt, KindAt, BusTypeOf, KindNamed;
  }

  /** A normalised path with a kind of bus: the kind must be one of the three words, and the rest is the route,
      whose first part names the bus. */
  lemma WithKind(word: string, route: string)
    requires word != "" && IsAlnum(word[0]) && Word(word) && Route(route) && NoDoubleSlash("/" + route)
    requires |word| + 2 + |route| < 100
    ensures Parse(word + (":/" + route)) ==
              if KindNamed(word) == NotDefined then (InvBusSpec, NOTHING)
              else (PathOk, Parsed(KindNamed(word), route[..SlashAt(route)], route))
  {
    var rest := ":/" + route;
    var p, k := word + rest, |word|;
    hide Parse, KindNamed, SlashAt, IsAlnum;
    assert p[..k] == word && p[k..] == rest && p[k] == rest[0] && p[k + 1] == rest[1];
    assert p[k + 1..] == rest[1..] && rest[1..] == "/" + route && p[k + 2..] == rest[2..] && rest[2..] == route;
    KindParsed(p, k);
  }

  lemma NoDoubles(p: string, k: nat)
    requires k < |p| && NoDoubleSlash(p[k + 1..]) && p[k] != '/' && forall i :: 0 <= i < k ==> p[i] != '/'
    ensures NoDoubleSlash(p)
  {
    forall i | k < i < |p| - 1
      ensures p[i] != '/' || p[i + 1] != '/'
    {
      assert p[k + 1..][i - (k + 1)] == p[i] && p[k + 1..][i - k] == p[i + 1];
    }
  }

  /** A normalised route alone stands for any kind of bus. */
  lemma WithoutKind(route: string)
    requires route != "" && (IsAlnum(route[0]) || route[0] == '/') && Route(route) && NoDoubleSlash(route)
    requires |route| < 100
    ensures Parse(route) == (PathOk, Parsed(NotDefined, route[..SlashAt(route)], route))
  {
    SinglesStay(route, false);
    AcceptedExactly(route);
    assert FirstSpecAt(route, |route|);
    SameSpec(route, SpecIndex(route), |route|);
    hide Collapse, GoodPath, SpecIndex, SlashAt, FirstSpecAt;
  }

  /** Which texts are refused: those of a hundred characters or more once normalised, then those that are no
      paths, then those with another word for the kind of bus. */
  lemma RefusedExactly(p: string)
    ensures var (rv, r) := Parse(p);
            var n := Collapse(p, false);
            && (rv == PathTooLong <==> |n| >= 100)
            && (rv == InvNaming <==> |n| < 100 && !GoodPath(n))
            && (rv == InvBusSpec <==>
                  && |n| < 100 && GoodPath(n)
                  && exists k :: 0 <= k < |n| && FirstSpecAt(n, k) && KindNamed(n[..k]) == NotDefined)
            && (rv != PathOk ==> r == NOTHING)
  {
    var n := Collapse(p, false);
    var k := SpecIndex(n);
    if k < |n| {
      KindsAgree(n[..k]);
    }
    forall j | 0 <= j < |n| && FirstSpecAt(n, j)
      ensures j == k
    {
      SameSpec(n, j, k);
    }
    hide Collapse, GoodPath, FirstSpecAt, KindNamed, BusTypeOf;
  }
}
