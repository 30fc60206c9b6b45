/** Topic paths: normalising, checking and splitting the text of a connection point (api.c). */
module Paths {

  const PATH_MAX := 100

  datatype PathRv = PathOk | PathTooLong | InvNaming | InvBusSpec
  datatype BusType = NotDefined | NonSynced | InterThread | InterProcess
  datatype Parsed = Parsed(typ: BusType, busName: string, localPath: string)

  predicate IsAlnum(c: char) {
    'a' <= c <= 'z' || 'A' <= c <= 'Z' || '0' <= c <= '9'
  }

  // ------------------------------------------------------------------ normalising

  /** Runs of slashes become one slash. */
  function Collapse(p: string, afterSlash: bool): string {
    if p == "" then ""
    else if p[0] == '/' && afterSlash then Collapse(p[1..], true)
    else [p[0]] + Collapse(p[1..], p[0] == '/')
  }

  lemma CollapseSkip(p: string, i: nat)
    requires i < |p| && p[i] == '/'
    ensures Collapse(p[i..], true) == Collapse(p[i + 1..], true)
  {
    assert p[i..][1..] == p[i + 1..];
  }

  lemma CollapseCopy(p: string, i: nat, afterSlash: bool, n: string)
    requires i < |p| && !(p[i] == '/' && afterSlash)
    ensures n + Collapse(p[i..], afterSlash) == n + [p[i]] + Collapse(p[i + 1..], p[i] == '/')
  {
    assert p[i..][1..] == p[i + 1..];
  }

  lemma CollapseEnd(p: string, i: nat, afterSlash: bool, n: string)
    requires i <= |p|
    ensures i == |p| ==> n + Collapse(p[i..], afterSlash) == n
  {
  }

  /** normalize_path; `n` is what has been copied. */
  method NormalizePath(p: string) returns (rv: PathRv, n: string)
    ensures rv == if |Collapse(p, false)| < PATH_MAX then PathOk else PathTooLong
    ensures rv == PathOk ==> n == Collapse(p, false)
  {
    var gotSlash := false;
    var cnt := PATH_MAX;
    var i := 0;
    n := "";
    ghost var whole := Collapse(p, false);
    assert p[0..] == p && n + whole == whole;
    hide Collapse;
    while i < |p| && cnt > 0
      invariant 0 <= i <= |p| && 0 <= cnt && |n| + cnt == PATH_MAX
      invariant n + Collapse(p[i..], gotSlash) == whole
      decreases |p| - i
    {
      if p[i] == '/' && gotSlash {
        CollapseSkip(p, i);
        i := i + 1;
      } else {
        CollapseCopy(p, i, gotSlash, n);
        gotSlash := p[i] == '/';
        n := n + [p[i]];
        i := i + 1;
        cnt := cnt - 1;
      }
    }
    CollapseEnd(p, i, gotSlash, n);
    rv := if cnt <= 0 then PathTooLong else PathOk;
  }

  // ------------------------------------------------------------------ checking

  predicate PathChar(c: char) {
    c == '.' || c == '_' || c == '/' || c == ':' || IsAlnum(c)
  }

  /** No slash and no other colon precedes a colon. */
  predicate GoodPath(p: string) {
    && p != "" && (IsAlnum(p[0]) || p[0] == '/')
    && (forall i :: 0 <= i < |p| ==> PathChar(p[i]))
    && (forall i, j :: 0 <= i < j < |p| && p[j] == ':' ==> p[i] != ':' && p[i] != '/')
  }

  /** check_path. */
  method CheckPath(p: string) returns (good: bool)
    ensures good == GoodPath(p)
  {
    if p == "" || (!IsAlnum(p[0]) && p[0] != '/') {
      return false;
    }
    var hasColon, gotFirstSlash := false, false;
    var i := 0;
    while i < |p|
      invariant 0 <= i <= |p|
      invariant forall k :: 0 <= k < i ==> PathChar(p[k])
      invariant hasColon == exists k :: 0 <= k < i && p[k] == ':'
      invariant gotFirstSlash == exists k :: 0 <= k < i && p[k] == '/'
      invariant forall k, j :: 0 <= k < j < i && p[j] == ':' ==> p[k] != ':' && p[k] != '/'
    {
      if p[i] == '/' {
        gotFirstSlash := true;
      } else if p[i] == ':' {
        if gotFirstSlash || hasColon {
          return false;
        }
        hasColon := true;
      } else if p[i] != '.' && p[i] != '_' && !IsAlnum(p[i]) {
        return false;
      }
      i := i + 1;
    }
    good := true;
  }

  function BusTypeOf(acr: string): BusType {
    if acr == "nsb" then NonSynced
    else if acr == "itb" then InterThread
    else if acr == "ipb" then InterProcess
    else NotDefined
  }

  // ------------------------------------------------------------------ parsing

  /** `k` is where `c` occurs first in `s`, or the length of `s`. */
  predicate FirstAt(s: string, c: char, k: nat) {
    && k <= |s| && (k < |s| ==> s[k] == c)
    && forall i :: 0 <= i < k ==> s[i] != c
  }

  predicate SpecAt(s: string, k: nat) {
    k + 1 < |s| && s[k] == ':' && s[k + 1] == '/'
  }

  /** `k` is where ":/" occurs first in `s`, or the length of `s`. */
  predicate FirstSpecAt(s: string, k: nat) {
    k <= |s| && (k < |s| ==> SpecAt(s, k)) && forall i :: 0 <= i < k ==> !SpecAt(s, i)
  }

  function SpecIndex(s: string): (k: nat)
    ensures FirstSpecAt(s, k)
  {
    if s == "" || SpecAt(s, 0) then 0
    else
      var k := SpecIndex(s[1..]);
      assert forall i: nat :: 0 < i < k + 1 ==> SpecAt(s, i) == SpecAt(s[1..], i - 1);
      k + 1
  }

  function SlashAt(s: string): (k: nat)
    ensures FirstAt(s, '/', k)
  {
    if s == "" || s[0] == '/' then 0
    else
      var k := SlashAt(s[1..]);
      assert forall i :: 0 < i < k + 1 ==> s[i] == s[1..][i - 1];
      k + 1
  }

  /** What a normalised path says: an optional bus type in front of ":/", then the local path, which
      starts with the name of the bus. */
  function Split(n: string): Parsed {
    var k := SpecIndex(n);
    var local := if k < |n| then n[k + 2..] else n;
    Parsed(if k < |n| then BusTypeOf(n[..k]) else NotDefined, local[..SlashAt(local)], local)
  }

  const NOTHING := Parsed(NotDefined, "", "")

  /** eswb_parse_path as a function. */
  function Parse(p: string): (PathRv, Parsed) {
    var n := Collapse(p, false);
    if |n| >= PATH_MAX then (PathTooLong, NOTHING)
    else if !GoodPath(n) then (InvNaming, NOTHING)
    else if SpecIndex(n) < |n| && Split(n).typ == NotDefined then (InvBusSpec, NOTHING)
    else (PathOk, Split(n))
  }

  /** eswb_parse_path. */
  method ParsePath(p: string) returns (rv: PathRv, r: Parsed)
    ensures (rv, r) == Parse(p)
  {
    r := NOTHING;
    var n;
    rv, n := NormalizePath(p);
    if rv != PathOk {
      return;
    }
    var good := CheckPath(n);
    if !good {
      rv := InvNaming;
      return;
    }
    var k := FindSpec(n);
    SameSpec(n, k, SpecIndex(n));
    var typ, rest := NotDefined, n;
    if k < |n| {
      typ := BusTypeOf(n[..k]);
      if typ == NotDefined {
        rv := InvBusSpec;
        return;
      }
      rest := n[k + 2..];
    }
    var l := FindChar(rest, '/');
    SameFirst(rest, '/', l, SlashAt(rest));
    r := Parsed(typ, rest[..l], rest);
  }

  lemma SameSpec(n: string, j: nat, k: nat)
    requires FirstSpecAt(n, j) && FirstSpecAt(n, k)
    ensures j == k
  {
  }

  /** strstr for ":/". */
  method FindSpec(s: string) returns (k: nat)
    ensures FirstSpecAt(s, k)
  {
    k := 0;
    while k < |s| && !(k + 1 < |s| && s[k] == ':' && s[k + 1] == '/')
      invariant k <= |s| && forall i :: 0 <= i < k ==> !SpecAt(s, i)
    {
      k := k + 1;
    }
  }

  /** strchr. */
  method FindChar(s: string, c: char) returns (k: nat)
    ensures FirstAt(s, c, k)
  {
    k := 0;
    while k < |s| && s[k] != c
      invariant k <= |s| && forall i :: 0 <= i < k ==> s[i] != c
    {
      k := k + 1;
    }
  }

  // ------------------------------------------------------------------ tokens

  /** What repeated strtok_r with delimiter "/" yields. */
  function Tokens(s: string): seq<string>
    decreases |s|
  {
    if s == "" then []
    else if s[0] == '/' then Tokens(s[1..])
    else [s[..SlashAt(s)]] + Tokens(s[SlashAt(s)..])
  }

  /** strtok_r: skip slashes, then take everything up to the next one. `rest` is what remains. */
  method NextToken(s: string) returns (found: bool, token: string, rest: string)
    ensures found == (Tokens(s) != [])
    ensures found ==> Tokens(s) == [token] + Tokens(rest) && |rest| < |s|
  {
    var i := 0;
    while i < |s| && s[i] == '/'
      invariant 0 <= i <= |s| && Tokens(s[i..]) == Tokens(s)
    {
      i := i + 1;
    }
    found, token, rest := false, "", "";
    if i < |s| {
      var k := FindChar(s[i..], '/');
      SameFirst(s[i..], '/', k, SlashAt(s[i..]));
      found, token, rest := true, s[i..][..k], s[i..][k..];
    }
  }

  lemma SameFirst(s: string, c: char, j: nat, k: nat)
    requires FirstAt(s, c, j) && FirstAt(s, c, k)
    ensures j == k
  {
  }
}
