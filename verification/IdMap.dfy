/** The map from the topic ids of a replicated bus to local topics (event_queue.c): an array kept sorted by
    insertion and searched by bisection refines a finite map that only ever grows. */
module IdMap {

  datatype Pair = Pair(srcId: nat, dst: nat)
  datatype MapRv = MapOk | MapNoMatch | MapFull | MapKeyExists

  ghost predicate Sorted(ps: seq<Pair>) {
    forall i, j :: 0 <= i < j < |ps| ==> ps[i].srcId < ps[j].srcId
  }

  /** The finite map a sorted array stands for. */
  function AsMap(ps: seq<Pair>): map<nat, nat> {
    if ps == [] then map[]
    else
      var n := |ps| - 1;
      AsMap(ps[..n])[ps[n].srcId := ps[n].dst]
  }

  /** The keys of the map are the keys of the pairs. */
  lemma {:induction false} KeyAt(ps: seq<Pair>, key: nat) returns (i: nat)
    requires key in AsMap(ps)
    ensures i < |ps| && ps[i].srcId == key
  {
    var n := |ps| - 1;
    if ps[n].srcId == key {
      i := n;
    } else {
      i := KeyAt(ps[..n], key);
    }
  }

  lemma {:induction false} PairAt(ps: seq<Pair>, i: nat)
    requires Sorted(ps) && i < |ps|
    ensures ps[i].srcId in AsMap(ps) && AsMap(ps)[ps[i].srcId] == ps[i].dst
  {
    var n := |ps| - 1;
    if i < n {
      PairAt(ps[..n], i);
    }
  }

  lemma {:induction false} MapSize(ps: seq<Pair>)
    requires Sorted(ps)
    ensures |AsMap(ps)| == |ps|
  {
    if ps != [] {
      var n := |ps| - 1;
      MapSize(ps[..n]);
      if ps[n].srcId in AsMap(ps[..n]) {
        var i := KeyAt(ps[..n], ps[n].srcId);
        assert false;
      }
    }
  }

  /** What one map_add_pair answers and leaves: a full map refuses everything, any other refuses exactly
      the keys it has. */
  function Add(m: map<nat, nat>, size: nat, key: nat, dst: nat): (MapRv, map<nat, nat>) {
    if |m| >= size then (MapFull, m)
    else if key in m then (MapKeyExists, m)
    else (MapOk, m[key := dst])
  }

  /** `ps` with a pair inserted at `i`. */
  function Inserted(ps: seq<Pair>, i: nat, p: Pair): seq<Pair>
    requires i <= |ps|
  {
    ps[..i] + [p] + ps[i..]
  }

  lemma InsertedSorted(ps: seq<Pair>, i: nat, p: Pair)
    requires Sorted(ps) && i <= |ps|
    requires i > 0 ==> ps[i - 1].srcId < p.srcId
    requires i < |ps| ==> p.srcId < ps[i].srcId
    ensures Sorted(Inserted(ps, i, p))
  {
    var us := Inserted(ps, i, p);
    assert forall k :: 0 <= k < |us| ==> us[k] == if k < i then ps[k] else if k == i then p else ps[k - 1];
  }

  lemma {:induction false} InsertedMap(ps: seq<Pair>, i: nat, p: Pair)
    requires Sorted(ps) && i <= |ps| && p.srcId !in AsMap(ps)
    ensures AsMap(Inserted(ps, i, p)) == AsMap(ps)[p.srcId := p.dst]
  {
    var us := Inserted(ps, i, p);
    var n := |ps|;
    if i == n {
      assert us[..n] == ps && us[n] == p;
    } else {
      var front, last := ps[..n - 1], ps[n - 1];
      InsertedMap(front, i, p);
      assert us[..n] == Inserted(front, i, p) && us[n] == last;
      assert AsMap(ps) == AsMap(front)[last.srcId := last.dst];
      assert AsMap(us) == AsMap(front)[p.srcId := p.dst][last.srcId := last.dst];
    }
  }

  class TopicIdMap {
    const records: array<Pair>
    var recordsNum: nat

    ghost predicate Valid()
      reads this, records
    {
      recordsNum <= records.Length && Sorted(records[..recordsNum])
    }

    /** The finite map. */
    function Contents(): map<nat, nat>
      reads this, records
      requires Valid()
    {
      AsMap(records[..recordsNum])
    }

    /** map_alloc. */
    constructor (size: nat)
      ensures Valid() && fresh(records) && records.Length == size && Contents() == map[]
    {
      records := new Pair[size](_ => Pair(0, 0));
      recordsNum := 0;
    }

    /** map_find_index. */
    method FindIndex(key: nat) returns (rv: MapRv, mid: int)
      requires Valid()
      ensures rv == if key in Contents() then MapOk else MapNoMatch
      ensures rv == MapOk ==> 0 <= mid < recordsNum && records[mid].srcId == key
    {
      var l, r: int := 0, recordsNum - 1;
      mid := r;
      rv := MapNoMatch;
      while r >= l
        invariant 0 <= l <= r + 1 <= recordsNum
        invariant forall i :: 0 <= i < l ==> records[..recordsNum][i].srcId < key
        invariant forall i :: r < i < recordsNum ==> records[..recordsNum][i].srcId > key
        decreases r - l
      {
        mid := l + (r - l) / 2;
        if records[mid].srcId == key {
          PairAt(records[..recordsNum], mid);
          return MapOk, mid;
        } else if records[mid].srcId > key {
          r := mid - 1;
        } else {
          l := mid + 1;
        }
      }
      if key in Contents() {
        var i := KeyAt(records[..recordsNum], key);
        assert false;
      }
    }

    /** add_pair: larger keys move up one place, the new pair takes the place that is left. */
    method AddPair(key: nat, dst: nat)
      requires Valid() && recordsNum < records.Length && key !in Contents()
      modifies this`recordsNum, records
      ensures Valid() && Contents() == old(Contents())[key := dst] && recordsNum == old(recordsNum) + 1
    {
      hide AsMap;
      ghost var ps := records[..recordsNum];
      var i := MakeRoom(key);
      records[i] := Pair(key, dst);
      recordsNum := recordsNum + 1;
      assert records[..recordsNum] == Inserted(ps, i, Pair(key, dst));
      if i > 0 {
        PairAt(ps, i - 1);
      }
      InsertedSorted(ps, i, Pair(key, dst));
      InsertedMap(ps, i, Pair(key, dst));
    }

    /** The loop of add_pair. */
    method MakeRoom(key: nat) returns (i: nat)
      requires recordsNum < records.Length
      modifies records
      ensures i <= recordsNum
      ensures forall k :: 0 <= k < i ==> records[k] == old(records[k])
      ensures forall k :: i < k <= recordsNum ==> records[k] == old(records[k - 1])
      ensures i > 0 ==> old(records[i - 1].srcId) <= key
      ensures i < recordsNum ==> old(records[i].srcId) > key
    {
      i := recordsNum;
      while i > 0 && records[i - 1].srcId > key
        invariant 0 <= i <= recordsNum
        invariant forall k :: 0 <= k < i ==> records[k] == old(records[k])
        invariant forall k :: i < k <= recordsNum ==> records[k] == old(records[k - 1])
        invariant i < recordsNum ==> old(records[i].srcId) > key
      {
        records[i] := records[i - 1];
        i := i - 1;
      }
    }

    /** map_add_pair. */
    method MapAddPair(key: nat, dst: nat) returns (rv: MapRv)
      requires Valid()
      modifies this`recordsNum, records
      ensures Valid() && (rv, Contents()) == Add(old(Contents()), records.Length, key, dst)
      ensures rv == MapFull <==> |old(Contents())| >= records.Length
      ensures rv == MapKeyExists <==> |old(Contents())| < records.Length && key in old(Contents())
      ensures Contents() == if rv == MapOk then old(Contents())[key := dst] else old(Contents())
    {
      MapSize(records[..recordsNum]);
      if recordsNum >= records.Length {
        return MapFull;
      }
      var mid;
      rv, mid := FindIndex(key);
      if rv == MapOk {
        return MapKeyExists;
      }
      AddPair(key, dst);
      rv := MapOk;
    }

    /** map_find. */
    method MapFind(key: nat) returns (rv: MapRv, dst: nat)
      requires Valid()
      ensures rv == if key in Contents() then MapOk else MapNoMatch
      ensures rv == MapOk ==> dst == Contents()[key]
    {
      var i;
      dst := 0;
      rv, i := FindIndex(key);
      if rv == MapOk {
        PairAt(records[..recordsNum], i);
        dst := records[i].dst;
      }
    }
  }

  // ------------------------------------------------------------------ runs

  function AddAll(m: map<nat, nat>, size: nat, ps: seq<Pair>): map<nat, nat>
    decreases |ps|
  {
    if ps == [] then m else AddAll(Add(m, size, ps[0].srcId, ps[0].dst).1, size, ps[1..])
  }

  /** The first pair with the key, as its index, or the number of pairs. */
  function FirstWith(ps: seq<Pair>, key: nat): (i: nat)
    ensures i <= |ps| && (i < |ps| ==> ps[i].srcId == key) && forall k :: 0 <= k < i ==> ps[k].srcId != key
  {
    if ps == [] || ps[0].srcId == key then 0 else
    var i := FirstWith(ps[1..], key);
    assert forall k :: 0 < k < i + 1 ==> ps[k] == ps[1..][k - 1];
    i + 1
  }

  /** Whatever is added, in whatever order: what the map had stays, and as long as there is room for all
      keys, the map holds exactly the keys that were added, each with the value it first came with. */
  lemma {:induction false} RunRefinesMap(m: map<nat, nat>, size: nat, ps: seq<Pair>, key: nat)
    ensures var r := AddAll(m, size, ps);
            && (key in m ==> key in r && r[key] == m[key])
            && (key in r && key !in m ==> FirstWith(ps, key) < |ps|)
            && (|m| <= size ==> |r| <= size)
            && (|r| < size ==> (key in r <==> key in m || FirstWith(ps, key) < |ps|))
            && (key in r && key !in m && |r| < size ==> r[key] == ps[FirstWith(ps, key)].dst)
    decreases |ps|
  {
    if ps != [] {
      var m1 := Add(m, size, ps[0].srcId, ps[0].dst).1;
      RunRefinesMap(m1, size, ps[1..], key);
      SizeGrows(m1, size, ps[1..]);
    }
  }

  lemma {:induction false} SizeGrows(m: map<nat, nat>, size: nat, ps: seq<Pair>)
    ensures |m| <= |AddAll(m, size, ps)|
    decreases |ps|
  {
    if ps != [] {
      SizeGrows(Add(m, size, ps[0].srcId, ps[0].dst).1, size, ps[1..]);
    }
  }
}
