/** Facts about sequences that several modules need. */
module Sequences {

  /** The parts of something, put together. */
  function Flatten<T>(parts: seq<seq<T>>): seq<T> {
    if parts == [] then [] else parts[0] + Flatten(parts[1..])
  }

  lemma {:induction false} FlattenConcat<T>(a: seq<seq<T>>, b: seq<seq<T>>)
    ensures Flatten(a + b) == Flatten(a) + Flatten(b)
    decreases |a|
  {
    if a == [] {
      assert a + b == b;
    } else {
      assert (a + b)[1..] == a[1..] + b;
      FlattenConcat(a[1..], b);
    }
  }

  lemma FlattenNext<T>(parts: seq<seq<T>>, i: nat)
    requires i < |parts|
    ensures Flatten(parts[..i + 1]) == Flatten(parts[..i]) + parts[i]
  {
    assert parts[..i + 1] == parts[..i] + [parts[i]];
    FlattenConcat(parts[..i], [parts[i]]);
    assert Flatten([parts[i]]) == parts[i] + Flatten([]);
  }

  lemma FlattenPrefix<T>(parts: seq<seq<T>>, i: nat)
    requires i <= |parts|
    ensures Flatten(parts[..i]) <= Flatten(parts)
  {
    assert parts == parts[..i] + parts[i..];
    FlattenConcat(parts[..i], parts[i..]);
  }

  lemma Assoc<T>(a: seq<T>, b: seq<T>, c: seq<T>)
    ensures a + b + c == a + (b + c)
  {
  }
}
