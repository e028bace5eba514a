/** What the operators have in common: rows that come in batches, and limits. */
module Batches {

  const NO_LIMIT := -1

  /** The first rows, as many as the limit allows. */
  function Limited<T>(limit: int, rows: seq<T>): seq<T> {
    if limit == NO_LIMIT || |rows| <= limit then rows else rows[..if limit < 0 then 0 else limit]
  }

  function Flatten<T>(batches: seq<seq<T>>): seq<T> {
    if batches == [] then [] else batches[0] + Flatten(batches[1..])
  }

  lemma {:induction false} FlattenAppend<T>(batches: seq<seq<T>>, batch: seq<T>)
    ensures Flatten(batches + [batch]) == Flatten(batches) + batch
    decreases |batches|
  {
    if batches != [] {
      assert (batches + [batch])[1..] == batches[1..] + [batch];
      FlattenAppend(batches[1..], batch);
    } else {
      assert [batch][1..] == [];
    }
  }

  lemma FlattenFrom<T>(batches: seq<seq<T>>, b: nat)
    requires b < |batches|
    ensures Flatten(batches[b..]) == batches[b] + Flatten(batches[b + 1..])
  {
    assert batches[b..][1..] == batches[b + 1..];
  }

  lemma {:induction false} FlattenSplit<T>(batches: seq<seq<T>>, n: nat)
    requires n <= |batches|
    ensures Flatten(batches) == Flatten(batches[..n]) + Flatten(batches[n..])
    decreases n
  {
    if n == 0 {
      assert batches[0..] == batches;
    } else {
      FlattenSplit(batches, n - 1);
      FlattenFrom(batches, n - 1);
      assert batches[..n] == batches[..n - 1] + [batches[n - 1]];
      FlattenAppend(batches[..n - 1], batches[n - 1]);
    }
  }
}
