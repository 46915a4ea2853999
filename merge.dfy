/** wiggelen/merge.py: a reducer applied to the values list of every
    position `walk_together` yields. Values are read as exact reals; the
    rounding of Python floats is not modelled. */
module Reducers {
  import opened Text
  import opened WigFormat

  // -----------------------------------------------------------------------
  // The reducers
  // -----------------------------------------------------------------------

  /** `_merger_sum`: the sum of the defined values, as floats. */
  function Sum(vs: seq<Option<Number>>): real
    decreases |vs|
  {
    if vs == [] then 0.0
    else (if vs[0].Some? then ToReal(vs[0].value) else 0.0) + Sum(vs[1..])
  }

  /** `_merger_count`: the number of defined values. */
  function Count<V>(vs: seq<Option<V>>): (n: nat)
    ensures n <= |vs|
    decreases |vs|
  {
    if vs == [] then 0 else (if vs[0].Some? then 1 else 0) + Count(vs[1..])
  }

  /** `_merger_mean`: the sum divided by the number of slots, undefined ones
      counting as 0; None where the division by `len(vs)` raises
      ZeroDivisionError. */
  function Mean(vs: seq<Option<Number>>): (m: Option<real>)
    ensures m.None? <==> vs == []
  {
    if vs == [] then None else Some(Ratio(Sum(vs), |vs|))
  }

  /** The mean times the number of slots is the sum. */
  lemma MeanScales(vs: seq<Option<Number>>)
    requires vs != []
    ensures Mean(vs).value * (|vs| as real) == Sum(vs)
  {
    assert Mean(vs).value == Ratio(Sum(vs), |vs|);
  }

  /** Float division by a positive count. */
  function Ratio(s: real, n: nat): (q: real)
    requires n > 0
    ensures q * (n as real) == s
  {
    s / (n as real)
  }

  // -----------------------------------------------------------------------
  // What the reducers promise
  // -----------------------------------------------------------------------

  /** The sums of two lists of slots add up. */
  lemma {:induction false} SumAppend(a: seq<Option<Number>>, b: seq<Option<Number>>)
    ensures Sum(a + b) == Sum(a) + Sum(b)
    decreases |a|
  {
    if a == [] {
      assert a + b == b;
    } else {
      assert (a + b)[0] == a[0] && (a + b)[1..] == a[1..] + b;
      SumAppend(a[1..], b);
    }
  }

  /** Undefined slots add nothing: all undefined gives 0. */
  lemma {:induction false} SumAllUndefined(vs: seq<Option<Number>>)
    requires forall i :: 0 <= i < |vs| ==> vs[i].None?
    ensures Sum(vs) == 0.0
    decreases |vs|
  {
    if vs != [] {
      SumAllUndefined(vs[1..]);
    }
  }

  /** The sum is the sum over the defined values only. */
  function Defined(vs: seq<Option<Number>>): (ds: seq<Number>)
    ensures |ds| == Count(vs)
    decreases |vs|
  {
    if vs == [] then [] else (if vs[0].Some? then [vs[0].value] else []) + Defined(vs[1..])
  }

  function Total(ds: seq<Number>): real
    decreases |ds|
  {
    if ds == [] then 0.0 else ToReal(ds[0]) + Total(ds[1..])
  }

  lemma {:induction false} TotalAppend(a: seq<Number>, b: seq<Number>)
    ensures Total(a + b) == Total(a) + Total(b)
    decreases |a|
  {
    if a == [] {
      assert a + b == b;
    } else {
      assert (a + b)[0] == a[0] && (a + b)[1..] == a[1..] + b;
      TotalAppend(a[1..], b);
    }
  }

  lemma {:induction false} SumIsTotalOfDefined(vs: seq<Option<Number>>)
    ensures Sum(vs) == Total(Defined(vs))
    decreases |vs|
  {
    if vs != [] {
      SumIsTotalOfDefined(vs[1..]);
      var head := if vs[0].Some? then [vs[0].value] else [];
      TotalAppend(head, Defined(vs[1..]));
      if vs[0].Some? {
        assert head[1..] == [];
      }
    }
  }

  /** The count is 0 exactly when no slot is defined, and the number of
      slots exactly when all are. */
  lemma {:induction false} CountBounds<V>(vs: seq<Option<V>>)
    ensures Count(vs) == 0 <==> forall i :: 0 <= i < |vs| ==> vs[i].None?
    ensures Count(vs) == |vs| <==> forall i :: 0 <= i < |vs| ==> vs[i].Some?
    decreases |vs|
  {
    if vs != [] {
      CountBounds(vs[1..]);
      assert forall i :: 1 <= i < |vs| ==> vs[i] == vs[1..][i - 1];
    }
  }
}

/** `merge` itself: the reducer mapped over the rows of `walk_together`. */
module Merge {
  import opened Text
  import opened WigFormat
  import opened Together
  import opened Reducers

  // -----------------------------------------------------------------------
  // `merge`
  // -----------------------------------------------------------------------

  /** `merge(*walkers, merger=...)` on the rows `walk_together` yields: one
      triple per row, with the reduced values. */
  function MergeRows<V, W>(rows: seq<Row<V>>, merger: seq<Option<V>> -> W): (out: seq<Item<W>>)
    ensures |out| == |rows|
    ensures forall i :: 0 <= i < |rows| ==>
              out[i].region == rows[i].region && out[i].position == rows[i].position && out[i].value == merger(rows[i].values)
  {
    seq(|rows|, i requires 0 <= i < |rows| => Item(rows[i].region, rows[i].position, merger(rows[i].values)))
  }

  /** The merged triples, and whether `walk_together` raised on an
      incompatible region order. */
  datatype Merged<W> = Merged(items: seq<Item<W>>, incompatible: bool)

  function MergeWalkers<V, W>(walkers: seq<seq<Item<V>>>, merger: seq<Option<V>> -> W): Merged<W> {
    var z := WalkTogetherSpec(walkers);
    Merged(MergeRows(z.rows, merger), z.incompatible)
  }

  /** `merger` defaults to the sum. */
  function MergeDefault(walkers: seq<seq<Item<Number>>>): Merged<real> {
    MergeWalkers(walkers, Sum)
  }

  lemma DefaultIsSum(walkers: seq<seq<Item<Number>>>)
    ensures forall i :: 0 <= i < |MergeDefault(walkers).items| ==>
              MergeDefault(walkers).items[i].value == Sum(WalkTogetherSpec(walkers).rows[i].values)
  {
  }

  /** Every position `walk_together` yields has a value in at least one
      track, so the count reducer gives between 1 and the number of tracks
      there (MergeItem: the merged value is the reducer on that row). */
  lemma MergedCounts<V>(walkers: seq<seq<Item<V>>>)
    ensures var rows := WalkTogetherSpec(walkers).rows;
            forall i :: 0 <= i < |rows| ==> 1 <= Count(rows[i].values) <= |walkers|
  {
    var rows := WalkTogetherSpec(walkers).rows;
    var all := MergeFrom(walkers);
    WalkTogetherPrefix(walkers);
    MergeAllCounted(walkers);
    MergeWidth(walkers);
    forall i | 0 <= i < |rows| ensures 1 <= Count(rows[i].values) <= |walkers| {
      PrefixIndex(rows, all, i);
      assert Counted(all[i]) && |all[i].values| == |walkers|;
    }
  }

  /** Each merged triple carries the position of its row and the reduced
      values. */
  lemma MergeItem<V, W>(walkers: seq<seq<Item<V>>>, merger: seq<Option<V>> -> W, i: nat)
    requires i < |MergeWalkers(walkers, merger).items|
    ensures var row := WalkTogetherSpec(walkers).rows[i];
            var it := MergeWalkers(walkers, merger).items[i];
            it == Item(row.region, row.position, merger(row.values))
  {
  }

  lemma PrefixIndex<T>(a: seq<T>, b: seq<T>, i: nat)
    requires a <= b && i < |a|
    ensures i < |b| && a[i] == b[i]
  {
  }

  /** A row counts at least one value. */
  predicate Counted<V>(r: Row<V>) {
    1 <= Count(r.values)
  }

  predicate AllCounted<V>(rows: seq<Row<V>>) {
    forall i :: 0 <= i < |rows| ==> Counted(rows[i])
  }

  lemma AllCountedCons<V>(r: Row<V>, rows: seq<Row<V>>)
    requires Counted(r) && AllCounted(rows)
    ensures AllCounted([r] + rows)
  {
    var all := [r] + rows;
    forall i | 0 <= i < |all| ensures Counted(all[i]) {
      if i > 0 {
        assert all[i] == rows[i - 1];
      }
    }
  }

  /** Every row of the merge counts at least one value: the step that makes
      it consumes a record. */
  lemma {:induction false} MergeAllCounted<V>(rest: seq<seq<Item<V>>>)
    ensures AllCounted(MergeFrom(rest))
    decreases Size(rest)
  {
    match Least(Heads(rest))
    case None =>
    case Some(key) =>
      StepShrinks(rest, key);
      MergeUnfold(rest, key);
      var r := Row(key.0, key.1, Values(Heads(rest), key));
      ConsumeCounts(rest, key);
      MergeAllCounted(Consume(rest, key));
      AllCountedCons(r, MergeFrom(Consume(rest, key)));
  }

  /** The number of records the walkers hold. */
  function Counts<V>(rows: seq<Row<V>>): nat
    decreases |rows|
  {
    if rows == [] then 0 else Count(rows[0].values) + Counts(rows[1..])
  }

  /** One step drops exactly the records it yields. */
  lemma {:induction false} ConsumeCounts<V>(rest: seq<seq<Item<V>>>, key: (string, int))
    ensures Size(rest) == Size(Consume(rest, key)) + Count(Values(Heads(rest), key))
    decreases |rest|
  {
    if rest != [] {
      var c := Consume(rest, key);
      var vs := Values(Heads(rest), key);
      assert c[1..] == Consume(rest[1..], key);
      assert vs[1..] == Values(Heads(rest[1..]), key);
      ConsumeCounts(rest[1..], key);
    }
  }

  /** The counts of the merged walk add up to the number of records: every
      record is counted once. */
  lemma {:induction false} MergeCountsRecords<V>(rest: seq<seq<Item<V>>>)
    ensures Counts(MergeFrom(rest)) == Size(rest)
    decreases Size(rest)
  {
    match Least(Heads(rest))
    case None =>
      SizeOfExhausted(rest);
    case Some(key) =>
      StepShrinks(rest, key);
      MergeUnfold(rest, key);
      var rows := MergeFrom(rest);
      assert rows[1..] == MergeFrom(Consume(rest, key));
      MergeCountsRecords(Consume(rest, key));
      ConsumeCounts(rest, key);
  }

  lemma {:induction false} SizeOfExhausted<V>(rest: seq<seq<Item<V>>>)
    requires Least(Heads(rest)).None?
    ensures Size(rest) == 0
    decreases |rest|
  {
    if rest != [] {
      assert Heads(rest)[0].None?;
      assert forall i :: 0 <= i < |rest[1..]| ==> Heads(rest[1..])[i] == Heads(rest)[i + 1];
      SizeOfExhausted(rest[1..]);
    }
  }

  /** So when the regions are compatible, merging with the count reducer
      accounts for every record of every track exactly once. */
  lemma MergedCountsAddUp<V>(walkers: seq<seq<Item<V>>>)
    requires !WalkTogetherSpec(walkers).incompatible
    ensures Counts(WalkTogetherSpec(walkers).rows) == Size(walkers)
  {
    WalkTogetherMerges(walkers);
    MergeCountsRecords(walkers);
  }
}
