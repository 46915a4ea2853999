/** `walk_together` of wiggelen/wiggle.py: a lock-step walk over several
    walkers that yields, per `(region, position)`, one value slot per walker.
    A walker is the sequence of the records it yields. */
module Together {
  import opened Text
  import opened WigFormat

  /** One yielded triple `(region, position, values)`. */
  datatype Row<V> = Row(region: string, position: int, values: seq<Option<V>>)

  /** The rows yielded, and whether the walk ended raising 'The order of
      regions is not compatible'. */
  datatype Zipped<V> = Zipped(rows: seq<Row<V>>, incompatible: bool)

  // -----------------------------------------------------------------------
  // The lookahead list
  // -----------------------------------------------------------------------

  /** `next(walker)`, None once the walker is exhausted. */
  function Head<V>(w: seq<Item<V>>): Option<Item<V>> {
    if w == [] then None else Some(w[0])
  }

  /** The lookahead list `items` for the walkers' remaining records. */
  function Heads<V>(rest: seq<seq<Item<V>>>): (hs: seq<Option<Item<V>>>)
    ensures |hs| == |rest| && forall i :: 0 <= i < |rest| ==> hs[i] == Head(rest[i])
  {
    seq(|rest|, i requires 0 <= i < |rest| => Head(rest[i]))
  }

  /** `item is not None and item[0:2] == (region, position)`. */
  predicate Matches<V>(h: Option<Item<V>>, key: (string, int)) {
    h.Some? && h.value.region == key.0 && h.value.position == key.1
  }

  /** One step of `min(item[0:2] for item in items if item is not None)`: a
      lookahead replaces the best key so far when it is smaller. */
  function Better<V>(best: Option<(string, int)>, h: Option<Item<V>>): Option<(string, int)> {
    if h.None? then best
    else if best.None? || KeyLess(h.value.region, h.value.position, best.value.0, best.value.1) then
      Some((h.value.region, h.value.position))
    else best
  }

  /** The least key of the lookaheads that are not None; None when all are
      (the `not any(items)` exit). */
  function Least<V>(hs: seq<Option<Item<V>>>): (r: Option<(string, int)>)
    ensures r.None? <==> forall i :: 0 <= i < |hs| ==> hs[i].None?
    ensures r.Some? ==> exists i :: 0 <= i < |hs| && Matches(hs[i], r.value)
    ensures r.Some? ==> forall i :: 0 <= i < |hs| && hs[i].Some? ==>
              !KeyLess(hs[i].value.region, hs[i].value.position, r.value.0, r.value.1)
    decreases |hs|
  {
    if hs == [] then None
    else
      var init := hs[..|hs| - 1];
      var best := Least(init);
      assert forall i :: 0 <= i < |init| ==> init[i] == hs[i];
      var h := hs[|hs| - 1];
      if h.Some? && best.Some? && !KeyLess(h.value.region, h.value.position, best.value.0, best.value.1) then
        assert forall i :: 0 <= i < |hs| && hs[i].Some? ==>
          !KeyLess(hs[i].value.region, hs[i].value.position, best.value.0, best.value.1);
        Better(best, h)
      else if h.Some? then
        var k := (h.value.region, h.value.position);
        assert forall i :: 0 <= i < |init| && init[i].Some? ==>
          !KeyLess(init[i].value.region, init[i].value.position, k.0, k.1) by {
          forall i | 0 <= i < |init| && init[i].Some?
            ensures !KeyLess(init[i].value.region, init[i].value.position, k.0, k.1)
          {
            if KeyLess(init[i].value.region, init[i].value.position, k.0, k.1) {
              KeyLessTransitive(init[i].value.region, init[i].value.position, k.0, k.1, best.value.0, best.value.1);
              assert false;
            }
          }
        }
        KeyLessIrreflexive(k.0, k.1);
        Better(best, h)
      else
        Better(best, h)
  }

  /** The value slot of one lookahead at the emitted key. */
  function Slot<V>(h: Option<Item<V>>, key: (string, int)): Option<V> {
    if Matches(h, key) then Some(h.value.value) else None
  }

  /** The `values` list yielded at `key`. */
  function Values<V>(hs: seq<Option<Item<V>>>, key: (string, int)): (vs: seq<Option<V>>)
    ensures |vs| == |hs| && forall i :: 0 <= i < |hs| ==> vs[i] == Slot(hs[i], key)
  {
    seq(|hs|, i requires 0 <= i < |hs| => Slot(hs[i], key))
  }

  /** The walkers' remaining records after advancing exactly the lookaheads
      that matched `key`. */
  function Consume<V>(rest: seq<seq<Item<V>>>, key: (string, int)): (r: seq<seq<Item<V>>>)
    ensures |r| == |rest|
    ensures forall i :: 0 <= i < |rest| ==> r[i] == if Matches(Head(rest[i]), key) then rest[i][1..] else rest[i]
  {
    seq(|rest|, i requires 0 <= i < |rest| => if Matches(Head(rest[i]), key) then rest[i][1..] else rest[i])
  }

  /** The number of records the walkers have left. */
  function Size<V>(rest: seq<seq<Item<V>>>): nat
    decreases |rest|
  {
    if rest == [] then 0 else |rest[0]| + Size(rest[1..])
  }

  lemma {:induction false} ConsumeShrinks<V>(rest: seq<seq<Item<V>>>, key: (string, int))
    ensures Size(Consume(rest, key)) <= Size(rest)
    ensures (exists i :: 0 <= i < |rest| && Matches(Head(rest[i]), key)) ==> Size(Consume(rest, key)) < Size(rest)
    decreases |rest|
  {
    if rest != [] {
      var c := Consume(rest, key);
      assert c[1..] == Consume(rest[1..], key);
      ConsumeShrinks(rest[1..], key);
      if exists i :: 0 <= i < |rest| && Matches(Head(rest[i]), key) {
        var i :| 0 <= i < |rest| && Matches(Head(rest[i]), key);
        if i > 0 {
          assert Matches(Head(rest[1..][i - 1]), key);
        }
      }
    }
  }

  /** The key yielded next is one of the lookaheads', so the walk advances. */
  lemma StepShrinks<V>(rest: seq<seq<Item<V>>>, key: (string, int))
    requires Least(Heads(rest)) == Some(key)
    ensures Size(Consume(rest, key)) < Size(rest)
  {
    var i :| 0 <= i < |rest| && Matches(Heads(rest)[i], key);
    assert Matches(Head(rest[i]), key);
    ConsumeShrinks(rest, key);
  }

  // -----------------------------------------------------------------------
  // The walk, as a function
  // -----------------------------------------------------------------------

  /** The merge without the region-order check: the reference that
      `walk_together` follows as long as the regions stay compatible. */
  function MergeFrom<V>(rest: seq<seq<Item<V>>>): (rows: seq<Row<V>>)
    decreases Size(rest)
  {
    match Least(Heads(rest))
    case None => []
    case Some(key) =>
      StepShrinks(rest, key);
      [Row(key.0, key.1, Values(Heads(rest), key))] + MergeFrom(Consume(rest, key))
  }

  /** The loop of `walk_together` from the given remaining records, with
      the set `regions` seen so far and `previous_region`. */
  function ZipFrom<V>(rest: seq<seq<Item<V>>>, seen: set<string>, previous: Option<string>): Zipped<V>
    decreases Size(rest)
  {
    match Least(Heads(rest))
    case None => Zipped([], false)
    case Some(key) =>
      if Some(key.0) != previous && key.0 in seen then Zipped([], true)
      else
        StepShrinks(rest, key);
        var seen' := if Some(key.0) != previous then seen + {key.0} else seen;
        var next := ZipFrom(Consume(rest, key), seen', Some(key.0));
        Zipped([Row(key.0, key.1, Values(Heads(rest), key))] + next.rows, next.incompatible)
  }

  /** `walk_together(*walkers)`. */
  function WalkTogetherSpec<V>(walkers: seq<seq<Item<V>>>): Zipped<V> {
    ZipFrom(walkers, {}, None)
  }

  // -----------------------------------------------------------------------
  // The walk, as the loop the source runs
  // -----------------------------------------------------------------------

  /** The records not yet consumed when walker i's lookahead is its record
      `pos[i]` (None at the end). */
  function Rest<V>(walkers: seq<seq<Item<V>>>, pos: seq<nat>): (r: seq<seq<Item<V>>>)
    requires |pos| == |walkers| && forall i :: 0 <= i < |pos| ==> pos[i] <= |walkers[i]|
    ensures |r| == |walkers| && forall i :: 0 <= i < |r| ==> r[i] == walkers[i][pos[i]..]
  {
    seq(|walkers|, i requires 0 <= i < |walkers| => walkers[i][pos[i]..])
  }

  /** Rows already yielded, then what the walk yields from here on. */
  function Prepend<V>(rows: seq<Row<V>>, z: Zipped<V>): Zipped<V> {
    Zipped(rows + z.rows, z.incompatible)
  }

  /** `min(item[0:2] for item in items if item is not None)`. */
  method LeastKey<V>(items: seq<Option<Item<V>>>) returns (best: Option<(string, int)>)
    ensures best == Least(items)
  {
    best := None;
    for i := 0 to |items|
      invariant best == Least(items[..i])
    {
      assert items[..i + 1][..i] == items[..i];
      best := Better(best, items[i]);
    }
    assert items[..|items|] == items;
  }

  /** The list comprehension building `values`. */
  method SlotValues<V>(items: seq<Option<Item<V>>>, key: (string, int)) returns (values: seq<Option<V>>)
    ensures values == Values(items, key)
  {
    values := [];
    for i := 0 to |items|
      invariant |values| == i
      invariant forall k :: 0 <= k < i ==> values[k] == Slot(items[k], key)
    {
      var v := if items[i].Some? && items[i].value.region == key.0 && items[i].value.position == key.1
               then Some(items[i].value.value) else None;
      values := values + [v];
    }
  }

  /** The loop drawing the next record of every walker whose lookahead was
      just yielded. */
  method AdvanceMatched<V>(walkers: seq<seq<Item<V>>>, items: seq<Option<Item<V>>>, pos: seq<nat>, key: (string, int))
    returns (items': seq<Option<Item<V>>>, pos': seq<nat>)
    requires |pos| == |walkers| && forall i :: 0 <= i < |pos| ==> pos[i] <= |walkers[i]|
    requires items == Heads(Rest(walkers, pos))
    ensures |pos'| == |walkers| && forall i :: 0 <= i < |pos'| ==> pos'[i] <= |walkers[i]|
    ensures Rest(walkers, pos') == Consume(Rest(walkers, pos), key)
    ensures items' == Heads(Rest(walkers, pos'))
  {
    ghost var rest := Rest(walkers, pos);
    ghost var next := Consume(rest, key);
    items', pos' := items, pos;
    for i := 0 to |walkers|
      invariant |items'| == |pos'| == |walkers|
      invariant forall k :: 0 <= k < |pos'| ==> pos'[k] <= |walkers[k]|
      invariant forall k :: 0 <= k < i ==> walkers[k][pos'[k]..] == next[k] && items'[k] == Head(next[k])
      invariant forall k :: i <= k < |walkers| ==> pos'[k] == pos[k] && items'[k] == items[k]
    {
      if items'[i].Some? && items'[i].value.region == key.0 && items'[i].value.position == key.1 {
        assert Matches(Head(rest[i]), key);
        assert walkers[i][pos[i] + 1..] == rest[i][1..];
        pos' := pos'[i := pos'[i] + 1];
        items' := items'[i := Head(walkers[i][pos'[i]..])];
      }
    }
    assert Rest(walkers, pos') == next;
  }

  lemma PrependAssoc<V>(rows: seq<Row<V>>, row: Row<V>, z: Zipped<V>)
    ensures Prepend(rows, Prepend([row], z)) == Prepend(rows + [row], z)
  {
    assert rows + ([row] + z.rows) == (rows + [row]) + z.rows;
  }

  /** `walk_together(*walkers)`: the rows it yields, and whether it then
      raised on an incompatible region order. */
  method WalkTogether<V>(walkers: seq<seq<Item<V>>>) returns (rows: seq<Row<V>>, incompatible: bool)
    ensures Zipped(rows, incompatible) == WalkTogetherSpec(walkers)
  {
    var n := |walkers|;
    var items: seq<Option<Item<V>>> := [];
    var pos: seq<nat> := [];
    for i := 0 to n
      invariant |items| == |pos| == i
      invariant forall k :: 0 <= k < i ==> pos[k] == 0 && items[k] == Head(walkers[k])
    {
      items := items + [Head(walkers[i])];
      pos := pos + [0];
    }
    assert Rest(walkers, pos) == walkers;
    var regions: set<string> := {};
    var previous: Option<string> := None;
    rows := [];
    while true
      invariant |pos| == n && forall k :: 0 <= k < n ==> pos[k] <= |walkers[k]|
      invariant items == Heads(Rest(walkers, pos))
      invariant WalkTogetherSpec(walkers) == Prepend(rows, ZipFrom(Rest(walkers, pos), regions, previous))
      decreases Size(Rest(walkers, pos))
    {
      ghost var rest := Rest(walkers, pos);
      var least := LeastKey(items);
      if least.None? {
        assert rows + [] == rows;
        return rows, false;
      }
      var key := least.value;
      ghost var seen, last := regions, previous;
      if Some(key.0) != previous {
        if key.0 in regions {
          assert rows + [] == rows;
          return rows, true;
        }
        regions := regions + {key.0};
        previous := Some(key.0);
      }
      var values := SlotValues(items, key);
      ZipUnfold(rest, seen, last, key);
      PrependAssoc(rows, Row(key.0, key.1, values), ZipFrom(Consume(rest, key), regions, previous));
      rows := rows + [Row(key.0, key.1, values)];
      items, pos := AdvanceMatched(walkers, items, pos, key);
      StepShrinks(rest, key);
    }
  }

  // -----------------------------------------------------------------------
  // What the walk promises
  // -----------------------------------------------------------------------

  /** The records of walker i that the rows carry, in order. */
  function Project<V>(rows: seq<Row<V>>, i: nat): seq<Item<V>>
    decreases |rows|
  {
    if rows == [] then []
    else
      var r := rows[0];
      (if i < |r.values| && r.values[i].Some? then [Item(r.region, r.position, r.values[i].value)] else []) +
      Project(rows[1..], i)
  }

  /** Every record of every walker appears in exactly one row, in its own
      slot, in the walker's order. */
  lemma {:induction false} MergeProjects<V>(rest: seq<seq<Item<V>>>, i: nat)
    requires i < |rest|
    ensures Project(MergeFrom(rest), i) == rest[i]
    decreases Size(rest)
  {
    var hs := Heads(rest);
    match Least(hs)
    case None =>
      assert hs[i].None?;
    case Some(key) =>
      StepShrinks(rest, key);
      var next: seq<seq<Item<V>>> := Consume(rest, key);
      MergeUnfold(rest, key);
      ProjectCons(Row(key.0, key.1, Values(hs, key)), MergeFrom(next), i);
      MergeProjects(next, i);
      if Matches(hs[i], key) {
        ConsumeHead(rest[i], key);
      }
  }

  lemma ProjectCons<V>(r: Row<V>, rows: seq<Row<V>>, i: nat)
    ensures Project([r] + rows, i) ==
            (if i < |r.values| && r.values[i].Some? then [Item(r.region, r.position, r.values[i].value)] else []) + Project(rows, i)
  {
    assert ([r] + rows)[1..] == rows;
  }

  /** A walker whose next record matches the key is that record followed by
      the rest. */
  lemma ConsumeHead<V>(w: seq<Item<V>>, key: (string, int))
    requires Matches(Head(w), key)
    ensures w == [Item(key.0, key.1, w[0].value)] + w[1..]
  {
  }

  /** Every row holds at least one walker's value, and its key is the least
      lookahead key. */
  lemma MergeRowKey<V>(rest: seq<seq<Item<V>>>)
    requires MergeFrom(rest) != []
    ensures var r := MergeFrom(rest)[0];
            && (exists i :: 0 <= i < |rest| && r.values[i].Some?)
            && forall i :: 0 <= i < |rest| && rest[i] != [] ==> !KeyLess(rest[i][0].region, rest[i][0].position, r.region, r.position)
  {
    var hs := Heads(rest);
    var key := Least(hs).value;
    var i :| 0 <= i < |hs| && Matches(hs[i], key);
    assert MergeFrom(rest)[0].values[i] == Slot(hs[i], key);
    forall j | 0 <= j < |rest| && rest[j] != []
      ensures !KeyLess(rest[j][0].region, rest[j][0].position, key.0, key.1)
    {
      LeastHead(hs, key, j);
    }
  }

  lemma LeastHead<V>(hs: seq<Option<Item<V>>>, key: (string, int), j: nat)
    requires Least(hs) == Some(key) && j < |hs| && hs[j].Some?
    ensures !KeyLess(hs[j].value.region, hs[j].value.position, key.0, key.1)
  {
  }

  /** The regions of some rows form contiguous blocks: a region once left
      does not come back. */
  predicate Grouped<V>(rows: seq<Row<V>>) {
    forall i, j, k :: 0 <= i < j < k < |rows| && rows[i].region == rows[k].region ==> rows[j].region == rows[i].region
  }

  function RegionsOf<V>(rows: seq<Row<V>>): set<string> {
    set j | 0 <= j < |rows| :: rows[j].region
  }

  function LastRegion<V>(rows: seq<Row<V>>): Option<string> {
    if rows == [] then None else Some(rows[|rows| - 1].region)
  }

  /** Appending a row keeps the blocks contiguous exactly when the row stays
      in the last region or opens one not seen before. */
  lemma GroupedSnoc<V>(done: seq<Row<V>>, row: Row<V>)
    requires Grouped(done)
    requires Some(row.region) == LastRegion(done) || row.region !in RegionsOf(done)
    ensures Grouped(done + [row])
  {
    var all := done + [row];
    forall i, j, k | 0 <= i < j < k < |all| && all[i].region == all[k].region
      ensures all[j].region == all[i].region
    {
      if k == |done| {
        assert all[i] == done[i];
        assert done[i].region in RegionsOf(done);
        if j < |done| - 1 {
          assert all[j] == done[j] && done[|done| - 1].region == row.region;
          assert done[i].region == done[|done| - 1].region;
        }
      } else {
        assert all[i] == done[i] && all[j] == done[j] && all[k] == done[k];
      }
    }
  }

  /** A region that comes back after another one breaks the blocks, whatever
      follows. */
  lemma NotGroupedWhenRevisited<V>(done: seq<Row<V>>, rows: seq<Row<V>>)
    requires rows != [] && rows[0].region in RegionsOf(done) && Some(rows[0].region) != LastRegion(done)
    ensures !Grouped(done + rows)
  {
    var all := done + rows;
    var i :| 0 <= i < |done| && done[i].region == rows[0].region;
    var j := |done| - 1;
    assert all[i] == done[i] && all[j] == done[j] && all[|done|] == rows[0];
    assert i < j;
  }

  lemma MergeUnfold<V>(rest: seq<seq<Item<V>>>, key: (string, int))
    requires Least(Heads(rest)) == Some(key)
    ensures MergeFrom(rest) == [Row(key.0, key.1, Values(Heads(rest), key))] + MergeFrom(Consume(rest, key))
  {
  }

  lemma ZipUnfold<V>(rest: seq<seq<Item<V>>>, seen: set<string>, previous: Option<string>, key: (string, int))
    requires Least(Heads(rest)) == Some(key)
    requires Some(key.0) == previous || key.0 !in seen
    ensures var next := ZipFrom(Consume(rest, key), if Some(key.0) != previous then seen + {key.0} else seen, Some(key.0));
            ZipFrom(rest, seen, previous) == Zipped([Row(key.0, key.1, Values(Heads(rest), key))] + next.rows, next.incompatible)
  {
  }

  lemma SnocAssoc<T>(a: seq<T>, x: T, b: seq<T>)
    ensures (a + [x]) + b == a + ([x] + b)
  {
  }

  lemma PrefixCons<T>(x: T, a: seq<T>, b: seq<T>)
    requires a <= b
    ensures [x] + a <= [x] + b
  {
  }

  lemma RegionsSnoc<V>(done: seq<Row<V>>, row: Row<V>)
    ensures RegionsOf(done + [row]) == RegionsOf(done) + {row.region}
    ensures LastRegion(done + [row]) == Some(row.region)
  {
    var all := done + [row];
    assert forall j :: 0 <= j < |done| ==> all[j] == done[j];
    assert all[|done|] == row;
  }

  /** The loop follows the check-free merge row for row; it raises exactly
      when the merge would come back to a region it had left, and otherwise
      yields the whole merge. */
  lemma {:induction false} ZipFollowsMerge<V>(rest: seq<seq<Item<V>>>, done: seq<Row<V>>)
    requires Grouped(done)
    ensures var z := ZipFrom(rest, RegionsOf(done), LastRegion(done));
            && z.rows <= MergeFrom(rest)
            && (z.incompatible <==> !Grouped(done + MergeFrom(rest)))
            && (!z.incompatible ==> z.rows == MergeFrom(rest))
    decreases Size(rest)
  {
    var seen, previous := RegionsOf(done), LastRegion(done);
    match Least(Heads(rest))
    case None =>
      assert done + [] == done;
    case Some(key) =>
      StepShrinks(rest, key);
      var row := Row(key.0, key.1, Values(Heads(rest), key));
      var m := MergeFrom(rest);
      MergeUnfold(rest, key);
      if Some(key.0) != previous && key.0 in seen {
        NotGroupedWhenRevisited(done, m);
      } else {
        var done' := done + [row];
        GroupedSnoc(done, row);
        RegionsSnoc(done, row);
        if Some(key.0) == previous {
          assert done[|done| - 1].region in seen;
          assert RegionsOf(done') == seen;
        }
        ZipUnfold(rest, seen, previous, key);
        ZipFollowsMerge(Consume(rest, key), done');
        SnocAssoc(done, row, MergeFrom(Consume(rest, key)));
        PrefixCons(row, ZipFrom(Consume(rest, key), RegionsOf(done'), Some(key.0)).rows, MergeFrom(Consume(rest, key)));
      }
  }

  /** `walk_together` raises exactly when the merged walk leaves a region and
      comes back to it; otherwise it yields the merged walk. */
  lemma WalkTogetherMerges<V>(walkers: seq<seq<Item<V>>>)
    ensures var z := WalkTogetherSpec(walkers);
            && (z.incompatible <==> !Grouped(MergeFrom(walkers)))
            && (!z.incompatible ==> z.rows == MergeFrom(walkers))
            && z.rows <= MergeFrom(walkers)
  {
    var empty: seq<Row<V>> := [];
    assert RegionsOf(empty) == {};
    assert empty + MergeFrom(walkers) == MergeFrom(walkers);
    ZipFollowsMerge(walkers, empty);
  }

  /** The rows yielded before any error are a prefix of the merged walk. */
  lemma WalkTogetherPrefix<V>(walkers: seq<seq<Item<V>>>)
    ensures WalkTogetherSpec(walkers).rows <= MergeFrom(walkers)
  {
    WalkTogetherMerges(walkers);
  }

  /** So without the error every walker is recovered from its slot. */
  lemma WalkTogetherProjects<V>(walkers: seq<seq<Item<V>>>, i: nat)
    requires i < |walkers| && !WalkTogetherSpec(walkers).incompatible
    ensures Project(WalkTogetherSpec(walkers).rows, i) == walkers[i]
    ensures forall j :: 0 <= j < |WalkTogetherSpec(walkers).rows| ==> |WalkTogetherSpec(walkers).rows[j].values| == |walkers|
  {
    WalkTogetherMerges(walkers);
    MergeProjects(walkers, i);
    MergeWidth(walkers);
  }

  /** Every row has one slot per walker. */
  lemma {:induction false} MergeWidth<V>(rest: seq<seq<Item<V>>>)
    ensures Width(MergeFrom(rest), |rest|)
    decreases Size(rest)
  {
    match Least(Heads(rest))
    case None =>
    case Some(key) =>
      StepShrinks(rest, key);
      MergeUnfold(rest, key);
      MergeWidth(Consume(rest, key));
      WidthCons(Row(key.0, key.1, Values(Heads(rest), key)), MergeFrom(Consume(rest, key)), |rest|);
  }

  predicate Width<V>(rows: seq<Row<V>>, n: nat) {
    forall j :: 0 <= j < |rows| ==> |rows[j].values| == n
  }

  lemma WidthCons<V>(row: Row<V>, rows: seq<Row<V>>, n: nat)
    requires |row.values| == n && Width(rows, n)
    ensures Width([row] + rows, n)
  {
    assert forall j :: 1 <= j <= |rows| ==> ([row] + rows)[j] == rows[j - 1];
  }

  /** A walker yields its records in increasing `(region, position)` order. */
  predicate SortedWalker<V>(w: seq<Item<V>>) {
    forall i, j :: 0 <= i < j < |w| ==> KeyLess(w[i].region, w[i].position, w[j].region, w[j].position)
  }

  predicate SortedRows<V>(rows: seq<Row<V>>) {
    forall i, j :: 0 <= i < j < |rows| ==> KeyLess(rows[i].region, rows[i].position, rows[j].region, rows[j].position)
  }

  /** Every record left lies above the key `lo`. */
  predicate Above<V>(rest: seq<seq<Item<V>>>, lo: (string, int)) {
    forall i, j :: 0 <= i < |rest| && 0 <= j < |rest[i]| ==> KeyLess(lo.0, lo.1, rest[i][j].region, rest[i][j].position)
  }

  /** Every row lies above the key `lo`. */
  predicate RowsAbove<V>(rows: seq<Row<V>>, lo: (string, int)) {
    forall j :: 0 <= j < |rows| ==> KeyLess(lo.0, lo.1, rows[j].region, rows[j].position)
  }

  /** Advancing some walkers drops records only, so what lay above `lo`
      still does. */
  lemma ConsumeKeepsAbove<V>(rest: seq<seq<Item<V>>>, key: (string, int), lo: (string, int))
    requires Above(rest, lo)
    ensures Above(Consume(rest, key), lo)
  {
    var next: seq<seq<Item<V>>> := Consume(rest, key);
    forall i: int, j: int | 0 <= i < |next| && 0 <= j < |next[i]|
      ensures KeyLess(lo.0, lo.1, next[i][j].region, next[i][j].position)
    {
      if Matches(Head(rest[i]), key) {
        assert next[i][j] == rest[i][j + 1];
      } else {
        assert next[i][j] == rest[i][j];
      }
    }
  }

  /** The key yielded is a record's, so it lies above what the records lie
      above. */
  lemma LeastAbove<V>(rest: seq<seq<Item<V>>>, key: (string, int), lo: (string, int))
    requires Least(Heads(rest)) == Some(key)
    requires Above(rest, lo)
    ensures KeyLess(lo.0, lo.1, key.0, key.1)
  {
    var i :| 0 <= i < |rest| && Matches(Heads(rest)[i], key);
    assert rest[i][0].region == key.0 && rest[i][0].position == key.1;
  }

  lemma RowsAboveCons<V>(row: Row<V>, tail: seq<Row<V>>, lo: (string, int))
    requires KeyLess(lo.0, lo.1, row.region, row.position) && RowsAbove(tail, lo)
    ensures RowsAbove([row] + tail, lo)
  {
    var rows := [row] + tail;
    assert forall j :: 0 < j < |rows| ==> rows[j] == tail[j - 1];
  }

  /** Rows take their keys from the records, so they lie above any key the
      records lie above. */
  lemma {:induction false} MergeAbove<V>(rest: seq<seq<Item<V>>>, lo: (string, int))
    requires Above(rest, lo)
    ensures RowsAbove(MergeFrom(rest), lo)
    decreases Size(rest)
  {
    match Least(Heads(rest))
    case None =>
    case Some(key) =>
      StepShrinks(rest, key);
      MergeUnfold(rest, key);
      LeastAbove(rest, key, lo);
      ConsumeKeepsAbove(rest, key, lo);
      MergeAbove(Consume(rest, key), lo);
      RowsAboveCons(Row(key.0, key.1, Values(Heads(rest), key)), MergeFrom(Consume(rest, key)), lo);
  }

  /** After a step every record left lies above the key just yielded. */
  lemma ConsumeAbove<V>(rest: seq<seq<Item<V>>>, key: (string, int))
    requires Least(Heads(rest)) == Some(key)
    requires forall i :: 0 <= i < |rest| ==> SortedWalker(rest[i])
    ensures Above(Consume(rest, key), key)
    ensures forall i :: 0 <= i < |rest| ==> SortedWalker(Consume(rest, key)[i])
  {
    var next: seq<seq<Item<V>>> := Consume(rest, key);
    var hs := Heads(rest);
    forall i: int, j: int | 0 <= i < |next| && 0 <= j < |next[i]|
      ensures KeyLess(key.0, key.1, next[i][j].region, next[i][j].position)
    {
      var h := rest[i][0];
      assert hs[i] == Some(h);
      if Matches(hs[i], key) {
        assert next[i][j] == rest[i][j + 1];
      } else {
        KeyLessTotal(h.region, h.position, key.0, key.1);
        if j > 0 {
          assert next[i][j] == rest[i][j];
          KeyLessTransitive(key.0, key.1, h.region, h.position, rest[i][j].region, rest[i][j].position);
        }
      }
    }
    forall i | 0 <= i < |rest| ensures SortedWalker(next[i]) {
      if Matches(Head(rest[i]), key) {
        assert forall j :: 0 <= j < |next[i]| ==> next[i][j] == rest[i][j + 1];
      }
    }
  }

  lemma SortedCons<V>(row: Row<V>, tail: seq<Row<V>>)
    requires SortedRows(tail) && RowsAbove(tail, (row.region, row.position))
    ensures SortedRows([row] + tail)
  {
    var rows := [row] + tail;
    forall i, j | 0 <= i < j < |rows|
      ensures KeyLess(rows[i].region, rows[i].position, rows[j].region, rows[j].position)
    {
      assert rows[j] == tail[j - 1];
      if i > 0 {
        assert rows[i] == tail[i - 1];
      }
    }
  }

  /** When every walker is sorted, so are the rows. */
  lemma {:induction false} MergeSorted<V>(rest: seq<seq<Item<V>>>)
    requires forall i :: 0 <= i < |rest| ==> SortedWalker(rest[i])
    ensures SortedRows(MergeFrom(rest))
    decreases Size(rest)
  {
    match Least(Heads(rest))
    case None =>
    case Some(key) =>
      StepShrinks(rest, key);
      MergeUnfold(rest, key);
      ConsumeAbove(rest, key);
      MergeAbove(Consume(rest, key), key);
      MergeSorted(Consume(rest, key));
      SortedCons(Row(key.0, key.1, Values(Heads(rest), key)), MergeFrom(Consume(rest, key)));
  }

  /** So the walk yields sorted rows from sorted walkers. */
  lemma WalkTogetherSorted<V>(walkers: seq<seq<Item<V>>>)
    requires forall i :: 0 <= i < |walkers| ==> SortedWalker(walkers[i])
    ensures SortedRows(WalkTogetherSpec(walkers).rows)
  {
    WalkTogetherMerges(walkers);
    MergeSorted(walkers);
    SortedPrefix(WalkTogetherSpec(walkers).rows, MergeFrom(walkers));
  }

  lemma SortedPrefix<V>(rows: seq<Row<V>>, m: seq<Row<V>>)
    requires rows <= m && SortedRows(m)
    ensures SortedRows(rows)
  {
    assert forall j :: 0 <= j < |rows| ==> rows[j] == m[j];
  }
}
