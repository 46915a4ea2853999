/** wiggelen/transform.py: derivatives of a walk by divided differences
    over a sliding window of records. Values are exact reals (true
    division: the module imports `division` from `__future__`). */
module Transform {
  import opened Text
  import opened WigFormat

  /** `_BACKWARD`, `_FORWARD`, `_CENTRAL`. */
  datatype Direction = Backward | Forward | Central

  /** `queue_size`: three records for the central difference, two otherwise. */
  function QueueSize(d: Direction): (n: nat)
    ensures 2 <= n <= 3
  {
    if d == Central then 3 else 2
  }

  /** `current`: the record of the window the derivative is reported at. */
  function Current(d: Direction): (c: nat)
    ensures c < QueueSize(d)
  {
    if d == Forward then 0 else 1
  }

  /** The `deque(maxlen=size)` after the first `n` records were appended:
      the last of them, at most `size`. */
  function Queue(w: seq<Item<real>>, size: nat, n: nat): (q: seq<Item<real>>)
    requires n <= |w|
    ensures |q| == if n < size then n else size
  {
    var lo := if n < size then 0 else n - size;
    w[lo..n]
  }

  /** `step` as a Python truth value: `None` and `0` are false. */
  predicate Truthy(step: Option<int>) {
    step.Some? && step.value != 0
  }

  /** Every pair of adjacent positions in the window is `step` apart. */
  predicate GapsAre<V>(q: seq<Item<V>>, step: int) {
    forall k :: 0 <= k < |q| - 1 ==> q[k + 1].position - q[k].position == step
  }

  /** The `continue` condition: the window is not full, its first and last
      regions differ, or a truthy step is not kept. */
  predicate Skipped<V>(q: seq<Item<V>>, size: nat, step: Option<int>) {
    |q| != size || q == [] || q[|q| - 1].region != q[0].region || (Truthy(step) && !GapsAre(q, step.value))
  }

  /** `step` after the auto-step initialisation for this window. */
  function NextStep<V>(q: seq<Item<V>>, step: Option<int>, autoStep: bool): Option<int> {
    if step.None? && autoStep && |q| > 1 then Some(q[1].position - q[0].position) else step
  }

  /** The triple yielded for a window. */
  function Derivative(q: seq<Item<real>>, current: nat): Item<real>
    requires current < |q| && q[|q| - 1].position != q[0].position
  {
    var dv := q[|q| - 1].value - q[0].value;
    var dp := q[|q| - 1].position - q[0].position;
    Item(q[current].region, q[current].position, dv / (dp as real))
  }

  /** The triples yielded, and whether a division by zero (a window whose
      first and last positions coincide) ended the walk. */
  datatype Derived = Derived(items: seq<Item<real>>, zeroDivision: bool)

  function Prepend(items: seq<Item<real>>, d: Derived): Derived {
    Derived(items + d.items, d.zeroDivision)
  }

  /** `queue.append(item)` on a `deque(maxlen=size)`. */
  function Push(q: seq<Item<real>>, it: Item<real>, size: nat): seq<Item<real>> {
    if |q| + 1 > size then (q + [it])[1..] else q + [it]
  }

  /** The loop of `_divided_difference` from record `i` on, with `step` as
      it is before that record. */
  function DiffFrom(w: seq<Item<real>>, d: Direction, step: Option<int>, autoStep: bool, i: nat, queue: seq<Item<real>>): Derived
    requires i <= |w|
    decreases |w| - i
  {
    if i == |w| then Derived([], false)
    else
      var q := Push(queue, w[i], QueueSize(d));
      var st := NextStep(q, step, autoStep);
      if Skipped(q, QueueSize(d), st) then DiffFrom(w, d, st, autoStep, i + 1, q)
      else if q[|q| - 1].position == q[0].position then Derived([], true)
      else Prepend([Derivative(q, Current(d))], DiffFrom(w, d, st, autoStep, i + 1, q))
  }

  /** `list(_divided_difference(walker, direction, step, auto_step))`. */
  function Differences(w: seq<Item<real>>, d: Direction, step: Option<int>, autoStep: bool): Derived {
    DiffFrom(w, d, step, autoStep, 0, [])
  }

  // -----------------------------------------------------------------------
  // A reference: the windows as slices, the step fixed up front
  // -----------------------------------------------------------------------

  /** The `size` records ending at record `e`. */
  function Window(w: seq<Item<real>>, size: nat, e: nat): (q: seq<Item<real>>)
    requires 0 < size && size - 1 <= e < |w|
    ensures |q| == size
  {
    w[e + 1 - size..e + 1]
  }

  /** A full window the derivative is defined for: its ends share a region
      and, under a truthy step, every gap is the step. */
  predicate Admissible(q: seq<Item<real>>, step: Option<int>) {
    q != [] && q[|q| - 1].region == q[0].region && (Truthy(step) ==> GapsAre(q, step.value))
  }

  /** The step in effect once two records were seen: with `auto_step` and
      no step given it is the gap between the first two positions. */
  function FixedStep(w: seq<Item<real>>, step: Option<int>, autoStep: bool): (s: Option<int>)
    ensures s.None? ==> step.None?
    ensures step.Some? ==> s == step
  {
    if step.None? && autoStep && |w| >= 2 then Some(w[1].position - w[0].position) else step
  }

  /** The windows ending at record `e` and later, in order: a derivative for
      each admissible one, until one whose ends share a position. */
  function Windowed(w: seq<Item<real>>, d: Direction, step: Option<int>, e: nat): Derived
    requires QueueSize(d) - 1 <= e
    decreases |w| - e
  {
    if e >= |w| then Derived([], false)
    else
      var q := Window(w, QueueSize(d), e);
      if !Admissible(q, step) then Windowed(w, d, step, e + 1)
      else if q[|q| - 1].position == q[0].position then Derived([], true)
      else Prepend([Derivative(q, Current(d))], Windowed(w, d, step, e + 1))
  }

  /** After `n < |w|` records the deque holds the last `size` of them. */
  lemma QueueNext(w: seq<Item<real>>, size: nat, n: nat)
    requires n < |w|
    ensures Queue(w, size, n + 1) == Push(Queue(w, size, n), w[n], size)
  {
  }

  /** One record of the loop, with the deque `q` and the step `st` after
      that record. */
  lemma DiffFromUnfold(w: seq<Item<real>>, d: Direction, step: Option<int>, autoStep: bool, i: nat, queue: seq<Item<real>>, q: seq<Item<real>>, st: Option<int>)
    requires i < |w| && q == Push(queue, w[i], QueueSize(d)) && st == NextStep(q, step, autoStep)
    ensures DiffFrom(w, d, step, autoStep, i, queue) ==
              if Skipped(q, QueueSize(d), st) then DiffFrom(w, d, st, autoStep, i + 1, q)
              else if q[|q| - 1].position == q[0].position then Derived([], true)
              else Prepend([Derivative(q, Current(d))], DiffFrom(w, d, st, autoStep, i + 1, q))
  {
  }

  /** One window of the reference. */
  lemma WindowedUnfold(w: seq<Item<real>>, d: Direction, step: Option<int>, e: nat, q: seq<Item<real>>)
    requires QueueSize(d) - 1 <= e < |w| && q == Window(w, QueueSize(d), e)
    ensures Windowed(w, d, step, e) ==
              if !Admissible(q, step) then Windowed(w, d, step, e + 1)
              else if q[|q| - 1].position == q[0].position then Derived([], true)
              else Prepend([Derivative(q, Current(d))], Windowed(w, d, step, e + 1))
  {
  }

  /** From record `i` on, with the step no longer changing, the loop yields
      what the reference yields from the first full window at or after
      record `i`. */
  lemma {:induction false} DiffFromWindowed(w: seq<Item<real>>, d: Direction, step: Option<int>, autoStep: bool, i: nat, queue: seq<Item<real>>)
    requires i <= |w| && queue == Queue(w, QueueSize(d), i)
    requires i == |w| || step.Some? || !autoStep
    ensures DiffFrom(w, d, step, autoStep, i, queue) == Windowed(w, d, step, if i < QueueSize(d) - 1 then QueueSize(d) - 1 else i)
    decreases |w| - i
  {
    var size := QueueSize(d);
    if i < |w| {
      QueueNext(w, size, i);
      var q := Queue(w, size, i + 1);
      DiffFromUnfold(w, d, step, autoStep, i, queue, q, step);
      DiffFromWindowed(w, d, step, autoStep, i + 1, q);
      if i + 1 < size {
        assert Skipped(q, size, step);
      } else {
        assert q == Window(w, size, i);
        WindowedUnfold(w, d, step, i, q);
        assert Skipped(q, size, step) <==> !Admissible(q, step);
      }
    }
  }

  /** Two steps that agree once the deque holds record `i` give the same
      loop from there. */
  lemma DiffFromSameStep(w: seq<Item<real>>, d: Direction, step: Option<int>, s: Option<int>, autoStep: bool, i: nat, queue: seq<Item<real>>)
    requires i < |w|
    requires NextStep(Push(queue, w[i], QueueSize(d)), step, autoStep) == s
    requires NextStep(Push(queue, w[i], QueueSize(d)), s, autoStep) == s
    ensures DiffFrom(w, d, step, autoStep, i, queue) == DiffFrom(w, d, s, autoStep, i, queue)
  {
    var q := Push(queue, w[i], QueueSize(d));
    DiffFromUnfold(w, d, step, autoStep, i, queue, q, s);
    DiffFromUnfold(w, d, s, autoStep, i, queue, q, s);
  }

  /** The first record only fills the deque. */
  lemma FirstRecord(w: seq<Item<real>>, d: Direction, step: Option<int>, autoStep: bool)
    requires |w| > 0
    ensures Differences(w, d, step, autoStep) == DiffFrom(w, d, step, autoStep, 1, Queue(w, QueueSize(d), 1))
  {
    QueueNext(w, QueueSize(d), 0);
    DiffFromUnfold(w, d, step, autoStep, 0, [], Queue(w, QueueSize(d), 1), step);
  }

  /** The deque after two records fixes the step, and keeps it fixed. */
  lemma SecondStep(w: seq<Item<real>>, size: nat, step: Option<int>, autoStep: bool)
    requires |w| > 1 && 2 <= size
    ensures NextStep(Queue(w, size, 2), step, autoStep) == FixedStep(w, step, autoStep)
    ensures NextStep(Queue(w, size, 2), FixedStep(w, step, autoStep), autoStep) == FixedStep(w, step, autoStep)
  {
    var q := Queue(w, size, 2);
    assert q[0] == w[0] && q[1] == w[1];
  }

  /** From the second record on the step is the fixed one. */
  lemma SecondRecord(w: seq<Item<real>>, d: Direction, step: Option<int>, autoStep: bool)
    requires |w| > 1
    ensures DiffFrom(w, d, step, autoStep, 1, Queue(w, QueueSize(d), 1))
              == Windowed(w, d, FixedStep(w, step, autoStep), QueueSize(d) - 1)
  {
    var q1 := Queue(w, QueueSize(d), 1);
    var s := FixedStep(w, step, autoStep);
    QueueNext(w, QueueSize(d), 1);
    SecondStep(w, QueueSize(d), step, autoStep);
    DiffFromSameStep(w, d, step, s, autoStep, 1, q1);
    DiffFromWindowed(w, d, s, autoStep, 1, q1);
  }

  /** `_divided_difference` is the reference with the step fixed from the
      first two positions: nothing is yielded before the window is full,
      windows are skipped exactly when not admissible, and the step is set
      at most once. */
  lemma DifferencesAreWindows(w: seq<Item<real>>, d: Direction, step: Option<int>, autoStep: bool)
    ensures Differences(w, d, step, autoStep) == Windowed(w, d, FixedStep(w, step, autoStep), QueueSize(d) - 1)
  {
    if |w| == 1 {
      FirstRecord(w, d, step, autoStep);
      DiffFromWindowed(w, d, step, autoStep, 1, Queue(w, QueueSize(d), 1));
    } else if |w| > 1 {
      FirstRecord(w, d, step, autoStep);
      SecondRecord(w, d, step, autoStep);
    }
  }

  // -----------------------------------------------------------------------
  // What the transformation promises
  // -----------------------------------------------------------------------

  lemma {:induction false} WindowedBound(w: seq<Item<real>>, d: Direction, step: Option<int>, e: nat)
    requires QueueSize(d) - 1 <= e
    ensures |Windowed(w, d, step, e).items| <= if e >= |w| then 0 else |w| - e
    decreases |w| - e
  {
    if e < |w| {
      WindowedBound(w, d, step, e + 1);
    }
  }

  /** At most one derivative per full window. */
  lemma DifferencesBound(w: seq<Item<real>>, d: Direction, step: Option<int>, autoStep: bool)
    ensures |Differences(w, d, step, autoStep).items| <= if |w| < QueueSize(d) then 0 else |w| - QueueSize(d) + 1
  {
    DifferencesAreWindows(w, d, step, autoStep);
    WindowedBound(w, d, FixedStep(w, step, autoStep), QueueSize(d) - 1);
  }

  /** A walk over one region whose positions are `g > 0` apart. */
  predicate Regular(w: seq<Item<real>>, g: int) {
    g > 0 &&
    (forall k :: 0 <= k < |w| ==> w[k].region == w[0].region) &&
    (forall k :: 0 <= k < |w| - 1 ==> w[k + 1].position == w[k].position + g)
  }

  /** The ends of a full window of a regular walk are apart. */
  lemma RegularEnds(w: seq<Item<real>>, g: int, size: nat, e: nat)
    requires Regular(w, g) && 2 <= size <= 3 && size - 1 <= e < |w|
    ensures w[e].position > w[e + 1 - size].position
  {
    assert w[e].position == w[e - 1].position + g;
    if size == 3 {
      assert w[e - 1].position == w[e - 2].position + g;
    }
  }

  lemma RegularAllEnds(w: seq<Item<real>>, g: int, size: nat)
    requires Regular(w, g) && 2 <= size <= 3
    ensures forall e :: size - 1 <= e < |w| ==> w[e].position > w[e + 1 - size].position
  {
    forall e | size - 1 <= e < |w| ensures w[e].position > w[e + 1 - size].position {
      RegularEnds(w, g, size, e);
    }
  }

  /** Every full window of a regular walk is admissible under the gap, and
      its ends are apart. */
  lemma RegularWindow(w: seq<Item<real>>, g: int, size: nat, e: nat)
    requires Regular(w, g) && 2 <= size <= 3 && size - 1 <= e < |w|
    ensures Admissible(Window(w, size, e), Some(g)) && Admissible(Window(w, size, e), None)
    ensures Window(w, size, e)[size - 1].position > Window(w, size, e)[0].position
  {
    var q := Window(w, size, e);
    assert w[e].position == w[e - 1].position + g;
    if size == 3 {
      assert w[e - 1].position == w[e - 2].position + g;
    }
    assert forall k :: 0 <= k < |q| - 1 ==> q[k + 1].position - q[k].position == g;
    assert q[|q| - 1].region == w[e].region && q[0].region == w[e + 1 - size].region;
  }

  /** The number of full windows of `w`. */
  function FullWindows(w: seq<Item<real>>, size: nat): nat {
    if |w| < size then 0 else |w| + 1 - size
  }

  /** The derivative at every full window of a regular walk, in order. */
  function Slopes(w: seq<Item<real>>, d: Direction, g: int): (r: seq<Item<real>>)
    requires Regular(w, g)
    ensures |r| == FullWindows(w, QueueSize(d))
  {
    var size := QueueSize(d);
    RegularAllEnds(w, g, size);
    seq(FullWindows(w, size), j requires 0 <= j < FullWindows(w, size) => Derivative(Window(w, size, size - 1 + j), Current(d)))
  }

  lemma SliceCons<T>(s: seq<T>, k: nat)
    requires k < |s|
    ensures s[k..] == [s[k]] + s[k + 1..]
  {
  }

  /** The derivative of a regular walk at its full window number `j`. */
  lemma SlopeAt(w: seq<Item<real>>, d: Direction, g: int, j: nat)
    requires Regular(w, g) && j < FullWindows(w, QueueSize(d))
    ensures QueueSize(d) - 1 + j < |w|
    ensures Window(w, QueueSize(d), QueueSize(d) - 1 + j)[QueueSize(d) - 1].position
              > Window(w, QueueSize(d), QueueSize(d) - 1 + j)[0].position
    ensures Slopes(w, d, g)[j] == Derivative(Window(w, QueueSize(d), QueueSize(d) - 1 + j), Current(d))
  {
    RegularWindow(w, g, QueueSize(d), QueueSize(d) - 1 + j);
  }

  /** An admissible window whose ends are apart yields its derivative and
      the walk goes on. */
  lemma WindowedSlope(w: seq<Item<real>>, d: Direction, step: Option<int>, e: nat, q: seq<Item<real>>)
    requires QueueSize(d) - 1 <= e < |w| && q == Window(w, QueueSize(d), e)
    requires Admissible(q, step) && q[|q| - 1].position != q[0].position
    ensures Windowed(w, d, step, e) == Prepend([Derivative(q, Current(d))], Windowed(w, d, step, e + 1))
  {
    WindowedUnfold(w, d, step, e, q);
  }

  /** One full window of a regular walk yields its slope and the walk goes
      on. */
  lemma RegularStep(w: seq<Item<real>>, d: Direction, g: int, step: Option<int>, e: nat)
    requires Regular(w, g) && (Truthy(step) ==> step.value == g) && QueueSize(d) - 1 <= e < |w|
    ensures e + 1 - QueueSize(d) < |Slopes(w, d, g)|
    ensures Windowed(w, d, step, e) == Prepend([Slopes(w, d, g)[e + 1 - QueueSize(d)]], Windowed(w, d, step, e + 1))
  {
    var q := Window(w, QueueSize(d), e);
    RegularWindow(w, g, QueueSize(d), e);
    assert Admissible(q, step);
    SlopeAt(w, d, g, e + 1 - QueueSize(d));
    WindowedSlope(w, d, step, e, q);
  }

  lemma {:induction false} RegularWindowed(w: seq<Item<real>>, d: Direction, g: int, step: Option<int>, e: nat)
    requires Regular(w, g) && (Truthy(step) ==> step.value == g) && QueueSize(d) - 1 <= e <= |w|
    ensures Windowed(w, d, step, e) == Derived(Slopes(w, d, g)[e + 1 - QueueSize(d)..], false)
    decreases |w| - e
  {
    if e < |w| {
      RegularStep(w, d, g, step, e);
      SliceCons(Slopes(w, d, g), e + 1 - QueueSize(d));
      RegularWindowed(w, d, g, step, e + 1);
    }
  }

  /** On a walk over one region with positions `g > 0` apart, and no step
      other than `g` asked for, every full window yields its derivative and
      no division by zero happens. */
  lemma RegularDifferences(w: seq<Item<real>>, d: Direction, g: int, step: Option<int>, autoStep: bool)
    requires Regular(w, g) && (Truthy(step) ==> step.value == g)
    ensures Differences(w, d, step, autoStep) == Derived(Slopes(w, d, g), false)
  {
    DifferencesAreWindows(w, d, step, autoStep);
    if |w| >= 2 {
      assert w[1].position == w[0].position + g;
    }
    if |w| >= QueueSize(d) - 1 {
      RegularWindowed(w, d, g, FixedStep(w, step, autoStep), QueueSize(d) - 1);
    }
  }

  // -----------------------------------------------------------------------
  // The examples of the test suite: ten consecutive positions
  // -----------------------------------------------------------------------

  const SampleValues: seq<real> := [5.0, 4.0, 4.0, 4.0, 5.0, 4.0, 3.0, 1.0, 5.0, 6.0]

  /** Region "a", positions 1 to 10. */
  const Sample: seq<Item<real>> := seq(10, k requires 0 <= k < 10 => Item("a", k + 1, SampleValues[k]))

  const ForwardExpected: seq<Item<real>> := [
    Item("a", 1, -1.0), Item("a", 2, 0.0), Item("a", 3, 0.0), Item("a", 4, 1.0), Item("a", 5, -1.0),
    Item("a", 6, -1.0), Item("a", 7, -2.0), Item("a", 8, 4.0), Item("a", 9, 1.0)]

  const BackwardExpected: seq<Item<real>> := [
    Item("a", 2, -1.0), Item("a", 3, 0.0), Item("a", 4, 0.0), Item("a", 5, 1.0), Item("a", 6, -1.0),
    Item("a", 7, -1.0), Item("a", 8, -2.0), Item("a", 9, 4.0), Item("a", 10, 1.0)]

  const CentralExpected: seq<Item<real>> := [
    Item("a", 2, -0.5), Item("a", 3, 0.0), Item("a", 4, 0.5), Item("a", 5, 0.0), Item("a", 6, -1.0),
    Item("a", 7, -1.5), Item("a", 8, 1.0), Item("a", 9, 2.5)]

  lemma SampleRegular()
    ensures Regular(Sample, 1)
  {
  }

  /** The derivative at the window of the sample starting at record `j`. */
  lemma SampleSlope(d: Direction, j: nat)
    requires j + QueueSize(d) <= |Sample|
    ensures Regular(Sample, 1)
    ensures Slopes(Sample, d, 1)[j]
              == Item("a", j + 1 + Current(d), (SampleValues[j + QueueSize(d) - 1] - SampleValues[j]) / ((QueueSize(d) - 1) as real))
  {
    SampleRegular();
    SlopeAt(Sample, d, 1, j);
    var q := Window(Sample, QueueSize(d), QueueSize(d) - 1 + j);
    assert q[0] == Sample[j] && q[Current(d)] == Sample[j + Current(d)] && q[|q| - 1] == Sample[j + QueueSize(d) - 1];
  }

  lemma ForwardTable()
    ensures forall j :: 0 <= j < 9 ==>
              ForwardExpected[j] == Item("a", j + 1 + 0, (SampleValues[j + 1] - SampleValues[j]) / 1.0)
  {
    forall j | 0 <= j < 9
      ensures ForwardExpected[j] == Item("a", j + 1 + 0, (SampleValues[j + 1] - SampleValues[j]) / 1.0)
    {
      if j == 0 {
      } else if j == 1 {
      } else if j == 2 {
      } else if j == 3 {
      } else if j == 4 {
      } else if j == 5 {
      } else if j == 6 {
      } else if j == 7 {
      }
    }
  }

  lemma BackwardTable()
    ensures forall j :: 0 <= j < 9 ==>
              BackwardExpected[j] == Item("a", j + 1 + 1, (SampleValues[j + 1] - SampleValues[j]) / 1.0)
  {
    forall j | 0 <= j < 9
      ensures BackwardExpected[j] == Item("a", j + 1 + 1, (SampleValues[j + 1] - SampleValues[j]) / 1.0)
    {
      if j == 0 {
      } else if j == 1 {
      } else if j == 2 {
      } else if j == 3 {
      } else if j == 4 {
      } else if j == 5 {
      } else if j == 6 {
      } else if j == 7 {
      }
    }
  }

  lemma CentralTable()
    ensures forall j :: 0 <= j < 8 ==>
              CentralExpected[j] == Item("a", j + 1 + 1, (SampleValues[j + 2] - SampleValues[j]) / 2.0)
  {
    forall j | 0 <= j < 8
      ensures CentralExpected[j] == Item("a", j + 1 + 1, (SampleValues[j + 2] - SampleValues[j]) / 2.0)
    {
      if j == 0 {
      } else if j == 1 {
      } else if j == 2 {
      } else if j == 3 {
      } else if j == 4 {
      } else if j == 5 {
      } else if j == 6 {
      }
    }
  }

  /** Nine forward differences, at positions 1 to 9. */
  lemma ForwardExample()
    ensures Differences(Sample, Forward, None, false) == Derived(ForwardExpected, false)
  {
    SampleRegular();
    RegularDifferences(Sample, Forward, 1, None, false);
    ForwardTable();
    forall j | 0 <= j < 9 ensures Slopes(Sample, Forward, 1)[j] == ForwardExpected[j] {
      SampleSlope(Forward, j);
    }
  }

  /** Nine backward differences, at positions 2 to 10. */
  lemma BackwardExample()
    ensures Differences(Sample, Backward, None, false) == Derived(BackwardExpected, false)
  {
    SampleRegular();
    RegularDifferences(Sample, Backward, 1, None, false);
    BackwardTable();
    forall j | 0 <= j < 9 ensures Slopes(Sample, Backward, 1)[j] == BackwardExpected[j] {
      SampleSlope(Backward, j);
    }
  }

  /** Eight central differences, at positions 2 to 9, with the step found from the first two positions. */
  lemma CentralExample()
    ensures Differences(Sample, Central, None, true) == Derived(CentralExpected, false)
  {
    SampleRegular();
    RegularDifferences(Sample, Central, 1, None, true);
    CentralTable();
    forall j | 0 <= j < 8 ensures Slopes(Sample, Central, 1)[j] == CentralExpected[j] {
      SampleSlope(Central, j);
    }
  }

  // -----------------------------------------------------------------------
  // The loop
  // -----------------------------------------------------------------------

  lemma PrependAssoc(items: seq<Item<real>>, it: Item<real>, d: Derived)
    ensures Prepend(items, Prepend([it], d)) == Prepend(items + [it], d)
  {
  }

  /** `_divided_difference(walker, direction, step, auto_step)`. */
  method DividedDifference(walker: seq<Item<real>>, direction: Direction, step: Option<int>, autoStep: bool)
    returns (derived: seq<Item<real>>, zeroDivision: bool)
    ensures Derived(derived, zeroDivision) == Differences(walker, direction, step, autoStep)
  {
    var queueSize := QueueSize(direction);
    var current := Current(direction);
    var queue: seq<Item<real>> := [];
    var st := step;
    derived := [];
    zeroDivision := false;
    ghost var total := Differences(walker, direction, step, autoStep);
    var i := 0;
    while i < |walker| && !zeroDivision
      invariant 0 <= i <= |walker|
      invariant !zeroDivision ==> total == Prepend(derived, DiffFrom(walker, direction, st, autoStep, i, queue))
      invariant zeroDivision ==> total == Derived(derived, true)
      decreases |walker| - i
    {
      ghost var before, last := st, queue;
      // The oldest entry is dropped beyond `maxlen`.
      queue := Push(queue, walker[i], queueSize);
      // Initialize step size.
      st := NextStep(queue, st, autoStep);
      if Skipped(queue, queueSize, st) {
      } else if queue[|queue| - 1].position == queue[0].position {
        // ZeroDivisionError.
        assert derived + [] == derived;
        zeroDivision := true;
      } else {
        PrependAssoc(derived, Derivative(queue, current), DiffFrom(walker, direction, st, autoStep, i + 1, queue));
        derived := derived + [Derivative(queue, current)];
      }
      i := i + 1;
    }
    assert derived + [] == derived;
  }

  /** `forward_divided_difference(walker, step, auto_step)`. */
  method ForwardDividedDifference(walker: seq<Item<real>>, step: Option<int>, autoStep: bool)
    returns (derived: seq<Item<real>>, zeroDivision: bool)
    ensures Derived(derived, zeroDivision) == Differences(walker, Forward, step, autoStep)
  {
    derived, zeroDivision := DividedDifference(walker, Forward, step, autoStep);
  }

  /** `backward_divided_difference(walker, step, auto_step)`. */
  method BackwardDividedDifference(walker: seq<Item<real>>, step: Option<int>, autoStep: bool)
    returns (derived: seq<Item<real>>, zeroDivision: bool)
    ensures Derived(derived, zeroDivision) == Differences(walker, Backward, step, autoStep)
  {
    derived, zeroDivision := DividedDifference(walker, Backward, step, autoStep);
  }

  /** `central_divided_difference(walker, step)`: the step is found from the
      first two positions exactly when none is given. */
  method CentralDividedDifference(walker: seq<Item<real>>, step: Option<int>)
    returns (derived: seq<Item<real>>, zeroDivision: bool)
    ensures Derived(derived, zeroDivision) == Differences(walker, Central, step, step.None?)
  {
    derived, zeroDivision := DividedDifference(walker, Central, step, step.None?);
  }
}
