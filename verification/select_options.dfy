/**
 * The option lists of the hour and minute selectors (`#generateSelect` in
 * timepicker.js), kept as structured records instead of HTML text, and the
 * value a freshly rendered selector starts with.
 */
module SelectOptions {
  import opened Optional
  import opened Decimal

  /**
   * One `<option>`: its value (`None` for the empty-string sentinel) and its
   * `selected` flag. Its label is determined by the value; see `Label`.
   */
  datatype SelectOption = SelectOption(value: Option<nat>, selected: bool)

  /** The text an option displays: `--` for the sentinel, the value padded to two digits otherwise. */
  function Label(o: SelectOption): string {
    match o.value
    case None => "--"
    case Some(v) => Pad2(v)
  }

  /** The leading `<option value="">--</option>` every selector starts with. */
  const Blank := SelectOption(None, false)

  /** The option written for loop value `v` when the configured selection is `selected`. */
  function Entry(v: nat, selected: int): SelectOption {
    SelectOption(Some(v), v == selected)
  }

  /** The `k`-th value of the loop counter started at `start`: `start + k * step`. */
  function Grid(start: nat, step: nat, k: nat): nat
    decreases k
  {
    if k == 0 then start else Grid(start + step, step, k - 1)
  }

  /** The loop counter's `k`-th value in closed form. */
  lemma {:induction false} GridClosedForm(start: nat, step: nat, k: nat)
    ensures Grid(start, step, k) == start + k * step
    decreases k
  {
    if k > 0 {
      GridClosedForm(start + step, step, k - 1);
    }
  }

  /** The counter never drops below its start. */
  lemma {:induction false} GridAtLeast(start: nat, step: nat, k: nat)
    ensures Grid(start, step, k) >= start
    decreases k
  {
    if k > 0 {
      GridAtLeast(start + step, step, k - 1);
    }
  }

  /** With a positive step the counter strictly increases. */
  lemma {:induction false} GridIncreasing(start: nat, step: nat, j: nat, k: nat)
    requires step > 0
    requires j < k
    ensures Grid(start, step, j) < Grid(start, step, k)
    decreases j
  {
    if j == 0 {
      GridAtLeast(start + step, step, k - 1);
    } else {
      GridIncreasing(start + step, step, j - 1, k - 1);
    }
  }

  /** The options written by the loop `for (i = start; i <= max; i += step)`. */
  function Numeric(start: nat, max: nat, step: nat, selected: int): (r: seq<SelectOption>)
    requires step > 0
    ensures forall k :: 0 <= k < |r| ==> r[k] == Entry(Grid(start, step, k), selected) && Grid(start, step, k) <= max
    ensures Grid(start, step, |r|) > max
    decreases if start <= max then max - start + 1 else 0
  {
    if start > max then []
    else [Entry(start, selected)] + Numeric(start + step, max, step, selected)
  }

  /**
   * `#generateSelect(id, min, max, step, selected)`: the blank sentinel, then
   * one option per value `min + k * step` that does not exceed `max`, in
   * increasing order, labelled with the value padded to two digits and marked
   * selected exactly when it equals the configured selection.
   */
  function GenerateSelect(min: nat, max: nat, step: nat, selected: int): (r: seq<SelectOption>)
    requires step > 0
    ensures |r| >= 1 && r[0] == Blank
    ensures forall k :: 0 <= k < |r| - 1 ==> r[k + 1] == Entry(Grid(min, step, k), selected) && Grid(min, step, k) <= max
    ensures Grid(min, step, |r| - 1) > max
  {
    var tail := Numeric(min, max, step, selected);
    var r := [Blank] + tail;
    assert forall k :: 1 <= k < |r| ==> r[k] == tail[k - 1];
    r
  }

  /** The `k`-th option carries the loop counter's value after `k - 1` steps. */
  lemma {:induction false} ValueAt(min: nat, max: nat, step: nat, selected: int, k: nat)
    requires step > 0
    requires 1 <= k < |GenerateSelect(min, max, step, selected)|
    ensures GenerateSelect(min, max, step, selected)[k].value == Some(Grid(min, step, k - 1))
    ensures Grid(min, step, k - 1) <= max
  {
    var r := GenerateSelect(min, max, step, selected);
    var q: nat := k - 1;
    assert r[q + 1].value == Some(Grid(min, step, q)) && Grid(min, step, q) <= max;
  }

  /** The numeric options carry exactly the values `min + k * step` not above `max`. */
  lemma {:induction false} GenerateSelectValues(min: nat, max: nat, step: nat, selected: int, k: nat)
    requires step > 0
    requires 1 <= k < |GenerateSelect(min, max, step, selected)|
    ensures GenerateSelect(min, max, step, selected)[k].value == Some(min + (k - 1) * step)
    ensures min + (k - 1) * step <= max
  {
    ValueAt(min, max, step, selected, k);
    GridClosedForm(min, step, k - 1);
  }

  /** The first value past the last option exceeds `max`: no value on the grid is left out. */
  lemma {:induction false} GenerateSelectComplete(min: nat, max: nat, step: nat, selected: int)
    requires step > 0
    ensures min + (|GenerateSelect(min, max, step, selected)| - 1) * step > max
  {
    GridClosedForm(min, step, |GenerateSelect(min, max, step, selected)| - 1);
  }

  /**
   * Every numeric label has exactly two digits when its value is below 100,
   * and reads back as that value; the sentinel reads `--`.
   */
  lemma {:induction false} GenerateSelectLabels(min: nat, max: nat, step: nat, selected: int, k: nat)
    requires step > 0
    requires 1 <= k < |GenerateSelect(min, max, step, selected)|
    ensures Label(GenerateSelect(min, max, step, selected)[0]) == "--"
    ensures var o := GenerateSelect(min, max, step, selected)[k];
            && IsDigits(Label(o))
            && ReadDigits(Label(o)) == o.value.value
            && (o.value.value < 100 <==> |Label(o)| == 2)
  {
    var o := GenerateSelect(min, max, step, selected)[k];
    Pad2Facts(o.value.value);
  }

  /**
   * Every option after the sentinel carries a number, and is marked selected
   * exactly when that number equals the configured selection.
   */
  lemma {:induction false} GenerateSelectMarks(min: nat, max: nat, step: nat, selected: int)
    requires step > 0
    ensures forall k :: 1 <= k < |GenerateSelect(min, max, step, selected)| ==>
              && GenerateSelect(min, max, step, selected)[k].value.Some?
              && (GenerateSelect(min, max, step, selected)[k].selected
                  <==> GenerateSelect(min, max, step, selected)[k].value.value == selected)
  {
    var r := GenerateSelect(min, max, step, selected);
    forall k | 1 <= k < |r|
      ensures r[k].value.Some? && (r[k].selected <==> r[k].value.value == selected)
    {
      var q: nat := k - 1;
      assert r[q + 1] == Entry(Grid(min, step, q), selected);
    }
  }

  /** The loop of `#generateSelect`, appending one option per iteration, builds the same list. */
  method GenerateSelectLoop(min: nat, max: nat, step: nat, selected: int) returns (r: seq<SelectOption>)
    requires step > 0
    ensures r == GenerateSelect(min, max, step, selected)
  {
    r := [Blank];
    var i := min;
    while i <= max
      invariant r + Numeric(i, max, step, selected) == GenerateSelect(min, max, step, selected)
      decreases max + 1 - i
    {
      assert Numeric(i, max, step, selected) == [Entry(i, selected)] + Numeric(i + step, max, step, selected);
      assert r + Numeric(i, max, step, selected) == (r + [Entry(i, selected)]) + Numeric(i + step, max, step, selected);
      r := r + [Entry(i, selected)];
      i := i + step;
    }
  }

  /** True when some numeric option of `opts` carries the value `v`. */
  predicate Offers(opts: seq<SelectOption>, v: nat) {
    exists k :: 1 <= k < |opts| && opts[k].value == Some(v)
  }

  /** The numeric values strictly increase along the list. */
  lemma {:induction false} GenerateSelectIncreasing(min: nat, max: nat, step: nat, selected: int, j: nat, k: nat)
    requires step > 0
    requires 1 <= j < k < |GenerateSelect(min, max, step, selected)|
    ensures GenerateSelect(min, max, step, selected)[j].value.value
          < GenerateSelect(min, max, step, selected)[k].value.value
  {
    ValueAt(min, max, step, selected, j);
    ValueAt(min, max, step, selected, k);
    GridIncreasing(min, step, j - 1, k - 1);
  }

  /** The loop step at which an offered value was written. */
  lemma {:induction false} OfferedStep(min: nat, max: nat, step: nat, selected: int, v: nat) returns (q: nat)
    requires step > 0
    requires Offers(GenerateSelect(min, max, step, selected), v)
    ensures Grid(min, step, q) == v && v <= max
  {
    var r := GenerateSelect(min, max, step, selected);
    var k: nat :| 1 <= k < |r| && r[k].value == Some(v);
    q := k - 1;
    assert r[q + 1].value == Some(Grid(min, step, q)) && Grid(min, step, q) <= max;
  }

  /** Every value the list offers lies on the grid within `[min, max]`. */
  lemma {:induction false} OffersOnlyGrid(min: nat, max: nat, step: nat, selected: int, v: nat)
    requires step > 0
    requires Offers(GenerateSelect(min, max, step, selected), v)
    ensures min <= v <= max && (v - min) % step == 0
  {
    var q := OfferedStep(min, max, step, selected, v);
    GridRemainder(min, step, q);
  }

  /** Every grid value within `[min, max]` is offered. */
  lemma {:induction false} OffersEveryGrid(min: nat, max: nat, step: nat, selected: int, v: nat)
    requires step > 0
    requires min <= v <= max && (v - min) % step == 0
    ensures Offers(GenerateSelect(min, max, step, selected), v)
  {
    var r := GenerateSelect(min, max, step, selected);
    var q := DivExact(v - min, step);
    GridClosedForm(min, step, q);
    assert Grid(min, step, q) == v;
    if q + 1 >= |r| {
      if q > |r| - 1 {
        GridIncreasing(min, step, |r| - 1, q);
      }
      assert false;
    }
    assert r[q + 1].value == Some(Grid(min, step, q));
  }

  /** A value is offered exactly when it lies on the grid `min, min + step, ...` within `[min, max]`. */
  lemma {:induction false} OffersIff(min: nat, max: nat, step: nat, selected: int, v: nat)
    requires step > 0
    ensures Offers(GenerateSelect(min, max, step, selected), v)
        <==> min <= v <= max && (v - min) % step == 0
  {
    if Offers(GenerateSelect(min, max, step, selected), v) {
      OffersOnlyGrid(min, max, step, selected, v);
    }
    if min <= v <= max && (v - min) % step == 0 {
      OffersEveryGrid(min, max, step, selected, v);
    }
  }

  /** A number with no remainder is the quotient times the divisor. */
  lemma {:induction false} DivExact(x: nat, step: nat) returns (q: nat)
    requires step > 0
    requires x % step == 0
    ensures x == q * step
  {
    q := x / step;
    assert x == step * q + x % step;
  }

  /** Every counter value lies on the grid: its distance from the start is a multiple of `step`. */
  lemma {:induction false} GridRemainder(start: nat, step: nat, k: nat)
    requires step > 0
    ensures Grid(start, step, k) >= start
    ensures (Grid(start, step, k) - start) % step == 0
  {
    GridClosedForm(start, step, k);
    ModOfMultiple(k, step);
  }

  /** A multiple of `step` leaves no remainder. */
  lemma {:induction false} ModOfMultiple(q: nat, step: nat)
    requires step > 0
    ensures (q * step) % step == 0
  {
    var x := q * step;
    var d, r := x / step, x % step;
    assert x == step * q;
    assert x == step * d + r && 0 <= r < step;
    if d < q {
      MulDifference(q, d, step);
      MulAtLeast(q - d, step);
      assert false;
    } else if d > q {
      MulDifference(d, q, step);
      MulAtLeast(d - q, step);
      assert false;
    }
  }

  /** A positive multiple of `step` is at least `step`. */
  lemma {:induction false} MulAtLeast(a: nat, step: nat)
    requires a >= 1
    ensures step * a >= step
  {
  }

  /** Multiplication by `step` distributes over a difference. */
  lemma {:induction false} MulDifference(a: nat, b: nat, step: nat)
    requires a >= b
    ensures step * a - step * b == step * (a - b)
  {
  }

  /** At most one numeric option is marked selected. */
  lemma {:induction false} AtMostOneSelected(min: nat, max: nat, step: nat, selected: int, j: nat, k: nat)
    requires step > 0
    requires 1 <= j < |GenerateSelect(min, max, step, selected)|
    requires 1 <= k < |GenerateSelect(min, max, step, selected)|
    requires GenerateSelect(min, max, step, selected)[j].selected
    requires GenerateSelect(min, max, step, selected)[k].selected
    ensures j == k
  {
    if j < k {
      GenerateSelectIncreasing(min, max, step, selected, j, k);
    } else if k < j {
      GenerateSelectIncreasing(min, max, step, selected, k, j);
    }
  }

  /** A negative selection (the default `-1`) marks no option at all. */
  lemma {:induction false} NegativeSelectsNothing(min: nat, max: nat, step: nat, selected: int)
    requires step > 0
    requires selected < 0
    ensures forall k :: 0 <= k < |GenerateSelect(min, max, step, selected)| ==>
              !GenerateSelect(min, max, step, selected)[k].selected
  {
  }

  /**
   * The value a rendered `<select>` starts with. Parsing an option that
   * carries `selected` clears the selectedness of the options before it, so
   * the last marked option wins; with none marked the first option shows.
   */
  function InitialValue(opts: seq<SelectOption>): (v: Option<nat>)
    requires |opts| >= 1
    ensures (forall k :: 0 <= k < |opts| ==> !opts[k].selected) ==> v == opts[0].value
    ensures (exists k :: 0 <= k < |opts| && opts[k].selected) ==>
              exists k :: 0 <= k < |opts| && opts[k].selected && opts[k].value == v
                          && forall j :: k < j < |opts| ==> !opts[j].selected
  {
    match LastMarked(opts, |opts|)
    case None => opts[0].value
    case Some(k) => opts[k].value
  }

  /** When option `k` is marked and no later option is, the select starts on option `k`'s value. */
  lemma {:induction false} InitialValueIsLastMarked(opts: seq<SelectOption>, k: nat)
    requires k < |opts| && opts[k].selected
    requires forall j :: k < j < |opts| ==> !opts[j].selected
    ensures InitialValue(opts) == opts[k].value
  {
    var m :| 0 <= m < |opts| && opts[m].selected && opts[m].value == InitialValue(opts)
             && forall j :: m < j < |opts| ==> !opts[j].selected;
  }

  /** The index of the last option before index `n` that is marked selected. */
  function LastMarked(opts: seq<SelectOption>, n: nat): (o: Option<nat>)
    requires n <= |opts|
    ensures o.Some? ==> o.value < n && opts[o.value].selected
    ensures o.Some? ==> forall j :: o.value < j < n ==> !opts[j].selected
    ensures o.None? ==> forall j :: 0 <= j < n ==> !opts[j].selected
  {
    if n == 0 then None
    else if opts[n - 1].selected then Some(n - 1)
    else LastMarked(opts, n - 1)
  }

  /**
   * A freshly generated selector shows the configured value when it lies on
   * the grid, and the blank sentinel otherwise.
   */
  lemma {:induction false} InitialValueOfGenerated(min: nat, max: nat, step: nat, selected: int)
    requires step > 0
    ensures InitialValue(GenerateSelect(min, max, step, selected))
         == if 0 <= selected && Offers(GenerateSelect(min, max, step, selected), selected)
            then Some(selected as nat) else None
  {
    GenerateSelectMarks(min, max, step, selected);
    InitialValueOfMarked(GenerateSelect(min, max, step, selected), selected);
  }

  /**
   * A list that opens with the blank sentinel and marks exactly the options
   * equal to `selected` shows `selected` when it offers it, and blank otherwise.
   */
  lemma {:induction false} InitialValueOfMarked(opts: seq<SelectOption>, selected: int)
    requires |opts| >= 1 && opts[0] == Blank
    requires forall k :: 1 <= k < |opts| ==>
               opts[k].value.Some? && (opts[k].selected <==> opts[k].value.value == selected)
    ensures InitialValue(opts) == if 0 <= selected && Offers(opts, selected) then Some(selected as nat) else None
  {
    var v := InitialValue(opts);
    if 0 <= selected && Offers(opts, selected) {
      var k :| 1 <= k < |opts| && opts[k].value == Some(selected as nat);
      assert opts[k].selected;
      var m :| 0 <= m < |opts| && opts[m].selected && opts[m].value == v
               && forall j :: m < j < |opts| ==> !opts[j].selected;
      assert m >= 1;
    }
  }

  /**
   * A freshly generated selector shows the configured value exactly when it
   * lies on the grid within `[min, max]`, and the blank sentinel otherwise.
   */
  lemma {:induction false} InitialValueOnGrid(min: nat, max: nat, step: nat, selected: int)
    requires step > 0
    ensures InitialValue(GenerateSelect(min, max, step, selected))
         == if 0 <= selected && min <= selected <= max && (selected - min) % step == 0
            then Some(selected as nat) else None
  {
    InitialValueOfGenerated(min, max, step, selected);
    if 0 <= selected {
      OffersIff(min, max, step, selected, selected as nat);
    }
  }

  /** The hour selector offers the 24 values 0 to 23, in order. */
  lemma {:induction false} HourOptions(selected: int)
    ensures |GenerateSelect(0, 23, 1, selected)| == 25
    ensures forall k :: 1 <= k < 25 ==> GenerateSelect(0, 23, 1, selected)[k].value == Some(k - 1)
  {
    var r := GenerateSelect(0, 23, 1, selected);
    GenerateSelectComplete(0, 23, 1, selected);
    if |r| > 25 {
      GenerateSelectValues(0, 23, 1, selected, 25);
    }
    forall k | 1 <= k < 25 {
      GenerateSelectValues(0, 23, 1, selected, k);
    }
  }

  /** The minute selector offers the 12 values 0, 5, ..., 55: multiples of five not above 59. */
  lemma {:induction false} MinuteOptions(selected: int)
    ensures |GenerateSelect(0, 59, 5, selected)| == 13
    ensures forall k :: 1 <= k < 13 ==> GenerateSelect(0, 59, 5, selected)[k].value == Some(5 * (k - 1))
    ensures forall k :: 1 <= k < 13 ==> GenerateSelect(0, 59, 5, selected)[k].value.value <= 55
  {
    var r := GenerateSelect(0, 59, 5, selected);
    GenerateSelectComplete(0, 59, 5, selected);
    if |r| > 13 {
      GenerateSelectValues(0, 59, 5, selected, 13);
    }
    forall k | 1 <= k < 13
      ensures r[k].value == Some(5 * (k - 1))
    {
      GenerateSelectValues(0, 59, 5, selected, k);
    }
  }
}
