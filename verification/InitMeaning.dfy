/** Where the values of an initializer end up, told by its text alone. */
module InitMeaning {
  import opened Options
  import opened InitSpec

  predicate Undesignated(items: seq<Item>) {
    forall k :: 0 <= k < |items| ==> items[k].Value?
  }

  /** How many of n values an array has room for. */
  function Room(shape: Shape, n: nat): (m: nat)
    ensures m <= n
  {
    if shape.maxIndex.Some? && shape.maxIndex.value + 1 < n then
      if shape.maxIndex.value < 0 then 0 else shape.maxIndex.value + 1
    else n
  }

  /** The values as an array, as far as there is room. */
  function InOrder(items: seq<Item>, m: nat): map<nat, Elt>
    requires Undesignated(items) && m <= |items|
  {
    map i | 0 <= i < m :: items[i].value
  }

  /** Without designators the values go to the indices from 0 on, one each; those for
      which there is no room are reported one by one. */
  lemma {:induction false} PlainRun(items: seq<Item>, shape: Shape)
    requires Undesignated(items) && (shape.maxIndex.Some? ==> shape.maxIndex.value >= -1)
    ensures var a, m := Run(items, shape), Room(shape, |items|);
            && a.index == m && a.rangeEnd.None? && a.given == InOrder(items, m)
            && a.errors == seq(|items| - m, _ => Excess(m))
    decreases |items|
  {
    if items != [] {
      var k := |items| - 1;
      PlainRun(items[..k], shape);
      PlainStep(items, shape, Run(items[..k], shape));
    }
  }

  lemma PlainStep(items: seq<Item>, shape: Shape, before: Init)
    requires Undesignated(items) && items != [] && (shape.maxIndex.Some? ==> shape.maxIndex.value >= -1)
    requires var k := |items| - 1;
             var m := Room(shape, k);
             && before.index == m && before.rangeEnd.None? && before.given == InOrder(items[..k], m)
             && before.errors == seq(k - m, _ => Excess(m))
    ensures var a, m := Element(before, items[|items| - 1].value, shape), Room(shape, |items|);
            && a.index == m && a.rangeEnd.None? && a.given == InOrder(items, m)
            && a.errors == seq(|items| - m, _ => Excess(m))
  {
    var k := |items| - 1;
    var m := Room(shape, k);
    var v := items[k].value;
    if Beyond(shape, m) {
      assert Element(before, v, shape) == Report(before, Excess(m));
      assert seq(k + 1 - m, _ => Excess(m)) == seq(k - m, _ => Excess(m)) + [Excess(m)];
      assert InOrder(items[..k], m) == InOrder(items, m);
    } else {
      assert m == k && Element(before, v, shape) == Place(before, v);
      assert InOrder(items, k + 1) == InOrder(items[..k], k)[k := v];
    }
  }

  predicate BytesAt(image: seq<bv8>, i: nat, eltsize: nat, v: Elt) {
    0 <= i * eltsize <= (i + 1) * eltsize <= |image| && image[i * eltsize..(i + 1) * eltsize] == v
  }

  lemma ImageBytes(given: map<nat, Elt>, n: nat, eltsize: nat, i: nat)
    requires Sized(given, eltsize) && i < n
    ensures BytesAt(Image(given, n, eltsize), i, eltsize, At(given, i, eltsize))
  {
    ImageAt(given, n, eltsize, i);
  }

  function ElementOf(items: seq<Item>, m: nat, i: nat, eltsize: nat): Elt
    requires Undesignated(items) && m <= |items|
  {
    if i < m then items[i].value else Zeros(eltsize)
  }

  /** What an initializer without designators makes: the values in order from index 0,
      then zeros up to the bound; an unsized array has room for just the values. */
  ghost predicate InSequence(items: seq<Item>, shape: Shape, incremental: bool,
                             bound: int, list: seq<Entry>, image: seq<bv8>, errors: seq<Error>)
    requires Undesignated(items)
  {
    var m := Room(shape, |items|);
    && errors == seq(|items| - m, _ => Excess(m))
    && bound == (if shape.maxIndex.Some? then shape.maxIndex.value else |items| - 1)
    && (!incremental ==> Denoted(list) == InOrder(items, m))
    && (incremental ==> forall i :: 0 <= i <= bound ==> BytesAt(image, i, shape.eltsize, ElementOf(items, m, i, shape.eltsize)))
  }

  /** So it is what the two ways of putting elements out make of such items. */
  lemma PlainArray(items: seq<Item>, shape: Shape, incremental: bool,
                   bound: int, list: seq<Entry>, image: seq<bv8>, errors: seq<Error>)
    requires Undesignated(items) && (shape.maxIndex.Some? ==> shape.maxIndex.value >= -1)
    requires var final := Run(items, shape);
             && errors == final.errors && bound >= -1 && Sized(final.given, shape.eltsize)
             && (forall i :: i in final.given ==> i <= bound)
             && (if shape.maxIndex.Some? then bound == shape.maxIndex.value else bound == -1 || bound in final.given)
             && (incremental ==> image == Image(final.given, bound + 1, shape.eltsize))
             && (!incremental ==> Denoted(list) == final.given)
    ensures InSequence(items, shape, incremental, bound, list, image, errors)
  {
    hide Run, Image, BytesAt, Sized, Denoted;
    PlainRun(items, shape);
    var m := Room(shape, |items|);
    var given := InOrder(items, m);
    if shape.maxIndex.None? && m > 0 {
      assert m - 1 in given;
    }
    if incremental {
      forall i | 0 <= i <= bound ensures BytesAt(image, i, shape.eltsize, ElementOf(items, m, i, shape.eltsize)) {
        ImageBytes(given, bound + 1, shape.eltsize, i);
      }
    }
  }

  // After a designator.

  lemma RunTwo(items: seq<Item>, x: Item, y: Item, shape: Shape)
    ensures Run(items + [x, y], shape) == Step(Step(Run(items, shape), x, shape), y, shape)
  {
    RunNext(items, x, shape);
    RunNext(items + [x], y, shape);
    assert items + [x, y] == items + [x] + [y];
  }

  /** A range starting past all that is filled, within the array: the value goes to all of
      it but what was given before, and the next value goes to the index after it. */
  lemma ValueFollows(items: seq<Item>, first: nat, last: Option<int>, v: Elt, w: Elt, shape: Shape)
    requires Unfilled(Run(items, shape).given) <= first
    requires var end := if last.Some? then last.value else first;
             first <= end && !Beyond(shape, end + 1)
    ensures var before, end := Run(items, shape).given, if last.Some? then last.value else first;
            var after := Run(items + [Designator(first, last), Value(v)] + [Value(w)], shape).given;
            && (forall i :: i in after <==> i in before || first <= i <= end + 1)
            && (forall i :: i in after ==>
                  after[i] == if i in before then before[i] else if i <= end then v else w)
  {
    hide Run, Unfilled, Designate, PlaceRange, Element;
    RangePlaced(items, first, last, v, shape);
    var two := items + [Designator(first, last), Value(v)];
    RunNext(two, Value(w), shape);
    PlacedAlone(Run(two, shape), w, shape);
  }

  lemma RunNext(items: seq<Item>, x: Item, shape: Shape)
    ensures Run(items + [x], shape) == Step(Run(items, shape), x, shape)
  {
    assert (items + [x])[..|items|] == items;
  }

  /** An element that is not in a range goes to the current index alone. */
  lemma PlacedAlone(c: Init, w: Elt, shape: Shape)
    requires !Beyond(shape, c.index) && (c.rangeEnd.Some? ==> c.rangeEnd.value < c.index)
    ensures Element(c, w, shape).given == if c.index in c.given then c.given else c.given[c.index := w]
  {
  }

  lemma RangePlaced(items: seq<Item>, first: nat, last: Option<int>, v: Elt, shape: Shape)
    requires Unfilled(Run(items, shape).given) <= first
    requires var end := if last.Some? then last.value else first;
             first <= end && !Beyond(shape, end + 1)
    ensures var before, end := Run(items, shape).given, if last.Some? then last.value else first;
            var c := Run(items + [Designator(first, last), Value(v)], shape);
            && c.index == end + 1 && (c.rangeEnd.Some? ==> c.rangeEnd.value == end)
            && (forall i :: i in c.given <==> i in before || first <= i <= end)
            && (forall i :: i in c.given ==> c.given[i] == if i in before then before[i] else v)
  {
    var b := Designate(Run(items, shape), first, last);
    RunTwo(items, Designator(first, last), Value(v), shape);
    RangeGives(b, v);
    assert Element(b, v, shape) == PlaceRange(b, v);
  }

  /** The last index the next element goes to. */
  function LastOf(a: Init): nat {
    if a.rangeEnd.Some? && a.rangeEnd.value > a.index then a.rangeEnd.value else a.index
  }

  /** What a range is given, and where it leaves the index. */
  lemma {:induction false} RangeGives(a: Init, v: Elt)
    ensures var b := PlaceRange(a, v);
            && b.index == LastOf(a) + 1 && b.rangeEnd == a.rangeEnd
            && (forall i :: i in b.given <==> i in a.given || a.index <= i <= LastOf(a))
            && (forall i :: i in b.given ==> b.given[i] == if i in a.given then a.given[i] else v)
    decreases if a.rangeEnd.Some? then a.rangeEnd.value - a.index else -1
  {
    var b := Place(a, v);
    if b.rangeEnd.Some? && b.index <= b.rangeEnd.value {
      RangeGives(b, v);
    }
  }

  /** What an element adds to the errors: one duplicate for each index of its range that
      was given before, and no other. */
  lemma {:induction false} RangeReports(a: Init, v: Elt) returns (more: seq<Error>)
    ensures var b := PlaceRange(a, v);
            && b.errors == a.errors + more
            && (forall e :: e in more <==> e.Duplicate? && a.index <= e.at <= LastOf(a) && e.at in a.given)
    decreases if a.rangeEnd.Some? then a.rangeEnd.value - a.index else -1
  {
    var b := Place(a, v);
    var here := if a.index in a.given then [Duplicate(a.index)] else [];
    if b.rangeEnd.Some? && b.index <= b.rangeEnd.value {
      var rest := RangeReports(b, v);
      more := here + rest;
    } else {
      more := here;
    }
  }

  /** A range that ends past the array is reported once, by its end, and cut off there. */
  lemma RangeCutOff(items: seq<Item>, first: nat, last: nat, v: Elt, shape: Shape) returns (more: seq<Error>)
    requires Unfilled(Run(items, shape).given) <= first <= last && shape.maxIndex.Some? && first <= shape.maxIndex.value < last
    ensures var a, b := Run(items, shape), Run(items + [Designator(first, Some(last)), Value(v)], shape);
            && b.errors == a.errors + [Excess(last)] + more
            && (forall e :: e in more <==> e.Duplicate? && first <= e.at <= shape.maxIndex.value && e.at in a.given)
            && (forall i :: i in b.given <==> i in a.given || first <= i <= shape.maxIndex.value)
            && (forall i :: i in b.given ==> b.given[i] == if i in a.given then a.given[i] else v)
  {
    RunTwo(items, Designator(first, Some(last)), Value(v), shape);
    var d := Designate(Run(items, shape), first, Some(last));
    var start := Report(d.(rangeEnd := Some(shape.maxIndex.value)), Excess(last));
    assert Element(d, v, shape) == PlaceRange(start, v);
    RangeGives(start, v);
    more := RangeReports(start, v);
  }

  /** An empty range after values without designators is reported and taken for its first
      index alone. */
  lemma EmptyRangeFirst(items: seq<Item>, first: nat, last: int, v: Elt, shape: Shape)
    requires Undesignated(items) && shape.maxIndex.None? && last < first && |items| <= first
    ensures var a, b := Run(items, shape), Run(items + [Designator(first, Some(last)), Value(v)], shape);
            b.errors == a.errors + [EmptyRange(first)] && b.given == a.given[first := v]
  {
    PlainRun(items, shape);
    RunTwo(items, Designator(first, Some(last)), Value(v), shape);
    UnfilledUnique(InOrder(items, |items|), |items|);
  }
}
