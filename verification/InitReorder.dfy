/** Array initializers whose elements come in any order, put out in order. */
module InitReorder {
  import opened Options
  import opened InitSpec
  import opened InitMeaning
  import opened Lists

  predicate OnList(pending: seq<Entry>, i: nat) {
    exists k :: 0 <= k < |pending| && pending[k].purpose == i
  }

  /** No index is pending twice, and each entry is what its index was given. */
  ghost predicate Entries(pending: seq<Entry>, given: map<nat, Elt>) {
    && (forall k :: 0 <= k < |pending| ==> pending[k].purpose in given && given[pending[k].purpose] == pending[k].value)
    && (forall j, k :: 0 <= j < k < |pending| ==> pending[j].purpose != pending[k].purpose)
  }

  /** Everything given and not behind both `unfilled` and `index` is on the list, though
      it may have been put out already. */
  ghost predicate Kept(pending: seq<Entry>, given: map<nat, Elt>, unfilled: nat, index: nat) {
    forall i :: i in given && (i >= unfilled || i >= index) ==> OnList(pending, i)
  }

  lemma EntriesPush(pending: seq<Entry>, given: map<nat, Elt>, i: nat, v: Elt)
    requires Entries(pending, given) && i !in given
    ensures Entries([Entry(i, v)] + pending, given[i := v])
  {
  }

  lemma KeptPush(pending: seq<Entry>, given: map<nat, Elt>, unfilled: nat, index: nat, i: nat, v: Elt)
    requires Kept(pending, given, unfilled, index)
    ensures Kept([Entry(i, v)] + pending, given[i := v], unfilled, index)
  {
    var after := [Entry(i, v)] + pending;
    forall j | j in given[i := v] && (j >= unfilled || j >= index) ensures OnList(after, j) {
      if j == i {
        assert after[0].purpose == i;
      } else {
        var k :| 0 <= k < |pending| && pending[k].purpose == j;
        assert after[k + 1].purpose == j;
      }
    }
  }

  /** What one look through the pending list finds: the value that comes next, or else
      the first index still to come. */
  datatype Found = Now(value: Elt) | Later(next: nat) | Nothing

  ghost predicate Looked(pending: seq<Entry>, unfilled: nat, f: Found) {
    match f
    case Now(v) => Entry(unfilled, v) in pending
    case Later(n) =>
      && n > unfilled && OnList(pending, n)
      && forall k :: 0 <= k < |pending| ==> pending[k].purpose < unfilled || pending[k].purpose >= n
    case Nothing => forall k :: 0 <= k < |pending| ==> pending[k].purpose < unfilled
  }

  /** The loop of output_pending_init_elements over the list. */
  method Look(pending: seq<Entry>, unfilled: nat) returns (f: Found)
    ensures Looked(pending, unfilled, f)
  {
    f := Nothing;
    var k := 0;
    while k < |pending|
      invariant 0 <= k <= |pending|
      invariant !f.Now? && Looked(pending[..k], unfilled, f)
    {
      var e := pending[k];
      assert pending[..k + 1] == pending[..k] + [e];
      if e.purpose == unfilled {
        return Now(e.value);
      } else if e.purpose >= unfilled && (f.Nothing? || e.purpose < f.next) {
        f := Later(e.purpose);
        assert pending[..k + 1][k].purpose == e.purpose;
      } else if f.Later? {
        var j :| 0 <= j < k && pending[..k][j].purpose == f.next;
        assert pending[..k + 1][j].purpose == f.next;
      }
      k := k + 1;
    }
    assert pending[..k] == pending;
  }

  /** An index above all those given. */
  ghost function Top(given: map<nat, Elt>, least: nat): (n: nat)
    ensures n >= least && forall i :: i in given ==> i < n
  {
    assert forall i :: i in given ==> i in given.Keys;
    TopOf(given.Keys, least)
  }

  ghost function TopOf(keys: set<nat>, least: nat): (n: nat)
    ensures n >= least && forall i :: i in keys ==> i < n
  {
    if keys == {} then least
    else
      var k :| k in keys;
      var rest := TopOf(keys - {k}, least);
      assert forall i :: i in keys && i != k ==> i in keys - {k};
      if rest <= k then k + 1 else rest
  }

  class Constructor {
    const shape: Shape
    const incremental: bool
    var index: nat
    var rangeEnd: Option<nat>
    var unfilled: nat
    var pending: seq<Entry>
    var elements: seq<Entry>   // not incremental: the entries put out, latest first
    var image: seq<bv8>        // incremental: the bytes put out
    var errors: seq<Error>
    ghost var given: map<nat, Elt>

    /** The state the meaning of the initializer is told by. */
    ghost function State(): Init
      reads this
    {
      Init(index, rangeEnd, given, errors)
    }

    /** Everything given before `unfilled` has been put out, in order and with the gaps filled. */
    ghost predicate PutOut()
      reads this`image, this`elements, this`given, this`unfilled
    {
      if incremental then image == Image(given, unfilled, shape.eltsize) && elements == []
      else elements == Listed(given, unfilled) && image == []
    }

    ghost predicate Bookkept()
      reads this
    {
      && PutOut() && Sized(given, shape.eltsize)
      && Entries(pending, given)
      && (forall i :: i in given ==> !Beyond(shape, i))
      && (shape.maxIndex.Some? ==> unfilled <= shape.maxIndex.value + 1)
    }

    /** Between elements, nothing before `unfilled` is missing and it is missing itself. */
    ghost predicate Valid()
      reads this
    {
      && Bookkept() && Kept(pending, given, unfilled, index)
      && unfilled !in given && (forall i :: 0 <= i < unfilled ==> i in given)
    }

    constructor (shape: Shape, incremental: bool)
      requires shape.maxIndex.Some? ==> shape.maxIndex.value >= -1
      ensures Valid() && State() == START && this.shape == shape && this.incremental == incremental
    {
      this.shape, this.incremental := shape, incremental;
      index, rangeEnd, unfilled := 0, None, 0;
      pending, elements, image, errors, given := [], [], [], [], map[];
    }

    /** set_init_index. */
    method SetInitIndex(first: int, last: Option<int>)
      requires Valid()
      modifies this`index, this`rangeEnd, this`errors
      ensures Valid() && State() == Designate(old(State()), first, last)
    {
      UnfilledUnique(given, unfilled);
      if first < unfilled {
        errors := errors + [DuplicateIndex(first)];
      } else {
        index := first;
        if last.Some? && last.value < first {
          errors := errors + [EmptyRange(first)];
        } else {
          rangeEnd := if last.Some? then Some(last.value) else None;
        }
      }
    }

    /** The part of output_init_element that puts an element out, for the index that is next. */
    method PutNext(v: Elt)
      requires PutOut() && unfilled in given && given[unfilled] == v
      modifies this`elements, this`image, this`unfilled
      ensures PutOut() && unfilled == old(unfilled) + 1
    {
      if incremental {
        image := image + v;
      } else {
        elements := [Entry(unfilled, v)] + elements;
      }
      unfilled := unfilled + 1;
    }

    /** assemble_zeros up to the next element, or skipping over the gap. */
    method SkipTo(next: nat)
      requires PutOut() && next >= unfilled && forall i :: unfilled <= i < next ==> i !in given
      modifies this`image, this`unfilled
      ensures PutOut() && unfilled == next
    {
      ImageGap(given, unfilled, next, shape.eltsize);
      ListedGap(given, unfilled, next);
      if incremental {
        image := image + Zeros((next - unfilled) * shape.eltsize);
      }
      unfilled := next;
    }

    /** Everything given from `unfilled` on is still to be found on the list. */
    ghost predicate Findable()
      reads this`pending, this`given, this`unfilled
    {
      forall i :: i in given && i >= unfilled ==> OnList(pending, i)
    }

    /** output_pending_init_elements: what has become next, or, with `all`, everything. */
    method OutputPending(all: bool)
      requires Bookkept() && Findable()
      modifies this`elements, this`image, this`unfilled
      ensures Bookkept() && unfilled >= old(unfilled)
      ensures !all ==> unfilled !in given && forall i :: old(unfilled) <= i < unfilled ==> i in given
      ensures all ==> (forall i :: i in given ==> i < unfilled) && (unfilled == old(unfilled) || unfilled - 1 in given)
    {
      hide Image, Listed, Looked, Top, Entries;
      ghost var top := Top(given, unfilled);
      while true
        invariant Bookkept() && Findable() && old(unfilled) <= unfilled <= top
        invariant !all ==> forall i :: old(unfilled) <= i < unfilled ==> i in given
        invariant unfilled == old(unfilled) || unfilled - 1 in given || (all && unfilled in given)
        decreases top - unfilled
      {
        var f := Look(pending, unfilled);
        match f
        case Now(v) =>
          NextOnList(v);
          PutNext(v);
        case Later(next) =>
          NothingBetween(next);
          if !all {
            return;
          }
          SkipTo(next);
        case Nothing =>
          NothingLeft();
          return;
      }
    }

    lemma NextOnList(v: Elt)
      requires Bookkept() && Entry(unfilled, v) in pending
      ensures unfilled in given && given[unfilled] == v
    {
    }

    lemma NothingBetween(next: nat)
      requires Bookkept() && Findable() && Looked(pending, unfilled, Later(next))
      ensures next in given && forall i :: unfilled <= i < next ==> i !in given
    {
    }

    lemma NothingLeft()
      requires Bookkept() && Findable() && Looked(pending, unfilled, Nothing)
      ensures forall i :: i in given ==> i < unfilled
    {
    }

    /** Whether the current index is on the pending list. */
    method IsPending(i: nat) returns (found: bool)
      ensures found <==> OnList(pending, i)
    {
      found := false;
      var k := 0;
      while k < |pending|
        invariant 0 <= k <= |pending|
        invariant found <==> exists j :: 0 <= j < k && pending[j].purpose == i
      {
        if pending[k].purpose == i {
          found := true;
        }
        k := k + 1;
      }
    }

    /** output_init_element for the current index; `index` itself is advanced after. */
    method OutputElement(v: Elt)
      requires Valid() && |v| == shape.eltsize && !Beyond(shape, index)
      modifies this`pending, this`elements, this`image, this`unfilled, this`errors, this`given
      ensures Bookkept() && Kept(pending, given, unfilled, index + 1)
      ensures unfilled !in given && forall i :: 0 <= i < unfilled ==> i in given
      ensures State().(index := index + 1) == Place(old(State()), v)
    {
      hide Image, Listed, Entries, Sized, Beyond, OnList, PutOut;
      PendingExactly();
      KeptAfter();
      var duplicate := IsPending(index);
      if duplicate {
        errors := errors + [Duplicate(index)];
      }
      if index != unfilled {
        if !duplicate {
          AddPending(v);
          KeptAfter();
        }
      } else {
        // The index that is next is never pending.
        assert !duplicate;
        PutCurrent(v);
        OutputPending(false);
      }
    }

    /** The current index is pending exactly when it was given. */
    lemma PendingExactly()
      requires Valid()
      ensures OnList(pending, index) <==> index in given
    {
    }

    lemma KeptAfter()
      requires Valid()
      ensures Kept(pending, given, unfilled, index + 1)
    {
    }

    /** An element not next in sequence waits. */
    method AddPending(v: Elt)
      requires Valid() && |v| == shape.eltsize && !Beyond(shape, index) && index != unfilled && !OnList(pending, index)
      modifies this`pending, this`given
      ensures Valid() && index !in old(given) && given == old(given)[index := v]
    {
      EntriesPush(pending, given, index, v);
      KeptPush(pending, given, unfilled, index, index, v);
      ImageUntouched(given, unfilled, shape.eltsize, index, v);
      ListedUntouched(given, unfilled, index, v);
      pending := [Entry(index, v)] + pending;
      given := given[index := v];
    }

    /** An element next in sequence is put out at once. */
    method PutCurrent(v: Elt)
      requires Valid() && |v| == shape.eltsize && !Beyond(shape, index) && index == unfilled
      modifies this`elements, this`image, this`unfilled, this`given
      ensures Bookkept() && Findable() && Kept(pending, given, unfilled, index + 1)
      ensures given == old(given)[index := v] && unfilled == old(unfilled) + 1
    {
      ImageUntouched(given, unfilled, shape.eltsize, index, v);
      ListedUntouched(given, unfilled, index, v);
      given := given[index := v];
      PutNext(v);
    }

    /** The array part of process_init_element. */
    method ProcessElement(v: Elt)
      requires Valid() && |v| == shape.eltsize
      modifies this
      ensures Valid() && State() == Element(old(State()), v, shape)
    {
      if Beyond(shape, index) {
        errors := errors + [Excess(index)];
        return;
      }
      if rangeEnd.Some? && Beyond(shape, rangeEnd.value) {
        errors := errors + [Excess(rangeEnd.value)];
        rangeEnd := Some(shape.maxIndex.value);
      }
      RepeatOverRange(v);
    }

    /** The do-while loop of process_init_element. */
    method RepeatOverRange(v: Elt)
      requires Valid() && |v| == shape.eltsize && !Beyond(shape, index)
      requires rangeEnd.Some? ==> !Beyond(shape, rangeEnd.value)
      modifies this
      ensures Valid() && State() == PlaceRange(old(State()), v)
    {
      ghost var start := State();
      PlaceOne(v);
      while rangeEnd.Some? && index <= rangeEnd.value
        invariant Valid() && rangeEnd == start.rangeEnd
        invariant PlaceRange(start, v) ==
                  if rangeEnd.Some? && index <= rangeEnd.value then PlaceRange(State(), v) else State()
        decreases if rangeEnd.Some? then rangeEnd.value - index else -1
      {
        PlaceOne(v);
      }
    }

    method PlaceOne(v: Elt)
      requires Valid() && |v| == shape.eltsize && !Beyond(shape, index)
      modifies this
      ensures Valid() && State() == Place(old(State()), v)
    {
      OutputElement(v);
      index := index + 1;
    }

    /** The zeros after the last element, up to the array's size. */
    method FillTail(n: nat)
      requires incremental && PutOut() && n >= unfilled
      requires forall i :: i in given ==> i < unfilled
      modifies this`image
      ensures image == Image(given, n, shape.eltsize)
    {
      ImageGap(given, unfilled, n, shape.eltsize);
      Tail(n, unfilled, shape.eltsize);
      image := image + Zeros(n * shape.eltsize - unfilled * shape.eltsize);
    }

    /** Everything given has been put out, and nothing after it. */
    ghost predicate AllOut()
      reads this
    {
      && Bookkept() && (forall i :: i in given ==> i < unfilled)
      && (unfilled == 0 || unfilled - 1 in given)
    }

    method FinishImage() returns (bound: int)
      requires AllOut() && incremental
      modifies this`image
      ensures -1 <= bound && BoundOk(shape, given, bound)
      ensures image == Image(given, bound + 1, shape.eltsize)
    {
      bound := if shape.maxIndex.Some? then shape.maxIndex.value else unfilled - 1;
      FillTail(bound + 1);
    }

    method FinishList() returns (bound: int, list: seq<Entry>)
      requires AllOut() && !incremental
      ensures -1 <= bound && BoundOk(shape, given, bound)
      ensures Ascending(list) && Denoted(list) == given
    {
      UpwardIs(given, unfilled);
      UpwardAll(given, unfilled);
      ReversedListed(given, unfilled);
      list := Reversed(elements);
      bound := if shape.maxIndex.Some? then shape.maxIndex.value else LastPurpose(list);
    }

    /** The array part of pop_init_level, and the bound of an unsized array: here from
        `unfilled`, or by complete_array_type from the list. */
    method Finish() returns (bound: int, list: seq<Entry>)
      requires Valid()
      modifies this`elements, this`image, this`unfilled
      ensures -1 <= bound && BoundOk(shape, given, bound)
      ensures incremental ==> image == Image(given, bound + 1, shape.eltsize)
      ensures !incremental ==> Ascending(list) && Denoted(list) == given
      ensures Sized(given, shape.eltsize)
    {
      OutputPending(true);
      list := [];
      if incremental {
        bound := FinishImage();
      } else {
        bound, list := FinishList();
      }
    }
  }

  lemma Tail(n: nat, filled: nat, bytes: nat)
    requires filled <= n
    ensures n * bytes - filled * bytes == (n - filled) * bytes >= 0
  {
  }

  /** The bound as given, or the highest index given anything. */
  ghost predicate BoundOk(shape: Shape, given: map<nat, Elt>, bound: int) {
    && (forall i :: i in given ==> i <= bound)
    && (if shape.maxIndex.Some? then bound == shape.maxIndex.value else bound == -1 || bound in given)
  }

  /** A whole initializer. Whichever way the elements are put out, they make the array
      its items mean: each index holds the first value given it, gaps and tail are zero,
      the errors are the same and so is the bound found for an unsized array. */
  method Initialize(items: seq<Item>, shape: Shape, incremental: bool)
    returns (bound: int, list: seq<Entry>, image: seq<bv8>, errors: seq<Error>)
    requires shape.maxIndex.Some? ==> shape.maxIndex.value >= -1
    requires forall k :: 0 <= k < |items| && items[k].Value? ==> |items[k].value| == shape.eltsize
    ensures var final := Run(items, shape);
            && errors == final.errors && bound >= -1 && BoundOk(shape, final.given, bound)
            && (incremental ==> image == Image(final.given, bound + 1, shape.eltsize))
            && (!incremental ==> Ascending(list) && Denoted(list) == final.given)
            && Sized(final.given, shape.eltsize)
    ensures Undesignated(items) ==> InSequence(items, shape, incremental, bound, list, image, errors)
  {
    hide Element, Designate, Image, Denoted, Sized, Ascending, BoundOk, Upward, PlaceRange, InSequence;
    var c := new Constructor(shape, incremental);
    var k := 0;
    while k < |items|
      invariant 0 <= k <= |items| && c.shape == shape && c.incremental == incremental && fresh(c)
      invariant c.Valid() && c.State() == Run(items[..k], shape)
    {
      assert items[..k + 1][..k] == items[..k];
      if items[k].Designator? {
        c.SetInitIndex(items[k].first, items[k].last);
      } else {
        c.ProcessElement(items[k].value);
      }
      k := k + 1;
    }
    assert items[..k] == items;
    bound, list := c.Finish();
    image, errors := c.image, c.errors;
    if Undesignated(items) {
      BoundKnown(shape, Run(items, shape).given, bound);
      PlainArray(items, shape, incremental, bound, list, image, errors);
    }
  }

  lemma BoundKnown(shape: Shape, given: map<nat, Elt>, bound: int)
    requires BoundOk(shape, given, bound)
    ensures forall i :: i in given ==> i <= bound
    ensures if shape.maxIndex.Some? then bound == shape.maxIndex.value else bound == -1 || bound in given
  {
  }

  /** Whatever an element or a range of it does, the errors before stay the first ones. */
  lemma ErrorsGrow(a: Init, v: Elt, shape: Shape)
    ensures a.errors <= Element(a, v, shape).errors
  {
    var start := if a.rangeEnd.Some? && Beyond(shape, a.rangeEnd.value) && !Beyond(shape, a.index)
                 then Report(a.(rangeEnd := Some(shape.maxIndex.value)), Excess(a.rangeEnd.value)) else a;
    var more := RangeReports(start, v);
  }

  /** `[i] = v`: the first error it brings is a duplicate exactly when i was given before
      or is negative, by the designator below the first index missing, else by the
      element; otherwise it brings none and i is given v. */
  lemma DuplicateExactly(a: Init, i: int, v: Elt, shape: Shape)
    requires i < 0 || !Beyond(shape, i)
    ensures var b := Element(Designate(a, i, None), v, shape);
            if i < 0 || i in a.given then
              a.errors + [if i < Unfilled(a.given) then DuplicateIndex(i) else Duplicate(i)] <= b.errors
            else b.errors == a.errors && b.given == a.given[i := v]
  {
    var d := Designate(a, i, None);
    if i < Unfilled(a.given) {
      ErrorsGrow(d, v, shape);
    } else {
      assert Element(d, v, shape) == Place(d, v);
    }
  }

  /** `[first ... last] = v` past the indices already put out: a duplicate is reported for
      exactly the indices of the range given before, and the others are given v. */
  lemma RangeExactly(a: Init, first: nat, last: nat, v: Elt, shape: Shape) returns (more: seq<Error>)
    requires Unfilled(a.given) <= first <= last && !Beyond(shape, last)
    ensures var b := Element(Designate(a, first, Some(last)), v, shape);
            && b.errors == a.errors + more
            && (forall e :: e in more <==> e.Duplicate? && first <= e.at <= last && e.at in a.given)
            && (forall i :: i in b.given <==> i in a.given || first <= i <= last)
            && (forall i :: i in b.given ==> b.given[i] == if i in a.given then a.given[i] else v)
  {
    more := RangeReports(Designate(a, first, Some(last)), v);
    RangeGives(Designate(a, first, Some(last)), v);
  }

  /** What an index was given first stays, whatever follows. */
  lemma {:induction false} GivenStays(items: seq<Item>, more: seq<Item>, shape: Shape, i: nat)
    requires i in Run(items, shape).given
    ensures i in Run(items + more, shape).given && Run(items + more, shape).given[i] == Run(items, shape).given[i]
    decreases |more|
  {
    if more == [] {
      assert items + more == items;
    } else {
      var k := |more| - 1;
      GivenStays(items, more[..k], shape, i);
      assert (items + more)[..|items + more| - 1] == items + more[..k];
      StepKeeps(Run(items + more[..k], shape), more[k], shape, i);
    }
  }

  lemma StepKeeps(a: Init, item: Item, shape: Shape, i: nat)
    requires i in a.given
    ensures i in Step(a, item, shape).given && Step(a, item, shape).given[i] == a.given[i]
  {
    match item
    case Designator(_, _) =>
    case Value(v) =>
      RangeKeeps(a, v, i);
      if a.rangeEnd.Some? && Beyond(shape, a.rangeEnd.value) && !Beyond(shape, a.index) {
        RangeKeeps(Report(a.(rangeEnd := Some(shape.maxIndex.value)), Excess(a.rangeEnd.value)), v, i);
      }
  }

  lemma {:induction false} RangeKeeps(a: Init, v: Elt, i: nat)
    requires i in a.given
    ensures i in PlaceRange(a, v).given && PlaceRange(a, v).given[i] == a.given[i]
    decreases if a.rangeEnd.Some? then a.rangeEnd.value - a.index else -1
  {
    var b := Place(a, v);
    if b.rangeEnd.Some? && b.index <= b.rangeEnd.value {
      RangeKeeps(b, v, i);
    }
  }
}
