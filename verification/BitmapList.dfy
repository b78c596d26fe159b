/** One sparse bitmap: a doubly linked list of elements with a cached cursor. */
module BitmapList {
  import opened BitmapSpec

  /** Where an element is. Scratch and Detached occur only inside an operation. */
  datatype Owner = InList(head: Head) | OnFreelist | Scratch | Detached

  class Element {
    var next: Element?
    var prev: Element?
    var indx: nat
    var bits: Bits
    ghost var owner: Owner

    constructor ()
      ensures owner == Scratch && bits == ZERO
    {
      next, prev, indx, bits, owner := null, null, 0, ZERO, Scratch;
    }
  }

  // Sequences of elements.

  /** The i-th element of a list, null outside it. */
  ghost function At(es: seq<Element>, i: int): Element? {
    if 0 <= i < |es| then es[i] else null
  }

  ghost predicate Distinct(es: seq<Element>) {
    forall i, j :: 0 <= i < j < |es| ==> es[i] != es[j]
  }

  /** The elements are doubly linked in this order. */
  ghost predicate Links(es: seq<Element>)
    reads es
  {
    && (forall i {:trigger es[i].next} :: 0 <= i < |es| ==> es[i].next == At(es, i + 1))
    && (forall i {:trigger es[i].prev} :: 0 <= i < |es| ==> es[i].prev == At(es, i - 1))
  }

  /** The forward links alone. */
  ghost predicate Forward(es: seq<Element>)
    reads es
  {
    forall i {:trigger es[i].next} :: 0 <= i < |es| ==> es[i].next == At(es, i + 1)
  }

  /** Walking the forward links reads off the cells. */
  ghost predicate Reads(es: seq<Element>, cells: seq<Cell>)
    reads es
  {
    && Forward(es)
    && |cells| == |es|
    && (forall i {:trigger es[i].indx} :: 0 <= i < |es| ==> es[i].indx == cells[i].indx)
    && (forall i {:trigger es[i].bits} :: 0 <= i < |es| ==> es[i].bits == cells[i].bits)
  }

  /** The elements hold these cells and are where owner says. */
  ghost predicate Carries(es: seq<Element>, cells: seq<Cell>, owner: Owner)
    reads es
  {
    && |cells| == |es|
    && (forall i {:trigger es[i].indx} :: 0 <= i < |es| ==> es[i].indx == cells[i].indx)
    && (forall i {:trigger es[i].bits} :: 0 <= i < |es| ==> es[i].bits == cells[i].bits)
    && (forall i {:trigger es[i].owner} :: 0 <= i < |es| ==> es[i].owner == owner)
  }

  ghost function InsertAt(es: seq<Element>, k: nat, element: Element): seq<Element>
    requires k <= |es|
  {
    es[..k] + [element] + es[k..]
  }

  ghost predicate Increasing(cells: seq<Cell>) {
    forall i, j :: 0 <= i < j < |cells| ==> cells[i].indx < cells[j].indx
  }

  lemma CarriersDistinct(es: seq<Element>, cells: seq<Cell>, owner: Owner)
    requires Carries(es, cells, owner) && Increasing(cells)
    ensures Distinct(es)
  {
    forall i, j | 0 <= i < j < |es| ensures es[i] != es[j] {
      assert es[i].indx < es[j].indx;
    }
  }

  lemma InsertPlaces(es: seq<Element>, cells: seq<Cell>, k: nat, element: Element, c: Cell)
    requires k <= |es| == |cells|
    ensures At(InsertAt(es, k, element), 0) == if k == 0 then element else At(es, 0)
    ensures At(InsertAt(es, k, element), k) == element && At(InsertAt(es, k, element), k - 1) == At(es, k - 1)
    ensures InsertCell(cells, k, c)[k] == c
  {
  }

  lemma CellsIncrease(cells: seq<Cell>)
    requires CellsOk(cells)
    ensures Increasing(cells)
  {
  }

  lemma InsertedLast(es: seq<Element>, cells: seq<Cell>, element: Element, c: Cell)
    ensures InsertAt(es, |es|, element) == es + [element] && InsertCell(cells, |cells|, c) == cells + [c]
  {
  }

  lemma InsertCarries(es: seq<Element>, cells: seq<Cell>, owner: Owner, k: nat, element: Element)
    requires Carries(es, cells, owner) && element.owner == owner
    requires Increasing(cells) && Gap(cells, k, element.indx)
    ensures var after := InsertCell(cells, k, Cell(element.indx, element.bits));
            Carries(InsertAt(es, k, element), after, owner) && Increasing(after)
  {
  }

  /** The link writes of bitmap_element_link. */
  method Splice(ghost es: seq<Element>, ghost k: nat, before: Element?, element: Element, after: Element?)
    requires Links(es) && Distinct(es) && k <= |es| && element !in es
    requires before == At(es, k - 1) && after == At(es, k)
    modifies es`next, es`prev, element`next, element`prev
    ensures Links(InsertAt(es, k, element))
  {
    if before != null {
      before.next := element;
    }
    element.prev := before;
    element.next := after;
    if after != null {
      after.prev := element;
    }
  }

  ghost function RemoveAt<T>(s: seq<T>, k: nat): seq<T>
    requires k < |s|
  {
    s[..k] + s[k + 1..]
  }

  lemma RemoveCarries(es: seq<Element>, cells: seq<Cell>, owner: Owner, k: nat)
    requires Carries(es, cells, owner) && Increasing(cells) && k < |es|
    ensures Carries(RemoveAt(es, k), RemoveAt(cells, k), owner) && Increasing(RemoveAt(cells, k))
  {
  }

  lemma RemoveSet(es: seq<Element>, k: nat)
    requires Distinct(es) && k < |es|
    ensures forall e :: e in es <==> e == es[k] || e in RemoveAt(es, k)
    ensures es[k] !in RemoveAt(es, k)
  {
  }

  /** The neighbours of an element once another is out. */
  lemma RemovedAt(es: seq<Element>, k: nat, i: nat)
    requires k < |es| && i < |es| - 1
    ensures |RemoveAt(es, k)| == |es| - 1 && RemoveAt(es, k)[i] == es[if i < k then i else i + 1]
    ensures At(RemoveAt(es, k), i + 1) == if i + 1 < k then es[i + 1] else At(es, i + 2)
    ensures At(RemoveAt(es, k), i - 1) == if i <= k then At(es, i - 1) else es[i]
  {
  }

  /** The link writes of bitmap_element_free. */
  method Unsplice(ghost es: seq<Element>, ghost k: nat, element: Element)
    requires Links(es) && Distinct(es) && k < |es| && element == es[k]
    modifies es`next, es`prev
    ensures Links(RemoveAt(es, k))
    ensures element.next == old(element.next) && element.prev == old(element.prev)
  {
    var next, prev := element.next, element.prev;
    if prev != null {
      prev.next := next;
    }
    if next != null {
      next.prev := prev;
    }
    ghost var after := RemoveAt(es, k);
    forall i | 0 <= i < |after| ensures after[i].next == At(after, i + 1) && after[i].prev == At(after, i - 1) {
      RemovedAt(es, k, i);
    }
  }

  /** What the cached pair (current, indx) promises. The index may be that of an element
      since deleted; then no element lies between it and the current one. */
  ghost predicate CursorOk(cells: seq<Cell>, cur: nat, indx: nat) {
    && cur < |cells|
    && (|| indx == cells[cur].indx
        || (indx < cells[cur].indx && (cur > 0 ==> cells[cur - 1].indx < indx))
        || (indx > cells[cur].indx && cur == |cells| - 1))
  }

  /** Where the cursor stands after element k of n has been taken out. */
  ghost function CursorAfter(n: nat, k: nat, cur: nat): nat
    requires k < n && cur < n
  {
    if cur < k then cur
    else if cur > k then cur - 1
    else if k + 1 < n then k
    else if k > 0 then k - 1
    else 0
  }

  /** Deleting any element keeps the promise, although the cached index stays. */
  lemma CursorSurvivesRemoval(cells: seq<Cell>, k: nat, cur: nat, indx: nat)
    requires Increasing(cells) && k < |cells| && CursorOk(cells, cur, indx) && |cells| > 1
    ensures CursorOk(RemoveAt(cells, k), CursorAfter(|cells|, k, cur), indx)
  {
  }

  lemma RemovePlaces(es: seq<Element>, k: nat, cur: nat)
    requires k < |es| && cur < |es| && Distinct(es)
    ensures At(RemoveAt(es, k), 0) == if k == 0 then At(es, 1) else At(es, 0)
    ensures At(RemoveAt(es, k), CursorAfter(|es|, k, cur))
            == if cur != k then es[cur] else if k + 1 < |es| then es[k + 1] else At(es, k - 1)
    ensures es[cur] == es[k] <==> cur == k
    ensures es[0] == es[k] <==> 0 == k
  {
  }

  lemma CursorStays(es: seq<Element>, cells: seq<Cell>, k: nat, cur: nat)
    requires k < |es| == |cells| && cur < |es|
    ensures |RemoveAt(es, k)| == |es| - 1 == |RemoveAt(cells, k)| && (|es| > 1 ==> CursorAfter(|es|, k, cur) < |es| - 1)
    ensures forall e :: e in RemoveAt(es, k) ==> e in es
  {
  }

  class Head {
    var first: Element?
    var current: Element?
    var indx: nat
    ghost var elems: seq<Element>
    ghost var cells: seq<Cell>
    ghost var cur: nat

    constructor Initialize()
      ensures ListOk() && cells == [] && elems == []
    {
      first, current, indx := null, null, 0;
      elems, cells, cur := [], [], 0;
    }

    /** A well-formed list with a sound cursor; a word may be all zero. */
    ghost predicate Linked()
      reads this, elems
    {
      && Links(elems)
      && Carries(elems, cells, InList(this))
      && Increasing(cells)
      && first == At(elems, 0)
      && (if elems == [] then current == null
          else cur < |elems| && current == elems[cur] && CursorOk(cells, cur, indx))
    }

    ghost predicate ListOk()
      reads this, elems
    {
      Linked() && CellsOk(cells)
    }

    lemma ElementsDistinct()
      requires Linked()
      ensures Distinct(elems)
    {
      CarriersDistinct(elems, cells, InList(this));
    }

    /** The cursor is not stale. */
    ghost predicate CursorFresh()
      reads this
    {
      cells != [] ==> cur < |cells| && indx == cells[cur].indx
    }

    method WalkBack(wanted: nat) returns (element: Element, ghost k: nat)
      requires Linked() && current != null && indx > wanted
      ensures k < |elems| && element == elems[k]
      ensures forall j :: 0 <= j < |cells| && j != k ==> cells[j].indx != wanted
    {
      element := current;
      k := cur;
      while element.prev != null && element.indx > wanted
        invariant k < |elems| && element == elems[k]
        invariant forall j :: k < j < |cells| ==> cells[j].indx != wanted
        decreases k
      {
        element := element.prev;
        k := k - 1;
      }
    }

    method WalkForward(wanted: nat) returns (element: Element, ghost k: nat)
      requires Linked() && current != null && indx <= wanted
      ensures k < |elems| && element == elems[k]
      ensures forall j :: 0 <= j < |cells| && j != k ==> cells[j].indx != wanted
    {
      element := current;
      k := cur;
      while element.next != null && element.indx < wanted
        invariant k < |elems| && element == elems[k]
        invariant forall j :: 0 <= j < k ==> cells[j].indx != wanted
        decreases |elems| - k
      {
        element := element.next;
        k := k + 1;
      }
    }

    /** The element that holds the bit, null if there is none; the cursor moves to the
        element the search ended at either way. */
    method FindBit(bit: nat) returns (r: Element?)
      requires Linked()
      modifies this`current, this`indx, this`cur
      ensures Linked() && CursorFresh()
      ensures r != null ==> cur < |elems| && r == elems[cur] && cells[cur].indx == IndxOf(bit)
      ensures r == null ==> forall i :: 0 <= i < |cells| ==> cells[i].indx != IndxOf(bit)
    {
      var wanted := IndxOf(bit);
      if current == null {
        return null;
      }
      var element;
      ghost var k;
      if indx > wanted {
        element, k := WalkBack(wanted);
      } else {
        element, k := WalkForward(wanted);
      }
      current := element;
      indx := element.indx;
      cur := k;
      r := if element.indx != wanted then null else element;
    }

    /** The search of bitmap_element_link: the two neighbours of the place for `want`. */
    method FindPlace(want: nat) returns (before: Element?, after: Element?, ghost k: nat)
      requires Linked() && CursorFresh() && first != null
      requires forall i :: 0 <= i < |cells| ==> cells[i].indx != want
      ensures Gap(cells, k, want)
      ensures before == At(elems, k - 1) && after == At(elems, k)
    {
      if want < indx {
        after := current;
        k := cur;
        while after.prev != null && after.prev.indx > want
          invariant k < |elems| && after == elems[k]
          invariant forall j :: k <= j < |cells| ==> want < cells[j].indx
          decreases k
        {
          after := after.prev;
          k := k - 1;
        }
        before := after.prev;
      } else {
        before := current;
        k := cur;
        while before.next != null && before.next.indx < want
          invariant k < |elems| && before == elems[k]
          invariant forall j :: 0 <= j <= k ==> cells[j].indx < want
          decreases |elems| - k
        {
          before := before.next;
          k := k + 1;
        }
        after := before.next;
        k := k + 1;
      }
    }

    /** The element is this list's from now on. */
    ghost method Own(element: Element, k: nat)
      requires k <= |elems| && Links(InsertAt(elems, k, element))
      requires Carries(elems, cells, InList(this)) && Increasing(cells) && Gap(cells, k, element.indx)
      modifies element`owner
      ensures element.owner == InList(this)
      ensures var c := Cell(element.indx, element.bits);
              && Carries(InsertAt(elems, k, element), InsertCell(cells, k, c), InList(this))
              && Increasing(InsertCell(cells, k, c)) && Links(InsertAt(elems, k, element))
    {
      element.owner := InList(this);
      InsertCarries(elems, cells, InList(this), k, element);
    }

    /** The head fields after the links are in place: the new element is searched first. */
    method Adopt(element: Element, ghost k: nat)
      requires k <= |elems| && Links(InsertAt(elems, k, element))
      requires Carries(elems, cells, InList(this)) && Increasing(cells)
      requires Gap(cells, k, element.indx) && first == At(elems, 0)
      modifies this, element`owner
      ensures Linked() && CursorFresh()
      ensures cells == InsertCell(old(cells), k, Cell(element.indx, element.bits))
      ensures elems == InsertAt(old(elems), k, element)
    {
      hide Increasing, CellsOk;
      ghost var es, cs := elems, cells;
      Own(element, k);
      current, indx, cur := element, element.indx, k;
      elems, cells := InsertAt(es, k, element), InsertCell(cs, k, Cell(element.indx, element.bits));
      if element.prev == null {
        first := element;
      }
      InsertPlaces(es, cs, k, element, Cell(element.indx, element.bits));
    }

    /** Link an unlinked element in by its index. */
    method Link(element: Element) returns (ghost k: nat)
      requires Linked() && CursorFresh()
      requires element !in elems && element.owner == Scratch
      requires forall i :: 0 <= i < |cells| ==> cells[i].indx != element.indx
      modifies this, elems`next, elems`prev, element`next, element`prev, element`owner
      ensures Linked() && CursorFresh()
      ensures Gap(old(cells), k, element.indx)
      ensures cells == InsertCell(old(cells), k, Cell(element.indx, element.bits))
      ensures elems == InsertAt(old(elems), k, element)
    {
      var before, after := null, null;
      k := 0;
      if first != null {
        before, after, k := FindPlace(element.indx);
      }
      CarriersDistinct(elems, cells, InList(this));
      Splice(elems, k, before, element, after);
      Adopt(element, k);
    }

    /** The part of bitmap_set_bit for a bit whose element was missing. */
    method Place(ptr: Element, bit: nat)
      requires ListOk() && CursorFresh() && bit < BIT_LIMIT
      requires ptr !in elems && ptr.owner == Scratch && ptr.bits == ZERO
      requires forall i :: 0 <= i < |cells| ==> cells[i].indx != IndxOf(bit)
      modifies this, elems`next, elems`prev, ptr
      ensures ListOk()
      ensures Contents(cells) == old(Contents(cells)) + iset{bit}
      ensures forall e :: e in elems <==> e == ptr || e in old(elems)
    {
      ghost var cs := cells;
      ptr.indx := IndxOf(bit);
      ptr.bits := SetIn(ptr.bits, bit);
      ghost var k := Link(ptr);
      InsertBit(cs, k, bit);
    }

    /** Link an element whose index is larger than all others. */
    method PlaceLast(element: Element, want: nat)
      requires ListOk() && CursorFresh()
      requires element !in elems && element.owner == Scratch
      requires CellOk(Cell(want, element.bits))
      requires forall i :: 0 <= i < |cells| ==> cells[i].indx < want
      modifies this, elems`next, elems`prev, element
      ensures ListOk() && CursorFresh()
      ensures cells == old(cells) + [Cell(want, old(element.bits))]
      ensures forall e :: e in elems <==> e == element || e in old(elems)
    {
      ghost var cs := cells;
      element.indx := want;
      ghost var k := Link(element);
      assert |cs| > 0 ==> cs[|cs| - 1].indx < want;
      assert k == |cs|;
      assert cells == cs + [Cell(want, element.bits)];
    }

    /** The special case of linking in bitmap_copy: after the last element. */
    method LinkLast(last: Element?, element: Element)
      requires ListOk() && CursorFresh() && element !in elems && element.owner == Scratch
      requires last == At(elems, |elems| - 1)
      requires CellOk(Cell(element.indx, element.bits))
      requires forall i :: 0 <= i < |cells| ==> cells[i].indx < element.indx
      modifies this, elems`next, elems`prev, element`next, element`prev, element`owner
      ensures ListOk() && CursorFresh()
      ensures cells == old(cells) + [Cell(element.indx, element.bits)] && elems == old(elems) + [element]
    {
      ElementsDistinct();
      Splice(elems, |elems|, last, element, null);
      AdoptLast(element);
    }

    method AdoptLast(element: Element)
      requires Links(InsertAt(elems, |elems|, element))
      requires Carries(elems, cells, InList(this)) && CellsOk(cells)
      requires CellOk(Cell(element.indx, element.bits))
      requires forall i :: 0 <= i < |cells| ==> cells[i].indx < element.indx
      requires first == At(elems, 0)
      requires elems != [] ==> cur < |elems| && current == elems[cur] && cells[cur].indx == indx
      modifies this, element`owner
      ensures ListOk()
      ensures cells == old(cells) + [Cell(element.indx, element.bits)] && elems == old(elems) + [element]
      ensures cur < |elems| && current == elems[cur] && cells[cur].indx == indx
    {
      hide InsertAt, InsertCell, CellsOk, CellOk;
      ghost var es, cs, n := elems, cells, |elems|;
      CellsIncrease(cs);
      InsertedLast(es, cs, element, Cell(element.indx, element.bits));
      element.owner := InList(this);
      InsertPlaces(es, cs, n, element, Cell(element.indx, element.bits));
      if element.prev == null {
        first, current, indx, cur := element, element, element.indx, 0;
      }
      elems, cells := InsertAt(es, n, element), InsertCell(cs, n, Cell(element.indx, element.bits));
      InsertCarries(es, cs, InList(this), n, element);
      InsertKeepsForm(cs, n, Cell(element.indx, element.bits));
    }

    twostate lemma LinkedStays()
      requires old(Linked()) && Untouched(this)
      ensures Linked()
    {
    }

    /** Overwrite the words of an element in the list. */
    method ChangeBits(element: Element, ghost k: nat, bits: Bits)
      requires Linked() && k < |elems| && element == elems[k]
      modifies this`cells, element`bits
      ensures Linked()
      ensures cells == old(cells)[k := Cell(element.indx, bits)]
    {
      CarriersDistinct(elems, cells, InList(this));
      element.bits := bits;
      cells := cells[k := Cell(element.indx, bits)];
    }

    /** Take an element out; the cursor moves to a neighbour if it was there, its index stays. */
    method Unlink(element: Element, ghost k: nat)
      requires Linked() && k < |elems| && element == elems[k]
      modifies this, elems`next, elems`prev
      ensures Linked()
      ensures elems == RemoveAt(old(elems), k) && cells == RemoveAt(old(cells), k)
    {
      CarriersDistinct(elems, cells, InList(this));
      Unsplice(elems, k, element);
      Forget(element, k);
    }

    method Forget(element: Element, ghost k: nat)
      requires k < |elems| && element == elems[k] && Links(RemoveAt(elems, k))
      requires element.next == At(elems, k + 1) && element.prev == At(elems, k - 1)
      requires Carries(elems, cells, InList(this)) && Increasing(cells) && Distinct(elems)
      requires first == At(elems, 0)
      requires cur < |elems| && current == elems[cur] && CursorOk(cells, cur, indx)
      modifies this
      ensures Linked()
      ensures elems == RemoveAt(old(elems), k) && cells == RemoveAt(old(cells), k)
    {
      hide RemoveAt, CursorAfter, Distinct;
      ghost var es, cs := elems, cells;
      RemovePlaces(es, k, cur);
      CursorStays(es, cs, k, cur);
      if first == element {
        first := element.next;
      }
      if current == element {
        current := if element.next != null then element.next else element.prev;
      }
      if |cs| > 1 {
        CursorSurvivesRemoval(cs, k, cur, indx);
      }
      elems, cells, cur := RemoveAt(es, k), RemoveAt(cs, k), CursorAfter(|es|, k, cur);
      RemoveCarries(es, cs, InList(this), k);
    }
  }

  twostate predicate Untouched(h: Head)
    reads h, h.elems
  {
    && unchanged(h)
    && forall i {:trigger h.elems[i]} :: 0 <= i < |h.elems| ==> unchanged(h.elems[i])
  }

  twostate lemma UntouchedStaysOk(h: Head)
    requires old(h.ListOk()) && Untouched(h)
    ensures h.ListOk()
  {
  }
}
