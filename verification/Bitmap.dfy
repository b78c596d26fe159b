/** All bitmaps of a compilation, sharing one freelist of elements. */
module Bitmap {
  import opened BitmapSpec
  import opened BitmapList

  /** The elements and cells of the two operands of bitmap_operation when it was entered. */
  datatype Operands = Operands(f1: seq<Element>, c1: seq<Cell>, f2: seq<Element>, c2: seq<Cell>) {
    ghost predicate Readable()
      reads f1, f2
    {
      Reads(f1, c1) && Reads(f2, c2)
    }

    ghost function Elements(): (es: set<Element>)
      ensures forall i {:trigger f1[i]} :: 0 <= i < |f1| ==> f1[i] in es
      ensures forall i {:trigger f2[i]} :: 0 <= i < |f2| ==> f2[i] in es
    {
      (set e | e in f1) + (set e | e in f2)
    }
  }

  /** Between turns: the result so far, then the merge of what is left, is the whole merge. */
  ghost predicate MidMerge(op: Op, ops: Operands, done: seq<Cell>, i: nat, j: nat, low: int) {
    && i <= |ops.c1| && j <= |ops.c2|
    && AllAbove(ops.c1[i..], low) && AllAbove(ops.c2[j..], low)
    && (forall k :: 0 <= k < |done| ==> done[k].indx <= low)
    && done + Merge(op, ops.c1[i..], ops.c2[j..]) == Merge(op, ops.c1, ops.c2)
  }

  lemma MergeStarts(op: Op, ops: Operands)
    requires CellsOk(ops.c1) && CellsOk(ops.c2)
    ensures MidMerge(op, ops, [], 0, 0, -1)
  {
  }

  lemma MidMergeStep(op: Op, ops: Operands, done: seq<Cell>, i: nat, j: nat, low: int,
                     indx: nat, bits: Bits, i': nat, j': nat)
    requires MidMerge(op, ops, done, i, j, low) && i' <= |ops.c1| && j' <= |ops.c2| && low < indx
    requires AllAbove(ops.c1[i'..], indx) && AllAbove(ops.c2[j'..], indx)
    requires Merge(op, ops.c1[i..], ops.c2[j..]) == Emit(indx, bits) + Merge(op, ops.c1[i'..], ops.c2[j'..])
    ensures MidMerge(op, ops, done + Emit(indx, bits), i', j', indx)
    ensures forall k :: 0 <= k < |done| ==> done[k].indx < indx
  {
    Regroup(done, Emit(indx, bits), Merge(op, ops.c1[i'..], ops.c2[j'..]));
    var e := Emit(indx, bits);
    assert |e| <= 1 && (forall k :: 0 <= k < |e| ==> e[k].indx == indx);
  }

  lemma Regroup(a: seq<Cell>, b: seq<Cell>, c: seq<Cell>)
    ensures (a + b) + c == a + (b + c)
  {
  }

  lemma MergeEnds(op: Op, ops: Operands, done: seq<Cell>, i: nat, j: nat, low: int)
    requires MidMerge(op, ops, done, i, j, low) && i == |ops.c1| && j == |ops.c2|
    ensures done == Merge(op, ops.c1, ops.c2)
  {
  }

  twostate predicate Still(ops: Operands)
    reads ops.f1, ops.f2
  {
    && (forall i {:trigger ops.f1[i]} :: 0 <= i < |ops.f1| ==> unchanged(ops.f1[i]))
    && (forall i {:trigger ops.f2[i]} :: 0 <= i < |ops.f2| ==> unchanged(ops.f2[i]))
  }

  twostate lemma ReadableStays(ops: Operands)
    requires old(ops.Readable()) && Still(ops)
    ensures ops.Readable()
  {
  }

  /** The freelist, deepest element first. */
  ghost predicate FreeChain(es: seq<Element>)
    reads es
  {
    && (forall i {:trigger es[i].next} :: 0 <= i < |es| ==> es[i].next == At(es, i - 1))
    && (forall i {:trigger es[i].owner} :: 0 <= i < |es| ==> es[i].owner == OnFreelist)
    && Distinct(es)
  }

  /** The globals of the bitmap code: the freelist, and (for the proof) every bitmap and
      every element ever allocated. */
  class Bitmaps {
    var freeList: Element?
    ghost var free: seq<Element>
    ghost var heads: set<Head>
    ghost var all: set<Element>

    constructor ()
      ensures Valid() && heads == {} && all == {}
    {
      freeList := null;
      free, heads, all := [], {}, {};
    }

    ghost predicate FreeOk()
      reads this, free
    {
      FreeChain(free) && freeList == At(free, |free| - 1)
    }

    ghost predicate Owned(h: Head)
      reads this, h
    {
      forall i {:trigger h.elems[i]} :: 0 <= i < |h.elems| ==> h.elems[i] in all
    }

    ghost predicate Placed(e: Element)
      reads this, heads, e
    {
      match e.owner
      case InList(h) => h in heads && e in h.elems
      case OnFreelist => e in free
      case Scratch => false
      case Detached => false
    }

    ghost predicate Base()
      reads this, heads, all
    {
      && (forall i :: 0 <= i < |free| ==> free[i] in all)
      && FreeOk()
      && (forall h :: h in heads ==> Owned(h) && h.ListOk())
    }

    /** Every bitmap is well formed and every element is in its place. */
    ghost predicate Valid()
      reads this, heads, all
    {
      Base() && forall e :: e in all ==> Placed(e)
    }

    /** bitmap_element_allocate. */
    method Allocate() returns (e: Element)
      requires FreeOk()
      modifies this`freeList, this`free, free
      ensures FreeOk() && e.owner == Scratch && e.bits == ZERO
      ensures fresh(e) || e in old(free)
      ensures free == if old(free) == [] then [] else old(free)[..|old(free)| - 1]
      ensures forall i {:trigger free[i]} :: 0 <= i < |free| ==> unchanged(free[i])
      ensures e !in free
      ensures forall x :: x in old(free) ==> x == e || x in free
    {
      ghost var was := free;
      if freeList != null {
        e := freeList;
        freeList := e.next;
        free := was[..|was| - 1];
        assert was == free + [e];
        e.bits := ZERO;
        e.owner := Scratch;
      } else {
        e := new Element();
      }
    }

    lemma FreeApart(h: Head)
      requires FreeOk() && h.Linked()
      ensures forall i {:trigger free[i]} :: 0 <= i < |free| ==> free[i] !in h.elems
      ensures forall i {:trigger h.elems[i]} :: 0 <= i < |h.elems| ==> h.elems[i] !in free
    {
      assert forall i {:trigger h.elems[i]} :: 0 <= i < |h.elems| ==> h.elems[i].owner == InList(h);
      assert forall i {:trigger free[i]} :: 0 <= i < |free| ==> free[i].owner == OnFreelist;
    }

    twostate lemma FreeStaysOk()
      requires old(FreeOk()) && free == old(free) && freeList == old(freeList)
      requires forall i {:trigger free[i]} :: 0 <= i < |free| ==> unchanged(free[i])
      ensures FreeOk()
    {
    }

    /** The same, called while h is well formed: h is not affected. */
    method AllocateFor(h: Head) returns (e: Element)
      requires FreeOk() && h.ListOk()
      modifies this`freeList, this`free, free
      ensures FreeOk() && e.owner == Scratch && e.bits == ZERO
      ensures fresh(e) || e in old(free)
      ensures e !in free && e !in h.elems && Untouched(h) && h.ListOk()
      ensures forall i {:trigger free[i]} :: 0 <= i < |free| ==> free[i] !in h.elems
      ensures forall x :: x in old(free) <==> (x == e && !fresh(e)) || x in free
    {
      FreeApart(h);
      e := Allocate();
      UntouchedStaysOk(h);
    }

    /** Put an element that is in no list back on the freelist. */
    method Release(e: Element)
      requires FreeOk() && e !in free
      modifies this`freeList, this`free, e`next, e`owner
      ensures FreeOk() && free == old(free) + [e]
    {
      e.next := freeList;
      freeList := e;
      e.owner := OnFreelist;
      free := free + [e];
    }

    ghost function Held(h: Head): set<Element>
      reads this, h
    {
      (set e | e in h.elems) + (set e | e in free)
    }

    lemma HeldIn(h: Head)
      ensures forall i {:trigger free[i]} :: 0 <= i < |free| ==> free[i] in Held(h)
      ensures forall i {:trigger h.elems[i]} :: 0 <= i < |h.elems| ==> h.elems[i] in Held(h)
    {
    }

    lemma HeldOwned(h: Head)
      requires Valid() && h in heads
      ensures Held(h) <= all
    {
    }

    /** No element of the list of h or of the freelist got lost. */
    twostate predicate Conserved(h: Head)
      reads this, h
    {
      old(Held(h)) <= Held(h)
    }

    /** Book the elements an operation has allocated. */
    ghost method Account(h: Head)
      requires h.ListOk() && FreeOk()
      modifies this`all
      ensures h.ListOk() && FreeOk() && Held(h) == old(Held(h)) && all == old(all) + Held(h)
    {
      all := all + Held(h);
      FreeStaysOk();
      UntouchedStaysOk(h);
    }

    /** Only the list of h, the freelist and new elements were written, and what left one
        of the two lists is in the other: then the whole stays valid. */
    twostate lemma Reframe(h: Head)
      requires old(Valid()) && old(h in heads) && heads == old(heads)
      requires h.ListOk() && FreeOk() && Conserved(h)
      requires all == old(all) + Held(h)
      requires forall o :: o in heads && o != h ==> unchanged(o)
      requires forall e :: e in old(all) - old(Held(h)) ==> unchanged(e)
      ensures Valid()
      ensures forall o :: o in heads && o != h ==> Untouched(o)
    {
      HeldIn(h);
      assert old(h.ListOk() && Owned(h));
      assert forall e :: e in old(h.elems) ==> old(e.owner) == InList(h);
      assert forall e :: e in old(free) ==> old(e.owner) == OnFreelist;
      forall o | o in heads && o != h ensures Untouched(o) && Owned(o) && o.ListOk() {
        assert old(o.ListOk() && Owned(o));
        forall i | 0 <= i < |o.elems| ensures unchanged(o.elems[i]) && o.elems[i] in all {
          assert old(o.elems[i].owner) == InList(o);
          assert o.elems[i] in old(all) - old(Held(h));
        }
        UntouchedStaysOk(o);
      }
      forall e | e in all ensures Placed(e) {
        if e in h.elems {
          assert e.owner == InList(h);
        } else if e in free {
        } else {
          assert e !in Held(h);
          assert e in old(all);
          assert old(Placed(e));
        }
      }
    }

    /** The part of bitmap_set_bit for a bit whose element is missing. */
    method AddElement(h: Head, bit: nat)
      requires h.ListOk() && h.CursorFresh() && FreeOk() && bit < BIT_LIMIT
      requires forall i :: 0 <= i < |h.cells| ==> h.cells[i].indx != IndxOf(bit)
      modifies this`freeList, this`free, free, h, h.elems
      ensures h.ListOk() && FreeOk() && Conserved(h) && (forall e :: e in Held(h) ==> e in old(Held(h)) || fresh(e))
      ensures Contents(h.cells) == old(Contents(h.cells)) + iset{bit}
    {
      var ptr := AllocateFor(h);
      label Allocated:
      h.Place(ptr, bit);
      FreeStaysOk@Allocated();
    }

    /** Write the words of the element at k of h. */
    method Overwrite(h: Head, ptr: Element, ghost k: nat, bits: Bits)
      requires h.Linked() && FreeOk() && k < |h.elems| && ptr == h.elems[k]
      modifies h`cells, ptr`bits
      ensures h.Linked() && FreeOk()
      ensures h.cells == old(h.cells)[k := Cell(ptr.indx, bits)]
    {
      FreeApart(h);
      h.ChangeBits(ptr, k, bits);
      FreeStaysOk();
    }

    method SetBitIn(h: Head, bit: nat)
      requires h.ListOk() && FreeOk() && bit < BIT_LIMIT
      modifies this`freeList, this`free, free, h, h.elems
      ensures h.ListOk() && FreeOk() && Conserved(h) && (forall e :: e in Held(h) ==> e in old(Held(h)) || fresh(e))
      ensures Contents(h.cells) == old(Contents(h.cells)) + iset{bit}
    {
      hide FreeOk;
      var ptr := h.FindBit(bit);
      FreeStaysOk();
      if ptr == null {
        AddElement(h, bit);
      } else {
        UpdateCell(h.cells, h.cur, bit, true);
        Overwrite(h, ptr, h.cur, SetIn(ptr.bits, bit));
      }
    }

    method SetBitBooked(h: Head, bit: nat)
      requires h.ListOk() && FreeOk() && bit < BIT_LIMIT
      modifies this`freeList, this`free, this`all, free, h, h.elems
      ensures h.ListOk() && FreeOk() && Conserved(h) && all == old(all) + Held(h)
      ensures Contents(h.cells) == old(Contents(h.cells)) + iset{bit}
      ensures forall e :: e in Held(h) ==> e in old(Held(h)) || fresh(e)
    {
      SetBitIn(h, bit);
      Account(h);
    }

    method SetBit(h: Head, bit: nat)
      requires Valid() && h in heads && bit < BIT_LIMIT
      modifies this, heads, all
      ensures Valid() && heads == old(heads) && old(all) <= all && (forall e :: e in all ==> e in old(all) || fresh(e))
      ensures Contents(h.cells) == old(Contents(h.cells)) + iset{bit}
      ensures forall o :: o in heads && o != h ==> Untouched(o)
    {
      SetBitBooked(h, bit);
      Reframe(h);
    }

    /** bitmap_element_free. */
    method FreeElement(h: Head, ptr: Element, ghost k: nat)
      requires h.Linked() && FreeOk() && k < |h.elems| && ptr == h.elems[k]
      modifies this`freeList, this`free, h, h.elems
      ensures h.Linked() && FreeOk()
      ensures h.cells == RemoveAt(old(h.cells), k) && h.elems == RemoveAt(old(h.elems), k)
      ensures free == old(free) + [ptr] && Held(h) == old(Held(h))
    {
      FreeApart(h);
      CarriersDistinct(h.elems, h.cells, InList(h));
      RemoveSet(h.elems, k);
      h.Unlink(ptr, k);
      FreeStaysOk();
      assert ptr !in h.elems;
      label Unlinked:
      Release(ptr);
      h.LinkedStays@Unlinked();
    }

    method ClearBitIn(h: Head, bit: nat)
      requires h.ListOk() && FreeOk() && bit < BIT_LIMIT
      modifies this`freeList, this`free, h, h.elems
      ensures h.ListOk() && FreeOk() && Held(h) == old(Held(h))
      ensures Contents(h.cells) == old(Contents(h.cells)) - iset{bit}
    {
      ghost var cs := h.cells;
      var ptr := h.FindBit(bit);
      if ptr == null {
        AbsentIndex(cs, bit);
      } else {
        ghost var k := h.cur;
        var bits := ClearIn(ptr.bits, bit);
        Overwrite(h, ptr, k, bits);
        if bits == ZERO {
          DropCell(cs, k, bit);
          assert RemoveAt(h.cells, k) == cs[..k] + cs[k + 1..];
          FreeElement(h, ptr, k);
        } else {
          UpdateCell(cs, k, bit, false);
        }
      }
    }

    method ClearBit(h: Head, bit: nat)
      requires Valid() && h in heads && bit < BIT_LIMIT
      modifies this, heads, all
      ensures Valid() && heads == old(heads) && all == old(all)
      ensures Contents(h.cells) == old(Contents(h.cells)) - iset{bit}
      ensures forall o :: o in heads && o != h ==> Untouched(o)
    {
      HeldOwned(h);
      ClearBitIn(h, bit);
      Reframe(h);
    }

    method BitP(h: Head, bit: nat) returns (r: bool)
      requires Valid() && h in heads && bit < BIT_LIMIT
      modifies h`current, h`indx, h`cur
      ensures Valid() && h.cells == old(h.cells)
      ensures r <==> bit in Contents(h.cells)
      ensures forall o :: o in heads && o != h ==> Untouched(o)
    {
      HeldOwned(h);
      var ptr := h.FindBit(bit);
      if ptr == null {
        AbsentIndex(h.cells, bit);
        r := false;
      } else {
        OnlyCell(h.cells, h.cur, bit);
        r := PosOf(bit) in ptr.bits[WordOf(bit)];
      }
      Reframe(h);
    }

    // bitmap_clear.

    /** Free the elements of a list that is linked forwards, front to back. */
    method ReleaseAll(first: Element?, ghost es: seq<Element>)
      requires FreeOk() && Forward(es) && Distinct(es) && first == At(es, 0)
      requires forall i {:trigger es[i]} :: 0 <= i < |es| ==> es[i] !in free
      modifies this`freeList, this`free, es`next, es`owner
      ensures FreeOk() && free == old(free) + es
    {
      ghost var fr := free;
      var element := first;
      ghost var k: nat := 0;
      while element != null
        invariant k <= |es| && element == At(es, k)
        invariant FreeOk() && free == fr + es[..k]
        invariant forall i {:trigger es[i].next} :: k <= i < |es| ==> es[i].next == At(es, i + 1)
        decreases |es| - k
      {
        var next := element.next;
        assert element !in es[..k];
        Release(element);
        assert es[..k + 1] == es[..k] + [element];
        element := next;
        k := k + 1;
      }
      assert es[..k] == es;
    }

    method Empty(h: Head)
      requires h.Linked() && FreeOk()
      modifies this`freeList, this`free, h, h.elems
      ensures h.ListOk() && FreeOk() && h.cells == [] && h.elems == []
      ensures free == old(free) + old(h.elems)
    {
      FreeApart(h);
      CarriersDistinct(h.elems, h.cells, InList(h));
      ReleaseAll(h.first, h.elems);
      h.first, h.current := null, null;
      h.elems, h.cells, h.cur := [], [], 0;
    }

    /** The same, leaving the operands of an operation readable. */
    method EmptyBeside(h: Head, ghost ops: Operands)
      requires h.ListOk() && FreeOk() && ops.Readable() && ops.Elements() !! Held(h)
      modifies this`freeList, this`free, h, h.elems
      ensures h.ListOk() && FreeOk() && h.cells == [] && h.elems == []
      ensures Held(h) == old(Held(h)) && ops.Readable()
    {
      Empty(h);
      ReadableStays(ops);
    }

    method Clear(h: Head)
      requires Valid() && h in heads
      modifies this, heads, all
      ensures Valid() && heads == old(heads) && all == old(all)
      ensures h.cells == [] && h.elems == []
      ensures free == old(free) + old(h.elems)
      ensures forall o :: o in heads && o != h ==> Untouched(o)
    {
      HeldOwned(h);
      Empty(h);
      Reframe(h);
    }

    // bitmap_operation.

    ghost predicate ScratchOk(to: Head, scratch: Element?)
      reads this, to, scratch
    {
      scratch != null ==> scratch.owner == Scratch && scratch !in free && scratch !in to.elems
    }

    /** The freelist, the list of `to` and the element not yet linked. */
    ghost function Stock(to: Head, scratch: Element?): set<Element>
      reads this, to
    {
      if scratch == null then Held(to) else Held(to) + {scratch}
    }

    /** The element the next result goes to, allocated if there is none left over. */
    method TakeScratch(to: Head, scratch: Element?) returns (element: Element)
      requires to.ListOk() && FreeOk() && ScratchOk(to, scratch)
      modifies this`freeList, this`free, free
      ensures to.ListOk() && FreeOk() && ScratchOk(to, element) && Untouched(to)
      ensures fresh(element) || element in old(Stock(to, scratch))
      ensures Stock(to, element) == old(Stock(to, scratch)) + {element}
    {
      if scratch != null {
        element := scratch;
      } else {
        element := AllocateFor(to);
      }
    }

    /** The loop body once the bits of the next index are known. */
    method Append(to: Head, element: Element, indx: nat, bits: Bits) returns (left: Element?)
      requires to.ListOk() && to.CursorFresh() && FreeOk() && ScratchOk(to, element)
      requires bits != ZERO ==> CellOk(Cell(indx, bits))
      requires forall i :: 0 <= i < |to.cells| ==> to.cells[i].indx < indx
      modifies to, to.elems`next, to.elems`prev, element
      ensures to.ListOk() && to.CursorFresh() && FreeOk() && ScratchOk(to, left)
      ensures to.cells == old(to.cells) + Emit(indx, bits)
      ensures Stock(to, left) == old(Stock(to, element))
    {
      FreeApart(to);
      element.bits := bits;
      if bits != ZERO {
        to.PlaceLast(element, indx);
        left := null;
      } else {
        UntouchedStaysOk(to);
        left := element;
      }
      FreeStaysOk();
    }

    /** One turn of the merge loop for the bits the operation gave at this index. */
    method EmitElement(to: Head, scratch: Element?, indx: nat, bits: Bits) returns (left: Element?)
      requires to.ListOk() && to.CursorFresh() && FreeOk() && ScratchOk(to, scratch)
      requires bits != ZERO ==> CellOk(Cell(indx, bits))
      requires forall i :: 0 <= i < |to.cells| ==> to.cells[i].indx < indx
      modifies this`freeList, this`free, to, Stock(to, scratch)
      ensures to.ListOk() && to.CursorFresh() && FreeOk() && ScratchOk(to, left)
      ensures to.cells == old(to.cells) + Emit(indx, bits)
      ensures old(Stock(to, scratch)) <= Stock(to, left)
      ensures forall e :: e in Stock(to, left) ==> e in old(Stock(to, scratch)) || fresh(e)
    {
      var element := TakeScratch(to, scratch);
      left := Append(to, element, indx, bits);
    }

    /** The same, leaving the operands readable. */
    method EmitBesideOperands(to: Head, scratch: Element?, indx: nat, bits: Bits, ghost ops: Operands)
      returns (left: Element?)
      requires to.ListOk() && to.CursorFresh() && FreeOk() && ScratchOk(to, scratch)
      requires ops.Readable() && ops.Elements() !! Stock(to, scratch)
      requires bits != ZERO ==> CellOk(Cell(indx, bits))
      requires forall i :: 0 <= i < |to.cells| ==> to.cells[i].indx < indx
      modifies this`freeList, this`free, to, Stock(to, scratch)
      ensures to.ListOk() && to.CursorFresh() && FreeOk() && ScratchOk(to, left)
      ensures to.cells == old(to.cells) + Emit(indx, bits)
      ensures old(Stock(to, scratch)) <= Stock(to, left)
      ensures forall e :: e in Stock(to, left) ==> e in old(Stock(to, scratch)) || fresh(e)
      ensures ops.Readable() && ops.Elements() !! Stock(to, left)
    {
      left := EmitElement(to, scratch, indx, bits);
      ReadableStays(ops);
    }

    /** Choose the next index and the bits each operand has there, a zero element's if none. */
    method Advance(op: Op, at1: Element?, at2: Element?, ghost ops: Operands,
                   ghost done: seq<Cell>, ghost i: nat, ghost j: nat, ghost low: int)
      returns (indx: nat, bits: Bits, from1: Element?, from2: Element?, ghost i': nat, ghost j': nat)
      requires ops.Readable() && CellsOk(ops.c1) && CellsOk(ops.c2)
      requires MidMerge(op, ops, done, i, j, low)
      requires at1 == At(ops.f1, i) && at2 == At(ops.f2, j) && (at1 != null || at2 != null)
      ensures i <= i' && j <= j' && i + j < i' + j'
      ensures from1 == At(ops.f1, i') && from2 == At(ops.f2, j')
      ensures MidMerge(op, ops, done + Emit(indx, bits), i', j', indx)
      ensures forall k :: 0 <= k < |done| ==> done[k].indx < indx
      ensures bits != ZERO ==> CellOk(Cell(indx, bits))
    {
      var indx1 := if at1 != null then at1.indx else NO_INDEX;
      var indx2 := if at2 != null then at2.indx else NO_INDEX;
      MergeStep(op, ops.c1, i, ops.c2, j, low);
      from1, from2, i', j' := at1, at2, i, j;
      if indx1 == indx2 {
        indx, bits := indx1, Apply(op, at1.bits, at2.bits);
        from1, from2 := from1.next, from2.next;
        i', j' := i + 1, j + 1;
      } else if indx1 < indx2 {
        indx, bits := indx1, Apply(op, at1.bits, ZERO);
        from1 := from1.next;
        i' := i + 1;
      } else {
        indx, bits := indx2, Apply(op, ZERO, at2.bits);
        from2 := from2.next;
        j' := j + 1;
      }
      MidMergeStep(op, ops, done, i, j, low, indx, bits, i', j');
    }

    /** The state between turns of the merge loop. */
    ghost predicate Merging(to: Head, scratch: Element?, op: Op, ops: Operands,
                            at1: Element?, at2: Element?, i: nat, j: nat, low: int)
      reads this, to, to.elems, free, scratch
    {
      && to.ListOk() && to.CursorFresh() && FreeOk() && ScratchOk(to, scratch)
      && at1 == At(ops.f1, i) && at2 == At(ops.f2, j)
      && MidMerge(op, ops, to.cells, i, j, low)
    }

    /** One turn of the merge loop. */
    method MergeTurn(to: Head, op: Op, scratch: Element?, at1: Element?, at2: Element?,
                     ghost ops: Operands, ghost i: nat, ghost j: nat, ghost low: int)
      returns (left: Element?, from1: Element?, from2: Element?, ghost i': nat, ghost j': nat, ghost low': int)
      requires ops.Readable() && CellsOk(ops.c1) && CellsOk(ops.c2)
      requires Merging(to, scratch, op, ops, at1, at2, i, j, low) && (at1 != null || at2 != null)
      requires ops.Elements() !! Stock(to, scratch)
      modifies this`freeList, this`free, to, Stock(to, scratch)
      ensures Merging(to, left, op, ops, from1, from2, i', j', low')
      ensures ops.Readable() && ops.Elements() !! Stock(to, left)
      ensures i <= i' && j <= j' && i + j < i' + j'
      ensures old(Stock(to, scratch)) <= Stock(to, left) && (forall e :: e in Stock(to, left) ==> e in old(Stock(to, scratch)) || fresh(e))
    {
      var indx, bits;
      indx, bits, from1, from2, i', j' := Advance(op, at1, at2, ops, to.cells, i, j, low);
      low' := indx;
      left := EmitBesideOperands(to, scratch, indx, bits, ops);
    }

    /** The merge loop; the operands' elements, read through their forward links, may or
        may not still be in a list. */
    method MergeLoop(to: Head, op: Op, first1: Element?, first2: Element?, ghost ops: Operands)
      returns (scratch: Element?, ghost i: nat, ghost j: nat, ghost low: int)
      requires ops.Readable() && CellsOk(ops.c1) && CellsOk(ops.c2)
      requires Merging(to, null, op, ops, first1, first2, 0, 0, -1)
      requires ops.Elements() !! Held(to)
      modifies this`freeList, this`free, to, Held(to)
      ensures Merging(to, scratch, op, ops, null, null, i, j, low)
      ensures ops.Readable() && ops.Elements() !! Stock(to, scratch)
      ensures old(Held(to)) <= Stock(to, scratch) && (forall e :: e in Stock(to, scratch) ==> e in old(Held(to)) || fresh(e))
    {
      var from1, from2 := first1, first2;
      scratch := null;
      i, j, low := 0, 0, -1;
      while from1 != null || from2 != null
        invariant Merging(to, scratch, op, ops, from1, from2, i, j, low)
        invariant i <= |ops.f1| && j <= |ops.f2|
        invariant old(Held(to)) <= Stock(to, scratch) && (forall e :: e in Stock(to, scratch) ==> e in old(Held(to)) || fresh(e))
        invariant ops.Readable() && ops.Elements() !! Stock(to, scratch)
        decreases |ops.f1| - i + |ops.f2| - j
      {
        scratch, from1, from2, i, j, low := MergeTurn(to, op, scratch, from1, from2, ops, i, j, low);
      }
    }

    /** An element left over because the last result was zero goes back to the freelist. */
    method ReleaseScratch(to: Head, scratch: Element?, ghost ops: Operands)
      requires to.ListOk() && FreeOk() && ScratchOk(to, scratch)
      requires ops.Readable() && ops.Elements() !! Stock(to, scratch)
      modifies this`freeList, this`free, if scratch == null then {} else {scratch}
      ensures to.ListOk() && FreeOk() && Held(to) == old(Stock(to, scratch)) && Untouched(to)
      ensures ops.Readable()
    {
      if scratch != null {
        Release(scratch);
        UntouchedStaysOk(to);
        ReadableStays(ops);
      }
    }

    /** The merge into an empty list, with what is left over returned to the freelist. */
    method MergeInto(to: Head, op: Op, first1: Element?, first2: Element?, ghost ops: Operands)
      requires to.ListOk() && FreeOk() && to.elems == []
      requires ops.Readable() && CellsOk(ops.c1) && CellsOk(ops.c2)
      requires first1 == At(ops.f1, 0) && first2 == At(ops.f2, 0)
      requires ops.Elements() !! Held(to)
      modifies this`freeList, this`free, to, Held(to)
      ensures to.ListOk() && FreeOk()
      ensures Contents(to.cells) == Combine(op, Contents(ops.c1), Contents(ops.c2))
      ensures old(Held(to)) <= Held(to) && (forall e :: e in Held(to) ==> e in old(Held(to)) || fresh(e))
      ensures ops.Readable() && ops.Elements() !! Held(to)
    {
      MergeStarts(op, ops);
      MergeContents(op, ops.c1, ops.c2);
      var scratch;
      ghost var i, j, low;
      scratch, i, j, low := MergeLoop(to, op, first1, first2, ops);
      MergeEnds(op, ops, to.cells, i, j, low);
      ReleaseScratch(to, scratch, ops);
    }

    ghost function OperandsOf(from1: Head, from2: Head): (ops: Operands)
      reads from1, from2
    {
      Operands(from1.elems, from1.cells, from2.elems, from2.cells)
    }

    lemma OperandsReadable(from1: Head, from2: Head)
      requires from1.ListOk() && from2.ListOk() && FreeOk()
      ensures var ops := OperandsOf(from1, from2);
              && ops.Readable() && CellsOk(ops.c1) && CellsOk(ops.c2)
              && from1.first == At(ops.f1, 0) && from2.first == At(ops.f2, 0)
              && ops.Elements() !! (set e | e in free)
    {
      FreeApart(from1);
      FreeApart(from2);
    }

    lemma ListsApart(a: Head, b: Head)
      requires a.ListOk() && b.ListOk() && a != b
      ensures (set e | e in a.elems) !! (set e | e in b.elems)
    {
      assert forall e :: e in a.elems ==> e.owner == InList(a);
      assert forall e :: e in b.elems ==> e.owner == InList(b);
    }

    /** bitmap_operation when the result is neither operand: the old list is freed first. */
    method OperateApart(to: Head, from1: Head, from2: Head, op: Op)
      requires to.ListOk() && from1.ListOk() && from2.ListOk() && FreeOk() && to != from1 && to != from2
      modifies this`freeList, this`free, to, Held(to)
      ensures to.ListOk() && FreeOk()
      ensures Contents(to.cells) == Combine(op, old(Contents(from1.cells)), old(Contents(from2.cells)))
      ensures old(Held(to)) <= Held(to) && (forall e :: e in Held(to) ==> e in old(Held(to)) || fresh(e))
    {
      ghost var ops := OperandsOf(from1, from2);
      OperandsReadable(from1, from2);
      ListsApart(to, from1);
      ListsApart(to, from2);
      assert ops.Elements() !! Held(to);
      EmptyBeside(to, ops);
      MergeInto(to, op, from1.first, from2.first, ops);
    }

    method Orphan(ghost es: seq<Element>, ghost ops: Operands)
      requires ops.Readable()
      modifies es`owner
      ensures ops.Readable()
      ensures forall i {:trigger es[i]} :: 0 <= i < |es| ==> es[i].owner == Detached
    {
      forall e | e in es {
        e.owner := Detached;
      }
    }

    /** Empty the list of `to` without freeing its elements. */
    method Detach(to: Head, ghost ops: Operands) returns (deleteList: Element?)
      requires to.ListOk() && FreeOk() && ops.Readable()
      modifies to, to.elems`owner
      ensures to.ListOk() && FreeOk() && to.elems == [] && to.cells == []
      ensures deleteList == At(old(to.elems), 0) && ops.Readable()
    {
      FreeApart(to);
      Orphan(to.elems, ops);
      FreeStaysOk();
      deleteList := to.first;
      to.first, to.current := null, null;
      to.elems, to.cells, to.cur := [], [], 0;
    }

    method ReleaseOld(to: Head, deleteList: Element?, ghost dl: seq<Element>)
      requires to.ListOk() && FreeOk() && Forward(dl) && Distinct(dl) && deleteList == At(dl, 0)
      requires (set e | e in dl) !! Held(to)
      modifies this`freeList, this`free, dl`next, dl`owner
      ensures to.ListOk() && FreeOk() && to.cells == old(to.cells)
      ensures Held(to) == old(Held(to)) + (set e | e in dl)
    {
      HeldIn(to);
      assert forall i {:trigger dl[i]} :: 0 <= i < |dl| ==> dl[i] in (set e | e in dl) && dl[i] !in Held(to);
      ReleaseAll(deleteList, dl);
      UntouchedStaysOk(to);
    }

    /** The merge after the list of `to`, one of the operands, has been detached. */
    method MergeDetached(to: Head, op: Op, first1: Element?, first2: Element?, ghost ops: Operands)
      returns (deleteList: Element?)
      requires to.ListOk() && FreeOk()
      requires ops.Readable() && CellsOk(ops.c1) && CellsOk(ops.c2)
      requires first1 == At(ops.f1, 0) && first2 == At(ops.f2, 0)
      requires ops.Elements() !! (set e | e in free) && (to.elems == ops.f1 || to.elems == ops.f2)
      modifies this`freeList, this`free, to, Held(to)
      ensures to.ListOk() && FreeOk()
      ensures Contents(to.cells) == Combine(op, Contents(ops.c1), Contents(ops.c2))
      ensures forall e :: e in old(free) ==> e in Held(to)
      ensures forall e :: e in Held(to) ==> e in old(free) || fresh(e)
      ensures Forward(old(to.elems)) && deleteList == At(old(to.elems), 0)
      ensures (set e | e in old(to.elems)) !! Held(to)
    {
      deleteList := Detach(to, ops);
      MergeInto(to, op, first1, first2, ops);
    }

    /** The new list of an operation whose result is one of its operands. */
    method MergeAliased(to: Head, from1: Head, from2: Head, op: Op) returns (deleteList: Element?)
      requires to.ListOk() && from1.ListOk() && from2.ListOk() && FreeOk() && (to == from1 || to == from2)
      modifies this`freeList, this`free, to, Held(to)
      ensures to.ListOk() && FreeOk()
      ensures Contents(to.cells) == Combine(op, old(Contents(from1.cells)), old(Contents(from2.cells)))
      ensures forall e :: e in old(free) ==> e in Held(to)
      ensures forall e :: e in Held(to) ==> e in old(free) || fresh(e)
      ensures Forward(old(to.elems)) && deleteList == At(old(to.elems), 0)
      ensures (set e | e in old(to.elems)) !! Held(to)
    {
      OperandsReadable(from1, from2);
      deleteList := MergeDetached(to, op, from1.first, from2.first, OperandsOf(from1, from2));
    }

    /** bitmap_operation when the result is one of the operands: the old list is freed last. */
    method OperateAliased(to: Head, from1: Head, from2: Head, op: Op)
      requires to.ListOk() && from1.ListOk() && from2.ListOk() && FreeOk() && (to == from1 || to == from2)
      modifies this`freeList, this`free, to, Held(to)
      ensures to.ListOk() && FreeOk()
      ensures Contents(to.cells) == Combine(op, old(Contents(from1.cells)), old(Contents(from2.cells)))
      ensures forall e :: e in old(Held(to)) ==> e in Held(to)
      ensures forall e :: e in Held(to) ==> e in old(Held(to)) || fresh(e)
    {
      ghost var dl := to.elems;
      to.ElementsDistinct();
      var deleteList := MergeAliased(to, from1, from2, op);
      ReleaseOld(to, deleteList, dl);
    }

    method OperateIn(to: Head, from1: Head, from2: Head, op: Op)
      requires to.ListOk() && from1.ListOk() && from2.ListOk() && FreeOk()
      modifies this`freeList, this`free, to, Held(to)
      ensures to.ListOk() && FreeOk()
      ensures Contents(to.cells) == Combine(op, old(Contents(from1.cells)), old(Contents(from2.cells)))
      ensures forall e :: e in old(Held(to)) ==> e in Held(to)
      ensures forall e :: e in Held(to) ==> e in old(Held(to)) || fresh(e)
    {
      if to == from1 || to == from2 {
        OperateAliased(to, from1, from2, op);
      } else {
        OperateApart(to, from1, from2, op);
      }
    }

    method OperateBooked(to: Head, from1: Head, from2: Head, op: Op)
      requires to.ListOk() && from1.ListOk() && from2.ListOk() && FreeOk()
      modifies this`freeList, this`free, this`all, to, Held(to)
      ensures to.ListOk() && FreeOk()
      ensures Contents(to.cells) == Combine(op, old(Contents(from1.cells)), old(Contents(from2.cells)))
      ensures all == old(all) + Held(to) && old(Held(to)) <= Held(to)
      ensures forall e :: e in Held(to) ==> e in old(Held(to)) || fresh(e)
    {
      OperateIn(to, from1, from2, op);
      Account(to);
    }

    /** bitmap_operation, for every aliasing of its arguments. */
    method Operation(to: Head, from1: Head, from2: Head, op: Op)
      requires Valid() && to in heads && from1 in heads && from2 in heads
      modifies this, heads, all
      ensures Valid() && heads == old(heads) && old(all) <= all
      ensures forall e :: e in all ==> e in old(all) || fresh(e)
      ensures Contents(to.cells) == Combine(op, old(Contents(from1.cells)), old(Contents(from2.cells)))
      ensures forall o :: o in heads && o != to ==> Untouched(o)
    {
      OperateBooked(to, from1, from2, op);
      Reframe(to);
    }

    // bitmap_copy.

    method LinkCopy(to: Head, last: Element?, element: Element, indx: nat, bits: Bits)
      requires to.ListOk() && to.CursorFresh() && FreeOk() && last == At(to.elems, |to.elems| - 1)
      requires ScratchOk(to, element)
      requires CellOk(Cell(indx, bits)) && forall i :: 0 <= i < |to.cells| ==> to.cells[i].indx < indx
      modifies to, to.elems`next, to.elems`prev, element
      ensures to.ListOk() && to.CursorFresh() && FreeOk() && element == At(to.elems, |to.elems| - 1)
      ensures to.cells == old(to.cells) + [Cell(indx, bits)]
      ensures Held(to) == old(Stock(to, element))
    {
      FreeApart(to);
      element.indx := indx;
      element.bits := bits;
      to.LinkLast(last, element);
      FreeStaysOk();
    }

    /** Allocate an element for this cell and link it after the last one. */
    method CopyElement(to: Head, last: Element?, indx: nat, bits: Bits) returns (element: Element)
      requires to.ListOk() && to.CursorFresh() && FreeOk() && last == At(to.elems, |to.elems| - 1)
      requires CellOk(Cell(indx, bits)) && forall i :: 0 <= i < |to.cells| ==> to.cells[i].indx < indx
      modifies this`freeList, this`free, to, Held(to)
      ensures to.ListOk() && to.CursorFresh() && FreeOk() && element == At(to.elems, |to.elems| - 1)
      ensures to.cells == old(to.cells) + [Cell(indx, bits)]
      ensures forall e :: e in old(Held(to)) ==> e in Held(to)
      ensures forall e :: e in Held(to) ==> e in old(Held(to)) || fresh(e)
    {
      element := TakeScratch(to, null);
      LinkCopy(to, last, element, indx, bits);
    }

    /** The same, leaving the source list readable. */
    method CopyBeside(to: Head, last: Element?, indx: nat, bits: Bits, ghost ops: Operands) returns (element: Element)
      requires to.ListOk() && to.CursorFresh() && FreeOk() && last == At(to.elems, |to.elems| - 1)
      requires CellOk(Cell(indx, bits)) && forall i :: 0 <= i < |to.cells| ==> to.cells[i].indx < indx
      requires ops.Readable() && ops.Elements() !! Held(to)
      modifies this`freeList, this`free, to, Held(to)
      ensures to.ListOk() && to.CursorFresh() && FreeOk() && element == At(to.elems, |to.elems| - 1)
      ensures to.cells == old(to.cells) + [Cell(indx, bits)]
      ensures forall e :: e in old(Held(to)) ==> e in Held(to)
      ensures forall e :: e in Held(to) ==> e in old(Held(to)) || fresh(e)
      ensures ops.Readable() && ops.Elements() !! Held(to)
    {
      element := CopyElement(to, last, indx, bits);
      ReadableStays(ops);
    }

    lemma CopiedSoFar(cells: seq<Cell>, k: nat)
      requires CellsOk(cells) && k < |cells|
      ensures CellOk(cells[k]) && forall i :: 0 <= i < k ==> cells[..k][i].indx < cells[k].indx
      ensures cells[..k] + [cells[k]] == cells[..k + 1]
    {
    }

    /** The copying loop, run while `to` is empty. */
    method CopyLoop(to: Head, first: Element?, ghost ops: Operands)
      requires to.ListOk() && to.cells == [] && FreeOk()
      requires ops.Readable() && CellsOk(ops.c1) && first == At(ops.f1, 0) && ops.Elements() !! Held(to)
      modifies this`freeList, this`free, to, Held(to)
      ensures to.ListOk() && FreeOk() && to.cells == ops.c1
      ensures forall e :: e in old(Held(to)) ==> e in Held(to)
      ensures forall e :: e in Held(to) ==> e in old(Held(to)) || fresh(e)
    {
      hide FreeOk, CellsOk;
      var from, last: Element? := first, null;
      ghost var k: nat := 0;
      while from != null
        invariant k <= |ops.f1| && from == At(ops.f1, k) && to.cells == ops.c1[..k]
        invariant to.ListOk() && to.CursorFresh() && FreeOk() && last == At(to.elems, |to.elems| - 1)
        invariant ops.Readable() && ops.Elements() !! Held(to)
        invariant forall e :: e in old(Held(to)) ==> e in Held(to)
        invariant forall e :: e in Held(to) ==> e in old(Held(to)) || fresh(e)
        decreases |ops.f1| - k
      {
        CopiedSoFar(ops.c1, k);
        last, from := CopyTurn(to, last, from, ops, k);
        k := k + 1;
      }
      assert ops.c1[..k] == ops.c1;
    }

    method CopyTurn(to: Head, last: Element?, from: Element, ghost ops: Operands, ghost k: nat)
      returns (element: Element, next: Element?)
      requires to.ListOk() && to.CursorFresh() && FreeOk() && last == At(to.elems, |to.elems| - 1)
      requires ops.Readable() && ops.Elements() !! Held(to) && k < |ops.f1| && from == ops.f1[k]
      requires CellOk(ops.c1[k]) && forall i :: 0 <= i < |to.cells| ==> to.cells[i].indx < ops.c1[k].indx
      modifies this`freeList, this`free, to, Held(to)
      ensures to.ListOk() && to.CursorFresh() && FreeOk() && element == At(to.elems, |to.elems| - 1)
      ensures to.cells == old(to.cells) + [ops.c1[k]] && next == At(ops.f1, k + 1)
      ensures forall e :: e in old(Held(to)) ==> e in Held(to)
      ensures forall e :: e in Held(to) ==> e in old(Held(to)) || fresh(e)
      ensures ops.Readable() && ops.Elements() !! Held(to)
    {
      element := CopyBeside(to, last, from.indx, from.bits, ops);
      next := from.next;
    }

    method CopyApart(to: Head, from: Head)
      requires to.ListOk() && from.ListOk() && FreeOk() && to != from
      modifies this`freeList, this`free, to, Held(to)
      ensures to.ListOk() && FreeOk() && to.cells == old(from.cells)
      ensures forall e :: e in old(Held(to)) ==> e in Held(to)
      ensures forall e :: e in Held(to) ==> e in old(Held(to)) || fresh(e)
    {
      ghost var ops := OperandsOf(from, from);
      OperandsReadable(from, from);
      ListsApart(to, from);
      assert ops.Elements() !! Held(to);
      EmptyBeside(to, ops);
      CopyLoop(to, from.first, ops);
    }

    method CopyIn(to: Head, from: Head)
      requires to.ListOk() && from.ListOk() && FreeOk()
      modifies this`freeList, this`free, this`all, to, Held(to)
      ensures to.ListOk() && FreeOk() && all == old(all) + Held(to)
      ensures to.cells == if to == from then [] else old(from.cells)
      ensures forall e :: e in old(Held(to)) ==> e in Held(to)
      ensures forall e :: e in Held(to) ==> e in old(Held(to)) || fresh(e)
    {
      if to == from {
        Empty(to);
      } else {
        CopyApart(to, from);
      }
      Account(to);
    }

    /** bitmap_copy. Copying a bitmap onto itself empties it. */
    method Copy(to: Head, from: Head)
      requires Valid() && to in heads && from in heads
      modifies this, heads, all
      ensures Valid() && heads == old(heads) && old(all) <= all
      ensures forall e :: e in all ==> e in old(all) || fresh(e)
      ensures to.cells == if to == from then [] else old(from.cells)
      ensures forall o :: o in heads && o != to ==> Untouched(o)
    {
      hide Valid, Base, FreeOk, Placed, Owned;
      HeadsOk(to, from);
      HeldOwned(to);
      CopyIn(to, from);
      Reframe(to);
    }

    lemma HeadsOk(h: Head, h': Head)
      requires Valid() && h in heads && h' in heads
      ensures FreeOk() && h.ListOk() && h'.ListOk()
    {
    }

    /** bitmap_initialize on a new header. */
    method NewBitmap() returns (h: Head)
      requires Valid()
      modifies this`heads
      ensures Valid() && fresh(h) && heads == old(heads) + {h} && h.cells == []
      ensures forall o :: o in old(heads) ==> Untouched(o)
    {
      h := new Head.Initialize();
      heads := heads + {h};
      assert Base();
    }

    /** A header whose list has been cleared goes out of scope. */
    ghost method Retire(h: Head)
      requires Valid() && h in heads && h.elems == []
      modifies this`heads
      ensures Valid() && heads == old(heads) - {h}
    {
      heads := heads - {h};
      assert Base();
    }

    /** bitmap_ior_and_compl with its temporary. */
    method IorAndComplUsing(tmp: Head, to: Head, from1: Head, from2: Head,
                            ghost s: iset<nat>, ghost s1: iset<nat>, ghost s2: iset<nat>)
      requires Valid() && to in heads && from1 in heads && from2 in heads
      requires tmp in heads && tmp != to && tmp != from1 && tmp != from2
      requires Contents(to.cells) == s && Contents(from1.cells) == s1 && Contents(from2.cells) == s2
      modifies this, heads, all
      ensures Valid() && heads == old(heads) && tmp.elems == []
      ensures Contents(to.cells) == Combine(Ior, s, Combine(AndCompl, s1, s2))
      ensures forall o :: o in heads && o != to && o != tmp ==> unchanged(o)
    {
      Operation(tmp, from1, from2, AndCompl);
      assert forall o :: o in heads && o != tmp ==> unchanged(o);
      Operation(to, to, tmp, Ior);
      assert forall o :: o in heads && o != to && o != tmp ==> unchanged(o);
      ghost var now := to.cells;
      Clear(tmp);
      assert to.cells == now;
    }

    lemma IorOfAndCompl(s: iset<nat>, s1: iset<nat>, s2: iset<nat>)
      ensures Combine(Ior, s, Combine(AndCompl, s1, s2)) == s + (s1 - s2)
    {
    }

    lemma AddedThenDropped<T>(s: set<T>, x: T)
      requires x !in s
      ensures (s + {x}) - {x} == s
    {
    }

    /** bitmap_ior_and_compl: TO becomes TO | (FROM1 & ~ FROM2), for every aliasing. */
    method IorAndCompl(to: Head, from1: Head, from2: Head)
      requires Valid() && to in heads && from1 in heads && from2 in heads
      modifies this, heads, all
      ensures Valid() && heads == old(heads)
      ensures Contents(to.cells)
              == old(Contents(to.cells)) + (old(Contents(from1.cells)) - old(Contents(from2.cells)))
      ensures forall o :: o in heads && o != to ==> o.cells == old(o.cells)
    {
      hide Base, FreeOk, Placed, Owned, Combine, Contents;
      ghost var s, s1, s2 := Contents(to.cells), Contents(from1.cells), Contents(from2.cells);
      var tmp := NewBitmap();
      assert tmp !in old(heads);
      AddedThenDropped(old(heads), tmp);
      label Started:
      IorAndComplUsing(tmp, to, from1, from2, s, s1, s2);
      IorOfAndCompl(s, s1, s2);
      forall o | o in old(heads) && o != to ensures o.cells == old(o.cells) {
        assert o in heads && o != tmp;
        assert unchanged@Started(o);
      }
      Retire(tmp);
    }

    /** Every element ever allocated is in exactly one place: once in one bitmap's list, or
        once on the freelist. So no operation can change a bitmap it was not given. */
    lemma OnePlaceEach(e: Element)
      requires Valid() && e in all
      ensures e in free <==> forall h :: h in heads ==> e !in h.elems
      ensures forall h, h' :: h in heads && h' in heads && e in h.elems && e in h'.elems ==> h == h'
      ensures forall h :: h in heads ==> Distinct(h.elems)
      ensures Distinct(free)
    {
      forall h | h in heads ensures Distinct(h.elems) && (e in h.elems <==> e.owner == InList(h)) {
        assert h.ListOk();
        h.ElementsDistinct();
        assert Placed(e);
      }
    }
  }
}
