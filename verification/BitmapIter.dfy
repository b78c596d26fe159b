/** The iteration macros: the bit numbers their body is run with, in order, when the
    bitmaps do not change meanwhile. */
module BitmapIter {
  import opened BitmapSpec
  import opened BitmapList

  ghost predicate Ascending(out: seq<nat>) {
    forall i, j :: 0 <= i < j < |out| ==> out[i] < out[j]
  }

  /** The members of s from min up to (not including) frontier have been visited, in order. */
  ghost predicate Visited(s: iset<nat>, min: nat, frontier: nat, out: seq<nat>) {
    && Ascending(out)
    && forall b: nat :: b in out <==> min <= b < frontier && b in s
  }

  lemma VisitNothing(s: iset<nat>, min: nat, from: nat, to: nat, out: seq<nat>)
    requires Visited(s, min, from, out) && from <= to
    requires forall b: nat :: from <= b < to ==> b !in s
    ensures Visited(s, min, to, out)
  {
  }

  lemma VisitOne(s: iset<nat>, min: nat, b: nat, out: seq<nat>)
    requires Visited(s, min, b, out) && min <= b && b in s
    ensures Visited(s, min, b + 1, out + [b])
  {
    assert forall i :: 0 <= i < |out| ==> out[i] in out;
  }

  /** The innermost loop, over the bits of one nonzero word from position start on; it
      stops early when no bit of the word is left. */
  method ScanWord(base: nat, word: Word, start: nat, ghost s: iset<nat>, ghost min: nat, before: seq<nat>)
    returns (out: seq<nat>)
    requires start <= WORD_BITS && min <= base + start
    requires forall k: nat :: k < WORD_BITS ==> (k in word <==> base + k in s)
    requires forall k :: k in word ==> k < WORD_BITS
    requires Visited(s, min, base + start, before)
    ensures Visited(s, min, base + WORD_BITS, out)
  {
    out := before;
    var left, bit: nat := word, start;
    while bit < WORD_BITS
      invariant start <= bit <= WORD_BITS
      invariant Visited(s, min, base + bit, out)
      invariant left <= word && forall k :: bit <= k && k in word ==> k in left
    {
      if bit in left {
        left := left - {bit};
        VisitOne(s, min, base + bit, out);
        out := out + [base + bit];
        if left == {} {
          assert forall k :: k in word && bit < k ==> k in left;
          NothingLeft(base, word, bit + 1, s);
          VisitNothing(s, min, base + bit + 1, base + WORD_BITS, out);
          return;
        }
      } else {
        VisitNothing(s, min, base + bit, base + bit + 1, out);
      }
      bit := bit + 1;
    }
  }

  lemma NothingLeft(base: nat, word: Word, from: nat, s: iset<nat>)
    requires forall k: nat :: k < WORD_BITS ==> (k in word <==> base + k in s)
    requires forall k :: k in word ==> k < from
    ensures forall b: nat :: base + from <= b < base + WORD_BITS ==> b !in s
  {
    forall b: nat | base + from <= b < base + WORD_BITS ensures b !in s {
      var k := b - base;
      assert k !in word;
      assert base + k !in s;
    }
  }

  /** These bits are what s has at this index. */
  ghost predicate ElementOf(s: iset<nat>, indx: nat, bits: Bits) {
    && (forall w, k :: 0 <= w < ELEMENT_WORDS && k in bits[w] ==> k < WORD_BITS)
    && forall w: nat, k: nat :: w < ELEMENT_WORDS && k < WORD_BITS ==> (k in bits[w] <==> BitAt(indx, w, k) in s)
  }

  /** The loop over the words of one element. */
  method ScanElement(indx: nat, bits: Bits, wordNum: nat, bitNum: nat,
                     ghost s: iset<nat>, ghost min: nat, before: seq<nat>)
    returns (out: seq<nat>)
    requires wordNum < ELEMENT_WORDS && bitNum < WORD_BITS && min <= BitAt(indx, wordNum, bitNum)
    requires ElementOf(s, indx, bits)
    requires Visited(s, min, BitAt(indx, wordNum, bitNum), before)
    ensures Visited(s, min, BitAt(indx + 1, 0, 0), out)
  {
    out := before;
    var w: nat, bit: nat := wordNum, bitNum;
    while w < ELEMENT_WORDS
      invariant wordNum <= w <= ELEMENT_WORDS && bit < WORD_BITS && (w > wordNum ==> bit == 0)
      invariant min <= BitAt(indx, w, bit)
      invariant Visited(s, min, BitAt(indx, w, bit), out)
    {
      var word, base := bits[w], BitAt(indx, w, 0);
      assert forall k: nat :: k < WORD_BITS ==> (k in word <==> BitAt(indx, w, k) in s);
      if word != {} {
        out := ScanWord(base, word, bit, s, min, out);
      } else {
        NothingLeft(base, word, bit, s);
        VisitNothing(s, min, base + bit, base + WORD_BITS, out);
      }
      bit := 0;
      w := w + 1;
    }
  }

  /** From frontier on, only the elements from k on have bits. */
  ghost predicate Ahead(cells: seq<Cell>, k: nat, frontier: nat) {
    && k <= |cells|
    && forall i :: 0 <= i < k ==> (cells[i].indx + 1) * ELEMENT_BITS <= frontier
  }

  /** Find the block the minimum bit is in. */
  method FindBlock(first: Element?, indx: nat, ghost es: seq<Element>, ghost cells: seq<Cell>)
    returns (ptr: Element?, ghost k: nat)
    requires Reads(es, cells) && CellsOk(cells) && first == At(es, 0)
    ensures k <= |es| && ptr == At(es, k)
    ensures forall i :: 0 <= i < k ==> cells[i].indx < indx
    ensures k < |es| ==> indx <= cells[k].indx
  {
    ptr, k := first, 0;
    while ptr != null && ptr.indx < indx
      invariant k <= |es| && ptr == At(es, k)
      invariant forall i :: 0 <= i < k ==> cells[i].indx < indx
      decreases |es| - k
    {
      ptr := ptr.next;
      k := k + 1;
    }
  }

  /** Before the first element is scanned: its start word and bit, and what that skips. */
  ghost predicate Poised(s: iset<nat>, cells: seq<Cell>, k: nat, min: nat, frontier: nat,
                         wordNum: nat, bitNum: nat, out: seq<nat>) {
    && Ahead(cells, k, frontier) && min <= frontier && Visited(s, min, frontier, out)
    && wordNum < ELEMENT_WORDS && bitNum < WORD_BITS
    && (k < |cells| ==> frontier == BitAt(cells[k].indx, wordNum, bitNum))
  }

  lemma Poise(cells: seq<Cell>, k: nat, s: iset<nat>, min: nat)
    requires CellsOk(cells) && s <= Contents(cells) && k <= |cells|
    requires forall i :: 0 <= i < k ==> cells[i].indx < IndxOf(min)
    requires k < |cells| ==> IndxOf(min) <= cells[k].indx
    ensures var there := k == |cells| || cells[k].indx == IndxOf(min);
            var frontier := if there then min else BitAt(cells[k].indx, 0, 0);
            Poised(s, cells, k, min, frontier, if there then WordOf(min) else 0, if there then PosOf(min) else 0, [])
  {
  }

  ghost function NextFrontier(cells: seq<Cell>, k: nat): nat
    requires k < |cells|
  {
    if k + 1 < |cells| then BitAt(cells[k + 1].indx, 0, 0) else BitAt(cells[k].indx + 1, 0, 0)
  }

  /** After element k has been scanned. */
  lemma PoiseNext(cells: seq<Cell>, k: nat, s: iset<nat>, min: nat, out: seq<nat>)
    requires CellsOk(cells) && s <= Contents(cells) && k < |cells|
    requires min <= BitAt(cells[k].indx + 1, 0, 0) && Visited(s, min, BitAt(cells[k].indx + 1, 0, 0), out)
    ensures Poised(s, cells, k + 1, min, NextFrontier(cells, k), 0, 0, out)
  {
  }

  /** The visit is complete: exactly the members from min on, in increasing order. */
  ghost predicate AllVisited(s: iset<nat>, min: nat, out: seq<nat>) {
    Ascending(out) && forall b: nat :: b in out <==> min <= b && b in s
  }

  lemma Complete(cells: seq<Cell>, k: nat, s: iset<nat>, min: nat, frontier: nat, wordNum: nat, bitNum: nat, out: seq<nat>)
    requires CellsOk(cells) && s <= Contents(cells) && k == |cells|
    requires Poised(s, cells, k, min, frontier, wordNum, bitNum, out)
    ensures AllVisited(s, min, out)
  {
  }

  lemma CellElement(cells: seq<Cell>, k: nat)
    requires CellsOk(cells) && k < |cells|
    ensures ElementOf(Contents(cells), cells[k].indx, cells[k].bits)
  {
    var c := cells[k];
    assert CellOk(c);
    forall w: nat, p: nat | w < ELEMENT_WORDS && p < WORD_BITS
      ensures p in c.bits[w] <==> BitAt(c.indx, w, p) in Contents(cells) {
      BitAtInverse(c.indx, w, p);
      OnlyCell(cells, k, BitAt(c.indx, w, p));
    }
  }

  /** The start of each macro: the first element to look at, and where in it. */
  method Start(first: Element?, min: nat, ghost s: iset<nat>, ghost es: seq<Element>, ghost cells: seq<Cell>)
    returns (ptr: Element?, wordNum: nat, bitNum: nat, ghost k: nat, ghost frontier: nat)
    requires Reads(es, cells) && CellsOk(cells) && first == At(es, 0) && s <= Contents(cells)
    ensures k <= |es| && ptr == At(es, k)
    ensures Poised(s, cells, k, min, frontier, wordNum, bitNum, [])
  {
    wordNum, bitNum := WordOf(min), PosOf(min);
    ptr, k := FindBlock(first, IndxOf(min), es, cells);
    Poise(cells, k, s, min);
    frontier := min;
    if ptr != null && ptr.indx != IndxOf(min) {
      bitNum, wordNum := 0, 0;
      frontier := BitAt(ptr.indx, 0, 0);
    }
  }

  /** EXECUTE_IF_SET_IN_BITMAP, with the visited bits collected. */
  method ExecuteIfSet(b: Head, min: nat) returns (out: seq<nat>)
    requires b.ListOk()
    ensures AllVisited(Contents(b.cells), min, out)
  {
    forall k: nat | k < |b.cells| ensures ElementOf(Contents(b.cells), b.cells[k].indx, b.cells[k].bits) {
      CellElement(b.cells, k);
    }
    out := WalkOne(b.first, min, Contents(b.cells), b.elems, b.cells);
  }

  method WalkOne(first: Element?, min: nat, ghost s: iset<nat>, ghost es: seq<Element>, ghost cells: seq<Cell>)
    returns (out: seq<nat>)
    requires Reads(es, cells) && CellsOk(cells) && first == At(es, 0) && s <= Contents(cells)
    requires forall k :: 0 <= k < |cells| ==> ElementOf(s, cells[k].indx, cells[k].bits)
    ensures AllVisited(s, min, out)
  {
    var ptr, wordNum, bitNum;
    ghost var k, frontier;
    ptr, wordNum, bitNum, k, frontier := Start(first, min, s, es, cells);
    out := [];
    while ptr != null
      invariant k <= |es| && ptr == At(es, k)
      invariant Poised(s, cells, k, min, frontier, wordNum, bitNum, out)
      decreases |es| - k
    {
      out := ScanElement(ptr.indx, ptr.bits, wordNum, bitNum, s, min, out);
      PoiseNext(cells, k, s, min, out);
      frontier := NextFrontier(cells, k);
      wordNum, bitNum := 0, 0;
      ptr := ptr.next;
      k := k + 1;
    }
    Complete(cells, k, s, min, frontier, wordNum, bitNum, out);
  }

  /** Advance the second list to the index of the first list's element. */
  method CatchUp(from: Element?, indx: nat, ghost es: seq<Element>, ghost cells: seq<Cell>, ghost k0: nat)
    returns (ptr: Element?, ghost k: nat)
    requires Reads(es, cells) && CellsOk(cells) && k0 <= |es| && from == At(es, k0)
    requires forall i :: 0 <= i < k0 ==> cells[i].indx < indx
    ensures k0 <= k <= |es| && ptr == At(es, k)
    ensures forall i :: 0 <= i < k ==> cells[i].indx < indx
    ensures k < |es| ==> indx <= cells[k].indx
  {
    ptr, k := from, k0;
    while ptr != null && ptr.indx < indx
      invariant k0 <= k <= |es| && ptr == At(es, k)
      invariant forall i :: 0 <= i < k ==> cells[i].indx < indx
      decreases |es| - k
    {
      ptr := ptr.next;
      k := k + 1;
    }
  }

  /** The bits the second list has at an index it has been advanced to. */
  ghost function BitsAt(cells: seq<Cell>, j: nat, indx: nat): Bits {
    if j < |cells| && cells[j].indx == indx then cells[j].bits else ZERO
  }

  /** The word the inner loop sees is the operation on the two sets at this index. */
  lemma PairElement(op: Op, c1: seq<Cell>, k: nat, c2: seq<Cell>, j: nat)
    requires CellsOk(c1) && CellsOk(c2) && k < |c1| && j <= |c2| && op != Ior
    requires forall i :: 0 <= i < j ==> c2[i].indx < c1[k].indx
    requires j < |c2| ==> c1[k].indx <= c2[j].indx
    ensures ElementOf(Combine(op, Contents(c1), Contents(c2)), c1[k].indx,
                      Apply(op, c1[k].bits, BitsAt(c2, j, c1[k].indx)))
  {
    var indx := c1[k].indx;
    CellElement(c1, k);
    if j < |c2| && c2[j].indx == indx {
      CellElement(c2, j);
    } else {
      forall w: nat, p: nat | w < ELEMENT_WORDS && p < WORD_BITS
        ensures BitAt(indx, w, p) !in Contents(c2) {
        BitAtInverse(indx, w, p);
        AbsentIndex(c2, BitAt(indx, w, p));
      }
    }
    PairWords(op, Contents(c1), Contents(c2), indx, c1[k].bits, BitsAt(c2, j, indx));
  }

  lemma PairWords(op: Op, s1: iset<nat>, s2: iset<nat>, indx: nat, a: Bits, b: Bits)
    requires ElementOf(s1, indx, a) && op != Ior
    requires forall w: nat, k: nat :: w < ELEMENT_WORDS && k < WORD_BITS ==> (k in b[w] <==> BitAt(indx, w, k) in s2)
    ensures ElementOf(Combine(op, s1, s2), indx, Apply(op, a, b))
  {
  }

  /** EXECUTE_IF_AND_COMPL_IN_BITMAP, with the visited bits collected. */
  method ExecuteIfAndCompl(b1: Head, b2: Head, min: nat) returns (out: seq<nat>)
    requires b1.ListOk() && b2.ListOk()
    ensures AllVisited(Contents(b1.cells) - Contents(b2.cells), min, out)
  {
    out := WalkAndCompl(b1.first, b2.first, min, b1.elems, b1.cells, b2.elems, b2.cells);
  }

  method WalkAndCompl(first1: Element?, first2: Element?, min: nat, ghost e1: seq<Element>, ghost c1: seq<Cell>,
                      ghost e2: seq<Element>, ghost c2: seq<Cell>) returns (out: seq<nat>)
    requires Reads(e1, c1) && CellsOk(c1) && first1 == At(e1, 0)
    requires Reads(e2, c2) && CellsOk(c2) && first2 == At(e2, 0)
    ensures AllVisited(Combine(AndCompl, Contents(c1), Contents(c2)), min, out)
  {
    hide Contents;
    ghost var s := Combine(AndCompl, Contents(c1), Contents(c2));
    var ptr1, wordNum, bitNum;
    var ptr2 := first2;
    ghost var k, frontier;
    ghost var j: nat := 0;
    ptr1, wordNum, bitNum, k, frontier := Start(first1, min, s, e1, c1);
    out := [];
    while ptr1 != null
      invariant k <= |e1| && ptr1 == At(e1, k)
      invariant j <= |e2| && ptr2 == At(e2, j)
      invariant k < |e1| ==> forall i :: 0 <= i < j ==> c2[i].indx < c1[k].indx
      invariant Poised(s, c1, k, min, frontier, wordNum, bitNum, out)
      decreases |e1| - k
    {
      ptr2, j := CatchUp(ptr2, ptr1.indx, e2, c2, j);
      var bits2 := if ptr2 != null && ptr2.indx == ptr1.indx then ptr2.bits else ZERO;
      PairElement(AndCompl, c1, k, c2, j);
      out := ScanElement(ptr1.indx, Apply(AndCompl, ptr1.bits, bits2), wordNum, bitNum, s, min, out);
      PoiseNext(c1, k, s, min, out);
      frontier := NextFrontier(c1, k);
      wordNum, bitNum := 0, 0;
      ptr1 := ptr1.next;
      k := k + 1;
    }
    Complete(c1, k, s, min, frontier, wordNum, bitNum, out);
  }

  /** EXECUTE_IF_AND_IN_BITMAP, with the visited bits collected. */
  method ExecuteIfAnd(b1: Head, b2: Head, min: nat) returns (out: seq<nat>)
    requires b1.ListOk() && b2.ListOk()
    ensures AllVisited(Contents(b1.cells) * Contents(b2.cells), min, out)
  {
    out := WalkAnd(b1.first, b2.first, min, b1.elems, b1.cells, b2.elems, b2.cells);
  }

  method WalkAnd(first1: Element?, first2: Element?, min: nat, ghost e1: seq<Element>, ghost c1: seq<Cell>,
                 ghost e2: seq<Element>, ghost c2: seq<Cell>) returns (out: seq<nat>)
    requires Reads(e1, c1) && CellsOk(c1) && first1 == At(e1, 0)
    requires Reads(e2, c2) && CellsOk(c2) && first2 == At(e2, 0)
    ensures AllVisited(Combine(And, Contents(c1), Contents(c2)), min, out)
  {
    hide Contents;
    ghost var s := Combine(And, Contents(c1), Contents(c2));
    var ptr1, wordNum, bitNum;
    var ptr2 := first2;
    ghost var k, frontier;
    ghost var j: nat := 0;
    ptr1, wordNum, bitNum, k, frontier := Start(first1, min, s, e1, c1);
    out := [];
    while ptr1 != null
      invariant k <= |e1| && ptr1 == At(e1, k)
      invariant j <= |e2| && ptr2 == At(e2, j)
      invariant k < |e1| ==> forall i :: 0 <= i < j ==> c2[i].indx < c1[k].indx
      invariant Poised(s, c1, k, min, frontier, wordNum, bitNum, out)
      decreases |e1| - k
    {
      ptr2, j := CatchUp(ptr2, ptr1.indx, e2, c2, j);
      PairElement(And, c1, k, c2, j);
      if ptr2 == null {
        NothingCommon(c1, k, c2, s);
        return;
      }
      if ptr2.indx > ptr1.indx {
        SkipElement(s, ptr1.indx, wordNum, bitNum, min, out);
      } else {
        out := ScanElement(ptr1.indx, Apply(And, ptr1.bits, ptr2.bits), wordNum, bitNum, s, min, out);
      }
      PoiseNext(c1, k, s, min, out);
      frontier := NextFrontier(c1, k);
      wordNum, bitNum := 0, 0;
      ptr1 := ptr1.next;
      k := k + 1;
    }
    Complete(c1, k, s, min, frontier, wordNum, bitNum, out);
  }

  /** Once the second list has ended, no common member is left. */
  lemma NothingCommon(c1: seq<Cell>, k: nat, c2: seq<Cell>, s: iset<nat>)
    requires CellsOk(c1) && CellsOk(c2) && k < |c1|
    requires s == Combine(And, Contents(c1), Contents(c2))
    requires forall i :: 0 <= i < |c2| ==> c2[i].indx < c1[k].indx
    ensures forall b: nat :: BitAt(c1[k].indx, 0, 0) <= b ==> b !in s
  {
  }

  /** An element with no bits of s contributes nothing. */
  lemma SkipElement(s: iset<nat>, indx: nat, wordNum: nat, bitNum: nat, min: nat, out: seq<nat>)
    requires ElementOf(s, indx, ZERO) && wordNum < ELEMENT_WORDS && bitNum < WORD_BITS
    requires Visited(s, min, BitAt(indx, wordNum, bitNum), out)
    ensures Visited(s, min, BitAt(indx + 1, 0, 0), out)
  {
    hide Visited;
    forall b: nat | BitAt(indx, wordNum, bitNum) <= b < BitAt(indx + 1, 0, 0) ensures b !in s {
      SkippedBit(s, indx, b);
    }
    VisitNothing(s, min, BitAt(indx, wordNum, bitNum), BitAt(indx + 1, 0, 0), out);
  }

  lemma SkippedBit(s: iset<nat>, indx: nat, b: nat)
    requires ElementOf(s, indx, ZERO) && BitAt(indx, 0, 0) <= b < BitAt(indx + 1, 0, 0)
    ensures b !in s
  {
    BitSplits(b);
    assert b == BitAt(indx, WordOf(b), PosOf(b));
    assert PosOf(b) !in ZERO[WordOf(b)];
  }
}
