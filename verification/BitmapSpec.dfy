/** What the element list of a sparse bitmap means: a sorted sequence of cells stands
    for a set of bit numbers. A word (`unsigned HOST_WIDE_INT`) is the set of the
    positions of its one bits, so that `&`, `|`, `& ~`, `1 << k` and `== 0` are `*`,
    `+`, `-`, `{k}` and `== {}`. */
module BitmapSpec {
  const WORD_BITS: nat := 32      // HOST_BITS_PER_WIDE_INT
  const ELEMENT_WORDS: nat := 2   // BITMAP_ELEMENT_WORDS
  const ELEMENT_BITS: nat := 64   // BITMAP_ELEMENT_ALL_BITS

  /** Bit numbers are `unsigned int`. */
  const BIT_LIMIT: nat := 0x1_0000_0000

  /** `~ (unsigned HOST_WIDE_INT) 0`, the index bitmap_operation gives to a list that
      has ended; no element has it. */
  const NO_INDEX: nat := 0xFFFF_FFFF

  type Word = set<nat>
  type Bits = s: seq<Word> | |s| == ELEMENT_WORDS witness [{}, {}]

  const ZERO: Bits := [{}, {}]

  datatype Cell = Cell(indx: nat, bits: Bits)

  function IndxOf(bit: nat): nat { bit / ELEMENT_BITS }

  function WordOf(bit: nat): (w: nat)
    ensures w < ELEMENT_WORDS
  {
    (bit / WORD_BITS) % ELEMENT_WORDS
  }

  function PosOf(bit: nat): (k: nat)
    ensures k < WORD_BITS
  {
    bit % WORD_BITS
  }

  /** The bit number at position k of word w of the element with index indx. */
  function BitAt(indx: nat, w: nat, k: nat): nat {
    indx * ELEMENT_BITS + w * WORD_BITS + k
  }

  lemma BitAtInverse(indx: nat, w: nat, k: nat)
    requires w < ELEMENT_WORDS && k < WORD_BITS
    ensures var b := BitAt(indx, w, k); IndxOf(b) == indx && WordOf(b) == w && PosOf(b) == k
  {
  }

  lemma BitSplits(b: nat)
    ensures BitAt(IndxOf(b), WordOf(b), PosOf(b)) == b
  {
  }

  predicate CellOk(c: Cell) {
    && IndxOf(BIT_LIMIT - 1) >= c.indx
    && c.bits != ZERO
    && (forall w, k :: 0 <= w < ELEMENT_WORDS && k in c.bits[w] ==> k < WORD_BITS)
  }

  /** The form every bitmap list keeps: indices increase and no element is all zero. */
  ghost predicate CellsOk(cells: seq<Cell>) {
    && (forall i :: 0 <= i < |cells| ==> CellOk(cells[i]))
    && (forall i, j :: 0 <= i < j < |cells| ==> cells[i].indx < cells[j].indx)
  }

  predicate InCell(c: Cell, b: nat) {
    c.indx == IndxOf(b) && PosOf(b) in c.bits[WordOf(b)]
  }

  ghost predicate Member(cells: seq<Cell>, b: nat) {
    exists i :: 0 <= i < |cells| && InCell(cells[i], b)
  }

  /** The set of bit numbers a list stands for. */
  ghost function Contents(cells: seq<Cell>): iset<nat> {
    iset b: nat | Member(cells, b)
  }

  /** The list form is canonical: one set, one list. */
  lemma {:induction false} Canonical(a: seq<Cell>, b: seq<Cell>)
    requires CellsOk(a) && CellsOk(b) && Contents(a) == Contents(b)
    ensures a == b
    decreases |a|
  {
    EmptyList(a);
    EmptyList(b);
    if a != [] && b != [] {
      FirstIndexLeast(a, b);
      FirstIndexLeast(b, a);
      FirstCellsSame(a, b);
      forall n: nat ensures n in Contents(a[1..]) <==> n in Contents(b[1..]) {
        MemberOfTail(a, n);
        MemberOfTail(b, n);
        assert n in Contents(a) <==> n in Contents(b);
      }
      Canonical(a[1..], b[1..]);
      assert a == [a[0]] + a[1..] && b == [b[0]] + b[1..];
    }
  }

  lemma EmptyList(cells: seq<Cell>)
    requires CellsOk(cells)
    ensures cells == [] <==> Contents(cells) == iset{}
  {
    if cells != [] {
      var n := SomeMember(cells, 0);
      assert n in Contents(cells);
    }
  }

  /** Some member sits in cell i. */
  lemma SomeMember(cells: seq<Cell>, i: nat) returns (n: nat)
    requires CellsOk(cells) && i < |cells|
    ensures InCell(cells[i], n) && Member(cells, n)
  {
    var c := cells[i];
    assert CellOk(c);
    assert c.bits[0] == {} && c.bits[1] == {} ==> c.bits == ZERO;
    var w := if c.bits[0] != {} then 0 else 1;
    var k :| k in c.bits[w];
    n := BitAt(c.indx, w, k);
    BitAtInverse(c.indx, w, k);
    assert InCell(cells[i], n);
  }

  lemma FirstIndexLeast(a: seq<Cell>, b: seq<Cell>)
    requires CellsOk(a) && CellsOk(b) && Contents(a) == Contents(b)
    requires a != [] && b != []
    ensures b[0].indx <= a[0].indx
  {
    var n := SomeMember(a, 0);
    assert n in Contents(b);
    var j :| 0 <= j < |b| && InCell(b[j], n);
  }

  lemma FirstCellsSame(a: seq<Cell>, b: seq<Cell>)
    requires CellsOk(a) && CellsOk(b) && Contents(a) == Contents(b)
    requires a != [] && b != [] && a[0].indx == b[0].indx
    ensures a[0] == b[0]
  {
    forall w | 0 <= w < ELEMENT_WORDS ensures a[0].bits[w] == b[0].bits[w] {
      forall k: nat ensures k in a[0].bits[w] <==> k in b[0].bits[w] {
        if k < WORD_BITS {
          var n := BitAt(a[0].indx, w, k);
          BitAtInverse(a[0].indx, w, k);
          OnlyCell(a, 0, n);
          OnlyCell(b, 0, n);
          assert n in Contents(a) <==> n in Contents(b);
        }
      }
    }
    assert a[0].bits == b[0].bits;
  }

  /** Membership is decided by the cell with the right index. */
  lemma OnlyCell(cells: seq<Cell>, i: nat, n: nat)
    requires CellsOk(cells) && i < |cells| && cells[i].indx == IndxOf(n)
    ensures Member(cells, n) <==> InCell(cells[i], n)
  {
  }

  lemma MemberOfTail(cells: seq<Cell>, n: nat)
    requires CellsOk(cells) && cells != []
    ensures Member(cells[1..], n) <==> Member(cells, n) && cells[0].indx != IndxOf(n)
    ensures CellsOk(cells[1..])
  {
  }

  lemma AbsentIndex(cells: seq<Cell>, n: nat)
    requires forall i :: 0 <= i < |cells| ==> cells[i].indx != IndxOf(n)
    ensures !Member(cells, n)
  {
  }

  // Changing one cell.

  function SetIn(bits: Bits, b: nat): Bits {
    bits[WordOf(b) := bits[WordOf(b)] + {PosOf(b)}]
  }

  function ClearIn(bits: Bits, b: nat): Bits {
    bits[WordOf(b) := bits[WordOf(b)] - {PosOf(b)}]
  }

  lemma SameElementBits(a: nat, b: nat)
    requires IndxOf(a) == IndxOf(b) && WordOf(a) == WordOf(b) && PosOf(a) == PosOf(b)
    ensures a == b
  {
    BitSplits(a);
    BitSplits(b);
  }

  /** Overwriting the cell that holds a bit adds or removes that bit only. */
  lemma UpdateCell(cells: seq<Cell>, i: nat, b: nat, on: bool)
    requires CellsOk(cells) && i < |cells| && cells[i].indx == IndxOf(b) && b < BIT_LIMIT
    requires var bits := if on then SetIn(cells[i].bits, b) else ClearIn(cells[i].bits, b); bits != ZERO
    ensures var bits := if on then SetIn(cells[i].bits, b) else ClearIn(cells[i].bits, b);
            var after := cells[i := Cell(cells[i].indx, bits)];
            && CellsOk(after)
            && Contents(after) == if on then Contents(cells) + iset{b} else Contents(cells) - iset{b}
  {
    var bits := if on then SetIn(cells[i].bits, b) else ClearIn(cells[i].bits, b);
    var after := cells[i := Cell(cells[i].indx, bits)];
    assert CellOk(after[i]);
    assert CellsOk(after);
    forall n: nat ensures n in Contents(after) <==> if n == b then on else n in Contents(cells) {
      if IndxOf(n) == IndxOf(b) {
        OnlyCell(after, i, n);
        OnlyCell(cells, i, n);
        if n != b && WordOf(n) == WordOf(b) && PosOf(n) == PosOf(b) {
          SameElementBits(n, b);
        }
      } else {
        assert forall j :: 0 <= j < |cells| && j != i ==> after[j] == cells[j];
        assert Member(after, n) <==> Member(cells, n);
      }
    }
  }

  lemma LoneBit(bits: Bits, b: nat, n: nat)
    requires ClearIn(bits, b) == ZERO && PosOf(n) in bits[WordOf(n)]
    ensures WordOf(n) == WordOf(b) && PosOf(n) == PosOf(b)
  {
    assert ClearIn(bits, b)[WordOf(n)] == {};
    assert PosOf(n) !in ClearIn(bits, b)[WordOf(n)];
  }

  lemma RemoveMembers(cells: seq<Cell>, i: nat, n: nat)
    requires CellsOk(cells) && i < |cells|
    ensures CellsOk(cells[..i] + cells[i + 1..])
    ensures Member(cells[..i] + cells[i + 1..], n) <==> Member(cells, n) && cells[i].indx != IndxOf(n)
  {
    var after := cells[..i] + cells[i + 1..];
    assert forall j :: 0 <= j < |after| ==> after[j] == if j < i then cells[j] else cells[j + 1];
    if Member(cells, n) {
      var j :| 0 <= j < |cells| && InCell(cells[j], n);
      if j != i {
        assert InCell(after[if j < i then j else j - 1], n);
      }
    }
  }

  /** Dropping a cell whose only bit is b removes b only. */
  lemma DropCell(cells: seq<Cell>, i: nat, b: nat)
    requires CellsOk(cells) && i < |cells| && cells[i].indx == IndxOf(b)
    requires ClearIn(cells[i].bits, b) == ZERO
    ensures var after := cells[..i] + cells[i + 1..];
            CellsOk(after) && Contents(after) == Contents(cells) - iset{b}
  {
    var after := cells[..i] + cells[i + 1..];
    RemoveMembers(cells, i, b);
    forall n: nat ensures n in Contents(after) <==> n != b && n in Contents(cells) {
      RemoveMembers(cells, i, n);
      if IndxOf(n) == IndxOf(b) {
        OnlyCell(cells, i, n);
        if InCell(cells[i], n) {
          LoneBit(cells[i].bits, b, n);
          SameElementBits(n, b);
        }
      }
    }
  }

  /** Where a new index belongs: everything before is smaller, everything from k on larger. */
  ghost predicate Gap(cells: seq<Cell>, k: nat, indx: nat) {
    && k <= |cells|
    && (forall j :: 0 <= j < k ==> cells[j].indx < indx)
    && (forall j :: k <= j < |cells| ==> indx < cells[j].indx)
  }

  function InsertCell(cells: seq<Cell>, k: nat, c: Cell): seq<Cell>
    requires k <= |cells|
  {
    cells[..k] + [c] + cells[k..]
  }

  lemma InsertKeepsForm(cells: seq<Cell>, k: nat, c: Cell)
    requires CellsOk(cells) && Gap(cells, k, c.indx) && CellOk(c)
    ensures CellsOk(InsertCell(cells, k, c))
  {
    var after := InsertCell(cells, k, c);
    assert forall j :: 0 <= j < |after| ==>
      after[j] == if j < k then cells[j] else if j == k then c else cells[j - 1];
  }

  lemma InsertMembers(cells: seq<Cell>, k: nat, c: Cell, n: nat)
    requires k <= |cells|
    ensures Member(InsertCell(cells, k, c), n) <==> InCell(c, n) || Member(cells, n)
  {
    var after := InsertCell(cells, k, c);
    assert forall j :: 0 <= j < |after| ==>
      after[j] == if j < k then cells[j] else if j == k then c else cells[j - 1];
    if InCell(c, n) {
      assert InCell(after[k], n);
    }
    if Member(cells, n) {
      var j :| 0 <= j < |cells| && InCell(cells[j], n);
      assert InCell(after[if j < k then j else j + 1], n);
    }
  }

  /** Inserting a fresh cell that holds just b adds b only. */
  lemma InsertBit(cells: seq<Cell>, k: nat, b: nat)
    requires CellsOk(cells) && Gap(cells, k, IndxOf(b)) && b < BIT_LIMIT
    ensures var after := InsertCell(cells, k, Cell(IndxOf(b), SetIn(ZERO, b)));
            CellsOk(after) && Contents(after) == Contents(cells) + iset{b}
  {
    var c := Cell(IndxOf(b), SetIn(ZERO, b));
    assert c.bits[WordOf(b)] == {PosOf(b)};
    assert CellOk(c);
    InsertKeepsForm(cells, k, c);
    forall n: nat
      ensures n in Contents(InsertCell(cells, k, c)) <==> n == b || n in Contents(cells) {
      InsertMembers(cells, k, c, n);
      if InCell(c, n) {
        SameElementBits(n, b);
      }
    }
  }

  // Combining two lists.

  datatype Op = And | AndCompl | Ior

  function ApplyWord(op: Op, a: Word, b: Word): Word {
    match op
    case And => a * b
    case AndCompl => a - b
    case Ior => a + b
  }

  function Apply(op: Op, a: Bits, b: Bits): Bits {
    [ApplyWord(op, a[0], b[0]), ApplyWord(op, a[1], b[1])]
  }

  predicate Holds(op: Op, p: bool, q: bool) {
    match op
    case And => p && q
    case AndCompl => p && !q
    case Ior => p || q
  }

  ghost function Combine(op: Op, p: iset<nat>, q: iset<nat>): iset<nat> {
    match op
    case And => p * q
    case AndCompl => p - q
    case Ior => p + q
  }

  predicate StartsAt(cells: seq<Cell>, indx: nat) {
    cells != [] && cells[0].indx == indx
  }

  /** The bits of the element with index indx if the list starts with it, else a zero element's. */
  function FrontBits(cells: seq<Cell>, indx: nat): Bits {
    if StartsAt(cells, indx) then cells[0].bits else ZERO
  }

  function Rest(cells: seq<Cell>, indx: nat): seq<Cell> {
    if StartsAt(cells, indx) then cells[1..] else cells
  }

  function Emit(indx: nat, bits: Bits): seq<Cell> {
    if bits == ZERO then [] else [Cell(indx, bits)]
  }

  function LowerFront(a: seq<Cell>, b: seq<Cell>): (indx: nat)
    requires a != [] || b != []
    ensures StartsAt(a, indx) || StartsAt(b, indx)
  {
    if a == [] then b[0].indx
    else if b == [] || a[0].indx <= b[0].indx then a[0].indx
    else b[0].indx
  }

  /** One list from two, walking both in index order with a zero element standing in
      for one that is missing, and keeping the results that are not all zero. */
  function Merge(op: Op, a: seq<Cell>, b: seq<Cell>): seq<Cell>
    decreases |a| + |b|
  {
    if a == [] && b == [] then []
    else
      var indx := LowerFront(a, b);
      Emit(indx, Apply(op, FrontBits(a, indx), FrontBits(b, indx))) + Merge(op, Rest(a, indx), Rest(b, indx))
  }

  ghost predicate AllAbove(cells: seq<Cell>, low: int) {
    forall i :: 0 <= i < |cells| ==> low < cells[i].indx
  }

  /** One turn of the merge, on the parts of the lists still to be read. */
  lemma MergeStep(op: Op, a: seq<Cell>, i: nat, b: seq<Cell>, j: nat, low: int)
    requires CellsOk(a) && CellsOk(b) && i <= |a| && j <= |b|
    requires i < |a| || j < |b|
    requires AllAbove(a[i..], low) && AllAbove(b[j..], low)
    ensures var p := if i < |a| then a[i].indx else NO_INDEX;
            var q := if j < |b| then b[j].indx else NO_INDEX;
            var useA, useB := p <= q, q <= p;
            var indx := if useA then p else q;
            && (useA ==> i < |a|) && (useB ==> j < |b|)
            && var bits := Apply(op, if useA then a[i].bits else ZERO, if useB then b[j].bits else ZERO);
               var i', j' := if useA then i + 1 else i, if useB then j + 1 else j;
            && low < indx && AllAbove(a[i'..], indx) && AllAbove(b[j'..], indx)
            && (bits != ZERO ==> CellOk(Cell(indx, bits)))
            && Merge(op, a[i..], b[j..]) == Emit(indx, bits) + Merge(op, a[i'..], b[j'..])
  {
    assert i < |a| ==> CellOk(a[i]) && a[i..][0] == a[i] && a[i..][1..] == a[i + 1..];
    assert j < |b| ==> CellOk(b[j]) && b[j..][0] == b[j] && b[j..][1..] == b[j + 1..];
    var indx := LowerFront(a[i..], b[j..]);
    ApplyKeepsForm(op, indx, FrontBits(a[i..], indx), FrontBits(b[j..], indx));
  }

  lemma SplitFront(cells: seq<Cell>, indx: nat)
    requires CellsOk(cells) && AllAbove(cells, indx - 1)
    ensures CellsOk(Rest(cells, indx)) && AllAbove(Rest(cells, indx), indx)
    ensures FrontBits(cells, indx) != ZERO ==> CellOk(Cell(indx, FrontBits(cells, indx)))
  {
    if cells != [] && cells[0].indx == indx {
      assert cells[0] == Cell(indx, FrontBits(cells, indx));
    }
  }

  lemma FrontMembers(cells: seq<Cell>, indx: nat, n: nat)
    requires CellsOk(cells) && AllAbove(cells, indx - 1)
    ensures Member(cells, n) <==> InCell(Cell(indx, FrontBits(cells, indx)), n) || Member(Rest(cells, indx), n)
    ensures IndxOf(n) == indx ==> !Member(Rest(cells, indx), n)
  {
    SplitFront(cells, indx);
    if StartsAt(cells, indx) {
      assert cells[0] == Cell(indx, FrontBits(cells, indx));
      MemberOfTail(cells, n);
      if IndxOf(n) == indx {
        OnlyCell(cells, 0, n);
      }
    }
  }

  lemma EmitMembers(indx: nat, bits: Bits, rest: seq<Cell>, low: int)
    requires CellsOk(rest) && AllAbove(rest, indx) && low < indx
    requires bits != ZERO ==> CellOk(Cell(indx, bits))
    ensures CellsOk(Emit(indx, bits) + rest) && AllAbove(Emit(indx, bits) + rest, low)
    ensures forall n: nat :: Member(Emit(indx, bits) + rest, n) <==> InCell(Cell(indx, bits), n) || Member(rest, n)
  {
    var c := Cell(indx, bits);
    if bits == ZERO {
      assert Emit(indx, bits) + rest == rest;
    } else {
      assert Emit(indx, bits) + rest == InsertCell(rest, 0, c);
      InsertKeepsForm(rest, 0, c);
      forall n: nat ensures Member(InsertCell(rest, 0, c), n) <==> InCell(c, n) || Member(rest, n) {
        InsertMembers(rest, 0, c, n);
      }
    }
  }

  lemma ApplyInCell(op: Op, indx: nat, a: Bits, b: Bits, n: nat)
    ensures InCell(Cell(indx, Apply(op, a, b)), n) <==>
            indx == IndxOf(n) && Holds(op, InCell(Cell(indx, a), n), InCell(Cell(indx, b), n))
  {
  }

  lemma ApplyKeepsForm(op: Op, indx: nat, a: Bits, b: Bits)
    requires indx <= IndxOf(BIT_LIMIT - 1)
    requires a != ZERO ==> CellOk(Cell(indx, a))
    requires b != ZERO ==> CellOk(Cell(indx, b))
    ensures Apply(op, a, b) != ZERO ==> CellOk(Cell(indx, Apply(op, a, b)))
  {
  }

  /** Merging keeps the list form and computes the operation on every bit. */
  lemma {:induction false} MergeMembers(op: Op, a: seq<Cell>, b: seq<Cell>, low: int)
    requires CellsOk(a) && CellsOk(b) && AllAbove(a, low) && AllAbove(b, low)
    ensures CellsOk(Merge(op, a, b)) && AllAbove(Merge(op, a, b), low)
    ensures forall n: nat :: Member(Merge(op, a, b), n) <==> Holds(op, Member(a, n), Member(b, n))
    decreases |a| + |b|
  {
    if a != [] || b != [] {
      var indx := LowerFront(a, b);
      var fa, fb := FrontBits(a, indx), FrontBits(b, indx);
      SplitFront(a, indx);
      SplitFront(b, indx);
      MergeMembers(op, Rest(a, indx), Rest(b, indx), indx);
      ApplyKeepsForm(op, indx, fa, fb);
      EmitMembers(indx, Apply(op, fa, fb), Merge(op, Rest(a, indx), Rest(b, indx)), low);
      forall n: nat ensures Member(Merge(op, a, b), n) <==> Holds(op, Member(a, n), Member(b, n)) {
        FrontMembers(a, indx, n);
        FrontMembers(b, indx, n);
        ApplyInCell(op, indx, fa, fb, n);
      }
    }
  }

  /** The merged list stands for the operation on the two sets. */
  lemma MergeContents(op: Op, a: seq<Cell>, b: seq<Cell>)
    requires CellsOk(a) && CellsOk(b)
    ensures CellsOk(Merge(op, a, b))
    ensures Contents(Merge(op, a, b)) == Combine(op, Contents(a), Contents(b))
  {
    MergeMembers(op, a, b, -1);
    forall n: nat
      ensures n in Contents(Merge(op, a, b)) <==> n in Combine(op, Contents(a), Contents(b)) {
      assert Member(Merge(op, a, b), n) <==> Holds(op, Member(a, n), Member(b, n));
    }
  }
}
