/** What an array initializer means, whatever order its elements come in. */
module InitSpec {
  import opened Lists
  import opened Options

  /** The bytes of one digested element. */
  type Elt = seq<bv8>

  datatype Entry = Entry(purpose: nat, value: Elt)

  datatype Error = DuplicateIndex(first: int) | EmptyRange(first: int) | Duplicate(at: nat) | Excess(count: nat)

  /** An array of so many elements of so many bytes, if the number is given. */
  datatype Shape = Shape(eltsize: nat, maxIndex: Option<int>)

  /** Where the next element goes, what each index was given, and the errors so far. */
  datatype Init = Init(index: nat, rangeEnd: Option<nat>, given: map<nat, Elt>, errors: seq<Error>)

  const START: Init := Init(0, None, map[], [])

  function Report(a: Init, e: Error): Init { a.(errors := a.errors + [e]) }

  /** The first index given nothing. */
  function Unfilled(given: map<nat, Elt>): (n: nat)
    ensures n !in given && forall i :: 0 <= i < n ==> i in given
  {
    FirstMissing(given, given.Keys, 0)
  }

  function FirstMissing(given: map<nat, Elt>, rest: set<nat>, from: nat): (n: nat)
    requires forall i :: 0 <= i < from ==> i in given
    requires forall i :: i in given && i >= from ==> i in rest
    ensures n !in given && forall i :: 0 <= i < n ==> i in given
    decreases rest
  {
    if from in given then FirstMissing(given, rest - {from}, from + 1) else from
  }

  lemma UnfilledUnique(given: map<nat, Elt>, n: nat)
    requires n !in given && forall i :: 0 <= i < n ==> i in given
    ensures Unfilled(given) == n
  {
  }

  /** A designator [first] or [first ... last]. One below every missing index is refused, a
      negative one like an index given before; an empty range moves the index but leaves
      the range as it was. */
  function Designate(a: Init, first: int, last: Option<int>): Init {
    if first < Unfilled(a.given) then Report(a, DuplicateIndex(first))
    else if last.Some? && last.value < first then Report(a.(index := first), EmptyRange(first))
    else a.(index := first, rangeEnd := if last.Some? then Some(last.value) else None)
  }

  /** One element at the current index: an index already given keeps what it has. */
  function Place(a: Init, v: Elt): Init {
    var b := if a.index in a.given then Report(a, Duplicate(a.index)) else a.(given := a.given[a.index := v]);
    b.(index := a.index + 1)
  }

  /** The element at every index of a range, or at the current one. */
  function PlaceRange(a: Init, v: Elt): Init
    decreases if a.rangeEnd.Some? then a.rangeEnd.value - a.index else -1
  {
    var b := Place(a, v);
    if b.rangeEnd.Some? && b.index <= b.rangeEnd.value then PlaceRange(b, v) else b
  }

  predicate Beyond(shape: Shape, i: nat) {
    shape.maxIndex.Some? && shape.maxIndex.value < i
  }

  /** One element of the initializer. */
  function Element(a: Init, v: Elt, shape: Shape): Init {
    if Beyond(shape, a.index) then Report(a, Excess(a.index))
    else if a.rangeEnd.Some? && Beyond(shape, a.rangeEnd.value) then
      PlaceRange(Report(a.(rangeEnd := Some(shape.maxIndex.value)), Excess(a.rangeEnd.value)), v)
    else PlaceRange(a, v)
  }

  /** What the initializer is made of, in the order written. */
  datatype Item = Designator(first: int, last: Option<int>) | Value(value: Elt)

  function Step(a: Init, item: Item, shape: Shape): Init {
    match item
    case Designator(first, last) => Designate(a, first, last)
    case Value(v) => Element(a, v, shape)
  }

  function Run(items: seq<Item>, shape: Shape): Init {
    if items == [] then START else Step(Run(items[..|items| - 1], shape), items[|items| - 1], shape)
  }

  // Images.

  function Zeros(n: nat): (z: seq<bv8>)
    ensures |z| == n && forall i :: 0 <= i < n ==> z[i] == 0
  {
    seq(n, _ => 0)
  }

  /** Element i of the array. */
  function At(given: map<nat, Elt>, i: nat, eltsize: nat): Elt {
    if i in given then given[i] else Zeros(eltsize)
  }

  /** The first n elements, each in its place. */
  function Image(given: map<nat, Elt>, n: nat, eltsize: nat): seq<bv8> {
    if n == 0 then [] else Image(given, n - 1, eltsize) + At(given, n - 1, eltsize)
  }

  ghost predicate Sized(given: map<nat, Elt>, eltsize: nat) {
    forall i :: i in given ==> |given[i]| == eltsize
  }

  /** Element i starts at byte i * eltsize. */
  lemma {:induction false} ImageAt(given: map<nat, Elt>, n: nat, eltsize: nat, i: nat)
    requires Sized(given, eltsize) && i < n
    ensures |Image(given, n, eltsize)| == n * eltsize
    ensures 0 <= i * eltsize <= (i + 1) * eltsize <= n * eltsize
    ensures Image(given, n, eltsize)[i * eltsize..(i + 1) * eltsize] == At(given, i, eltsize)
  {
    hide Image;
    ImageNext(given, n, eltsize);
    ImageLength(given, n - 1, eltsize);
    ImageLength(given, n, eltsize);
    Scale(i, i + 1, eltsize);
    Scale(i + 1, n, eltsize);
    if i < n - 1 {
      ImageAt(given, n - 1, eltsize, i);
      SliceBefore(Image(given, n - 1, eltsize), At(given, n - 1, eltsize), i * eltsize, (i + 1) * eltsize);
    } else {
      SliceLast(Image(given, n - 1, eltsize), At(given, n - 1, eltsize));
    }
  }

  /** The last element follows the image of the others. */
  lemma ImageNext(given: map<nat, Elt>, n: nat, eltsize: nat)
    requires n > 0
    ensures Image(given, n, eltsize) == Image(given, n - 1, eltsize) + At(given, n - 1, eltsize)
  {
  }

  lemma SliceBefore(s: seq<bv8>, t: seq<bv8>, i: nat, j: nat)
    requires i <= j <= |s|
    ensures (s + t)[i..j] == s[i..j]
  {
  }

  lemma SliceLast(s: seq<bv8>, t: seq<bv8>)
    ensures (s + t)[|s|..|s + t|] == t
  {
  }

  lemma Scale(a: nat, b: nat, k: nat)
    requires a <= b
    ensures 0 <= a * k <= b * k
  {
  }

  lemma {:induction false} ImageLength(given: map<nat, Elt>, n: nat, eltsize: nat)
    requires Sized(given, eltsize)
    ensures |Image(given, n, eltsize)| == n * eltsize
  {
    if n > 0 {
      ImageLength(given, n - 1, eltsize);
      assert n * eltsize == (n - 1) * eltsize + eltsize;
    }
  }

  /** An index past the image does not change it. */
  lemma {:induction false} ImageUntouched(given: map<nat, Elt>, n: nat, eltsize: nat, i: nat, v: Elt)
    requires i >= n
    ensures Image(given[i := v], n, eltsize) == Image(given, n, eltsize)
  {
    if n > 0 {
      ImageUntouched(given, n - 1, eltsize, i, v);
    }
  }

  /** Indices given nothing read as zeros. */
  lemma {:induction false} ImageGap(given: map<nat, Elt>, n: nat, m: nat, eltsize: nat)
    requires n <= m && forall i :: n <= i < m ==> i !in given
    ensures (m - n) * eltsize >= 0
    ensures Image(given, m, eltsize) == Image(given, n, eltsize) + Zeros((m - n) * eltsize)
    decreases m
  {
    hide Image;
    if m > n {
      ImageNext(given, m, eltsize);
      ImageGap(given, n, m - 1, eltsize);
      OneMore(m - 1 - n, eltsize);
      ZerosJoin(Image(given, n, eltsize), (m - 1 - n) * eltsize, eltsize);
    }
  }

  lemma OneMore(k: nat, eltsize: nat)
    ensures k * eltsize >= 0 && (k + 1) * eltsize == k * eltsize + eltsize
  {
  }

  lemma ZerosJoin(s: seq<bv8>, a: nat, b: nat)
    ensures s + Zeros(a) + Zeros(b) == s + Zeros(a + b)
  {
  }

  /** The entries below n, latest first, as they are chained. */
  function Listed(given: map<nat, Elt>, n: nat): seq<Entry> {
    if n == 0 then []
    else if n - 1 in given then [Entry(n - 1, given[n - 1])] + Listed(given, n - 1)
    else Listed(given, n - 1)
  }

  lemma {:induction false} ListedUntouched(given: map<nat, Elt>, n: nat, i: nat, v: Elt)
    requires i >= n
    ensures Listed(given[i := v], n) == Listed(given, n)
  {
    if n > 0 {
      ListedUntouched(given, n - 1, i, v);
    }
  }

  lemma {:induction false} ListedGap(given: map<nat, Elt>, n: nat, m: nat)
    requires n <= m && forall i :: n <= i < m ==> i !in given
    ensures Listed(given, m) == Listed(given, n)
    decreases m
  {
    if m > n {
      ListedGap(given, n, m - 1);
    }
  }

  predicate Ascending(list: seq<Entry>) {
    forall i, j :: 0 <= i < j < |list| ==> list[i].purpose < list[j].purpose
  }

  /** The array a CONSTRUCTOR list stands for: the last entry for an index counts. */
  function Denoted(list: seq<Entry>): map<nat, Elt> {
    if list == [] then map[] else Denoted(list[..|list| - 1])[list[|list| - 1].purpose := list[|list| - 1].value]
  }

  /** complete_array_type: the bound the list gives an unsized array. */
  function LastPurpose(list: seq<Entry>): int {
    if list == [] then -1 else list[|list| - 1].purpose
  }

  function Below(given: map<nat, Elt>, n: nat): map<nat, Elt> {
    map i | i in given && i < n :: given[i]
  }

  /** The same entries in order. */
  function Upward(given: map<nat, Elt>, n: nat): seq<Entry> {
    if n == 0 then []
    else if n - 1 in given then Upward(given, n - 1) + [Entry(n - 1, given[n - 1])]
    else Upward(given, n - 1)
  }

  lemma {:induction false} ReversedListed(given: map<nat, Elt>, n: nat)
    ensures Reversed(Listed(given, n)) == Upward(given, n)
  {
    if n > 0 {
      ReversedListed(given, n - 1);
      if n - 1 in given {
        assert Listed(given, n)[1..] == Listed(given, n - 1);
      }
    }
  }

  lemma AscendingLast(before: seq<Entry>, e: Entry)
    requires Ascending(before) && forall b :: b in before ==> b.purpose < e.purpose
    ensures Ascending(before + [e])
  {
  }

  lemma {:induction false} UpwardBelow(given: map<nat, Elt>, n: nat)
    ensures forall e :: e in Upward(given, n) ==> e.purpose < n
  {
    if n > 0 {
      UpwardBelow(given, n - 1);
    }
  }

  lemma BelowNone(given: map<nat, Elt>)
    ensures Below(given, 0) == map[]
  {
  }

  lemma BelowNext(given: map<nat, Elt>, n: nat)
    requires n > 0
    ensures Below(given, n) == if n - 1 in given then Below(given, n - 1)[n - 1 := given[n - 1]] else Below(given, n - 1)
  {
  }

  /** The list made of the entries below n is ascending and stands for just those. */
  lemma {:induction false} UpwardIs(given: map<nat, Elt>, n: nat)
    ensures Ascending(Upward(given, n)) && Denoted(Upward(given, n)) == Below(given, n)
  {
    hide Below;
    if n == 0 {
      BelowNone(given);
    } else {
      UpwardIs(given, n - 1);
      BelowNext(given, n);
      if n - 1 in given {
        var e := Entry(n - 1, given[n - 1]);
        UpwardBelow(given, n - 1);
        AscendingLast(Upward(given, n - 1), e);
        DenotedLast(Upward(given, n - 1), e);
      }
    }
  }

  lemma DenotedLast(before: seq<Entry>, e: Entry)
    ensures Denoted(before + [e]) == Denoted(before)[e.purpose := e.value]
  {
  }

  /** When every index given is below n, the list stands for all of them and its last
      purpose is the highest index given. */
  lemma UpwardAll(given: map<nat, Elt>, n: nat)
    requires forall i :: i in given ==> i < n
    ensures Denoted(Upward(given, n)) == given
    ensures n == 0 || n - 1 in given ==> LastPurpose(Upward(given, n)) == n - 1
  {
    UpwardIs(given, n);
    assert Below(given, n) == given;
  }
}
