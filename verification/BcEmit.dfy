/** Emitting a bytecoded function: labels, pointer constants, and putting the parts together. */
module BcEmit {
  import opened Options
  import opened Arith
  import opened BcSeg
  import opened DeclText

  /** A reference to a bytecode label, by its number, at an offset in the bytecode. */
  datatype LabelRef = LabelRef(id: nat, offset: nat)

  /** The words left for references, latest first: one after the other and inside the code. */
  predicate RefsOk(refs: seq<LabelRef>, size: nat) {
    && (forall i :: 0 <= i < |refs| ==> refs[i].offset + INT_SIZE <= size)
    && (forall i, j :: 0 <= i < j < |refs| ==> refs[j].offset + INT_SIZE <= refs[i].offset)
  }

  /** What a reference is to hold: the label's offset, or zero if it is never defined. */
  function Target(r: LabelRef, labels: seq<Option<nat>>): int {
    if IsDefined(r, labels) then labels[r.id].value else 0
  }

  predicate IsDefined(r: LabelRef, labels: seq<Option<nat>>) {
    r.id < |labels| && labels[r.id].Some?
  }

  predicate InRef(refs: seq<LabelRef>, i: nat) {
    exists k :: 0 <= k < |refs| && refs[k].offset <= i < refs[k].offset + INT_SIZE
  }

  function WordAt(data: seq<byte>, offset: nat): seq<byte>
    requires offset + INT_SIZE <= |data|
  {
    data[offset..offset + INT_SIZE]
  }

  function SetWord(data: seq<byte>, offset: nat, v: int): (r: seq<byte>)
    requires offset + INT_SIZE <= |data|
    ensures |r| == |data| && WordAt(r, offset) == IntBytes(v)
    ensures forall i :: 0 <= i < |data| && !(offset <= i < offset + INT_SIZE) ==> r[i] == data[i]
  {
    data[..offset] + IntBytes(v) + data[offset + INT_SIZE..]
  }

  /** The code with every reference filled in and nothing else touched. */
  predicate Patched(before: seq<byte>, after: seq<byte>, refs: seq<LabelRef>, labels: seq<Option<nat>>) {
    && |after| == |before|
    && (forall k :: 0 <= k < |refs| ==>
          refs[k].offset + INT_SIZE <= |after| && WordAt(after, refs[k].offset) == IntBytes(Target(refs[k], labels)))
    && (forall i :: 0 <= i < |before| && !InRef(refs, i) ==> after[i] == before[i])
  }

  /** Before that, every reference holds zero. */
  predicate Blank(data: seq<byte>, refs: seq<LabelRef>) {
    forall k :: 0 <= k < |refs| ==>
      refs[k].offset + INT_SIZE <= |data| && WordAt(data, refs[k].offset) == IntBytes(0)
  }

  predicate NoneShared(a: Seg, b: Seg) {
    forall n :: n in a.syms ==> n !in b.syms
  }

  lemma BlankAppend(data: seq<byte>, more: seq<byte>, refs: seq<LabelRef>)
    requires Blank(data, refs)
    ensures Blank(data + more, refs)
  {
  }

  /** Words that do not overlap do not disturb each other. */
  lemma OtherWord(data: seq<byte>, offset: nat, v: int, at: nat)
    requires offset + INT_SIZE <= |data| && at + INT_SIZE <= |data|
    requires at + INT_SIZE <= offset || offset + INT_SIZE <= at
    ensures WordAt(SetWord(data, offset, v), at) == WordAt(data, at)
  {
  }

  /** The code with the first k references filled in and the others still zero. */
  predicate Partly(before: seq<byte>, after: seq<byte>, refs: seq<LabelRef>, labels: seq<Option<nat>>, k: nat)
    requires k <= |refs| && RefsOk(refs, |before|) && |after| == |before|
  {
    && Patched(before, after, refs[..k], labels)
    && forall j :: k <= j < |refs| ==> WordAt(after, refs[j].offset) == IntBytes(0)
  }

  lemma NoneFilled(before: seq<byte>, refs: seq<LabelRef>, labels: seq<Option<nat>>)
    requires RefsOk(refs, |before|) && Blank(before, refs)
    ensures Partly(before, before, refs, labels, 0)
  {
  }

  lemma AllFilled(before: seq<byte>, after: seq<byte>, refs: seq<LabelRef>, labels: seq<Option<nat>>)
    requires RefsOk(refs, |before|) && |after| == |before| && Partly(before, after, refs, labels, |refs|)
    ensures Patched(before, after, refs, labels)
  {
    assert refs[..|refs|] == refs;
  }

  /** The next reference. */
  lemma PatchNext(before: seq<byte>, after: seq<byte>, refs: seq<LabelRef>, labels: seq<Option<nat>>, k: nat)
    requires k < |refs| && RefsOk(refs, |before|) && |after| == |before| && Partly(before, after, refs, labels, k)
    ensures refs[k].offset + INT_SIZE <= |after|
    ensures IsDefined(refs[k], labels) ==>
              Partly(before, SetWord(after, refs[k].offset, Target(refs[k], labels)), refs, labels, k + 1)
    ensures !IsDefined(refs[k], labels) ==> Partly(before, after, refs, labels, k + 1)
  {
    var r, v := refs[k], Target(refs[k], labels);
    var after' := if IsDefined(r, labels) then SetWord(after, r.offset, v) else after;
    forall j | 0 <= j < |refs| && j != k ensures WordAt(after', refs[j].offset) == WordAt(after, refs[j].offset) {
      if IsDefined(r, labels) {
        OtherWord(after, r.offset, v, refs[j].offset);
      }
    }
    forall i | 0 <= i < |before| && !InRef(refs[..k + 1], i) ensures after'[i] == before[i] {
      NotInPrefix(refs, k, i);
    }
    assert forall j :: 0 <= j < k ==> refs[..k][j] == refs[j];
  }

  lemma NotInPrefix(refs: seq<LabelRef>, k: nat, i: nat)
    requires k < |refs| && !InRef(refs[..k + 1], i)
    ensures !InRef(refs[..k], i) && !(refs[k].offset <= i < refs[k].offset + INT_SIZE)
  {
  }

  // Where everything goes when a function ends.

  /** Where the parts of a function start in the text. */
  datatype Layout = Layout(code: nat, table: nat, trampoline: nat)

  /** seg_concat of the code, alignment, then of the table, then of all to the text. */
  function LayoutOf(text: Seg, trampoline: Seg, code: Seg, unit: nat): Layout
    requires unit >= 1
  {
    var t := RoundUp(|text.data|, unit);
    var c := RoundUp(|trampoline.data|, unit);
    Layout(t + c, t + RoundUp(c + |code.data|, unit), t)
  }

  /** The parts of a function follow the text and each other, each at a multiple of the
      unit and with less than a unit between them. */
  lemma LayoutFits(text: Seg, trampoline: Seg, code: Seg, unit: nat)
    requires unit >= 1
    ensures var at := LayoutOf(text, trampoline, code, unit);
            && at.trampoline % unit == 0 && at.code % unit == 0 && at.table % unit == 0
            && |text.data| <= at.trampoline < |text.data| + unit
            && at.trampoline + |trampoline.data| <= at.code < at.trampoline + |trampoline.data| + unit
            && at.code + |code.data| <= at.table < at.code + |code.data| + unit
  {
    hide RoundUp;
    var t, c := RoundUp(|text.data|, unit), RoundUp(|trampoline.data|, unit);
    RoundUpIs(|text.data|, unit);
    RoundUpIs(|trampoline.data|, unit);
    RoundUpIs(c + |code.data|, unit);
    SumOfMultiples(t, c, unit);
    SumOfMultiples(t, RoundUp(c + |code.data|, unit), unit);
  }

  lemma SumOfMultiples(a: nat, b: nat, unit: nat)
    requires unit >= 1 && a % unit == 0 && b % unit == 0
    ensures (a + b) % unit == 0
  {
    var p, q := a / unit, b / unit;
    assert a == p * unit && b == q * unit;
    SumTimes(p, q, unit);
    MultipleRemainder(p + q, unit);
  }

  function Gap(size: nat, unit: nat): seq<byte>
    requires unit >= 1
  {
    Zeros(RoundUp(size, unit) - size)
  }

  /** The trampoline with the code and the aligned end. */
  function WithCode(trampoline: Seg, code: Seg, unit: nat): Seg
    requires unit >= 1
  {
    Aligned(Joined(trampoline, code, unit), unit)
  }

  lemma WithCodeIs(trampoline: Seg, code: Seg, unit: nat)
    requires unit >= 1
    ensures var f := WithCode(trampoline, code, unit);
            var c := RoundUp(|trampoline.data|, unit);
            && f.data == trampoline.data + Gap(|trampoline.data|, unit) + code.data + Gap(c + |code.data|, unit)
            && |f.data| == RoundUp(c + |code.data|, unit) && RoundUp(|f.data|, unit) == |f.data|
            && f.syms == code.syms + trampoline.syms
            && f.relocs == Moved(code.relocs, c) + trampoline.relocs
  {
    var c := RoundUp(|trampoline.data|, unit);
    RoundUpIs(c + |code.data|, unit);
    RoundUpIs(RoundUp(c + |code.data|, unit), unit);
  }

  lemma {:induction false} MovedTwice(relocs: seq<Reloc>, a: nat, b: nat)
    ensures Moved(Moved(relocs, a), b) == Moved(relocs, a + b)
  {
  }

  lemma MovedJoin(x: seq<Reloc>, y: seq<Reloc>, fix: nat)
    ensures Moved(x + y, fix) == Moved(x, fix) + Moved(y, fix)
  {
  }

  /** A function's segments in the text: each part's bytes in its place with zeros between,
      and its relocations moved as far as its bytes. */
  lemma EndLayout(text: Seg, trampoline: Seg, code: Seg, table: Seg, mark: seq<string>, unit: nat)
    requires unit >= 1
    ensures var f := WithCode(trampoline, code, unit);
            var r := Joined(text, Joined(f.(syms := mark + f.syms), table, unit), unit);
            var at := LayoutOf(text, trampoline, code, unit);
            && r.data == text.data + Gap(|text.data|, unit)
                         + trampoline.data + Gap(|trampoline.data|, unit)
                         + code.data + Gap(at.code - at.trampoline + |code.data|, unit)
                         + table.data
            && r.syms == table.syms + mark + code.syms + trampoline.syms + text.syms
            && r.relocs == Moved(table.relocs, at.table) + Moved(code.relocs, at.code)
                           + Moved(trampoline.relocs, at.trampoline) + text.relocs
  {
    hide Joined, WithCode, Gap, Moved, RoundUp;
    var f := WithCode(trampoline, code, unit);
    WithCodeIs(trampoline, code, unit);
    JoinedIs(f.(syms := mark + f.syms), table, unit);
    JoinedIs(text, Joined(f.(syms := mark + f.syms), table, unit), unit);
    EndRelocs(text.relocs, trampoline.relocs, code.relocs, table.relocs,
              LayoutOf(text, trampoline, code, unit), RoundUp(|trampoline.data|, unit), |f.data|);
    assert Gap(|f.data|, unit) == [];
  }

  lemma JoinedIs(first: Seg, second: Seg, unit: nat)
    requires unit >= 1
    ensures var r := Joined(first, second, unit);
            && r.data == first.data + Gap(|first.data|, unit) + second.data
            && r.syms == second.syms + first.syms
            && r.relocs == Moved(second.relocs, RoundUp(|first.data|, unit)) + first.relocs
    ensures RoundUp(|first.data|, unit) == |first.data| ==> Gap(|first.data|, unit) == []
  {
  }

  lemma EndRelocs(text: seq<Reloc>, trampoline: seq<Reloc>, code: seq<Reloc>, table: seq<Reloc>, at: Layout, c: nat, l: nat)
    requires at.code == at.trampoline + c && at.table == at.trampoline + l
    ensures Moved(Moved(table, l) + (Moved(code, c) + trampoline), at.trampoline) + text
            == Moved(table, at.table) + Moved(code, at.code) + Moved(trampoline, at.trampoline) + text
  {
    hide Moved;
    MovedJoin(Moved(table, l), Moved(code, c) + trampoline, at.trampoline);
    MovedJoin(Moved(code, c), trampoline, at.trampoline);
    MovedTwice(table, l, at.trampoline);
    MovedTwice(code, c, at.trampoline);
    var a, b, d := Moved(table, at.table), Moved(code, at.code), Moved(trampoline, at.trampoline);
    assert a + (b + d) + text == a + b + d + text;
  }

  /** Symbols move as far as the bytes they name. */
  function MovedAll(vals: Values, trampoline: Seg, code: Seg, table: Seg, at: Layout): Values {
    map n | n in vals ::
      if n in table.syms then vals[n] + at.table
      else if n in code.syms then vals[n] + at.code
      else if n in trampoline.syms then vals[n] + at.trampoline
      else vals[n]
  }

  /** The three moves of a function's symbols, by the sizes c, l and t. */
  lemma EndValues(vals: Values, trampoline: Seg, code: Seg, table: Seg, c: nat, l: nat, t: nat)
    requires NoneShared(trampoline, code) && NoneShared(trampoline, table) && NoneShared(code, table)
    ensures MovedValues(MovedValues(MovedValues(vals, code.syms, c), table.syms, l),
                        table.syms + (code.syms + trampoline.syms), t)
            == MovedAll(vals, trampoline, code, table, Layout(t + c, t + l, t))
  {
  }

  /** The same when a new name for the table is defined on the way. */
  lemma EndValuesNamed(vals: Values, trampoline: Seg, code: Seg, table: Seg, c: nat, l: nat, t: nat, name: string)
    requires NoneShared(trampoline, code) && NoneShared(trampoline, table) && NoneShared(code, table)
    requires name !in trampoline.syms && name !in code.syms && name !in table.syms
    ensures MovedValues(MovedValues(MovedValues(vals, code.syms, c)[name := l], table.syms, l),
                        table.syms + ([name] + (code.syms + trampoline.syms)), t)
            == MovedAll(vals, trampoline, code, table, Layout(t + c, t + l, t))[name := t + l]
  {
    var before := MovedValues(MovedValues(vals, code.syms, c)[name := l], table.syms, l);
    var after := MovedValues(before, table.syms + ([name] + (code.syms + trampoline.syms)), t);
    var want := MovedAll(vals, trampoline, code, table, Layout(t + c, t + l, t))[name := t + l];
    assert after.Keys == want.Keys;
    assert after[name] == want[name];
    forall n | n in want && n != name ensures after[n] == want[n] {
      NamedMoves(vals, code.syms, table.syms, trampoline.syms, c, l, t, name, n);
    }
  }

  lemma NamedMoves(vals: Values, code: seq<string>, table: seq<string>, trampoline: seq<string>,
                   c: nat, l: nat, t: nat, name: string, n: string)
    requires n in vals && n != name
    requires n in code ==> n !in table && n !in trampoline
    requires n in table ==> n !in trampoline
    ensures MovedValues(MovedValues(MovedValues(vals, code, c)[name := l], table, l),
                        table + ([name] + (code + trampoline)), t)[n]
            == if n in table then vals[n] + (t + l) else if n in code then vals[n] + (t + c)
               else if n in trampoline then vals[n] + t else vals[n]
  {
  }

  predicate LabelsOk(labels: seq<Option<nat>>, refs: seq<LabelRef>, size: nat) {
    && (forall i :: 0 <= i < |labels| && labels[i].Some? ==> labels[i].value <= size)
    && (forall i :: 0 <= i < |refs| ==> refs[i].id < |labels|)
  }

  /** The segments of the object file share no symbol. */
  predicate Separate(text: Seg, trampoline: Seg, code: Seg, table: Seg) {
    && NoneShared(text, trampoline) && NoneShared(text, code) && NoneShared(text, table)
    && NoneShared(trampoline, code) && NoneShared(trampoline, table) && NoneShared(code, table)
  }

  class Assembler {
    const unit: nat               // 1 << MACHINE_SEG_ALIGN
    var text: Seg
    var trampoline: Seg
    var bytecode: Seg
    var ptrconsts: Seg
    var vals: Values              // the defined symbols
    var labels: seq<Option<nat>>  // the function's labels and where they are defined
    var labelrefs: seq<LabelRef>
    var nlab: nat
    var inFunction: bool          // whether the three segments of a function are there

    ghost predicate SegsOk()
      reads this
    {
      && Ok(text, vals) && Ok(trampoline, vals) && Ok(bytecode, vals) && Ok(ptrconsts, vals)
      && Separate(text, trampoline, bytecode, ptrconsts)
    }

    ghost predicate RefsValid()
      reads this
    {
      && RefsOk(labelrefs, |bytecode.data|) && Blank(bytecode.data, labelrefs)
      && LabelsOk(labels, labelrefs, |bytecode.data|)
    }

    ghost predicate Valid()
      reads this
    {
      && unit >= 1 && SegsOk() && RefsValid() && |ptrconsts.data| % INT_SIZE == 0
      && (!inFunction ==> trampoline == bytecode == ptrconsts == EMPTY && labels == [] && labelrefs == [])
    }

    constructor (unit: nat)
      requires unit >= 1
      ensures Valid() && text == EMPTY && vals == map[] && this.unit == unit && !inFunction
    {
      this.unit := unit;
      text, trampoline, bytecode, ptrconsts := EMPTY, EMPTY, EMPTY, EMPTY;
      vals, labels, labelrefs, nlab, inFunction := map[], [], [], 0, false;
    }

    /** seg_defsym: a name already defined stays where it is. */
    method SegDefsym(seg: Seg, name: string) returns (seg': Seg, ok: bool)
      modifies this`vals
      ensures ok <==> name !in old(vals)
      ensures if ok then seg' == Defined(seg, name) && vals == old(vals)[name := |seg.data|]
              else seg' == seg && vals == old(vals)
    {
      if name in vals {
        return seg, false;
      }
      vals := vals[name := |seg.data|];
      seg', ok := seg.(syms := [name] + seg.syms), true;
    }

    /** seg_concat: align, append the bytes, move the symbols and relocations. */
    method SegConcat(result: Seg, seg: Seg) returns (r: Seg)
      requires unit >= 1 && SymsOk(seg, vals)
      modifies this`vals
      ensures r == Joined(result, seg, unit)
      ensures vals == MovedValues(old(vals), seg.syms, RoundUp(|result.data|, unit))
    {
      hide SymsOk, Moved, MovedValues;
      r := Aligned(result, unit);
      var fix := |r.data|;
      r := r.(data := r.data + seg.data);
      MoveSyms(seg, fix);
      var moved := MoveRelocs(seg.relocs, fix);
      r := r.(syms := seg.syms + r.syms, relocs := moved + r.relocs);
    }

    /** Its loop over the symbols. */
    method MoveSyms(seg: Seg, fix: nat)
      requires SymsOk(seg, vals)
      modifies this`vals
      ensures vals == MovedValues(old(vals), seg.syms, fix)
    {
      var i := 0;
      while i < |seg.syms|
        invariant 0 <= i <= |seg.syms| && vals == MovedValues(old(vals), seg.syms[..i], fix)
      {
        assert seg.syms[i] !in seg.syms[..i];
        assert seg.syms[..i + 1] == seg.syms[..i] + [seg.syms[i]];
        vals := vals[seg.syms[i] := vals[seg.syms[i]] + fix];
        i := i + 1;
      }
      assert seg.syms[..i] == seg.syms;
    }

    /** And that over the relocations. */
    method MoveRelocs(relocs: seq<Reloc>, fix: nat) returns (moved: seq<Reloc>)
      ensures moved == Moved(relocs, fix)
    {
      moved := [];
      var i := 0;
      while i < |relocs|
        invariant 0 <= i <= |relocs| && moved == Moved(relocs[..i], fix)
      {
        assert relocs[..i + 1][..i] == relocs[..i];
        moved := moved + [Reloc(relocs[i].offset + fix, relocs[i].sym)];
        i := i + 1;
      }
      assert relocs[..i] == relocs;
    }

    /** bc_begin_function. */
    method BeginFunction(name: string) returns (ok: bool)
      requires Valid() && !inFunction
      modifies this`trampoline, this`vals, this`inFunction
      ensures Valid() && inFunction && (ok <==> name !in old(vals)) && trampoline.data == []
      ensures if ok then vals == old(vals)[name := 0] && trampoline.syms == [name] else vals == old(vals)
    {
      hide Ok, RefsOk, Blank, LabelsOk;
      EmptyOk(vals, text, text);
      if name !in vals {
        DefinedOk(EMPTY, name, vals);
        OneMoreValue(EMPTY, vals, name, 0);
        OneMoreValue(text, vals, name, 0);
      }
      trampoline, ok := SegDefsym(EMPTY, name);
      inFunction := true;
    }

    /** bc_emit_bytecode_const; nothing happens outside a function. */
    method EmitBytecodeConst(data: seq<byte>)
      requires Valid()
      modifies this`bytecode
      ensures Valid()
      ensures bytecode == if inFunction then Append(old(bytecode), data) else old(bytecode)
    {
      if inFunction {
        BlankAppend(bytecode.data, data, labelrefs);
        AppendOk(bytecode, data, vals);
        bytecode := bytecode.(data := bytecode.data + data);
      }
    }

    /** bc_align_bytecode. */
    method AlignBytecode(align: nat)
      requires Valid() && inFunction && align >= 1
      modifies this`bytecode
      ensures Valid() && bytecode == Aligned(old(bytecode), align) && |bytecode.data| % align == 0
    {
      hide Ok, Separate, RefsOk, Blank, LabelsOk;
      RoundUpIs(|bytecode.data|, align);
      EmitBytecodeConst(Gap(|bytecode.data|, align));
    }

    /** bc_get_bytecode_label. */
    method GetLabel() returns (l: nat)
      requires Valid() && inFunction
      modifies this`labels
      ensures Valid() && labels == old(labels) + [None] && l == |old(labels)|
    {
      l := |labels|;
      labels := labels + [None];
    }

    /** bc_emit_bytecode_labeldef: a label is defined once, where the code then stands. */
    method LabelDef(l: nat) returns (ok: bool)
      requires Valid() && inFunction && l < |labels|
      modifies this`labels
      ensures Valid() && (ok <==> old(labels)[l].None?)
      ensures labels == if ok then old(labels)[l := Some(|bytecode.data|)] else old(labels)
    {
      ok := labels[l].None?;
      if ok {
        labels := labels[l := Some(|bytecode.data|)];
      }
    }

    /** bc_emit_bytecode_labelref: a blank word, to be filled in when the function ends. */
    method EmitLabelRef(l: nat)
      requires Valid() && inFunction && l < |labels|
      modifies this`labelrefs, this`bytecode
      ensures Valid() && labelrefs == [LabelRef(l, |old(bytecode).data|)] + old(labelrefs)
      ensures bytecode == Append(old(bytecode), IntBytes(0))
    {
      hide Ok, NoneShared, IntBytes;
      var at := |bytecode.data|;
      EmitBytecodeConst(IntBytes(0));
      NewRef(labelrefs, bytecode.data, l, at);
      labelrefs := [LabelRef(l, at)] + labelrefs;
    }

    /** bc_emit_code_labelref: the code gets the number of a new pointer constant. */
    method EmitCodeLabelRef(name: string, offset: int) returns (ptroff: nat)
      requires Valid() && inFunction
      modifies this`bytecode, this`ptrconsts
      ensures Valid() && ptrconsts == Referred(old(ptrconsts), name, offset)
      ensures bytecode == Append(old(bytecode), IntBytes(ptroff))
      ensures ptrconsts.relocs[0] == Reloc(INT_SIZE * ptroff, name) && |ptrconsts.data| == INT_SIZE * ptroff + INT_SIZE
      ensures IsInt(offset) ==> BytesInt(ptrconsts.data[INT_SIZE * ptroff..]) == offset
    {
      hide Ok, RefsOk, Blank, LabelsOk, IntBytes, BytesInt;
      ReferredHolds(ptrconsts, name, offset);
      ptroff := |ptrconsts.data| / INT_SIZE;
      EmitBytecodeConst(IntBytes(ptroff));
      ReferredOk(ptrconsts, name, offset, vals);
      ptrconsts := Referred(ptrconsts, name, offset);
    }

    /** bc_emit_const_labeldef and its like, in the text. */
    method ConstLabelDef(name: string) returns (ok: bool)
      requires Valid()
      modifies this`text, this`vals
      ensures Valid() && (ok <==> name !in old(vals))
      ensures ok ==> vals == old(vals)[name := |text.data|] && text == Defined(old(text), name)
    {
      hide RefsOk, Blank, LabelsOk;
      if name !in vals {
        DefinedOk(text, name, vals);
        OneMoreValue(trampoline, vals, name, |text.data|);
        OneMoreValue(bytecode, vals, name, |text.data|);
        OneMoreValue(ptrconsts, vals, name, |text.data|);
      }
      text, ok := SegDefsym(text, name);
    }

    /** The loop of bc_end_function over the label references. */
    method Backpatch()
      requires RefsValid()
      modifies this`bytecode
      ensures Patched(old(bytecode.data), bytecode.data, labelrefs, labels)
      ensures bytecode == old(bytecode).(data := bytecode.data)
      ensures old(SegsOk()) ==> SegsOk()
    {
      hide Ok, Separate, Partly, Patched, RefsOk, Blank, SetWord, IntBytes;
      ghost var before := bytecode.data;
      NoneFilled(before, labelrefs, labels);
      var k := 0;
      while k < |labelrefs|
        invariant 0 <= k <= |labelrefs| && bytecode == old(bytecode).(data := bytecode.data)
        invariant |bytecode.data| == |before| && Partly(before, bytecode.data, labelrefs, labels, k)
      {
        PatchNext(before, bytecode.data, labelrefs, labels, k);
        var r := labelrefs[k];
        if labels[r.id].Some? {
          bytecode := bytecode.(data := SetWord(bytecode.data, r.offset, labels[r.id].value));
        }
        k := k + 1;
      }
      AllFilled(before, bytecode.data, labelrefs, labels);
      if old(SegsOk()) {
        PatchedOk(text, trampoline, old(bytecode), bytecode, ptrconsts, vals);
      }
    }

    /** A concatenation, and what it leaves of two other segments. */
    method JoinBeside(first: Seg, second: Seg, ghost other: Seg, ghost another: Seg) returns (r: Seg)
      requires unit >= 1 && Ok(first, vals) && Ok(second, vals) && Ok(other, vals) && Ok(another, vals)
      requires NoneShared(first, second) && NoneShared(other, first) && NoneShared(other, second)
      requires NoneShared(another, first) && NoneShared(another, second)
      modifies this`vals
      ensures r == Joined(first, second, unit) && Ok(r, vals) && Ok(other, vals) && Ok(another, vals)
      ensures NoneShared(other, r) && NoneShared(another, r)
      ensures vals == MovedValues(old(vals), second.syms, RoundUp(|first.data|, unit))
    {
      hide Ok, SymsOk, Joined;
      JoinStep(first, second, other, vals, unit);
      JoinStep(first, second, another, vals, unit);
      OkSyms(second, vals);
      r := SegConcat(first, second);
    }

    /** The label of the pointer table, unless its name was taken. */
    method MarkTable(f: Seg, name: string, ghost table: Seg, ghost text: Seg) returns (r: Seg)
      requires Ok(f, vals) && Ok(table, vals) && Ok(text, vals) && NoneShared(text, f) && NoneShared(table, f)
      modifies this`vals
      ensures r == f.(syms := (if name in old(vals) then [] else [name]) + f.syms)
      ensures vals == if name in old(vals) then old(vals) else old(vals)[name := |f.data|]
      ensures Ok(r, vals) && Ok(table, vals) && Ok(text, vals) && NoneShared(text, r) && NoneShared(table, r)
    {
      hide Ok;
      if name !in vals {
        MarkStep(f, table, text, vals, name);
      }
      assert [] + f.syms == f.syms;
      var ok;
      r, ok := SegDefsym(f, name);
    }

    /** The trampoline with the code, aligned, and the label of the table after it. */
    method CodeAndMark(trampoline: Seg, code: Seg, name: string, ghost table: Seg, ghost text: Seg) returns (r: Seg)
      requires unit >= 1 && Ok(text, vals) && Ok(trampoline, vals) && Ok(code, vals) && Ok(table, vals)
      requires Separate(text, trampoline, code, table)
      modifies this`vals
      ensures Ok(r, vals) && Ok(table, vals) && Ok(text, vals) && NoneShared(text, r) && NoneShared(r, table)
      ensures var f, mark := WithCode(trampoline, code, unit), if name in old(vals) then [] else [name];
              r == f.(syms := mark + f.syms)
      ensures var v1 := MovedValues(old(vals), code.syms, RoundUp(|trampoline.data|, unit));
              vals == if name in old(vals) then v1 else v1[name := |WithCode(trampoline, code, unit).data|]
    {
      hide Ok, Joined, Aligned, NoneShared, RoundUp;
      NoneSharedBoth(trampoline, table);
      NoneSharedBoth(code, table);
      var f := JoinBeside(trampoline, code, table, text);
      AlignedOk(f, unit, vals);
      AlignedShares(f, text, table, unit);
      f := Aligned(f, unit);
      r := MarkTable(f, name, table, text);
      NoneSharedBoth(table, r);
    }

    /** The concatenations of bc_end_function. */
    method PutTogether(text: Seg, trampoline: Seg, code: Seg, table: Seg, name: string) returns (r: Seg)
      requires unit >= 1 && Ok(text, vals) && Ok(trampoline, vals) && Ok(code, vals) && Ok(table, vals)
      requires Separate(text, trampoline, code, table)
      modifies this`vals
      ensures Ok(r, vals)
      ensures var f, mark := WithCode(trampoline, code, unit), if name in old(vals) then [] else [name];
              r == Joined(text, Joined(f.(syms := mark + f.syms), table, unit), unit)
      ensures var at := LayoutOf(text, trampoline, code, unit);
              var moved := MovedAll(old(vals), trampoline, code, table, at);
              vals == if name in old(vals) then moved else moved[name := at.table]
    {
      hide Ok, Joined, MovedAll, MovedValues, NoneShared, WithCode, Moved, Gap;
      NamesNew(trampoline, code, table, vals, name);
      EndMoves(vals, text, trampoline, code, table, unit, name);
      WithCodeIs(trampoline, code, unit);
      var marked := CodeAndMark(trampoline, code, name, table, text);
      var whole := JoinBeside(marked, table, text, text);
      EmptyOk(vals, text, whole);
      r := JoinBeside(text, whole, EMPTY, EMPTY);
      WholeSyms(marked, table, unit);
    }

    /** bc_end_function. The code goes to the text with every reference filled in and
        nothing else changed; every part's bytes, symbols and relocations move together;
        the table's label, unless its name was taken, is the table's first byte. */
    method EndFunction() returns (name: string, ghost code: seq<byte>)
      requires Valid() && inFunction
      modifies this
      ensures Valid() && !inFunction
      ensures name == "*LP" + Decimal(old(nlab)) && nlab == old(nlab) + 1
      ensures Patched(old(bytecode.data), code, old(labelrefs), old(labels))
      ensures Ended(old(text), old(trampoline), old(bytecode).(data := code), old(ptrconsts), old(vals), name, unit, text, vals)
    {
      hide Ok, Patched, RefsOk, Blank, Ended, LabelsOk, NoneShared, Separate;
      Backpatch();
      code := bytecode.data;
      name := "*LP" + Decimal(nlab);
      nlab := nlab + 1;
      FinishText(name);
      CloseFunction();
    }

    method FinishText(name: string)
      requires unit >= 1 && SegsOk()
      modifies this`text, this`vals
      ensures Ok(text, vals)
      ensures Ended(old(text), trampoline, bytecode, ptrconsts, old(vals), name, unit, text, vals)
    {
      hide Ok, Joined, WithCode, MovedAll, Gap, Moved, RoundUp, LayoutOf, Ended, NoneShared;
      EndedOk(text, trampoline, bytecode, ptrconsts, vals, name, unit);
      text := PutTogether(text, trampoline, bytecode, ptrconsts, name);
    }

    method CloseFunction()
      requires unit >= 1 && Ok(text, vals)
      modifies this`trampoline, this`bytecode, this`ptrconsts, this`labels, this`labelrefs, this`inFunction
      ensures Valid() && !inFunction
    {
      trampoline, bytecode, ptrconsts := EMPTY, EMPTY, EMPTY;
      labels, labelrefs, inFunction := [], [], false;
    }

    lemma OkSyms(seg: Seg, vals: Values)
      requires Ok(seg, vals)
      ensures SymsOk(seg, vals)
    {
    }

    method EmitConst(data: seq<byte>)
      requires Valid()
      modifies this`text
      ensures Valid() && text == Append(old(text), data)
    {
      AppendOk(text, data, vals);
      text := Append(text, data);
    }

    method ConstLabelRef(name: string, offset: int)
      requires Valid()
      modifies this`text
      ensures Valid() && text == Referred(old(text), name, offset)
      ensures text.relocs[0] == Reloc(|old(text).data|, name) && |text.data| == |old(text).data| + INT_SIZE
      ensures IsInt(offset) ==> BytesInt(text.data[|old(text).data|..]) == offset
    {
      hide Ok, RefsOk, Blank, LabelsOk, IntBytes, BytesInt;
      ReferredHolds(text, name, offset);
      ReferredOk(text, name, offset, vals);
      text := Referred(text, name, offset);
    }
  }

  /** Joining two segments leaves a third as it was. */
  lemma JoinStep(first: Seg, second: Seg, other: Seg, vals: Values, unit: nat)
    requires unit >= 1 && Ok(first, vals) && Ok(second, vals) && Ok(other, vals)
    requires NoneShared(first, second) && NoneShared(other, first) && NoneShared(other, second)
    ensures var after := MovedValues(vals, second.syms, RoundUp(|first.data|, unit));
            Ok(Joined(first, second, unit), after) && Ok(other, after)
    ensures NoneShared(other, Joined(first, second, unit))
  {
    JoinedOk(first, second, unit, vals);
    OthersMoved(other, vals, second.syms, RoundUp(|first.data|, unit));
  }

  lemma AlignedOk(seg: Seg, unit: nat, vals: Values)
    requires unit >= 1 && Ok(seg, vals)
    ensures Ok(Aligned(seg, unit), vals)
  {
  }

  /** The name of the table, if it is new. */
  lemma MarkStep(f: Seg, table: Seg, text: Seg, vals: Values, name: string)
    requires Ok(f, vals) && Ok(table, vals) && Ok(text, vals) && name !in vals
    requires NoneShared(text, f) && NoneShared(table, f)
    ensures var after := vals[name := |f.data|];
            Ok(Defined(f, name), after) && Ok(table, after) && Ok(text, after)
    ensures NoneShared(text, Defined(f, name)) && NoneShared(table, Defined(f, name))
  {
    DefinedOk(f, name, vals);
    OneMoreValue(table, vals, name, |f.data|);
    OneMoreValue(text, vals, name, |f.data|);
  }

  lemma AlignedShares(f: Seg, a: Seg, b: Seg, unit: nat)
    requires unit >= 1 && NoneShared(a, f) && NoneShared(b, f)
    ensures NoneShared(a, Aligned(f, unit)) && NoneShared(b, Aligned(f, unit))
  {
  }

  /** Filling in references leaves a segment's lists and size alone. */
  lemma PatchedOk(text: Seg, trampoline: Seg, before: Seg, after: Seg, table: Seg, vals: Values)
    requires Ok(before, vals) && after == before.(data := after.data) && |after.data| == |before.data|
    requires Separate(text, trampoline, before, table)
    ensures Ok(after, vals) && Separate(text, trampoline, after, table)
  {
  }

  /** A function put together: each part's bytes follow the text's, with zeros only up to
      alignment; its symbols and relocations have moved as far; and the mark, if its name
      was new, names the table's first byte. */
  ghost predicate Ended(text: Seg, trampoline: Seg, code: Seg, table: Seg, vals: Values, name: string, unit: nat,
                        text': Seg, vals': Values)
  {
    unit >= 1 &&
    var at := LayoutOf(text, trampoline, code, unit);
    var mark := if name in vals then [] else [name];
    var moved := MovedAll(vals, trampoline, code, table, at);
    && text'.data == text.data + Gap(|text.data|, unit)
                     + trampoline.data + Gap(|trampoline.data|, unit)
                     + code.data + Gap(at.code - at.trampoline + |code.data|, unit)
                     + table.data
    && text'.syms == table.syms + mark + code.syms + trampoline.syms + text.syms
    && text'.relocs == Moved(table.relocs, at.table) + Moved(code.relocs, at.code)
                       + Moved(trampoline.relocs, at.trampoline) + text.relocs
    && vals' == if name in vals then moved else moved[name := at.table]
  }

  lemma EndedOk(text: Seg, trampoline: Seg, code: Seg, table: Seg, vals: Values, name: string, unit: nat)
    requires unit >= 1
    ensures var f, mark := WithCode(trampoline, code, unit), if name in vals then [] else [name];
            var at := LayoutOf(text, trampoline, code, unit);
            var moved := MovedAll(vals, trampoline, code, table, at);
            Ended(text, trampoline, code, table, vals, name, unit,
                  Joined(text, Joined(f.(syms := mark + f.syms), table, unit), unit),
                  if name in vals then moved else moved[name := at.table])
  {
    hide Joined, WithCode, MovedAll, Moved, RoundUp;
    EndLayout(text, trampoline, code, table, if name in vals then [] else [name], unit);
  }

  /** In the text, a part's bytes are where the layout says. */
  lemma EndedBytes(text: Seg, trampoline: Seg, code: Seg, table: Seg, vals: Values, name: string, unit: nat,
                   text': Seg, vals': Values)
    requires Ended(text, trampoline, code, table, vals, name, unit, text', vals')
    ensures var at := LayoutOf(text, trampoline, code, unit);
            && |text.data| <= at.trampoline && at.trampoline + |trampoline.data| <= at.code
            && at.code + |code.data| <= at.table && at.table + |table.data| == |text'.data|
            && text'.data[..|text.data|] == text.data
            && text'.data[at.trampoline..at.trampoline + |trampoline.data|] == trampoline.data
            && text'.data[at.code..at.code + |code.data|] == code.data
            && text'.data[at.table..] == table.data
  {
    hide Ended, LayoutOf, Gap;
    EndedData(text, trampoline, code, table, vals, name, unit, text', vals');
    var at := LayoutOf(text, trampoline, code, unit);
    LayoutGaps(text, trampoline, code, unit);
    FourParts(text.data, Gap(|text.data|, unit), trampoline.data, Gap(|trampoline.data|, unit),
              code.data, Gap(at.code - at.trampoline + |code.data|, unit), table.data);
  }

  lemma EndedData(text: Seg, trampoline: Seg, code: Seg, table: Seg, vals: Values, name: string, unit: nat,
                  text': Seg, vals': Values)
    requires Ended(text, trampoline, code, table, vals, name, unit, text', vals')
    ensures unit >= 1
    ensures var at := LayoutOf(text, trampoline, code, unit);
            && at.trampoline <= at.code
            && text'.data == text.data + Gap(|text.data|, unit)
                             + trampoline.data + Gap(|trampoline.data|, unit)
                             + code.data + Gap(at.code - at.trampoline + |code.data|, unit)
                             + table.data
  {
    hide MovedAll, Moved, RoundUp, Gap;
  }

  lemma LayoutGaps(text: Seg, trampoline: Seg, code: Seg, unit: nat)
    requires unit >= 1
    ensures var at := LayoutOf(text, trampoline, code, unit);
            && at.trampoline <= at.code
            && at.trampoline == |text.data| + |Gap(|text.data|, unit)|
            && at.code == at.trampoline + |trampoline.data| + |Gap(|trampoline.data|, unit)|
            && at.table == at.code + |code.data| + |Gap(at.code - at.trampoline + |code.data|, unit)|
  {
    hide RoundUp;
  }

  lemma Slice(a: seq<byte>, b: seq<byte>, c: seq<byte>)
    ensures (a + b + c)[|a|..|a| + |b|] == b && (a + b)[|a|..] == b && (a + b)[..|a|] == a
  {
  }

  lemma FourParts(a: seq<byte>, g: seq<byte>, b: seq<byte>, h: seq<byte>, c: seq<byte>, i: seq<byte>, d: seq<byte>)
    ensures var all := a + g + b + h + c + i + d;
            var x := |a| + |g|;
            var y := x + |b| + |h|;
            var z := y + |c| + |i|;
            && |all| == z + |d| && all[..|a|] == a && all[x..x + |b|] == b && all[y..y + |c|] == c && all[z..] == d
  {
    var all := a + g + b + h + c + i + d;
    assert all == a + (g + b + h + c + i + d);
    Slice(a, g + b + h + c + i + d, []);
    assert all == (a + g) + b + (h + c + i + d);
    Slice(a + g, b, h + c + i + d);
    assert all == (a + g + b + h) + c + (i + d);
    Slice(a + g + b + h, c, i + d);
    Slice(a + g + b + h + c + i, d, []);
  }

  /** In the text, what a symbol or relocation of a part addresses is what it addressed
      there: the byte defined, and the word to relocate for the same symbol. */
  ghost predicate Rides(part: Seg, vals: Values, at: nat, text': Seg, vals': Values) {
    && (forall n :: n in part.syms ==>
          n in vals && n in vals' && vals'[n] == vals[n] + at
          && (vals[n] < |part.data| ==> vals'[n] < |text'.data| && text'.data[vals'[n]] == part.data[vals[n]]))
    && MovedInto(part.relocs, at, text'.relocs)
    && (forall r :: r in part.relocs ==>
          && r.offset + INT_SIZE <= |part.data| && r.offset + at + INT_SIZE <= |text'.data|
          && WordAt(text'.data, r.offset + at) == WordAt(part.data, r.offset))
  }

  ghost predicate MovedInto(relocs: seq<Reloc>, fix: nat, all: seq<Reloc>) {
    forall r {:trigger r in relocs} :: r in relocs ==> Reloc(r.offset + fix, r.sym) in all
  }

  lemma SliceOfSlice(whole: seq<byte>, a: nat, b: nat, i: nat, j: nat)
    requires a <= b <= |whole| && i <= j <= b - a
    ensures whole[a..b][i..j] == whole[a + i..a + j]
  {
    var s, t := whole[a..b][i..j], whole[a + i..a + j];
    forall k | 0 <= k < |s| ensures s[k] == t[k] {
      assert s[k] == whole[a..b][i + k];
    }
  }

  /** The bytes of a part, looked up in the whole. */
  lemma PartAt(part: seq<byte>, at: nat, whole: seq<byte>, i: nat, n: nat)
    requires at + |part| <= |whole| && whole[at..at + |part|] == part && i + n <= |part|
    ensures whole[i + at..i + at + n] == part[i..i + n]
    ensures n > 0 ==> whole[i + at] == part[i]
  {
    SliceOfSlice(whole, at, at + |part|, i, i + n);
    assert n > 0 ==> part[i] == part[i..i + n][0] && whole[i + at] == whole[i + at..i + at + n][0];
  }

  lemma SymbolsRide(part: Seg, vals: Values, at: nat, text': Seg, vals': Values)
    requires at + |part.data| <= |text'.data| && text'.data[at..at + |part.data|] == part.data
    requires forall n :: n in part.syms ==> n in vals' && n in vals && vals'[n] == vals[n] + at
    ensures forall n :: n in part.syms && vals[n] < |part.data| ==> text'.data[vals'[n]] == part.data[vals[n]]
  {
    forall n | n in part.syms && vals[n] < |part.data| ensures text'.data[vals'[n]] == part.data[vals[n]] {
      PartAt(part.data, at, text'.data, vals[n], 1);
    }
  }

  lemma WordsRide(part: Seg, at: nat, text': Seg)
    requires RelocsOk(part) && at + |part.data| <= |text'.data| && text'.data[at..at + |part.data|] == part.data
    ensures forall r :: r in part.relocs ==>
              r.offset + INT_SIZE <= |part.data| && WordAt(text'.data, r.offset + at) == WordAt(part.data, r.offset)
  {
    forall r | r in part.relocs
      ensures r.offset + INT_SIZE <= |part.data| && WordAt(text'.data, r.offset + at) == WordAt(part.data, r.offset) {
      PartAt(part.data, at, text'.data, r.offset, INT_SIZE);
    }
  }

  lemma PartRides(part: Seg, vals: Values, at: nat, text': Seg, vals': Values)
    requires Ok(part, vals)
    requires at + |part.data| <= |text'.data| && text'.data[at..at + |part.data|] == part.data
    requires forall n :: n in part.syms ==> n in vals' && n in vals && vals'[n] == vals[n] + at
    requires MovedInto(part.relocs, at, text'.relocs)
    ensures Rides(part, vals, at, text', vals')
  {
    hide Ok, SymsOk, RelocsOk, WordAt, MovedInto;
    OkRelocs(part, vals);
    SymbolsRide(part, vals, at, text', vals');
    WordsRide(part, at, text');
  }

  lemma OkRelocs(seg: Seg, vals: Values)
    requires Ok(seg, vals)
    ensures RelocsOk(seg)
  {
  }

  lemma MovedIn(relocs: seq<Reloc>, fix: nat, all: seq<Reloc>)
    requires forall r :: r in Moved(relocs, fix) ==> r in all
    ensures MovedInto(relocs, fix, all)
  {
    hide Moved;
    forall r | r in relocs ensures Reloc(r.offset + fix, r.sym) in all {
      var i :| 0 <= i < |relocs| && relocs[i] == r;
      assert Moved(relocs, fix)[i] in Moved(relocs, fix);
    }
  }

  lemma EndedValues(text: Seg, trampoline: Seg, code: Seg, table: Seg, vals: Values, name: string, unit: nat,
                    text': Seg, vals': Values)
    requires Ended(text, trampoline, code, table, vals, name, unit, text', vals')
    requires Ok(text, vals) && Ok(trampoline, vals) && Ok(code, vals) && Ok(table, vals)
    requires Separate(text, trampoline, code, table)
    ensures var at := LayoutOf(text, trampoline, code, unit);
            && (forall n :: n in text.syms ==> n in vals && n in vals' && vals'[n] == vals[n])
            && (forall n :: n in trampoline.syms ==> n in vals && n in vals' && vals'[n] == vals[n] + at.trampoline)
            && (forall n :: n in code.syms ==> n in vals && n in vals' && vals'[n] == vals[n] + at.code)
            && (forall n :: n in table.syms ==> n in vals && n in vals' && vals'[n] == vals[n] + at.table)
  {
    hide Moved, LayoutOf, Gap;
  }

  lemma InFour<T>(a: seq<T>, b: seq<T>, c: seq<T>, d: seq<T>)
    ensures forall x :: x in a || x in b || x in c || x in d ==> x in a + b + c + d
  {
  }

  lemma EndedRelocList(text: Seg, trampoline: Seg, code: Seg, table: Seg, vals: Values, name: string, unit: nat,
                       text': Seg, vals': Values)
    requires unit >= 1 && Ended(text, trampoline, code, table, vals, name, unit, text', vals')
    ensures var at := LayoutOf(text, trampoline, code, unit);
            text'.relocs == Moved(table.relocs, at.table) + Moved(code.relocs, at.code)
                            + Moved(trampoline.relocs, at.trampoline) + text.relocs
  {
    hide LayoutOf, Gap, MovedAll, Moved;
  }

  lemma EndedRelocs(text: Seg, trampoline: Seg, code: Seg, table: Seg, vals: Values, name: string, unit: nat,
                    text': Seg, vals': Values)
    requires unit >= 1 && Ended(text, trampoline, code, table, vals, name, unit, text', vals')
    ensures var at := LayoutOf(text, trampoline, code, unit);
            && MovedInto(text.relocs, 0, text'.relocs) && MovedInto(trampoline.relocs, at.trampoline, text'.relocs)
            && MovedInto(code.relocs, at.code, text'.relocs) && MovedInto(table.relocs, at.table, text'.relocs)
  {
    hide Ended, LayoutOf, Moved;
    var at := LayoutOf(text, trampoline, code, unit);
    EndedRelocList(text, trampoline, code, table, vals, name, unit, text', vals');
    InFour(Moved(table.relocs, at.table), Moved(code.relocs, at.code), Moved(trampoline.relocs, at.trampoline), text.relocs);
    MovedIn(trampoline.relocs, at.trampoline, text'.relocs);
    MovedIn(code.relocs, at.code, text'.relocs);
    MovedIn(table.relocs, at.table, text'.relocs);
  }

  /** When a function has been put together, every symbol and relocation of its parts and
      of the text before it addresses the byte or word it addressed. */
  lemma EverythingRides(text: Seg, trampoline: Seg, code: Seg, table: Seg, vals: Values, name: string, unit: nat,
                        text': Seg, vals': Values)
    requires unit >= 1 && Ended(text, trampoline, code, table, vals, name, unit, text', vals')
    requires Ok(text, vals) && Ok(trampoline, vals) && Ok(code, vals) && Ok(table, vals)
    requires Separate(text, trampoline, code, table)
    ensures var at := LayoutOf(text, trampoline, code, unit);
            && Rides(text, vals, 0, text', vals') && Rides(trampoline, vals, at.trampoline, text', vals')
            && Rides(code, vals, at.code, text', vals') && Rides(table, vals, at.table, text', vals')
  {
    hide Ended, Ok, LayoutOf, Rides, Separate, MovedInto;
    EndedBytes(text, trampoline, code, table, vals, name, unit, text', vals');
    EndedValues(text, trampoline, code, table, vals, name, unit, text', vals');
    EndedRelocs(text, trampoline, code, table, vals, name, unit, text', vals');
    var at := LayoutOf(text, trampoline, code, unit);
    PartRides(text, vals, 0, text', vals');
    PartRides(trampoline, vals, at.trampoline, text', vals');
    PartRides(code, vals, at.code, text', vals');
    PartRides(table, vals, at.table, text', vals');
  }

  /** In the text, every reference in a function's code holds what it refers to: a defined
      label's offset from the start of the code. */
  lemma ReferencesHold(text: Seg, trampoline: Seg, code: Seg, table: Seg, vals: Values, name: string, unit: nat,
                       text': Seg, vals': Values, before: seq<byte>, refs: seq<LabelRef>, labels: seq<Option<nat>>, k: nat)
    requires Ended(text, trampoline, code, table, vals, name, unit, text', vals')
    requires Patched(before, code.data, refs, labels) && k < |refs|
    ensures var at := LayoutOf(text, trampoline, code, unit).code + refs[k].offset;
            at + INT_SIZE <= |text'.data| && WordAt(text'.data, at) == IntBytes(Target(refs[k], labels))
  {
    hide Ended, LayoutOf, IntBytes, Patched;
    EndedData(text, trampoline, code, table, vals, name, unit, text', vals');
    EndedBytes(text, trampoline, code, table, vals, name, unit, text', vals');
    PatchedAt(before, code.data, refs, labels, k);
    var at := LayoutOf(text, trampoline, code, unit);
    PartAt(code.data, at.code, text'.data, refs[k].offset, INT_SIZE);
  }

  lemma PatchedAt(before: seq<byte>, after: seq<byte>, refs: seq<LabelRef>, labels: seq<Option<nat>>, k: nat)
    requires Patched(before, after, refs, labels) && k < |refs|
    ensures refs[k].offset + INT_SIZE <= |after| && WordAt(after, refs[k].offset) == IntBytes(Target(refs[k], labels))
  {
  }

  lemma WholeSyms(first: Seg, second: Seg, unit: nat)
    requires unit >= 1
    ensures Joined(first, second, unit).syms == second.syms + first.syms
  {
  }

  lemma EmptyOk(vals: Values, a: Seg, b: Seg)
    ensures Ok(EMPTY, vals) && NoneShared(EMPTY, a) && NoneShared(EMPTY, b)
  {
  }

  /** A name not yet defined is in no segment. */
  lemma NamesNew(trampoline: Seg, code: Seg, table: Seg, vals: Values, name: string)
    requires Ok(trampoline, vals) && Ok(code, vals) && Ok(table, vals)
    ensures name !in vals ==> name !in trampoline.syms && name !in code.syms && name !in table.syms
  {
  }

  lemma NoneSharedBoth(a: Seg, b: Seg)
    ensures NoneShared(a, b) <==> NoneShared(b, a)
  {
  }

  /** All the moves together. */
  lemma EndMoves(vals: Values, text: Seg, trampoline: Seg, code: Seg, table: Seg, unit: nat, name: string)
    requires unit >= 1 && NoneShared(trampoline, code) && NoneShared(trampoline, table) && NoneShared(code, table)
    requires name !in vals ==> name !in trampoline.syms && name !in code.syms && name !in table.syms
    ensures var f := WithCode(trampoline, code, unit);
            var at := LayoutOf(text, trampoline, code, unit);
            var v1 := MovedValues(vals, code.syms, RoundUp(|trampoline.data|, unit));
            var v2 := if name in vals then v1 else v1[name := |f.data|];
            var mark := if name in vals then [] else [name];
            MovedValues(MovedValues(v2, table.syms, |f.data|), table.syms + (mark + f.syms), at.trampoline)
            == if name in vals then MovedAll(vals, trampoline, code, table, at)
               else MovedAll(vals, trampoline, code, table, at)[name := at.table]
  {
    hide MovedValues, MovedAll, WithCode;
    WithCodeIs(trampoline, code, unit);
    var c, l := RoundUp(|trampoline.data|, unit), |WithCode(trampoline, code, unit).data|;
    var t := RoundUp(|text.data|, unit);
    assert LayoutOf(text, trampoline, code, unit) == Layout(t + c, t + l, t);
    if name in vals {
      assert [] + (code.syms + trampoline.syms) == code.syms + trampoline.syms;
      EndValues(vals, trampoline, code, table, c, l, t);
    } else {
      EndValuesNamed(vals, trampoline, code, table, c, l, t, name);
    }
  }

  /** A symbol newly defined elsewhere. */
  lemma OneMoreValue(seg: Seg, vals: Values, name: string, v: nat)
    requires Ok(seg, vals) && name !in vals
    ensures Ok(seg, vals[name := v]) && name !in seg.syms
  {
  }

  lemma NewRef(refs: seq<LabelRef>, data: seq<byte>, l: nat, at: nat)
    requires RefsOk(refs, at) && at + INT_SIZE == |data| && WordAt(data, at) == IntBytes(0) && Blank(data, refs)
    ensures RefsOk([LabelRef(l, at)] + refs, |data|) && Blank(data, [LabelRef(l, at)] + refs)
  {
  }
}
