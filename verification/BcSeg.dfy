/** Segments of a bytecode object file: bytes, symbols and relocations. */
module BcSeg {
  import opened Arith

  type byte = b: int | 0 <= b < 256

  const INT_SIZE := 4

  function Low(v: int): byte { v % 256 }

  /** An int in memory, least significant byte first. */
  function IntBytes(v: int): (s: seq<byte>)
    ensures |s| == INT_SIZE
  {
    var q1 := v / 256;
    var q2 := q1 / 256;
    var q3 := q2 / 256;
    [Low(v), Low(q1), Low(q2), Low(q3)]
  }

  function Unsigned(s: seq<byte>): (u: nat)
    requires |s| == INT_SIZE
    ensures u < 0x1_0000_0000
  {
    var b0: int, b1: int, b2: int, b3: int := s[0], s[1], s[2], s[3];
    b0 + 256 * (b1 + 256 * (b2 + 256 * b3))
  }

  function BytesInt(s: seq<byte>): (v: int)
    requires |s| == INT_SIZE
    ensures -0x8000_0000 <= v < 0x8000_0000
  {
    if Unsigned(s) >= 0x8000_0000 then Unsigned(s) - 0x1_0000_0000 else Unsigned(s)
  }

  lemma Halves(a: int, b: int)
    requires 0 <= b < 256
    ensures (b + 256 * a) / 256 == a && Low(b + 256 * a) == b
  {
  }

  lemma BytesRoundTrip(s: seq<byte>)
    requires |s| == INT_SIZE
    ensures IntBytes(BytesInt(s)) == s
  {
    var b0: int, b1: int, b2: int, b3: int := s[0], s[1], s[2], s[3];
    var sign := if Unsigned(s) >= 0x8000_0000 then -1 else 0;
    var top := b3 + 256 * sign;
    Halves(b1 + 256 * (b2 + 256 * top), b0);
    Halves(b2 + 256 * top, b1);
    Halves(top, b2);
    Halves(sign, b3);
    assert BytesInt(s) == b0 + 256 * (b1 + 256 * (b2 + 256 * top));
  }

  predicate IsInt(v: int) { -0x8000_0000 <= v < 0x8000_0000 }

  lemma LowBytes(v: int, b0: int, b1: int, b2: int, q3: int)
    requires 0 <= b0 < 256 && 0 <= b1 < 256 && 0 <= b2 < 256 && IsInt(v)
    requires v == b0 + 256 * (b1 + 256 * (b2 + 256 * q3))
    ensures -128 <= q3 < 128
  {
  }

  /** An int read back is the int stored. */
  lemma IntReadsBack(v: int)
    requires IsInt(v)
    ensures BytesInt(IntBytes(v)) == v
  {
    var q1 := v / 256;
    var q2 := q1 / 256;
    var q3 := q2 / 256;
    LowBytes(v, v % 256, q1 % 256, q2 % 256, q3);
    assert Low(q3) == if q3 < 0 then q3 + 256 else q3;
  }

  function Zeros(n: nat): (z: seq<byte>)
    ensures |z| == n && forall i :: 0 <= i < n ==> z[i] == 0
  {
    seq(n, _ => 0)
  }

  datatype Reloc = Reloc(offset: nat, sym: string)

  /** A segment; the lists have the latest first. */
  datatype Seg = Seg(data: seq<byte>, syms: seq<string>, relocs: seq<Reloc>)

  const EMPTY: Seg := Seg([], [], [])

  /** The values of the symbols defined so far. */
  type Values = map<string, nat>

  /** Symbols in order of definition, each once, none beyond the end. */
  predicate SymsOk(seg: Seg, vals: Values) {
    && (forall i :: 0 <= i < |seg.syms| ==> seg.syms[i] in vals && vals[seg.syms[i]] <= |seg.data|)
    && (forall i, j :: 0 <= i < j < |seg.syms| ==>
          seg.syms[i] in vals && seg.syms[j] in vals && vals[seg.syms[i]] >= vals[seg.syms[j]]
          && seg.syms[i] != seg.syms[j])
  }

  /** Relocated words one after the other, all inside the segment. */
  predicate RelocsOk(seg: Seg) {
    && (forall i :: 0 <= i < |seg.relocs| ==> seg.relocs[i].offset + INT_SIZE <= |seg.data|)
    && (forall i, j :: 0 <= i < j < |seg.relocs| ==> seg.relocs[j].offset + INT_SIZE <= seg.relocs[i].offset)
  }

  /** No symbol inside a relocated word. */
  predicate ApartOk(seg: Seg, vals: Values) {
    forall i, j :: 0 <= i < |seg.syms| && 0 <= j < |seg.relocs| ==>
      seg.syms[i] in vals && !Inside(vals[seg.syms[i]], seg.relocs[j].offset)
  }

  predicate Inside(v: nat, offset: nat) {
    offset < v < offset + INT_SIZE
  }

  predicate Ok(seg: Seg, vals: Values) {
    SymsOk(seg, vals) && RelocsOk(seg) && ApartOk(seg, vals)
  }

  /** A size rounded up to a multiple of 2^log. */
  function RoundUp(size: nat, unit: nat): (r: nat)
    requires unit >= 1
    ensures size <= r < size + unit
  {
    if size % unit == 0 then size else size + (unit - size % unit)
  }

  lemma RoundUpIs(size: nat, unit: nat)
    requires unit >= 1
    ensures RoundUp(size, unit) % unit == 0
    ensures size % unit == 0 ==> RoundUp(size, unit) == size
  {
    if size % unit != 0 {
      var q := size / unit;
      assert size == q * unit + size % unit;
      SumTimes(q, 1, unit);
      MultipleRemainder(q + 1, unit);
    }
  }

  lemma MultipleRemainder(q: nat, unit: nat)
    requires unit >= 1
    ensures q * unit % unit == 0
  {
    UniqueQuotient(q * unit, unit, q, 0);
    assert q * unit == q * unit / unit * unit + q * unit % unit;
  }

  // The operations on a segment.

  function Append(seg: Seg, more: seq<byte>): Seg {
    seg.(data := seg.data + more)
  }

  function Aligned(seg: Seg, unit: nat): Seg
    requires unit >= 1
  {
    Append(seg, Zeros(RoundUp(|seg.data|, unit) - |seg.data|))
  }

  function Defined(seg: Seg, name: string): Seg {
    seg.(syms := [name] + seg.syms)
  }

  function Referred(seg: Seg, name: string, addend: int): Seg {
    Append(seg.(relocs := [Reloc(|seg.data|, name)] + seg.relocs), IntBytes(addend))
  }

  function Moved(relocs: seq<Reloc>, fix: nat): (r: seq<Reloc>)
    ensures |r| == |relocs| && forall i :: 0 <= i < |r| ==> r[i] == Reloc(relocs[i].offset + fix, relocs[i].sym)
  {
    if relocs == [] then []
    else Moved(relocs[..|relocs| - 1], fix) + [Reloc(relocs[|relocs| - 1].offset + fix, relocs[|relocs| - 1].sym)]
  }

  function MovedValues(vals: Values, names: seq<string>, fix: nat): Values {
    map n | n in vals :: if n in names then vals[n] + fix else vals[n]
  }

  function Joined(first: Seg, second: Seg, unit: nat): Seg
    requires unit >= 1
  {
    var a := Aligned(first, unit);
    Seg(a.data + second.data, second.syms + first.syms, Moved(second.relocs, |a.data|) + first.relocs)
  }

  lemma AppendOk(seg: Seg, more: seq<byte>, vals: Values)
    requires Ok(seg, vals)
    ensures Ok(Append(seg, more), vals)
  {
  }

  lemma DefinedOk(seg: Seg, name: string, vals: Values)
    requires Ok(seg, vals) && name !in vals
    ensures Ok(Defined(seg, name), vals[name := |seg.data|])
  {
  }

  lemma ReferredOk(seg: Seg, name: string, addend: int, vals: Values)
    requires Ok(seg, vals)
    ensures Ok(Referred(seg, name, addend), vals)
  {
  }

  /** The relocated word is the last of the segment and holds the addend. */
  lemma ReferredHolds(seg: Seg, name: string, addend: int)
    ensures var after := Referred(seg, name, addend);
            && |after.data| == |seg.data| + INT_SIZE && after.data[..|seg.data|] == seg.data
            && after.relocs == [Reloc(|seg.data|, name)] + seg.relocs
            && (IsInt(addend) ==> BytesInt(after.data[|seg.data|..]) == addend)
  {
    hide IntBytes, BytesInt;
    assert Referred(seg, name, addend).data[|seg.data|..] == IntBytes(addend);
    if IsInt(addend) {
      IntReadsBack(addend);
    }
  }

  /** Other segments' symbols are not affected. */
  lemma OthersMoved(seg: Seg, vals: Values, names: seq<string>, fix: nat)
    requires Ok(seg, vals) && forall n :: n in seg.syms ==> n !in names
    ensures Ok(seg, MovedValues(vals, names, fix))
  {
  }

  /** Concatenation keeps both segments' symbols and relocations on the bytes they had. */
  lemma JoinedOk(first: Seg, second: Seg, unit: nat, vals: Values)
    requires unit >= 1 && Ok(first, vals) && Ok(second, vals)
    requires forall n :: n in first.syms ==> n !in second.syms
    ensures var fix := RoundUp(|first.data|, unit);
            Ok(Joined(first, second, unit), MovedValues(vals, second.syms, fix))
  {
    var fix := RoundUp(|first.data|, unit);
    var vals' := MovedValues(vals, second.syms, fix);
    var j := Joined(first, second, unit);
    assert forall i :: 0 <= i < |second.syms| ==> second.syms[i] in second.syms;
    assert forall i :: 0 <= i < |first.syms| ==> first.syms[i] in first.syms;
    JoinedSyms(first, second, unit, vals);
    JoinedApart(first, second, unit, vals);
  }

  lemma JoinedSyms(first: Seg, second: Seg, unit: nat, vals: Values)
    requires unit >= 1 && SymsOk(first, vals) && SymsOk(second, vals)
    requires forall n :: n in first.syms ==> n !in second.syms
    ensures SymsOk(Joined(first, second, unit), MovedValues(vals, second.syms, RoundUp(|first.data|, unit)))
  {
  }

  lemma JoinedApart(first: Seg, second: Seg, unit: nat, vals: Values)
    requires unit >= 1 && Ok(first, vals) && Ok(second, vals)
    requires forall n :: n in first.syms ==> n !in second.syms
    ensures ApartOk(Joined(first, second, unit), MovedValues(vals, second.syms, RoundUp(|first.data|, unit)))
  {
  }
}
