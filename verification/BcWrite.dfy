/** Writing a segment out as assembler directives. */
module BcWrite {
  import opened Lists
  import opened Options
  import opened BcSeg

  /** One directive: a symbol, a word to be relocated, or a byte. */
  datatype Item = SymDef(name: string) | Word(sym: string, addend: int) | Byte(b: byte)

  /** What an assembler makes of the directives: bytes, symbols where they stand, and
      relocations, in order. */
  datatype Image = Image(data: seq<byte>, syms: seq<(string, nat)>, relocs: seq<Reloc>)

  function Assemble(items: seq<Item>): Image {
    if items == [] then Image([], [], [])
    else
      var a, last := Assemble(items[..|items| - 1]), items[|items| - 1];
      match last
      case SymDef(name) => a.(syms := a.syms + [(name, |a.data|)])
      case Word(sym, addend) =>
        Image(a.data + IntBytes(addend), a.syms, a.relocs + [Reloc(|a.data|, sym)])
      case Byte(b) => a.(data := a.data + [b])
  }

  lemma AssembleNext(items: seq<Item>, item: Item)
    ensures Assemble(items + [item]) ==
            var a := Assemble(items);
            match item
            case SymDef(name) => a.(syms := a.syms + [(name, |a.data|)])
            case Word(sym, addend) => Image(a.data + IntBytes(addend), a.syms, a.relocs + [Reloc(|a.data|, sym)])
            case Byte(b) => a.(data := a.data + [b])
  {
  }

  function WithValues(names: seq<string>, vals: Values): (r: seq<(string, nat)>)
    requires forall i :: 0 <= i < |names| ==> names[i] in vals
    ensures |r| == |names| && forall i :: 0 <= i < |names| ==> r[i] == (names[i], vals[names[i]])
  {
    if names == [] then []
    else WithValues(names[..|names| - 1], vals) + [(names[|names| - 1], vals[names[|names| - 1]])]
  }

  /** The lists in order: values rising, words rising and apart, no symbol inside a word. */
  predicate InOrder(data: seq<byte>, syms: seq<string>, relocs: seq<Reloc>, vals: Values) {
    && (forall i :: 0 <= i < |syms| ==> syms[i] in vals && vals[syms[i]] <= |data|)
    && (forall i, j :: 0 <= i < j < |syms| ==> syms[i] in vals && syms[j] in vals && vals[syms[i]] <= vals[syms[j]])
    && (forall i :: 0 <= i < |relocs| ==> relocs[i].offset + INT_SIZE <= |data|)
    && (forall i, j :: 0 <= i < j < |relocs| ==> relocs[i].offset + INT_SIZE <= relocs[j].offset)
    && (forall i, j :: 0 <= i < |syms| && 0 <= j < |relocs| ==> syms[i] in vals && !Inside(vals[syms[i]], relocs[j].offset))
  }

  lemma ReversedInOrder(seg: Seg, vals: Values)
    requires Ok(seg, vals)
    ensures InOrder(seg.data, Reversed(seg.syms), Reversed(seg.relocs), vals)
  {
  }

  /** Where the pass stands: everything before i is out, nothing after it. */
  ghost predicate Written(data: seq<byte>, syms: seq<string>, relocs: seq<Reloc>, vals: Values,
                          i: nat, s: nat, r: nat, out: seq<Item>)
    requires InOrder(data, syms, relocs, vals)
  {
    && i <= |data| && s <= |syms| && r <= |relocs|
    && (forall k :: s <= k < |syms| ==> vals[syms[k]] >= i)
    && (forall k :: r <= k < |relocs| ==> relocs[k].offset >= i)
    && (r < |relocs| ==> relocs[r].offset >= i)
    && Assemble(out) == Image(data[..i], WithValues(syms[..s], vals), relocs[..r])
  }

  /** The symbols at i are written. */
  method WriteSymbols(data: seq<byte>, syms: seq<string>, relocs: seq<Reloc>, vals: Values,
                      i: nat, s: nat, ghost r: nat, out: seq<Item>) returns (s': nat, out': seq<Item>)
    requires InOrder(data, syms, relocs, vals) && Written(data, syms, relocs, vals, i, s, r, out)
    ensures Written(data, syms, relocs, vals, i, s', r, out')
    ensures forall k :: s' <= k < |syms| ==> vals[syms[k]] > i
    ensures s' >= s && forall k :: s <= k < s' ==> vals[syms[k]] == i
  {
    s', out' := s, out;
    while s' < |syms| && vals[syms[s']] == i
      invariant s <= s' && Written(data, syms, relocs, vals, i, s', r, out')
      invariant forall k :: s <= k < s' ==> vals[syms[k]] == i
    {
      AssembleNext(out', SymDef(syms[s']));
      assert syms[..s' + 1][..s'] == syms[..s'];
      out' := out' + [SymDef(syms[s'])];
      s' := s' + 1;
    }
  }

  /** The byte or word at i is written. */
  method WriteOne(data: seq<byte>, syms: seq<string>, relocs: seq<Reloc>, vals: Values,
                  i: nat, ghost s: nat, r: nat, out: seq<Item>) returns (i': nat, r': nat, out': seq<Item>)
    requires InOrder(data, syms, relocs, vals) && Written(data, syms, relocs, vals, i, s, r, out) && i < |data|
    requires forall k :: s <= k < |syms| ==> vals[syms[k]] > i
    ensures i < i' && Written(data, syms, relocs, vals, i', s, r', out')
  {
    if r < |relocs| && relocs[r].offset == i {
      var addend := BytesInt(data[i..i + INT_SIZE]);
      BytesRoundTrip(data[i..i + INT_SIZE]);
      AssembleNext(out, Word(relocs[r].sym, addend));
      out' := out + [Word(relocs[r].sym, addend)];
      i', r' := i + INT_SIZE, r + 1;
      assert data[..i'] == data[..i] + data[i..i + INT_SIZE];
      forall k | s <= k < |syms| ensures vals[syms[k]] >= i' {
        assert !Inside(vals[syms[k]], relocs[r].offset);
      }
      assert relocs[..r'] == relocs[..r] + [relocs[r]];
    } else {
      AssembleNext(out, Byte(data[i]));
      out' := out + [Byte(data[i])];
      i', r' := i + 1, r;
      assert data[..i'] == data[..i] + [data[i]];
    }
  }

  /** The single pass over the bytes, with both lists in order. */
  method WritePass(data: seq<byte>, syms: seq<string>, relocs: seq<Reloc>, vals: Values)
    returns (s: nat, r: nat, out: seq<Item>)
    requires InOrder(data, syms, relocs, vals)
    ensures Written(data, syms, relocs, vals, |data|, s, r, out)
    ensures forall k :: 0 <= k < s ==> vals[syms[k]] < |data|
  {
    s, r, out := 0, 0, [];
    var i := 0;
    while i < |data|
      invariant Written(data, syms, relocs, vals, i, s, r, out)
      invariant forall k :: 0 <= k < s ==> vals[syms[k]] < |data|
      decreases |data| - i
    {
      s, out := WriteSymbols(data, syms, relocs, vals, i, s, r, out);
      i, r, out := WriteOne(data, syms, relocs, vals, i, s, r, out);
    }
  }

  /** After the pass no word is left, and only symbols at the end are. */
  lemma PassDone(data: seq<byte>, syms: seq<string>, relocs: seq<Reloc>, vals: Values, s: nat, r: nat, out: seq<Item>)
    requires InOrder(data, syms, relocs, vals) && Written(data, syms, relocs, vals, |data|, s, r, out)
    requires forall k :: 0 <= k < s ==> vals[syms[k]] < |data|
    ensures r == |relocs|
    ensures s < |syms| <==> exists n :: n in syms && n in vals && vals[n] == |data|
    ensures s == |syms| ==> Assemble(out) == Image(data, WithValues(syms, vals), relocs)
  {
    if s < |syms| {
      assert syms[s] in syms && vals[syms[s]] == |data|;
    } else {
      assert syms[..s] == syms && relocs[..r] == relocs && data[..|data|] == data;
    }
  }

  lemma {:induction false} ReversedHas(syms: seq<string>, n: string)
    ensures n in Reversed(syms) <==> n in syms
  {
    if syms != [] {
      ReversedHas(syms[1..], n);
      assert syms == [syms[0]] + syms[1..];
    }
  }

  /** bc_seg_write. It fails exactly when a symbol stands at the segment's end; what it
      writes otherwise assembles to the same bytes, symbols and relocations. */
  method WriteSegment(seg: Seg, vals: Values) returns (out: Option<seq<Item>>)
    requires Ok(seg, vals)
    ensures out.None? <==> exists n :: n in seg.syms && n in vals && vals[n] == |seg.data|
    ensures out.Some? ==> Assemble(out.value)
                          == Image(seg.data, WithValues(Reversed(seg.syms), vals), Reversed(seg.relocs))
  {
    hide Written, Assemble, WithValues;
    ReversedInOrder(seg, vals);
    forall n ensures n in Reversed(seg.syms) <==> n in seg.syms {
      ReversedHas(seg.syms, n);
    }
    var syms, relocs := Reversed(seg.syms), Reversed(seg.relocs);
    var s, r, items := WritePass(seg.data, syms, relocs, vals);
    PassDone(seg.data, syms, relocs, vals, s, r, items);
    if s < |syms| || r < |relocs| {
      out := None;
    } else {
      out := Some(items);
    }
  }
}
