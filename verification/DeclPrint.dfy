/** Printing C types inside out (gen_type and its helpers). */
module DeclPrint {
  import opened Options
  import opened Arith
  import opened DeclText

  datatype Quals = Quals(c: bool, v: bool)

  const PLAIN: Quals := Quals(false, false)

  /** A named type (its name may have several words), or a type derived from another. */
  datatype Type =
    | Base(words: seq<string>, quals: Quals)
    | Pointer(to: Type, quals: Quals)
    | Array(bound: Option<nat>, of: Type)
    | Function(params: seq<Type>, ellipsis: bool, ret: Type)

  /** What a name stands for: a typedef may name an array or a function type. */
  datatype Kind = Object | Void | ArrayName | FunctionName

  datatype Named = Named(kind: Kind, size: Option<nat>)

  /** The type names in scope, and the size of a pointer. */
  datatype Env = Env(names: map<seq<string>, Named>, pointerSize: nat)

  predicate IsArray(t: Type, env: Env) {
    t.Array? || (t.Base? && t.words in env.names && env.names[t.words].kind == ArrayName)
  }

  predicate IsFunction(t: Type, env: Env) {
    t.Function? || (t.Base? && t.words in env.names && env.names[t.words].kind == FunctionName)
  }

  /** int_size_in_bytes, none for an incomplete type. */
  function SizeOf(t: Type, env: Env): Option<nat> {
    match t
    case Base(words, _) => if words in env.names then env.names[words].size else None
    case Pointer(_, _) => Some(env.pointerSize)
    case Function(_, _, _) => Some(1)
    case Array(bound, of) =>
      var s := SizeOf(of, env);
      if bound.Some? && s.Some? then Some(bound.value * s.value) else None
  }

  /** The bound gen_type prints: the array's size over its element's. */
  function PrintedBound(bound: Option<nat>, of: Type, env: Env): Option<nat> {
    var size := SizeOf(Array(bound, of), env);
    if size.None? then None
    else if size.value == 0 then Some(0)
    else Some(size.value / SizeOf(of, env).value)
  }

  /** It is the bound itself unless the elements are incomplete, or empty and not none. */
  lemma PrintedBoundExactly(bound: Option<nat>, of: Type, env: Env)
    ensures PrintedBound(bound, of, env) == bound <==>
            bound.None? || (SizeOf(of, env).Some? && (bound.value == 0 || SizeOf(of, env).value > 0))
  {
    if bound.Some? && SizeOf(of, env).Some? && SizeOf(of, env).value > 0 {
      ProductQuotient(bound.value, SizeOf(of, env).value);
    }
  }

  lemma ProductQuotient(a: nat, b: nat)
    requires b > 0
    ensures a * b / b == a && (a * b == 0 <==> a == 0)
  {
    UniqueQuotient(a * b, b, a, 0);
    if a > 0 {
      ProductGrows(a, b);
    }
  }

  function BoundText(bound: Option<nat>): string {
    if bound.None? then "[]" else "[" + Decimal(bound.value) + "]"
  }

  /** The qualifiers go in front, const first. */
  function Qualified(q: Quals, s: string): string {
    var s' := if q.c then "const " + s else s;
    if q.v then "volatile " + s' else s'
  }

  function Join(words: seq<string>): string {
    if words == [] then ""
    else if |words| == 1 then words[0]
    else words[0] + " " + Join(words[1..])
  }

  /** The words of the name at the bottom of a type: what data_type ends as. */
  function BaseWords(t: Type): seq<string> {
    match t
    case Base(words, _) => words
    case Pointer(to, _) => BaseWords(to)
    case Array(_, of) => BaseWords(of)
    case Function(_, _, ret) => BaseWords(ret)
  }

  /** The length of the leading qualifiers. */
  function LeadingQuals(s: string): (n: nat)
    ensures n <= |s|
    decreases |s|
  {
    if "volatile " <= s then 9 + LeadingQuals(s[9..])
    else if "const " <= s then 6 + LeadingQuals(s[6..])
    else 0
  }

  /** affix_data_type: the name goes in after any leading qualifiers. */
  function Affix(s: string, name: string): string {
    var n := LeadingQuals(s);
    s[..n] + name + " " + s[n..]
  }

  function PointerText(seed: string, to: Type, q: Quals, env: Env): string {
    var s := "*" + Qualified(q, seed);
    if IsArray(to, env) || IsFunction(to, env) then "(" + s + ")" else s
  }

  /** The text gen_type returns for a seed: everything but the name at the bottom. */
  function TypeText(seed: string, t: Type, env: Env): string
    decreases t, 0
  {
    match t
    case Base(_, q) => Qualified(q, seed)
    case Pointer(to, q) => TypeText(PointerText(seed, to, q, env), to, env)
    case Array(bound, of) => TypeText(seed + BoundText(PrintedBound(bound, of, env)), of, env)
    case Function(params, ellipsis, ret) =>
      TypeText(seed + FormalsText(params, ellipsis, env), ret, env)
  }

  function FormalText(p: Type, env: Env): string
    decreases p, 1
  {
    var s := TypeText("", p, env);
    if s == "" then Join(BaseWords(p)) else Affix(s, Join(BaseWords(p)))
  }

  function FormalList(params: seq<Type>, env: Env): string
    decreases params, 0
  {
    if params == [] then ""
    else
      var k := |params| - 1;
      var before := FormalList(params[..k], env);
      (if before == "" then "" else before + ", ") + FormalText(params[k], env)
  }

  function FormalsText(params: seq<Type>, ellipsis: bool, env: Env): string
    decreases params, 1
  {
    var list := FormalList(params, env);
    " (" + (if list == "" then "void" else if ellipsis then list + ", ..." else list) + ")"
  }

  /** What gen_decl starts from: the entity's name after the entity's own qualifiers,
      which its type repeats. */
  function EntityText(q: Quals, s: string): string {
    var s' := if q.v then "volatile " + s else s;
    if q.c then "const " + s' else s'
  }

  /** A whole declaration: gen_decl without its storage class. */
  function DeclarationText(name: string, q: Quals, t: Type, env: Env): string {
    Affix(TypeText(EntityText(q, name), t, env), Join(BaseWords(t)))
  }

  lemma QualSkipped(s: string, p: nat)
    requires p <= |s|
    ensures "volatile " <= s[p..] ==> p + 9 <= |s| && LeadingQuals(s[p..]) == 9 + LeadingQuals(s[p + 9..])
    ensures !("volatile " <= s[p..]) && "const " <= s[p..] ==> p + 6 <= |s| && LeadingQuals(s[p..]) == 6 + LeadingQuals(s[p + 6..])
    ensures !("volatile " <= s[p..]) && !("const " <= s[p..]) ==> LeadingQuals(s[p..]) == 0
  {
    var rest := s[p..];
    assert "volatile " <= rest ==> rest[9..] == s[p + 9..];
    assert "const " <= rest ==> rest[6..] == s[p + 6..];
  }

  /** A qualified pointer to what a type name stands for, as it is printed: parentheses
      although the name hides that it is a function or array, the qualifiers of the entity
      in one order and those of its type in the other. */
  lemma HiddenFunction(name: string, words: seq<string>, env: Env)
    requires words in env.names && env.names[words].kind in {ArrayName, FunctionName}
    ensures var both := Quals(true, true);
            DeclarationText(name, both, Pointer(Base(words, PLAIN), both), env)
            == Join(words) + " " + ("(" + ("*" + ("volatile " + ("const " + ("const " + ("volatile " + name))))) + ")")
  {
    hide LeadingQuals, Join;
    var both := Quals(true, true);
    var seed := EntityText(both, name);
    assert seed == "const " + ("volatile " + name);
    var s := PointerText(seed, Base(words, PLAIN), both, env);
    assert s == "(" + ("*" + ("volatile " + ("const " + seed))) + ")";
    NoQuals(s);
    HeadText(seed, words, both, env);
    AffixFirst(s, Join(words));
    assert BaseWords(Pointer(Base(words, PLAIN), both)) == words;
    assert DeclarationText(name, both, Pointer(Base(words, PLAIN), both), env) == Affix(s, Join(words));
    assert Affix(s, Join(words)) == Join(words) + " " + s;
  }

  /** A prototype as it is printed. */
  lemma PrototypeText(name: string, ret: seq<string>, params: seq<seq<string>>, ellipsis: bool, env: Env)
    requires !("volatile " <= name + " ") && !("const " <= name + " ")
    requires forall p :: p in params ==> Join(p) != ""
    ensures DeclarationText(name, PLAIN, Function(Plain(params), ellipsis, Base(ret, PLAIN)), env)
            == Join(ret) + " " + (name + (" (" + InParens(params, ellipsis) + ")"))
  {
    hide LeadingQuals, Join, Commas, FormalList;
    CommasText(params, env);
    if params != [] {
      CommasSome(params);
    }
    var formals := FormalsText(Plain(params), ellipsis, env);
    assert formals == " (" + InParens(params, ellipsis) + ")";
    NameFirst(name, formals);
    AffixFirst(name + formals, Join(ret));
    PlainFunction(name, ret, params, ellipsis, env);
  }

  lemma NameFirst(name: string, more: string)
    requires !("volatile " <= name + " ") && !("const " <= name + " ") && more != [] && more[0] == ' '
    ensures LeadingQuals(name + more) == 0
  {
    var s := name + more;
    assert forall i :: 0 <= i <= |name| ==> s[i] == (name + " ")[i];
    NotFirst("volatile ", 8, s, name + " ");
    NotFirst("const ", 5, s, name + " ");
  }

  /** A word and a space are no prefix of s if they are none of the part of s up to a space. */
  lemma NotFirst(q: string, n: nat, s: string, front: string)
    requires |q| == n + 1 && forall i :: 0 <= i < n ==> q[i] != ' '
    requires !(q <= front) && 0 < |front| <= |s| && front[|front| - 1] == ' '
    requires forall i :: 0 <= i < |front| ==> s[i] == front[i]
    ensures !(q <= s)
  {
  }

  function InParens(params: seq<seq<string>>, ellipsis: bool): string {
    if params == [] then "void" else if ellipsis then Commas(params) + ", ..." else Commas(params)
  }

  lemma PlainFunction(name: string, ret: seq<string>, params: seq<seq<string>>, ellipsis: bool, env: Env)
    ensures var f := Function(Plain(params), ellipsis, Base(ret, PLAIN));
            && BaseWords(f) == ret
            && TypeText(EntityText(PLAIN, name), f, env) == name + FormalsText(Plain(params), ellipsis, env)
  {
    hide FormalsText;
  }

  /** Parameters of named types. */
  function Plain(names: seq<seq<string>>): (params: seq<Type>)
    ensures |params| == |names| && forall i :: 0 <= i < |names| ==> params[i] == Base(names[i], PLAIN)
  {
    seq(|names|, i requires 0 <= i < |names| => Base(names[i], PLAIN))
  }

  function Commas(names: seq<seq<string>>): string
    requires names != []
  {
    var k := |names| - 1;
    if k == 0 then Join(names[0]) else Commas(names[..k]) + ", " + Join(names[k])
  }

  lemma CommasSome(names: seq<seq<string>>)
    requires names != [] && forall p :: p in names ==> Join(p) != ""
    ensures Commas(names) != ""
  {
    var k := |names| - 1;
    assert names[k] in names;
  }

  lemma {:induction false} CommasText(names: seq<seq<string>>, env: Env)
    requires forall p :: p in names ==> Join(p) != ""
    ensures FormalList(Plain(names), env) == if names == [] then "" else Commas(names)
    decreases |names|
  {
    hide Join;
    if names != [] {
      var k := |names| - 1;
      CommasText(names[..k], env);
      assert Plain(names)[..k] == Plain(names[..k]);
      NamedFormal(names[k], env);
      if k > 0 {
        CommasSome(names[..k]);
      } else {
        assert "" + Join(names[0]) == Join(names[0]);
      }
    }
  }

  lemma NamedFormal(words: seq<string>, env: Env)
    ensures FormalText(Base(words, PLAIN), env) == Join(words)
  {
    assert TypeText("", Base(words, PLAIN), env) == "";
  }

  lemma HeadText(seed: string, words: seq<string>, q: Quals, env: Env)
    ensures TypeText(seed, Pointer(Base(words, PLAIN), q), env) == PointerText(seed, Base(words, PLAIN), q, env)
  {
  }

  lemma AffixFirst(s: string, name: string)
    requires LeadingQuals(s) == 0
    ensures Affix(s, name) == name + " " + s
  {
    assert s[..0] == [] && s[0..] == s;
    assert [] + name == name;
  }

  lemma NoQuals(s: string)
    requires s != [] && s[0] != 'v' && s[0] != 'c'
    ensures LeadingQuals(s) == 0
  {
  }

  // What the bounds are printed as.

  /** Types whose size is known. */
  predicate Complete(t: Type, env: Env) {
    match t
    case Base(words, _) => words in env.names && env.names[words].size.Some?
    case Pointer(_, _) => true
    case Array(bound, of) => bound.Some? && Complete(of, env)
    case Function(_, _, _) => true
  }

  /** And not zero. */
  predicate Occupied(t: Type, env: Env) {
    match t
    case Base(words, _) => words in env.names && env.names[words].size.Some? && env.names[words].size.value > 0
    case Pointer(_, _) => env.pointerSize > 0
    case Array(bound, of) => bound.Some? && bound.value > 0 && Occupied(of, env)
    case Function(_, _, _) => true
  }

  lemma {:induction false} SizeKnown(t: Type, env: Env)
    ensures SizeOf(t, env).Some? <==> Complete(t, env)
    ensures SizeOf(t, env).Some? && SizeOf(t, env).value > 0 <==> Occupied(t, env)
    decreases t
  {
    if t.Array? {
      SizeKnown(t.of, env);
      if t.bound.Some? && SizeOf(t.of, env).Some? && SizeOf(t.of, env).value > 0 {
        ProductQuotient(t.bound.value, SizeOf(t.of, env).value);
      }
    }
  }

  /** The bound of an array as it is printed: none when the elements are incomplete, and 0
      for any number of elements without a size. */
  function ShownBound(bound: Option<nat>, of: Type, env: Env): Option<nat> {
    if bound.None? || !Complete(of, env) then None
    else if Occupied(of, env) then bound
    else Some(0)
  }

  lemma ShownBoundIs(bound: Option<nat>, of: Type, env: Env)
    ensures PrintedBound(bound, of, env) == ShownBound(bound, of, env)
  {
    SizeKnown(of, env);
    if bound.Some? && SizeOf(of, env).Some? && SizeOf(of, env).value > 0 {
      ProductQuotient(bound.value, SizeOf(of, env).value);
    }
  }

  /** The type with every bound as it is printed. */
  function AsPrinted(t: Type, env: Env): Type {
    match t
    case Base(_, _) => t
    case Pointer(to, q) => Pointer(AsPrinted(to, env), q)
    case Array(bound, of) => Array(ShownBound(bound, of, env), AsPrinted(of, env))
    case Function(params, ellipsis, ret) => Function(AllAsPrinted(params, env), ellipsis, AsPrinted(ret, env))
  }

  function AllAsPrinted(params: seq<Type>, env: Env): (r: seq<Type>)
    ensures |r| == |params| && forall i :: 0 <= i < |params| ==> r[i] == AsPrinted(params[i], env)
  {
    if params == [] then []
    else AllAsPrinted(params[..|params| - 1], env) + [AsPrinted(params[|params| - 1], env)]
  }

  lemma {:induction false} SizeAsPrinted(t: Type, env: Env)
    ensures (Complete(AsPrinted(t, env), env) <==> Complete(t, env))
            && (Occupied(AsPrinted(t, env), env) <==> Occupied(t, env))
    decreases t
  {
    if t.Array? {
      SizeAsPrinted(t.of, env);
    }
  }

  /** Printing what was printed prints the same bounds. */
  lemma BoundAgain(bound: Option<nat>, of: Type, env: Env)
    ensures PrintedBound(ShownBound(bound, of, env), AsPrinted(of, env), env) == ShownBound(bound, of, env)
    ensures PrintedBound(bound, of, env) == ShownBound(bound, of, env)
  {
    SizeAsPrinted(of, env);
    ShownBoundIs(bound, of, env);
    ShownBoundIs(ShownBound(bound, of, env), AsPrinted(of, env), env);
  }

  lemma {:induction false} BaseAsPrinted(t: Type, env: Env)
    ensures BaseWords(AsPrinted(t, env)) == BaseWords(t)
    decreases t
  {
    match t
    case Base(_, _) =>
    case Pointer(to, _) => BaseAsPrinted(to, env);
    case Array(_, of) => BaseAsPrinted(of, env);
    case Function(_, _, ret) => BaseAsPrinted(ret, env);
  }

  /** So the text is that of the type as printed. */
  lemma {:induction false} TextAsPrinted(seed: string, t: Type, env: Env)
    ensures TypeText(seed, AsPrinted(t, env), env) == TypeText(seed, t, env)
    decreases t, 0
  {
    match t
    case Base(_, _) =>
    case Pointer(to, q) => TextAsPrinted(PointerText(seed, to, q, env), to, env);
    case Array(bound, of) =>
      BoundAgain(bound, of, env);
      TextAsPrinted(seed + BoundText(PrintedBound(bound, of, env)), of, env);
    case Function(params, ellipsis, ret) =>
      ListAsPrinted(params, env);
      TextAsPrinted(seed + FormalsText(params, ellipsis, env), ret, env);
  }

  lemma {:induction false} ListAsPrinted(params: seq<Type>, env: Env)
    ensures FormalList(AllAsPrinted(params, env), env) == FormalList(params, env)
    decreases params, 0
  {
    if params != [] {
      var k := |params| - 1;
      ListAsPrinted(params[..k], env);
      assert AllAsPrinted(params, env)[..k] == AllAsPrinted(params[..k], env);
      TextAsPrinted("", params[k], env);
      BaseAsPrinted(params[k], env);
    }
  }

  /** Types all of whose bounds are printed as they are: arrays with a bound have elements
      of known size, and if there are any elements they have some size. */
  predicate BoundsKept(t: Type, env: Env) {
    match t
    case Base(_, _) => true
    case Pointer(to, _) => BoundsKept(to, env)
    case Array(bound, of) =>
      (bound.None? || (Complete(of, env) && (bound.value == 0 || Occupied(of, env)))) && BoundsKept(of, env)
    case Function(params, _, ret) => BoundsKept(ret, env) && forall p :: p in params ==> BoundsKept(p, env)
  }

  /** `struct {} a[3]`, of three elements without a size, is printed with the bound 0. */
  lemma EmptyElements(words: seq<string>, env: Env)
    requires words in env.names && env.names[words].size == Some(0)
    ensures AsPrinted(Array(Some(3), Base(words, PLAIN)), env) == Array(Some(0), Base(words, PLAIN))
  {
    var element := Base(words, PLAIN);
    assert Complete(element, env) && !Occupied(element, env);
    assert AsPrinted(element, env) == element;
  }

  /** The routines with their global: every call leaves the name at the bottom of its own
      type in data_type, whatever parameter lists did to it on the way. */
  class Printer {
    var dataType: string

    method AffixDataType(typeOrDecl: string) returns (s: string)
      ensures s == Affix(typeOrDecl, dataType)
    {
      hide LeadingQuals;
      var p := 0;
      while true
        invariant 0 <= p <= |typeOrDecl|
        invariant LeadingQuals(typeOrDecl) == p + LeadingQuals(typeOrDecl[p..])
        decreases |typeOrDecl| - p
      {
        QualSkipped(typeOrDecl, p);
        if "volatile " <= typeOrDecl[p..] {
          p := p + 9;
        } else if "const " <= typeOrDecl[p..] {
          p := p + 6;
        } else {
          break;
        }
      }
      if p == 0 {
        return dataType + " " + typeOrDecl;
      }
      s := (typeOrDecl[..p] + dataType) + " " + typeOrDecl[p..];
    }

    method GenFormalList(params: seq<Type>, ellipsis: bool, env: Env) returns (s: string)
      modifies this
      ensures s == FormalsText(params, ellipsis, env)
      decreases params
    {
      var list := "";
      var k := 0;
      while k < |params|
        invariant 0 <= k <= |params|
        invariant list == FormalList(params[..k], env)
      {
        if list != "" {
          list := list + ", ";
        }
        var thisType := GenType("", params[k], env);
        var formal := dataType;
        if thisType != "" {
          formal := AffixDataType(thisType);
        }
        list := list + formal;
        assert params[..k + 1][..k] == params[..k];
        k := k + 1;
      }
      assert params[..k] == params;
      if list == "" {
        list := "void";
      } else if ellipsis {
        list := list + ", ...";
      }
      s := " (" + list + ")";
    }

    method GenType(seed: string, t: Type, env: Env) returns (s: string)
      modifies this
      ensures s == TypeText(seed, t, env)
      ensures dataType == Join(BaseWords(t))
      decreases t
    {
      match t
      case Base(words, q) =>
        dataType := Join(words);
        s := if q.c then "const " + seed else seed;
        s := if q.v then "volatile " + s else s;
      case Pointer(to, q) =>
        s := if q.c then "const " + seed else seed;
        s := if q.v then "volatile " + s else s;
        s := "*" + s;
        if IsArray(to, env) || IsFunction(to, env) {
          s := "(" + s + ")";
        }
        s := GenType(s, to, env);
      case Array(bound, of) =>
        s := GenType(seed + BoundText(PrintedBound(bound, of, env)), of, env);
      case Function(params, ellipsis, ret) =>
        var formals := GenFormalList(params, ellipsis, env);
        s := GenType(seed + formals, ret, env);
    }

    /** gen_decl for a variable, field or parameter, or a function that is only declared. */
    method GenDecl(name: string, quals: Quals, t: Type, env: Env) returns (s: string)
      modifies this
      ensures s == DeclarationText(name, quals, t, env)
    {
      s := name;
      if quals.v {
        s := "volatile " + s;
      }
      if quals.c {
        s := "const " + s;
      }
      dataType := "";
      s := GenType(s, t, env);
      s := AffixDataType(s);
    }
  }
}
