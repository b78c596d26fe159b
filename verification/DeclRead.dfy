/** Reading declarations back: the declarator grammar, and grokdeclarator's folding of layers. */
module DeclRead {
  import opened Options
  import opened DeclText
  import opened DeclPrint

  /** A declarator as the parser builds it: the outermost layer applies first. */
  datatype Decl =
    | Ident(name: Option<string>)
    | ArrayRef(inner: Decl, bound: Option<nat>)
    | Call(inner: Decl, params: seq<Type>, ellipsis: bool)
    | Indirect(inner: Decl, quals: Quals)

  // Folding.

  predicate Any(q: Quals) { q.c || q.v }

  /** c_build_type_variant: qualifiers go down to the element type of an array. */
  function Variant(t: Type, q: Quals): Type {
    match t
    case Array(bound, of) => Array(bound, Variant(of, q))
    case Base(words, _) => Base(words, q)
    case Pointer(to, _) => Pointer(to, q)
    case Function(_, _, _) => t
  }

  function Merged(t: Type, q: Quals): Type {
    if Any(q) then Variant(t, q) else t
  }

  predicate IsVoid(t: Type, env: Env) {
    t.Base? && t.words in env.names && env.names[t.words].kind == Void
  }

  const INT: Type := Base(["int"], PLAIN)

  datatype Folded = Folded(type_: Type, pending: Quals)

  /** The layer loop of grokdeclarator: the type so far and the qualifiers still to be
      merged into it. None is error_mark_node. */
  function Fold(t: Type, pending: Quals, d: Decl, env: Env): Option<Folded>
    decreases d
  {
    match d
    case Ident(_) => Some(Folded(t, pending))
    case ArrayRef(inner, bound) =>
      if IsVoid(t, env) || IsFunction(t, env) then None
      else Fold(Merged(Array(bound, t), pending), pending, inner, env)
    case Call(inner, params, ellipsis) =>
      var ret := if IsFunction(t, env) || IsArray(t, env) then INT else t;
      Fold(Function(params, ellipsis, Merged(ret, pending)), PLAIN, inner, env)
    case Indirect(inner, q) => Fold(Pointer(Merged(t, pending), PLAIN), q, inner, env)
  }

  /** What there are no arrays of. */
  predicate NoElement(t: Type, env: Env) {
    t.Function? || (t.Base? && t.words in env.names && env.names[t.words].kind in {Void, FunctionName})
  }

  /** What no function returns. */
  predicate NoReturn(t: Type, env: Env) {
    t.Array? || t.Function? || (t.Base? && t.words in env.names && env.names[t.words].kind in {ArrayName, FunctionName})
  }

  /** No arrays of void or of functions, and no functions that return arrays or functions. */
  predicate Formed(t: Type, env: Env) {
    match t
    case Base(_, _) => true
    case Pointer(to, _) => Formed(to, env)
    case Array(_, of) => Formed(of, env) && !NoElement(of, env)
    case Function(_, _, ret) => Formed(ret, env) && !NoReturn(ret, env)
  }

  lemma KindsOf(t: Type, env: Env)
    ensures NoElement(t, env) <==> IsVoid(t, env) || IsFunction(t, env)
    ensures NoReturn(t, env) <==> IsArray(t, env) || IsFunction(t, env)
  {
  }

  lemma {:induction false} VariantFormed(t: Type, q: Quals, env: Env)
    ensures Formed(Variant(t, q), env) == Formed(t, env)
    ensures NoElement(Variant(t, q), env) == NoElement(t, env) && NoReturn(Variant(t, q), env) == NoReturn(t, env)
    decreases t
  {
    if t.Array? {
      VariantFormed(t.of, q, env);
    }
  }

  /** Whatever is declared, no type is built that C does not have. */
  lemma {:induction false} FoldFormed(t: Type, pending: Quals, d: Decl, env: Env)
    requires Formed(t, env) && !NoReturn(INT, env)
    ensures var f := Fold(t, pending, d, env);
            f.Some? ==> Formed(f.value.type_, env) && Formed(Merged(f.value.type_, f.value.pending), env)
    decreases d
  {
    hide Formed, Variant, IsArray, IsFunction, IsVoid, NoElement, NoReturn;
    VariantFormed(t, pending, env);
    KindsOf(t, env);
    match d
    case Ident(_) =>
    case ArrayRef(inner, bound) =>
      if !IsVoid(t, env) && !IsFunction(t, env) {
        var a := Array(bound, t);
        FormedLayers(a, env);
        VariantFormed(a, pending, env);
        FoldFormed(Merged(a, pending), pending, inner, env);
      }
    case Call(inner, params, ellipsis) =>
      var ret := if IsFunction(t, env) || IsArray(t, env) then INT else t;
      FormedLayers(INT, env);
      VariantFormed(ret, pending, env);
      FormedLayers(Function(params, ellipsis, Merged(ret, pending)), env);
      FoldFormed(Function(params, ellipsis, Merged(ret, pending)), PLAIN, inner, env);
    case Indirect(inner, q) =>
      FormedLayers(Pointer(Merged(t, pending), PLAIN), env);
      FoldFormed(Pointer(Merged(t, pending), PLAIN), q, inner, env);
  }

  lemma FormedLayers(t: Type, env: Env)
    ensures t.Base? ==> Formed(t, env)
    ensures t.Pointer? ==> Formed(t, env) == Formed(t.to, env)
    ensures t.Array? ==> Formed(t, env) == (Formed(t.of, env) && !NoElement(t.of, env))
    ensures t.Function? ==> Formed(t, env) == (Formed(t.ret, env) && !NoReturn(t.ret, env))
  {
  }

  /** A function declared to return what no function returns is taken to return int. */
  lemma ReturnsInt(t: Type, name: Option<string>, params: seq<Type>, ellipsis: bool, env: Env)
    requires NoReturn(t, env)
    ensures Fold(t, PLAIN, Call(Ident(name), params, ellipsis), env)
            == Some(Folded(Function(params, ellipsis, Base(["int"], PLAIN)), PLAIN))
  {
    KindsOf(t, env);
  }

  /** An array layer right inside a function layer: an array of functions. */
  predicate ArrayOfCalls(d: Decl) {
    match d
    case Ident(_) => false
    case ArrayRef(inner, _) => ArrayOfCalls(inner)
    case Call(inner, _, _) => inner.ArrayRef? || ArrayOfCalls(inner)
    case Indirect(inner, _) => ArrayOfCalls(inner)
  }

  /** A declaration fails exactly when it declares an array of functions, or an array of
      what is named void or as a function. */
  lemma {:induction false} FoldFailsExactly(t: Type, pending: Quals, d: Decl, env: Env)
    ensures Fold(t, pending, d, env).None? <==>
            ArrayOfCalls(d) || (d.ArrayRef? && NoElement(t, env))
    decreases d
  {
    KindsOf(t, env);
    match d
    case Ident(_) =>
    case ArrayRef(inner, bound) =>
      if !IsVoid(t, env) && !IsFunction(t, env) {
        FoldFailsExactly(Merged(Array(bound, t), pending), pending, inner, env);
      }
    case Call(inner, params, ellipsis) =>
      var ret := if IsFunction(t, env) || IsArray(t, env) then INT else t;
      FoldFailsExactly(Function(params, ellipsis, Merged(ret, pending)), PLAIN, inner, env);
    case Indirect(inner, q) =>
      FoldFailsExactly(Pointer(Merged(t, pending), PLAIN), q, inner, env);
  }

  /** A type name: what is still pending qualifies the type itself. */
  function AsTypeName(f: Folded): Type {
    Merged(f.type_, f.pending)
  }

  /** A parameter: an array or function becomes a pointer, and what is still pending
      qualifies the parameter, not its type. */
  function AsParameter(f: Folded): Type {
    match f.type_
    case Array(_, of) => Pointer(Merged(of, f.pending), PLAIN)
    case Function(_, _, _) => Pointer(f.type_, PLAIN)
    case _ => f.type_
  }

  // Section 3.5.4 and 3.5.5 of ANSI X3.159-1989.

  ghost predicate IsTypeWord(w: string, env: Env) {
    exists name :: name in env.names && w in name
  }

  ghost predicate IsSpecifier(t: Token, env: Env) {
    t.Word? && (t.text == "const" || t.text == "volatile" || IsTypeWord(t.text, env))
  }

  ghost predicate Starts(ts: seq<Token>, t: Token) {
    ts != [] && ts[0] == t
  }

  datatype Specifiers = Specifiers(quals: Quals, words: seq<string>, rest: seq<Token>)

  function WithQual(q: Quals, w: string): Quals {
    if w == "const" then q.(c := true) else q.(v := true)
  }

  /** The type qualifiers and the words of the type name. */
  ghost function ReadSpecifiers(ts: seq<Token>, q: Quals, words: seq<string>, env: Env): (s: Specifiers)
    ensures |s.rest| <= |ts| && (|s.words| > |words| ==> |s.rest| < |ts|) && |s.words| >= |words|
    decreases |ts|
  {
    if ts == [] || !IsSpecifier(ts[0], env) then Specifiers(q, words, ts)
    else if ts[0].text == "const" || ts[0].text == "volatile" then
      ReadSpecifiers(ts[1..], WithQual(q, ts[0].text), words, env)
    else ReadSpecifiers(ts[1..], q, words + [ts[0].text], env)
  }

  /** The qualifiers after a star. */
  ghost function ReadQuals(ts: seq<Token>, q: Quals): (r: (Quals, seq<Token>))
    ensures |r.1| <= |ts|
    decreases |ts|
  {
    if Starts(ts, Word("const")) || Starts(ts, Word("volatile")) then ReadQuals(ts[1..], WithQual(q, ts[0].text))
    else (q, ts)
  }

  datatype Parsed<T> = Parsed(value: T, rest: seq<Token>)

  datatype ParamList = ParamList(types: seq<Type>, ellipsis: bool)

  ghost function ReadDeclarator(ts: seq<Token>, env: Env): (r: Option<Parsed<Decl>>)
    ensures r.Some? ==> |r.value.rest| <= |ts|
    decreases |ts|, 3
  {
    if Starts(ts, Punct('*')) then
      var (q, rest) := ReadQuals(ts[1..], PLAIN);
      var r := ReadDeclarator(rest, env);
      if r.None? then None else Some(Parsed(Indirect(r.value.value, q), r.value.rest))
    else ReadDirect(ts, env)
  }

  /** A parenthesis opens a parameter list when a specifier or nothing follows. */
  ghost predicate OpensParams(ts: seq<Token>, env: Env) {
    Starts(ts, Punct('(')) && |ts| > 1 && (ts[1] == Punct(')') || IsSpecifier(ts[1], env))
  }

  ghost function ReadDirect(ts: seq<Token>, env: Env): (r: Option<Parsed<Decl>>)
    ensures r.Some? ==> |r.value.rest| <= |ts|
    decreases |ts|, 2
  {
    if ts != [] && ts[0].Word? && !IsSpecifier(ts[0], env) then
      ReadSuffixes(Ident(Some(ts[0].text)), ts[1..], env)
    else if Starts(ts, Punct('(')) && !OpensParams(ts, env) then
      var r := ReadDeclarator(ts[1..], env);
      if r.Some? && Starts(r.value.rest, Punct(')')) then ReadSuffixes(r.value.value, r.value.rest[1..], env) else None
    else ReadSuffixes(Ident(None), ts, env)
  }

  ghost function ReadSuffixes(d: Decl, ts: seq<Token>, env: Env): (r: Option<Parsed<Decl>>)
    ensures r.Some? ==> |r.value.rest| <= |ts|
    decreases |ts|, 1
  {
    if Starts(ts, Punct('[')) then
      if |ts| > 1 && ts[1] == Punct(']') then ReadSuffixes(ArrayRef(d, None), ts[2..], env)
      else if |ts| > 2 && ts[1].Word? && IsNumber(ts[1].text) && ts[2] == Punct(']') then
        ReadSuffixes(ArrayRef(d, Some(NumberOf(ts[1].text))), ts[3..], env)
      else None
    else if Starts(ts, Punct('(')) then
      var r := ReadParams(ts[1..], env);
      if r.None? then None
      else ReadSuffixes(Call(d, r.value.value.types, r.value.value.ellipsis), r.value.rest, env)
    else Some(Parsed(d, ts))
  }

  /** A prototype's parameters up to the closing parenthesis. */
  ghost function ReadParams(ts: seq<Token>, env: Env): (r: Option<Parsed<ParamList>>)
    ensures r.Some? ==> |r.value.rest| <= |ts|
    decreases |ts|, 5
  {
    if Starts(ts, Word("void")) && |ts| > 1 && ts[1] == Punct(')') then Some(Parsed(ParamList([], false), ts[2..]))
    else ReadList([], ts, env)
  }

  ghost predicate StartsEllipsis(ts: seq<Token>) {
    |ts| >= 4 && ts[..4] == [Punct('.'), Punct('.'), Punct('.'), Punct(')')]
  }

  ghost function ReadList(types: seq<Type>, ts: seq<Token>, env: Env): (r: Option<Parsed<ParamList>>)
    ensures r.Some? ==> |r.value.rest| <= |ts|
    decreases |ts|, 4
  {
    var p := ReadParam(ts, env);
    if p.None? || p.value.rest == [] then None
    else
      var all, rest := types + [p.value.value], p.value.rest[1..];
      if p.value.rest[0] == Punct(')') then Some(Parsed(ParamList(all, false), rest))
      else if p.value.rest[0] != Punct(',') then None
      else if StartsEllipsis(rest) then Some(Parsed(ParamList(all, true), rest[4..]))
      else ReadList(all, rest, env)
  }

  ghost function ReadParam(ts: seq<Token>, env: Env): (r: Option<Parsed<Type>>)
    ensures r.Some? ==> |r.value.rest| < |ts|
    decreases |ts|, 0
  {
    var s := ReadSpecifiers(ts, PLAIN, [], env);
    if s.words == [] then None
    else
      var r := ReadDeclarator(s.rest, env);
      if r.None? then None
      else
        var f := Fold(Base(s.words, PLAIN), s.quals, r.value.value, env);
        if f.None? then None else Some(Parsed(AsParameter(f.value), r.value.rest))
  }

  /** What a whole declaration (or type name) declares. */
  datatype Declared = Declared(name: Option<string>, type_: Type)

  function NameOf(d: Decl): Option<string> {
    match d
    case Ident(name) => name
    case ArrayRef(inner, _) => NameOf(inner)
    case Call(inner, _, _) => NameOf(inner)
    case Indirect(inner, _) => NameOf(inner)
  }

  ghost function ReadDeclaration(ts: seq<Token>, env: Env): Option<Declared> {
    var s := ReadSpecifiers(ts, PLAIN, [], env);
    if s.words == [] then None
    else
      var r := ReadDeclarator(s.rest, env);
      if r.None? || r.value.rest != [] then None
      else
        var f := Fold(Base(s.words, PLAIN), s.quals, r.value.value, env);
        if f.None? then None else Some(Declared(NameOf(r.value.value), AsTypeName(f.value)))
  }

  /** The layer loop itself. */
  method GrokLayers(declared: Decl, type_: Type, quals: Quals, env: Env) returns (f: Option<Folded>)
    ensures f == Fold(type_, quals, declared, env)
  {
    var t, pending, d := type_, quals, declared;
    while !d.Ident?
      invariant Fold(t, pending, d, env) == Fold(type_, quals, declared, env)
      decreases d
    {
      match d
      case ArrayRef(inner, bound) =>
        if IsVoid(t, env) || IsFunction(t, env) {
          return None;
        }
        t := Merged(Array(bound, t), pending);
        d := inner;
      case Call(inner, params, ellipsis) =>
        if IsFunction(t, env) || IsArray(t, env) {
          t := INT;
        }
        t := Function(params, ellipsis, Merged(t, pending));
        pending := PLAIN;
        d := inner;
      case Indirect(inner, q) =>
        t := Pointer(Merged(t, pending), PLAIN);
        pending := q;
        d := inner;
    }
    f := Some(Folded(t, pending));
  }
}
