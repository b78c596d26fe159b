/** Reading back the text of a type gives the type. */
module DeclRoundTrip {
  import opened Options
  import opened DeclText
  import opened DeclPrint
  import opened DeclTokens
  import opened DeclRead

  /** Types as declarations write them: no arrays of functions or of void, no functions that
      return either, names of array and function types unqualified and not parameters. */
  predicate Sound(t: Type, env: Env) {
    match t
    case Base(words, q) =>
      NameOk(words) && words in env.names && (IsArray(t, env) || IsFunction(t, env) ==> !Any(q))
    case Pointer(to, _) => Sound(to, env)
    case Array(_, of) => Sound(of, env) && !IsVoid(of, env) && !IsFunction(of, env)
    case Function(params, ellipsis, ret) =>
      Sound(ret, env) && !IsArray(ret, env) && !IsFunction(ret, env) && (ellipsis ==> params != [])
      && forall p :: p in params ==> Sound(p, env) && !Unsuited(p, env)
  }

  /** Parameters that are not what they are written as: what a type name hides, or nothing. */
  predicate Unsuited(p: Type, env: Env) {
    p.Base? && (IsArray(p, env) || IsFunction(p, env) || p.words == ["void"])
  }

  /** Those whose bounds are printed as they are. */
  predicate Proper(t: Type, env: Env) {
    Sound(t, env) && BoundsKept(t, env)
  }

  /** Once printed, the bounds are. */
  lemma {:induction false} PrintedProper(t: Type, env: Env)
    requires Sound(t, env)
    ensures Proper(AsPrinted(t, env), env)
    ensures ElementQuals(AsPrinted(t, env)) == ElementQuals(t)
    decreases t
  {
    match t
    case Base(_, _) =>
    case Pointer(to, _) => PrintedProper(to, env);
    case Array(bound, of) =>
      PrintedProper(of, env);
      BoundAgain(bound, of, env);
    case Function(params, _, ret) =>
      PrintedProper(ret, env);
      var printed := AllAsPrinted(params, env);
      forall p | p in printed ensures Proper(p, env) && !Unsuited(p, env) {
        var i :| 0 <= i < |printed| && printed[i] == p;
        assert params[i] in params;
        PrintedProper(params[i], env);
      }
  }

  /** What a parameter contributes to a function's type: not its own qualifiers, and a
      pointer for an array or a function. */
  function OfParameter(t: Type): Type {
    match t
    case Base(words, _) => Base(words, PLAIN)
    case Pointer(to, _) => Pointer(to, PLAIN)
    case Array(_, of) => Pointer(of, PLAIN)
    case Function(_, _, _) => Pointer(t, PLAIN)
  }

  function Canonical(t: Type): Type {
    match t
    case Base(_, _) => t
    case Pointer(to, q) => Pointer(Canonical(to), q)
    case Array(bound, of) => Array(bound, Canonical(of))
    case Function(params, ellipsis, ret) => Function(CanonicalAll(params), ellipsis, Canonical(ret))
  }

  function CanonicalAll(params: seq<Type>): (r: seq<Type>)
    ensures |r| == |params| && forall i :: 0 <= i < |params| ==> r[i] == OfParameter(Canonical(params[i]))
  {
    if params == [] then []
    else CanonicalAll(params[..|params| - 1]) + [OfParameter(Canonical(params[|params| - 1]))]
  }

  lemma {:induction false} ProperWords(t: Type, env: Env)
    requires Proper(t, env)
    ensures WordsOk(t)
    decreases t
  {
    match t
    case Base(_, _) =>
    case Pointer(to, _) => ProperWords(to, env);
    case Array(_, of) => ProperWords(of, env);
    case Function(params, _, ret) =>
      ProperWords(ret, env);
      forall p | p in params ensures WordsOk(p) {
        ProperWords(p, env);
      }
  }

  // Folding the layers of a type.

  /** The declarator of a type, around a declarator already read. */
  function Layers(d: Decl, t: Type): Decl
    decreases t
  {
    match t
    case Base(_, _) => d
    case Pointer(to, q) => Layers(Indirect(d, q), to)
    case Array(bound, of) => Layers(ArrayRef(d, bound), of)
    case Function(params, ellipsis, ret) => Layers(Call(d, CanonicalAll(params), ellipsis), ret)
  }

  /** The loop's state when the layers of t have been applied. */
  function Built(t: Type): Folded {
    match t
    case Base(words, q) => Folded(Base(words, PLAIN), q)
    case Pointer(to, q) => Folded(Pointer(Canonical(to), PLAIN), q)
    case Array(bound, of) => Folded(Array(bound, Canonical(of)), ElementQuals(of))
    case Function(params, ellipsis, ret) => Folded(Function(CanonicalAll(params), ellipsis, Canonical(ret)), PLAIN)
  }

  lemma {:induction false} VariantSame(t: Type)
    ensures Any(ElementQuals(t)) ==> Variant(Canonical(t), ElementQuals(t)) == Canonical(t)
    decreases t
  {
    if t.Array? {
      VariantSame(t.of);
    }
  }

  /** Merging what is pending completes the type. */
  lemma BuiltMerges(t: Type)
    ensures Merged(Built(t).type_, Built(t).pending) == Canonical(t)
  {
    if t.Array? {
      VariantSame(t);
    }
  }

  lemma BuiltKind(t: Type, env: Env)
    ensures IsArray(Built(t).type_, env) == IsArray(t, env) && IsFunction(Built(t).type_, env) == IsFunction(t, env)
    ensures IsVoid(Built(t).type_, env) == IsVoid(t, env)
  {
  }

  /** Applying the layers of t, outermost first, builds t. */
  lemma {:induction false} FoldLayers(t: Type, d: Decl, env: Env)
    requires Proper(t, env)
    ensures Fold(Base(BaseWords(t), PLAIN), BaseQuals(t), Layers(d, t), env)
            == Fold(Built(t).type_, Built(t).pending, d, env)
    decreases t
  {
    match t
    case Base(_, _) =>
    case Pointer(to, q) =>
      FoldLayers(to, Indirect(d, q), env);
      BuiltMerges(to);
    case Array(bound, of) =>
      FoldLayers(of, ArrayRef(d, bound), env);
      BuiltKind(of, env);
      BuiltMerges(t);
      ArrayMerges(bound, of);
    case Function(params, ellipsis, ret) =>
      FoldLayers(ret, Call(d, CanonicalAll(params), ellipsis), env);
      BuiltKind(ret, env);
      BuiltMerges(ret);
  }

  lemma ArrayMerges(bound: Option<nat>, of: Type)
    ensures Merged(Array(bound, Built(of).type_), Built(of).pending) == Array(bound, Canonical(of))
  {
    BuiltMerges(of);
  }

  lemma ParameterBuilt(t: Type, env: Env)
    requires Proper(t, env) && !Unsuited(t, env)
    ensures AsParameter(Built(t)) == OfParameter(Canonical(t))
  {
    if t.Array? {
      VariantSame(t.of);
    }
  }

  // Parsing the tokens.

  /** What may follow a declarator that is complete. */
  predicate Ends(rest: seq<Token>) {
    rest == [] || rest[0] == Punct(')') || rest[0] == Punct(',')
  }

  /** What may follow a direct declarator: a suffix too. */
  ghost predicate Follows(rest: seq<Token>, env: Env) {
    Ends(rest) || rest[0] == Punct('[') || OpensParams(rest, env)
  }

  /** s is read as the declarator d. */
  ghost predicate Whole(s: seq<Token>, d: Decl, env: Env) {
    forall rest {:trigger s + rest} :: Ends(rest) ==> ReadDeclarator(s + rest, env) == Some(Parsed(d, rest))
  }

  /** s is read as the direct declarator d, to which suffixes may still be added. */
  ghost predicate Direct(s: seq<Token>, d: Decl, env: Env) {
    forall rest {:trigger s + rest} :: Follows(rest, env) ==> ReadDirect(s + rest, env) == ReadSuffixes(d, rest, env)
  }

  predicate QualToken(t: Token) {
    t == Word("const") || t == Word("volatile")
  }

  /** A declarator's first token. */
  ghost predicate HeadOk(s: seq<Token>, env: Env) {
    s == [] || !IsSpecifier(s[0], env)
  }

  predicate StarFirst(s: seq<Token>) {
    s != [] && s[0] == Punct('*')
  }

  lemma DirectNothing(env: Env)
    ensures Direct([], Ident(None), env)
  {
    forall rest | Follows(rest, env) ensures ReadDirect([] + rest, env) == ReadSuffixes(Ident(None), rest, env) {
      assert [] + rest == rest;
    }
  }

  lemma DirectName(w: string, env: Env)
    requires !IsSpecifier(Word(w), env)
    ensures Direct([Word(w)], Ident(Some(w)), env)
  {
  }

  lemma DirectWhole(s: seq<Token>, d: Decl, env: Env)
    requires Direct(s, d, env) && !StarFirst(s)
    ensures Whole(s, d, env)
  {
  }

  lemma SuffixBound(d: Decl, bound: Option<nat>, rest: seq<Token>, env: Env)
    ensures ReadSuffixes(d, BoundTokens(bound) + rest, env) == ReadSuffixes(ArrayRef(d, bound), rest, env)
  {
    var ts := BoundTokens(bound) + rest;
    if bound.None? {
      assert ts[2..] == rest;
    } else {
      DecimalReads(bound.value);
      assert ts[3..] == rest;
    }
  }

  lemma DirectBound(s: seq<Token>, d: Decl, bound: Option<nat>, env: Env)
    requires Direct(s, d, env)
    ensures Direct(s + BoundTokens(bound), ArrayRef(d, bound), env)
  {
    var b := BoundTokens(bound);
    forall rest | Follows(rest, env) ensures ReadDirect(s + b + rest, env) == ReadSuffixes(ArrayRef(d, bound), rest, env) {
      assert s + b + rest == s + (b + rest);
      assert Follows(b + rest, env);
      SuffixBound(d, bound, rest, env);
    }
  }

  lemma ReadQualTokens(q: Quals, rest: seq<Token>)
    ensures ReadQuals(QualTokens(q) + rest, PLAIN) == ReadQuals(rest, q)
  {
    hide ReadQuals;
    var cs, vs := if q.c then [Word("const")] else [], if q.v then [Word("volatile")] else [];
    ReadOneQual("const", Quals(false, q.v), rest);
    ReadOneQual("volatile", PLAIN, cs + rest);
    assert QualTokens(q) + rest == vs + (cs + rest);
    assert cs == [] ==> cs + rest == rest;
    assert vs == [] ==> vs + (cs + rest) == cs + rest;
  }

  /** Qualifiers said again change nothing. */
  lemma ReadRepeated(q: Quals, own: Quals, rest: seq<Token>)
    requires Within(own, q) && (rest == [] || !QualToken(rest[0]))
    ensures ReadQuals(EntityTokens(own) + rest, q) == (q, rest)
  {
    hide ReadQuals;
    var vs := if own.v then [Word("volatile")] else [];
    ReadQualsEnd(rest, q);
    ReadOneQual("volatile", q, rest);
    ReadOneQual("const", q, vs + rest);
    assert EntityTokens(own) + rest == (if own.c then [Word("const")] else []) + (vs + rest);
    assert [] + rest == rest && [] + (vs + rest) == vs + rest;
  }

  lemma ReadQualsEnd(rest: seq<Token>, q: Quals)
    requires rest == [] || !QualToken(rest[0])
    ensures ReadQuals(rest, q) == (q, rest)
  {
  }

  lemma ReadOneQual(w: string, q: Quals, rest: seq<Token>)
    requires w == "const" || w == "volatile"
    ensures ReadQuals([Word(w)] + rest, q) == ReadQuals(rest, WithQual(q, w))
  {
  }

  lemma ReadPointer(s: seq<Token>, d: Decl, q: Quals, own: Quals, rest: seq<Token>, env: Env)
    requires ReadDeclarator(s + rest, env) == Some(Parsed(d, rest)) && (s + rest == [] || !QualToken((s + rest)[0]))
    requires Within(own, q)
    ensures ReadDeclarator([Punct('*')] + QualTokens(q) + (EntityTokens(own) + s) + rest, env) == Some(Parsed(Indirect(d, q), rest))
  {
    hide ReadDeclarator, QualTokens, EntityTokens, ReadQuals;
    var all := QualTokens(q) + (EntityTokens(own) + (s + rest));
    assert [Punct('*')] + QualTokens(q) + (EntityTokens(own) + s) + rest == [Punct('*')] + all;
    ReadQualTokens(q, EntityTokens(own) + (s + rest));
    ReadRepeated(q, own, s + rest);
    ReadStar(all, env);
  }

  lemma WholePointer(s: seq<Token>, d: Decl, q: Quals, own: Quals, env: Env)
    requires Whole(s, d, env) && (s == [] || !QualToken(s[0])) && Within(own, q)
    ensures Whole([Punct('*')] + QualTokens(q) + (EntityTokens(own) + s), Indirect(d, q), env)
  {
    hide ReadDeclarator, QualTokens, EntityTokens;
    var p := [Punct('*')] + QualTokens(q) + (EntityTokens(own) + s);
    forall rest | Ends(rest) ensures ReadDeclarator(p + rest, env) == Some(Parsed(Indirect(d, q), rest)) {
      assert ReadDeclarator(s + rest, env) == Some(Parsed(d, rest));
      ReadPointer(s, d, q, own, rest, env);
    }
  }

  lemma ReadStar(ts: seq<Token>, env: Env)
    ensures var (q, rest) := ReadQuals(ts, PLAIN);
            var r := ReadDeclarator(rest, env);
            ReadDeclarator([Punct('*')] + ts, env)
            == if r.None? then None else Some(Parsed(Indirect(r.value.value, q), r.value.rest))
  {
  }

  lemma ReadParenthesized(ts: seq<Token>, env: Env)
    requires Starts(ts, Punct('*'))
    ensures var r := ReadDeclarator(ts, env);
            ReadDirect([Punct('(')] + ts, env)
            == if r.Some? && Starts(r.value.rest, Punct(')')) then ReadSuffixes(r.value.value, r.value.rest[1..], env) else None
  {
    assert ([Punct('(')] + ts)[1..] == ts;
  }

  lemma DirectParenthesized(s: seq<Token>, d: Decl, env: Env)
    requires Whole(s, d, env) && StarFirst(s)
    ensures Direct([Punct('(')] + s + [Punct(')')], d, env)
  {
    hide ReadDirect, ReadDeclarator, ReadSuffixes;
    var p := [Punct('(')] + s + [Punct(')')];
    forall rest | Follows(rest, env) ensures ReadDirect(p + rest, env) == ReadSuffixes(d, rest, env) {
      var after := [Punct(')')] + rest;
      assert p + rest == [Punct('(')] + (s + after) && after[1..] == rest;
      assert (s + after)[0] == Punct('*') && Ends(after);
      ReadParenthesized(s + after, env);
    }
  }

  // Specifiers.

  lemma TypeWord(words: seq<string>, i: nat, env: Env)
    requires words in env.names && i < |words|
    ensures IsTypeWord(words[i], env)
  {
  }

  ghost predicate TypeWords(words: seq<string>, env: Env) {
    forall i :: 0 <= i < |words| ==> IsTypeWord(words[i], env) && words[i] != "const" && words[i] != "volatile"
  }

  lemma FirstTypeWord(words: seq<string>, env: Env)
    requires TypeWords(words, env) && words != []
    ensures IsTypeWord(words[0], env) && words[0] != "const" && words[0] != "volatile" && TypeWords(words[1..], env)
  {
  }

  lemma {:induction false} ReadWords(q: Quals, before: seq<string>, words: seq<string>, rest: seq<Token>, env: Env)
    requires TypeWords(words, env)
    requires rest == [] || !IsSpecifier(rest[0], env)
    ensures ReadSpecifiers(WordTokens(words) + rest, q, before, env) == Specifiers(q, before + words, rest)
    decreases |words|
  {
    hide ReadSpecifiers, IsSpecifier, IsTypeWord, TypeWords;
    if words != [] {
      FirstTypeWord(words, env);
    }
    if words == [] {
      assert WordTokens(words) + rest == rest && before + words == before;
      ReadNoWord(q, before, rest, env);
    } else {
      ReadOneWord(q, before, words[0], WordTokens(words[1..]) + rest, env);
      assert WordTokens(words) + rest == [Word(words[0])] + (WordTokens(words[1..]) + rest);
      ReadWords(q, before + [words[0]], words[1..], rest, env);
      assert before + [words[0]] + words[1..] == before + words;
    }
  }

  lemma ReadNoWord(q: Quals, before: seq<string>, rest: seq<Token>, env: Env)
    requires rest == [] || !IsSpecifier(rest[0], env)
    ensures ReadSpecifiers(rest, q, before, env) == Specifiers(q, before, rest)
  {
  }

  lemma ReadOneWord(q: Quals, before: seq<string>, w: string, rest: seq<Token>, env: Env)
    requires IsTypeWord(w, env) && w != "const" && w != "volatile"
    ensures ReadSpecifiers([Word(w)] + rest, q, before, env) == ReadSpecifiers(rest, q, before + [w], env)
  {
  }

  lemma TypeWordsOf(words: seq<string>, env: Env)
    requires NameOk(words) && words in env.names
    ensures TypeWords(words, env)
  {
    forall i | 0 <= i < |words| ensures IsTypeWord(words[i], env) {
      TypeWord(words, i, env);
    }
  }

  lemma ReadSpecifierTokens(q: Quals, words: seq<string>, rest: seq<Token>, env: Env)
    requires NameOk(words) && words in env.names && (rest == [] || !IsSpecifier(rest[0], env))
    ensures ReadSpecifiers(QualTokens(q) + WordTokens(words) + rest, PLAIN, [], env) == Specifiers(q, words, rest)
  {
    hide ReadSpecifiers, IsSpecifier, IsTypeWord, TypeWords, WordTokens, QualTokens;
    TypeWordsOf(words, env);
    ReadWords(q, [], words, rest, env);
    ReadLeadingQuals(q, WordTokens(words) + rest, env);
    assert [] + words == words;
    assert QualTokens(q) + WordTokens(words) + rest == QualTokens(q) + (WordTokens(words) + rest);
  }

  lemma ReadLeadingQuals(q: Quals, ts: seq<Token>, env: Env)
    ensures ReadSpecifiers(QualTokens(q) + ts, PLAIN, [], env) == ReadSpecifiers(ts, q, [], env)
  {
    hide ReadSpecifiers, IsSpecifier, IsTypeWord;
    var cs, vs := if q.c then [Word("const")] else [], if q.v then [Word("volatile")] else [];
    ReadOneSpecifier("const", Quals(false, q.v), ts, env);
    ReadOneSpecifier("volatile", PLAIN, cs + ts, env);
    assert QualTokens(q) + ts == vs + (cs + ts);
    assert cs == [] ==> cs + ts == ts;
    assert vs == [] ==> vs + (cs + ts) == cs + ts;
  }

  lemma ReadOneSpecifier(w: string, q: Quals, rest: seq<Token>, env: Env)
    requires w == "const" || w == "volatile"
    ensures ReadSpecifiers([Word(w)] + rest, q, [], env) == ReadSpecifiers(rest, WithQual(q, w), [], env)
  {
  }

  // The main induction.

  /** A seed the tokens of t may grow around: already a direct declarator when t adds a
      suffix to it. */
  ghost predicate Seed(s: seq<Token>, d: Decl, t: Type, env: Env) {
    && HeadOk(s, env)
    && (if t.Array? || t.Function? then Direct(s, d, env) && !StarFirst(s) else Whole(s, d, env))
  }

  lemma HeadNotQual(s: seq<Token>, env: Env)
    requires HeadOk(s, env)
    ensures s == [] || !QualToken(s[0])
  {
  }

  lemma SeedPointer(s: seq<Token>, d: Decl, to: Type, q: Quals, own: Quals, env: Env)
    requires Whole(s, d, env) && HeadOk(s, env) && Within(own, q)
    ensures Seed(PointerTokens(EntityTokens(own) + s, to, q, env), Indirect(d, q), to, env)
  {
    HeadNotQual(s, env);
    WholePointer(s, d, q, own, env);
    var p := [Punct('*')] + QualTokens(q) + (EntityTokens(own) + s);
    if IsArray(to, env) || IsFunction(to, env) {
      DirectParenthesized(p, Indirect(d, q), env);
      DirectWhole([Punct('(')] + p + [Punct(')')], Indirect(d, q), env);
    }
  }

  lemma SeedSuffixed(s: seq<Token>, more: seq<Token>, d: Decl, t: Type, env: Env)
    requires HeadOk(s, env) && !StarFirst(s) && Direct(s + more, d, env)
    requires more != [] && (more[0] == Punct('[') || more[0] == Punct('('))
    ensures Seed(s + more, d, t, env)
  {
  }

  lemma DirectCall(s: seq<Token>, d: Decl, params: seq<Type>, ellipsis: bool, env: Env)
    requires Direct(s, d, env)
    requires ReadsFormals(params, ellipsis, env)
    ensures Direct(s + FormalsTokens(params, ellipsis, env), Call(d, CanonicalAll(params), ellipsis), env)
  {
    var f := FormalsTokens(params, ellipsis, env);
    forall rest | Follows(rest, env)
      ensures ReadDirect(s + f + rest, env) == ReadSuffixes(Call(d, CanonicalAll(params), ellipsis), rest, env) {
      assert s + f + rest == s + (f + rest);
      assert f + rest == [Punct('(')] + (f[1..] + rest);
      assert (f + rest)[1..] == f[1..] + rest;
      assert ReadParams(f[1..] + rest, env) == Some(Parsed(ParamList(CanonicalAll(params), ellipsis), rest));
      assert Follows(f + rest, env);
    }
  }

  /** A parameter list after its opening parenthesis. */
  ghost predicate ReadsFormals(params: seq<Type>, ellipsis: bool, env: Env) {
    var f := FormalsTokens(params, ellipsis, env)[1..];
    && |f| > 0 && (f[0] == Punct(')') || IsSpecifier(f[0], env))
    && forall rest {:trigger f + rest} ::
         ReadParams(f + rest, env) == Some(Parsed(ParamList(CanonicalAll(params), ellipsis), rest))
  }

  predicate EnvOk(env: Env) {
    ["void"] in env.names
  }

  /** A declarator that starts with a star, parenthesis or bracket goes on doing so. */
  predicate PunctFirst(s: seq<Token>) {
    s != [] && (s[0] == Punct('*') || s[0] == Punct('(') || s[0] == Punct('['))
  }

  lemma {:induction false} DeclaratorHead(s: seq<Token>, t: Type, env: Env)
    requires PunctFirst(s)
    ensures PunctFirst(Declarator(s, t, env))
    decreases t
  {
    match t
    case Base(_, _) =>
    case Pointer(to, q) => DeclaratorHead(PointerTokens(s, to, q, env), to, env);
    case Array(bound, of) => DeclaratorHead(s + BoundTokens(PrintedBound(bound, of, env)), of, env);
    case Function(params, ellipsis, ret) => DeclaratorHead(s + FormalsTokens(params, ellipsis, env), ret, env);
  }

  predicate IsParameter(p: Type, env: Env) {
    Proper(p, env) && !Unsuited(p, env)
  }

  ghost predicate ReadsParam(p: Type, env: Env) {
    forall rest {:trigger Declaration([], p, env) + rest} :: Ends(rest) ==>
      ReadParam(Declaration([], p, env) + rest, env) == Some(Parsed(OfParameter(Canonical(p)), rest))
  }

  /** Seeds of the three kinds of layer, and the declarator they end as. */
  lemma {:induction false} ReadsDeclarator(s: seq<Token>, d: Decl, t: Type, env: Env)
    requires Proper(t, env) && EnvOk(env) && Seed(s, d, t, env)
    ensures Whole(Declarator(s, t, env), Layers(d, t), env)
    decreases t, 0
  {
    match t
    case Base(_, _) =>
    case Pointer(to, q) =>
      SeedPointer(s, d, to, q, PLAIN, env);
      assert EntityTokens(PLAIN) + s == s;
      ReadsDeclarator(PointerTokens(s, to, q, env), Indirect(d, q), to, env);
    case Array(bound, of) =>
      ShownBoundIs(bound, of, env);
      DirectBound(s, d, bound, env);
      SeedSuffixed(s, BoundTokens(bound), ArrayRef(d, bound), of, env);
      ReadsDeclarator(s + BoundTokens(bound), ArrayRef(d, bound), of, env);
    case Function(params, ellipsis, ret) =>
      ReadsParamList(params, ellipsis, env);
      DirectCall(s, d, params, ellipsis, env);
      SeedSuffixed(s, FormalsTokens(params, ellipsis, env), Call(d, CanonicalAll(params), ellipsis), ret, env);
      ReadsDeclarator(s + FormalsTokens(params, ellipsis, env), Call(d, CanonicalAll(params), ellipsis), ret, env);
  }

  lemma {:induction false} ReadsParameter(p: Type, env: Env)
    requires IsParameter(p, env) && EnvOk(env)
    ensures ReadsParam(p, env)
    decreases p, 1
  {
    DirectNothing(env);
    DirectWhole([], Ident(None), env);
    ReadsDeclarator([], Ident(None), p, env);
    var d := Layers(Ident(None), p);
    FoldLayers(p, Ident(None), env);
    ParameterBuilt(p, env);
    forall rest | Ends(rest)
      ensures ReadParam(Declaration([], p, env) + rest, env) == Some(Parsed(OfParameter(Canonical(p)), rest)) {
      ParamTokens(p, rest, env);
      assert ReadDeclarator(Declarator([], p, env) + rest, env) == Some(Parsed(d, rest));
    }
  }

  /** A parameter of a named type has no declarator; that of any other starts with a
      punctuation character, and not with the closing parenthesis. */
  lemma ParameterStart(p: Type, env: Env)
    ensures if p.Base? then Declarator([], p, env) == [] else PunctFirst(Declarator([], p, env))
  {
    match p
    case Base(_, _) =>
    case Pointer(to, q) => DeclaratorHead(PointerTokens([], to, q, env), to, env);
    case Array(bound, of) => DeclaratorHead([] + BoundTokens(PrintedBound(bound, of, env)), of, env);
    case Function(params, ellipsis, ret) => DeclaratorHead([] + FormalsTokens(params, ellipsis, env), ret, env);
  }

  lemma ParamTokens(p: Type, rest: seq<Token>, env: Env)
    requires IsParameter(p, env) && Ends(rest)
    ensures ReadSpecifiers(Declaration([], p, env) + rest, PLAIN, [], env)
            == Specifiers(BaseQuals(p), BaseWords(p), Declarator([], p, env) + rest)
    ensures BaseWords(p) != []
  {
    hide ReadSpecifiers, WordTokens, QualTokens;
    var tail := Declarator([], p, env) + rest;
    ParameterStart(p, env);
    assert tail == [] || tail[0].Punct?;
    BaseNamed(p, env);
    ReadSpecifierTokens(BaseQuals(p), BaseWords(p), tail, env);
    assert Declaration([], p, env) + rest == QualTokens(BaseQuals(p)) + WordTokens(BaseWords(p)) + tail;
  }

  lemma {:induction false} BaseNamed(t: Type, env: Env)
    requires Proper(t, env)
    ensures NameOk(BaseWords(t)) && BaseWords(t) in env.names
    decreases t
  {
    match t
    case Base(_, _) =>
    case Pointer(to, _) => BaseNamed(to, env);
    case Array(_, of) => BaseNamed(of, env);
    case Function(_, _, ret) => BaseNamed(ret, env);
  }

  /** The list in the order it is read. */
  function ListFront(params: seq<Type>, env: Env): seq<Token>
    requires params != []
  {
    if |params| == 1 then Declaration([], params[0], env)
    else Declaration([], params[0], env) + [Punct(',')] + ListFront(params[1..], env)
  }

  lemma {:induction false} ListFrontIs(params: seq<Type>, env: Env)
    requires params != []
    ensures ListTokens(params, env) == ListFront(params, env)
    decreases |params|
  {
    hide Declaration;
    var k := |params| - 1;
    var first, last := Declaration([], params[0], env), Declaration([], params[k], env);
    if k == 0 {
      assert [] + last == last;
    } else {
      ListFrontIs(params[..k], env);
      ListFrontIs(params[1..], env);
      assert params[1..][..k - 1] == params[1..k] == params[..k][1..];
      if k > 1 {
        ListFrontIs(params[1..k], env);
        Rejoined(first, ListFront(params[1..k], env), last);
      } else {
        assert [] + last == last;
      }
    }
  }

  lemma Rejoined(a: seq<Token>, b: seq<Token>, c: seq<Token>)
    ensures (a + [Punct(',')] + b) + [Punct(',')] + c == a + [Punct(',')] + (b + [Punct(',')] + c)
  {
  }

  /** The last parameter, the ellipsis if any, and the closing parenthesis. */
  lemma ReadsLast(before: seq<Type>, p: Type, ellipsis: bool, rest: seq<Token>, env: Env)
    requires ReadsParam(p, env)
    ensures ReadList(before, Declaration([], p, env) + (EllipsisTokens(ellipsis) + [Punct(')')] + rest), env)
            == Some(Parsed(ParamList(before + [OfParameter(Canonical(p))], ellipsis), rest))
  {
    var close := EllipsisTokens(ellipsis) + [Punct(')')] + rest;
    if ellipsis {
      assert close[1..][4..] == rest;
      assert close[1..][..4] == [Punct('.'), Punct('.'), Punct('.'), Punct(')')];
    } else {
      assert close == [Punct(')')] + rest && close[1..] == rest;
    }
    assert ReadParam(Declaration([], p, env) + close, env) == Some(Parsed(OfParameter(Canonical(p)), close));
  }

  lemma ReadsOneMore(before: seq<Type>, p: Type, more: seq<Token>, env: Env)
    requires ReadsParam(p, env) && more != [] && IsSpecifier(more[0], env)
    ensures ReadList(before, Declaration([], p, env) + ([Punct(',')] + more), env)
            == ReadList(before + [OfParameter(Canonical(p))], more, env)
  {
    var after := [Punct(',')] + more;
    assert after[1..] == more;
    assert ReadParam(Declaration([], p, env) + after, env) == Some(Parsed(OfParameter(Canonical(p)), after));
  }

  /** The parameters after those already read. */
  lemma {:induction false} ReadsList(before: seq<Type>, params: seq<Type>, ellipsis: bool, rest: seq<Token>, env: Env)
    requires params != [] && forall p :: p in params ==> IsParameter(p, env) && ReadsParam(p, env)
    ensures ReadList(before, ListFront(params, env) + (EllipsisTokens(ellipsis) + [Punct(')')] + rest), env)
            == Some(Parsed(ParamList(before + CanonicalAll(params), ellipsis), rest))
    decreases |params|
  {
    hide ReadList, Declaration, Canonical, EllipsisTokens, IsParameter, ReadsParam, IsSpecifier, Starts;
    var close := EllipsisTokens(ellipsis) + [Punct(')')] + rest;
    var p, t := params[0], OfParameter(Canonical(params[0]));
    if |params| == 1 {
      ReadsLast(before, p, ellipsis, rest, env);
      assert CanonicalAll(params) == [t];
    } else {
      var more := ListFront(params[1..], env) + close;
      assert ListFront(params, env) + close == Declaration([], p, env) + ([Punct(',')] + more);
      ListHead(params[1..], close, env);
      ReadsOneMore(before, p, more, env);
      ReadsList(before + [t], params[1..], ellipsis, rest, env);
      MoreTypes(before, params);
    }
  }

  lemma MoreTypes(before: seq<Type>, params: seq<Type>)
    requires params != []
    ensures before + [OfParameter(Canonical(params[0]))] + CanonicalAll(params[1..]) == before + CanonicalAll(params)
  {
    hide Canonical, CanonicalAll, OfParameter;
    assert CanonicalAll(params) == [OfParameter(Canonical(params[0]))] + CanonicalAll(params[1..]);
  }

  /** A parameter's first token is a specifier, and no parameter is just `void`. */
  lemma ParameterHead(p: Type, env: Env)
    requires IsParameter(p, env)
    ensures var ts := Declaration([], p, env);
            && ts != [] && IsSpecifier(ts[0], env)
            && (ts[0] == Word("void") ==> |ts| > 1 && ts[1] != Punct(')'))
  {
    BaseNamed(p, env);
    var words := BaseWords(p);
    TypeWord(words, 0, env);
    ParameterStart(p, env);
    WordsAt(words);
    var quals := QualTokens(BaseQuals(p));
    assert quals == [] ==> Declaration([], p, env)[0] == WordTokens(words)[0];
    assert quals == [] && |words| > 1 ==> Declaration([], p, env)[1] == WordTokens(words)[1];
    assert quals == [] && |words| == 1 && !p.Base? ==>
           Declaration([], p, env)[1] == Declarator([], p, env)[0];
  }

  lemma WordsAt(words: seq<string>)
    requires words != []
    ensures |WordTokens(words)| >= 1 && WordTokens(words)[0] == Word(words[0])
    ensures |words| == 1 ==> |WordTokens(words)| == 1
    ensures |words| > 1 ==> |WordTokens(words)| > 1 && WordTokens(words)[1] == Word(words[1])
  {
    assert |words| > 1 ==> words[1..] != [];
  }

  lemma ListHead(params: seq<Type>, more: seq<Token>, env: Env)
    requires params != [] && IsParameter(params[0], env)
    ensures var ts := ListFront(params, env) + more;
            ts != [] && IsSpecifier(ts[0], env) && !(Starts(ts, Word("void")) && |ts| > 1 && ts[1] == Punct(')'))
  {
    ParameterHead(params[0], env);
    var first := Declaration([], params[0], env);
    assert first <= ListFront(params, env);
  }

  lemma {:induction false} ReadsParamList(params: seq<Type>, ellipsis: bool, env: Env)
    requires EnvOk(env) && (ellipsis ==> params != []) && forall p :: p in params ==> IsParameter(p, env)
    ensures ReadsFormals(params, ellipsis, env)
    decreases params, 0
  {
    forall p | p in params ensures ReadsParam(p, env) {
      ReadsParameter(p, env);
    }
    if params == [] {
      ReadsVoid(env);
    } else {
      ReadsSome(params, ellipsis, env);
    }
  }

  lemma ReadsVoid(env: Env)
    requires EnvOk(env)
    ensures ReadsFormals([], false, env)
  {
  }

  lemma ReadsSome(params: seq<Type>, ellipsis: bool, env: Env)
    requires params != [] && forall p :: p in params ==> IsParameter(p, env) && ReadsParam(p, env)
    ensures ReadsFormals(params, ellipsis, env)
  {
    hide ReadList, Declaration, Canonical, EllipsisTokens, IsParameter, ReadsParam, IsSpecifier, ListTokens, ListFront;
    var f := FormalsTokens(params, ellipsis, env)[1..];
    ListFrontIs(params, env);
    ListHead(params, EllipsisTokens(ellipsis) + [Punct(')')], env);
    assert f == ListFront(params, env) + (EllipsisTokens(ellipsis) + [Punct(')')]);
    forall rest
      ensures ReadParams(f + rest, env) == Some(Parsed(ParamList(CanonicalAll(params), ellipsis), rest)) {
      var close := EllipsisTokens(ellipsis) + [Punct(')')] + rest;
      ListHead(params, close, env);
      assert f + rest == ListFront(params, env) + close;
      ReadsList([], params, ellipsis, rest, env);
      assert [] + CanonicalAll(params) == CanonicalAll(params);
    }
  }

  // Main results.

  /** The qualifiers grokdeclarator records for a declared entity itself are those of its
      elements. */
  lemma EntityQuals(name: Option<string>, t: Type, env: Env)
    requires Proper(t, env)
    ensures var f := Fold(Base(BaseWords(t), PLAIN), BaseQuals(t), Layers(Ident(name), t), env);
            f.Some? && f.value.pending == ElementQuals(t)
  {
    FoldLayers(t, Ident(name), env);
  }

  /** What a reader makes of the words at the bottom of t and the layers of t around d. */
  ghost function Understood(d: Decl, t: Type, env: Env): Option<Declared> {
    var f := Fold(Base(BaseWords(t), PLAIN), BaseQuals(t), Layers(d, t), env);
    if f.None? then None else Some(Declared(NameOf(Layers(d, t)), AsTypeName(f.value)))
  }

  lemma UnderstoodIs(name: Option<string>, t: Type, env: Env)
    requires Proper(t, env)
    ensures Understood(Ident(name), t, env) == Some(Declared(name, Canonical(t)))
  {
    FoldLayers(t, Ident(name), env);
    BuiltMerges(t);
    NameKept(Ident(name), t);
  }

  /** The tokens of a declaration are read as the words and layers of its type. */
  lemma ReadsTokens(seed: seq<Token>, d: Decl, t: Type, env: Env)
    requires Proper(t, env) && EnvOk(env) && Seed(seed, d, t, env)
    ensures ReadDeclaration(Declaration(seed, t, env), env) == Understood(d, t, env)
  {
    ReadsDeclarator(seed, d, t, env);
    var ts := Declarator(seed, t, env);
    assert ts + [] == ts;
    DeclaratorStart(seed, t, env);
    BaseNamed(t, env);
    ReadSpecifierTokens(BaseQuals(t), BaseWords(t), ts, env);
  }

  lemma ReadRepeatedSpecifiers(q: Quals, own: Quals, ts: seq<Token>, env: Env)
    requires Within(own, q)
    ensures ReadSpecifiers(EntityTokens(own) + ts, q, [], env) == ReadSpecifiers(ts, q, [], env)
  {
    hide ReadSpecifiers;
    var vs := if own.v then [Word("volatile")] else [];
    ReadOneSpecifier("volatile", q, ts, env);
    ReadOneSpecifier("const", q, vs + ts, env);
    assert EntityTokens(own) + ts == (if own.c then [Word("const")] else []) + (vs + ts);
    assert [] + ts == ts && [] + (vs + ts) == vs + ts;
  }

  lemma ReadsBase(own: Quals, seed: seq<Token>, d: Decl, words: seq<string>, q: Quals, env: Env)
    requires Proper(Base(words, q), env) && Whole(seed, d, env) && HeadOk(seed, env) && Within(own, q)
    ensures ReadDeclaration(QualTokens(q) + EntityTokens(own) + WordTokens(words) + seed, env) == Understood(d, Base(words, q), env)
  {
    hide ReadSpecifiers, QualTokens, EntityTokens, WordTokens, ReadDeclarator;
    var tail := WordTokens(words) + seed;
    assert QualTokens(q) + EntityTokens(own) + WordTokens(words) + seed == QualTokens(q) + (EntityTokens(own) + tail);
    assert QualTokens(q) + WordTokens(words) + seed == QualTokens(q) + tail;
    ReadLeadingQuals(q, EntityTokens(own) + tail, env);
    ReadRepeatedSpecifiers(q, own, tail, env);
    ReadLeadingQuals(q, tail, env);
    ReadSpecifierTokens(q, words, seed, env);
    assert seed + [] == seed;
  }

  /** So are they with the entity's own qualifiers among them. */
  lemma {:induction false} ReadsEntity(own: Quals, seed: seq<Token>, d: Decl, t: Type, env: Env)
    requires Proper(t, env) && EnvOk(env) && HeadOk(seed, env) && Direct(seed, d, env) && !StarFirst(seed)
    requires Within(own, ElementQuals(t))
    ensures ReadDeclaration(EntityDeclaration(own, seed, t, env), env) == Understood(d, t, env)
    decreases t
  {
    hide Whole, Direct, ReadDeclaration, Declaration, HeadOk, StarFirst;
    match t
    case Base(words, q) =>
      DirectWhole(seed, d, env);
      ReadsBase(own, seed, d, words, q, env);
    case Pointer(to, q) =>
      DirectWhole(seed, d, env);
      SeedPointer(seed, d, to, q, own, env);
      ReadsTokens(PointerTokens(EntityTokens(own) + seed, to, q, env), Indirect(d, q), to, env);
    case Array(bound, of) =>
      ShownBoundIs(bound, of, env);
      DirectBound(seed, d, bound, env);
      SuffixedHead(seed, BoundTokens(bound), env);
      ReadsEntity(own, seed + BoundTokens(bound), ArrayRef(d, bound), of, env);
    case Function(_, _, _) => ReadsTokens(seed, d, t, env);
  }

  lemma SuffixedHead(s: seq<Token>, more: seq<Token>, env: Env)
    requires HeadOk(s, env) && !StarFirst(s) && more != [] && more[0] == Punct('[')
    ensures HeadOk(s + more, env) && !StarFirst(s + more)
  {
  }

  lemma {:induction false} NameKept(d: Decl, t: Type)
    ensures NameOf(Layers(d, t)) == NameOf(d)
    decreases t
  {
    match t
    case Base(_, _) =>
    case Pointer(to, q) => NameKept(Indirect(d, q), to);
    case Array(bound, of) => NameKept(ArrayRef(d, bound), of);
    case Function(params, ellipsis, ret) => NameKept(Call(d, CanonicalAll(params), ellipsis), ret);
  }

  /** A declarator never starts with a specifier. */
  lemma {:induction false} DeclaratorStart(s: seq<Token>, t: Type, env: Env)
    requires HeadOk(s, env)
    ensures HeadOk(Declarator(s, t, env), env)
    decreases t
  {
    match t
    case Base(_, _) =>
    case Pointer(to, q) => DeclaratorStart(PointerTokens(s, to, q, env), to, env);
    case Array(bound, of) => DeclaratorStart(s + BoundTokens(PrintedBound(bound, of, env)), of, env);
    case Function(params, ellipsis, ret) => DeclaratorStart(s + FormalsTokens(params, ellipsis, env), ret, env);
  }

  /** The text of a declaration reads back as the name and the type, as its bounds are
      printed and but for the parameters' own qualifiers. The entity's own qualifiers,
      printed once with its name and once more with its type, are any of those its
      elements have. */
  lemma DeclarationRoundTrip(name: string, own: Quals, t: Type, env: Env)
    requires Sound(t, env) && EnvOk(env) && NameOk([name]) && !IsTypeWord(name, env) && Within(own, ElementQuals(t))
    ensures ReadDeclaration(Lex(DeclarationText(name, own, t, env)), env)
            == Some(Declared(Some(name), Canonical(AsPrinted(t, env))))
  {
    hide ReadDeclaration, Lex, Canonical, AsPrinted;
    TextAsPrinted(EntityText(own, name), t, env);
    BaseAsPrinted(t, env);
    PrintedProper(t, env);
    ProperRoundTrip(name, own, AsPrinted(t, env), env);
  }

  /** When the bounds are printed as they are, say because the elements of arrays are
      pointers, or named types of some size, or arrays of these, it is the type itself. */
  lemma ProperRoundTrip(name: string, own: Quals, t: Type, env: Env)
    requires Proper(t, env) && EnvOk(env) && NameOk([name]) && !IsTypeWord(name, env) && Within(own, ElementQuals(t))
    ensures ReadDeclaration(Lex(DeclarationText(name, own, t, env)), env) == Some(Declared(Some(name), Canonical(t)))
  {
    hide ReadDeclaration, Lex, Direct;
    ProperWords(t, env);
    assert IsWord([name][0]);
    LexWord(name);
    assert NamePart(name, name, "");
    LexEntity(own, name, t, env);
    DirectName(name, env);
    ReadsEntity(own, [Word(name)], Ident(Some(name)), t, env);
    UnderstoodIs(Some(name), t, env);
  }

  /** A parameter written as an array or a function is read as a pointer: to the array's
      elements, or to the function. */
  lemma ParameterAdjusted(name: string, params: seq<Type>, i: nat, ellipsis: bool, ret: Type, env: Env)
    requires i < |params| && (params[i].Array? || params[i].Function?)
    requires Sound(Function(params, ellipsis, ret), env) && EnvOk(env) && NameOk([name]) && !IsTypeWord(name, env)
    ensures var pointer := Pointer(if params[i].Array? then params[i].of else params[i], PLAIN);
            ReadDeclaration(Lex(DeclarationText(name, PLAIN, Function(params, ellipsis, ret), env)), env)
            == ReadDeclaration(Lex(DeclarationText(name, PLAIN, Function(params[i := pointer], ellipsis, ret), env)), env)
  {
    hide ReadDeclaration, Lex, DeclarationText;
    var pointer := Pointer(if params[i].Array? then params[i].of else params[i], PLAIN);
    var f, g := Function(params, ellipsis, ret), Function(params[i := pointer], ellipsis, ret);
    PointerSound(params, i, env);
    DeclarationRoundTrip(name, PLAIN, f, env);
    DeclarationRoundTrip(name, PLAIN, g, env);
    SameAdjusted(params, i, pointer, env);
  }

  lemma PointerSound(params: seq<Type>, i: nat, env: Env)
    requires i < |params| && (params[i].Array? || params[i].Function?)
    requires forall p :: p in params ==> Sound(p, env) && !Unsuited(p, env)
    ensures var pointer := Pointer(if params[i].Array? then params[i].of else params[i], PLAIN);
            forall p :: p in params[i := pointer] ==> Sound(p, env) && !Unsuited(p, env)
  {
    assert Sound(params[i], env);
  }

  lemma SameAdjusted(params: seq<Type>, i: nat, pointer: Type, env: Env)
    requires i < |params| && (params[i].Array? || params[i].Function?)
    requires pointer == Pointer(if params[i].Array? then params[i].of else params[i], PLAIN)
    ensures CanonicalAll(AllAsPrinted(params[i := pointer], env)) == CanonicalAll(AllAsPrinted(params, env))
  {
    hide Canonical, AsPrinted, OfParameter, CanonicalAll, AllAsPrinted;
    var a, b := CanonicalAll(AllAsPrinted(params, env)), CanonicalAll(AllAsPrinted(params[i := pointer], env));
    PointerContributes(params[i], env);
    forall j | 0 <= j < |params| ensures a[j] == b[j] {
      assert j != i ==> params[i := pointer][j] == params[j];
    }
    assert a == b;
  }

  lemma PointerContributes(p: Type, env: Env)
    requires p.Array? || p.Function?
    ensures var pointer := Pointer(if p.Array? then p.of else p, PLAIN);
            OfParameter(Canonical(AsPrinted(pointer, env))) == OfParameter(Canonical(AsPrinted(p, env)))
  {
  }

  /** So does the text of a type name, which is how parameters are printed. */
  lemma TypeNameRoundTrip(t: Type, env: Env)
    requires Sound(t, env) && EnvOk(env)
    ensures ReadDeclaration(Lex(FormalText(t, env)), env) == Some(Declared(None, Canonical(AsPrinted(t, env))))
  {
    hide ReadDeclaration, Lex, Canonical, AsPrinted;
    TextAsPrinted("", t, env);
    BaseAsPrinted(t, env);
    PrintedProper(t, env);
    ProperNameRoundTrip(AsPrinted(t, env), env);
  }

  lemma ProperNameRoundTrip(t: Type, env: Env)
    requires Proper(t, env) && EnvOk(env)
    ensures ReadDeclaration(Lex(FormalText(t, env)), env) == Some(Declared(None, Canonical(t)))
  {
    ProperWords(t, env);
    LexFormal(t, env);
    DirectNothing(env);
    DirectWhole([], Ident(None), env);
    ReadsTokens([], Ident(None), t, env);
    UnderstoodIs(None, t, env);
  }

  predicate OwnPlain(t: Type) {
    match t
    case Base(_, q) => !Any(q)
    case Pointer(_, q) => !Any(q)
    case _ => false
  }

  /** Types whose parameters have no qualifiers of their own and are no arrays or functions. */
  predicate ParametersPlain(t: Type) {
    match t
    case Base(_, _) => true
    case Pointer(to, _) => ParametersPlain(to)
    case Array(_, of) => ParametersPlain(of)
    case Function(params, _, ret) =>
      ParametersPlain(ret) && forall p :: p in params ==> ParametersPlain(p) && OwnPlain(p)
  }

  /** The type comes back itself if and only if no parameter in it is qualified, an array
      or a function, and every bound in it is printed as it is. */
  lemma {:induction false} CanonicalExactly(t: Type, env: Env)
    ensures Canonical(AsPrinted(t, env)) == t <==> ParametersPlain(t) && BoundsKept(t, env)
    decreases t
  {
    match t
    case Base(_, _) =>
    case Pointer(to, _) => CanonicalExactly(to, env);
    case Array(_, of) => CanonicalExactly(of, env);
    case Function(params, ellipsis, ret) =>
      CanonicalExactly(ret, env);
      forall p | p in params
        ensures OfParameter(Canonical(AsPrinted(p, env))) == p <==> ParametersPlain(p) && OwnPlain(p) && BoundsKept(p, env) {
        CanonicalExactly(p, env);
        ParameterExactly(p, env);
      }
      SameParams(params, env);
  }

  lemma ParameterExactly(p: Type, env: Env)
    requires Canonical(AsPrinted(p, env)) == p <==> ParametersPlain(p) && BoundsKept(p, env)
    ensures OfParameter(Canonical(AsPrinted(p, env))) == p <==> Canonical(AsPrinted(p, env)) == p && OwnPlain(p)
  {
  }

  lemma SameParams(params: seq<Type>, env: Env)
    ensures CanonicalAll(AllAsPrinted(params, env)) == params <==>
            forall p :: p in params ==> OfParameter(Canonical(AsPrinted(p, env))) == p
  {
    hide Canonical, AsPrinted, OfParameter, CanonicalAll, AllAsPrinted;
    var all := CanonicalAll(AllAsPrinted(params, env));
    forall i | 0 <= i < |params| ensures all[i] == OfParameter(Canonical(AsPrinted(params[i], env))) && params[i] in params {
    }
    if forall p :: p in params ==> OfParameter(Canonical(AsPrinted(p, env))) == p {
      assert forall i :: 0 <= i < |params| ==> all[i] == params[i];
    }
  }
}
