/** The tokens of the text gen_type prints. */
module DeclTokens {
  import opened Options
  import opened DeclText
  import opened DeclPrint

  /** Names are made of words that are not qualifiers. */
  predicate NameOk(words: seq<string>) {
    words != [] && forall i :: 0 <= i < |words| ==> IsWord(words[i]) && words[i] != "const" && words[i] != "volatile"
  }

  predicate WordsOk(t: Type) {
    match t
    case Base(words, _) => NameOk(words)
    case Pointer(to, _) => WordsOk(to)
    case Array(_, of) => WordsOk(of)
    case Function(params, _, ret) => WordsOk(ret) && forall p :: p in params ==> WordsOk(p)
  }

  function BaseQuals(t: Type): Quals {
    match t
    case Base(_, q) => q
    case Pointer(to, _) => BaseQuals(to)
    case Array(_, of) => BaseQuals(of)
    case Function(_, _, ret) => BaseQuals(ret)
  }

  function QualTokens(q: Quals): seq<Token> {
    (if q.v then [Word("volatile")] else []) + (if q.c then [Word("const")] else [])
  }

  function WordTokens(words: seq<string>): seq<Token> {
    if words == [] then [] else [Word(words[0])] + WordTokens(words[1..])
  }

  function BoundTokens(bound: Option<nat>): seq<Token> {
    if bound.None? then [Punct('['), Punct(']')] else [Punct('['), Word(Decimal(bound.value)), Punct(']')]
  }

  function PointerTokens(seed: seq<Token>, to: Type, q: Quals, env: Env): seq<Token> {
    var s := [Punct('*')] + QualTokens(q) + seed;
    if IsArray(to, env) || IsFunction(to, env) then [Punct('(')] + s + [Punct(')')] else s
  }

  /** The declarator: all but the name and qualifiers at the bottom. */
  function Declarator(seed: seq<Token>, t: Type, env: Env): seq<Token>
    decreases t, 0
  {
    match t
    case Base(_, _) => seed
    case Pointer(to, q) => Declarator(PointerTokens(seed, to, q, env), to, env)
    case Array(bound, of) => Declarator(seed + BoundTokens(PrintedBound(bound, of, env)), of, env)
    case Function(params, ellipsis, ret) => Declarator(seed + FormalsTokens(params, ellipsis, env), ret, env)
  }

  /** A declaration: specifiers, then declarator. */
  function Declaration(seed: seq<Token>, t: Type, env: Env): seq<Token>
    decreases t, 1
  {
    QualTokens(BaseQuals(t)) + WordTokens(BaseWords(t)) + Declarator(seed, t, env)
  }

  function EntityTokens(q: Quals): seq<Token> {
    (if q.c then [Word("const")] else []) + (if q.v then [Word("volatile")] else [])
  }

  /** A declaration whose entity has qualifiers of its own: they come next to the name,
      which for a type without a pointer is next to those of its elements. */
  function EntityDeclaration(own: Quals, seed: seq<Token>, t: Type, env: Env): seq<Token>
    decreases t
  {
    match t
    case Base(words, q) => QualTokens(q) + EntityTokens(own) + WordTokens(words) + seed
    case Pointer(to, q) => Declaration(PointerTokens(EntityTokens(own) + seed, to, q, env), to, env)
    case Array(bound, of) => EntityDeclaration(own, seed + BoundTokens(PrintedBound(bound, of, env)), of, env)
    case Function(_, _, _) => Declaration(seed, t, env)
  }

  /** The qualifiers a declared entity of this type has: those still pending once all
      layers have been applied. */
  function ElementQuals(t: Type): Quals {
    match t
    case Base(_, q) => q
    case Pointer(_, q) => q
    case Array(_, of) => ElementQuals(of)
    case Function(_, _, _) => PLAIN
  }

  predicate Within(a: Quals, b: Quals) {
    (a.c ==> b.c) && (a.v ==> b.v)
  }

  function ListTokens(params: seq<Type>, env: Env): seq<Token>
    decreases params, 0
  {
    if params == [] then []
    else
      var k := |params| - 1;
      (if k == 0 then [] else ListTokens(params[..k], env) + [Punct(',')]) + Declaration([], params[k], env)
  }

  function EllipsisTokens(ellipsis: bool): seq<Token> {
    if ellipsis then [Punct(','), Punct('.'), Punct('.'), Punct('.')] else []
  }

  function FormalsTokens(params: seq<Type>, ellipsis: bool, env: Env): seq<Token>
    decreases params, 1
  {
    [Punct('(')]
    + (if params == [] then [Word("void")] else ListTokens(params, env) + EllipsisTokens(ellipsis))
    + [Punct(')')]
  }

  // The same, as text.

  function CoreText(seed: string, t: Type, env: Env): string
    decreases t
  {
    match t
    case Base(_, _) => seed
    case Pointer(to, q) => CoreText(PointerText(seed, to, q, env), to, env)
    case Array(bound, of) => CoreText(seed + BoundText(PrintedBound(bound, of, env)), of, env)
    case Function(params, ellipsis, ret) => CoreText(seed + FormalsText(params, ellipsis, env), ret, env)
  }

  lemma {:induction false} TextIsQualified(seed: string, t: Type, env: Env)
    ensures TypeText(seed, t, env) == Qualified(BaseQuals(t), CoreText(seed, t, env))
    decreases t
  {
    match t
    case Base(_, _) =>
    case Pointer(to, q) => TextIsQualified(PointerText(seed, to, q, env), to, env);
    case Array(bound, of) => TextIsQualified(seed + BoundText(PrintedBound(bound, of, env)), of, env);
    case Function(params, ellipsis, ret) => TextIsQualified(seed + FormalsText(params, ellipsis, env), ret, env);
  }

  /** The start of a declarator is no qualifier. */
  predicate Unqualified(s: string) {
    !("volatile " <= s) && !("const " <= s)
  }

  predicate StartsPlain(s: string) {
    s == [] || !IsWordChar(s[0])
  }

  /** A seed the declarator grows around: a name, or something that starts with punctuation. */
  ghost predicate SeedOk(s: string) {
    StartsPlain(s) || exists w, rest :: NamePart(s, w, rest)
  }

  predicate NamePart(s: string, w: string, rest: string) {
    s == w + rest && NameOk([w]) && StartsPlain(rest)
  }

  lemma SeedUnqualified(s: string)
    requires SeedOk(s)
    ensures Unqualified(s)
  {
    if !StartsPlain(s) {
      var w, rest :| NamePart(s, w, rest);
      assert IsWord([w][0]);
      NoPrefix("const", w, rest);
      NoPrefix("volatile", w, rest);
      assert "const" + " " == "const " && "volatile" + " " == "volatile ";
    }
  }

  lemma NoPrefix(k: string, w: string, rest: string)
    requires IsWord(k) && IsWord(w) && w != k && StartsPlain(rest)
    ensures !(k + " " <= w + rest)
  {
    var s := w + rest;
    assert s[..|w|] == w;
    if k + " " <= s {
      var tail := s[|k| + 1..];
      assert s == k + (" " + tail) && s[..|k|] == k;
      WholeWord(w);
      WholeWord(k);
      WordLengthSplit(w, rest);
      WordLengthSplit(k, " " + tail);
    }
  }

  lemma SeedGrows(s: string, more: string)
    requires SeedOk(s) && more != [] && StartsPlain(more)
    ensures SeedOk(s + more)
  {
    if s == [] {
      assert s + more == more;
    } else if !StartsPlain(s) {
      var w, rest :| NamePart(s, w, rest);
      assert NamePart(s + more, w, rest + more);
    }
  }

  lemma {:induction false} CoreUnqualified(seed: string, t: Type, env: Env)
    requires SeedOk(seed)
    ensures Unqualified(CoreText(seed, t, env))
    decreases t
  {
    match t
    case Base(_, _) => SeedUnqualified(seed);
    case Pointer(to, q) => CoreUnqualified(PointerText(seed, to, q, env), to, env);
    case Array(bound, of) =>
      SeedGrows(seed, BoundText(PrintedBound(bound, of, env)));
      CoreUnqualified(seed + BoundText(PrintedBound(bound, of, env)), of, env);
    case Function(params, ellipsis, ret) =>
      assert FormalsText(params, ellipsis, env)[0] == ' ';
      SeedGrows(seed, FormalsText(params, ellipsis, env));
      CoreUnqualified(seed + FormalsText(params, ellipsis, env), ret, env);
      assert CoreText(seed, t, env) == CoreText(seed + FormalsText(params, ellipsis, env), ret, env);
  }

  // Lexing the text gives the tokens.

  lemma LexQuals(q: Quals, s: string)
    ensures Lex(Qualified(q, s)) == QualTokens(q) + Lex(s)
  {
    hide Lex;
    assert "const" + " " == "const " && "volatile" + " " == "volatile ";
    var s' := if q.c then "const " + s else s;
    LexQualifier("const", s);
    LexQualifier("volatile", s');
    if q.v && q.c {
      assert [Word("volatile")] + ([Word("const")] + Lex(s)) == QualTokens(q) + Lex(s);
    }
  }

  lemma LexQualifier(w: string, s: string)
    requires IsWord(w)
    ensures Lex(w + " " + s) == [Word(w)] + Lex(s)
  {
    LexWord(w);
    LexBlank(s);
    assert w + " " + s == w + ([' '] + s);
    LexSplit(w, [' '] + s);
  }

  lemma {:induction false} LexJoin(words: seq<string>)
    requires NameOk(words)
    ensures Lex(Join(words)) == WordTokens(words) && Join(words) != ""
  {
    LexWord(words[0]);
    if |words| == 1 {
      assert WordTokens(words[1..]) == [];
    } else {
      assert NameOk(words[1..]);
      LexJoin(words[1..]);
      LexQualifier(words[0], Join(words[1..]));
    }
  }

  lemma LexBound(bound: Option<nat>)
    ensures Lex(BoundText(bound)) == BoundTokens(bound)
  {
    LexPunct('[');
    LexPunct(']');
    if bound.None? {
      assert "[]" == "[" + "]";
      LexSplit("[", "]");
    } else {
      LexWord(Decimal(bound.value));
      LexSplit("[" + Decimal(bound.value), "]");
      LexSplit("[", Decimal(bound.value));
    }
  }

  lemma LexPointer(seed: string, to: Type, q: Quals, env: Env)
    ensures Lex(PointerText(seed, to, q, env)) == PointerTokens(Lex(seed), to, q, env)
  {
    hide Lex, Qualified, QualTokens;
    LexPunct('*');
    LexPunct('(');
    LexPunct(')');
    LexQuals(q, seed);
    var s := "*" + Qualified(q, seed);
    LexSplit("*", Qualified(q, seed));
    LexSplit("(" + s, ")");
    LexSplit("(", s);
  }

  /** The declarator's text. */
  lemma {:induction false} LexCore(seed: string, t: Type, env: Env)
    requires WordsOk(t)
    ensures Lex(CoreText(seed, t, env)) == Declarator(Lex(seed), t, env)
    decreases t, 0
  {
    match t
    case Base(_, _) =>
    case Pointer(to, q) =>
      LexPointer(seed, to, q, env);
      LexCore(PointerText(seed, to, q, env), to, env);
    case Array(bound, of) =>
      var b := PrintedBound(bound, of, env);
      LexBound(b);
      LexSplit(seed, BoundText(b));
      LexCore(seed + BoundText(b), of, env);
    case Function(params, ellipsis, ret) =>
      LexFormals(params, ellipsis, env);
      LexSplit(seed, FormalsText(params, ellipsis, env));
      LexCore(seed + FormalsText(params, ellipsis, env), ret, env);
  }

  lemma AffixAfter(w: string, s: string, name: string)
    requires w == "const " || w == "volatile "
    ensures Affix(w + s, name) == w + Affix(s, name)
  {
    var n := LeadingQuals(s);
    assert (w + s)[|w|..] == s && w <= w + s;
    if w == "const " {
      assert (w + s)[0] == 'c';
    }
    assert LeadingQuals(w + s) == |w| + n;
    assert (w + s)[..|w| + n] == w + s[..n] && (w + s)[|w| + n..] == s[n..];
    assert w + s[..n] + name + " " + s[n..] == w + (s[..n] + name + " " + s[n..]);
  }

  lemma AffixBefore(s: string, name: string)
    requires Unqualified(s)
    ensures Affix(s, name) == name + " " + s
  {
    assert s[..0] + name == name && s[0..] == s;
  }

  /** affix_data_type puts the name between the qualifiers and the declarator. */
  lemma AffixSplits(q: Quals, s: string, name: string)
    ensures Affix(Qualified(q, s), name) == Qualified(q, Affix(s, name))
  {
    hide Affix;
    var s' := if q.c then "const " + s else s;
    AffixAfter("const ", s, name);
    AffixAfter("volatile ", s', name);
  }

  /** A whole declaration's text. */
  lemma {:induction false} LexDeclaration(seed: string, t: Type, env: Env)
    requires WordsOk(t) && SeedOk(seed)
    ensures Lex(Affix(TypeText(seed, t, env), Join(BaseWords(t)))) == Declaration(Lex(seed), t, env)
    decreases t, 1
  {
    hide Lex, Qualified, Affix, TypeText, CoreText, Declarator;
    var core, name := CoreText(seed, t, env), Join(BaseWords(t));
    BaseWordsOk(t);
    TextIsQualified(seed, t, env);
    CoreUnqualified(seed, t, env);
    AffixSplits(BaseQuals(t), core, name);
    AffixBefore(core, name);
    LexQuals(BaseQuals(t), name + " " + core);
    LexJoin(BaseWords(t));
    LexBlank(core);
    assert name + " " + core == name + ([' '] + core);
    LexSplit(name, [' '] + core);
    LexCore(seed, t, env);
    assert QualTokens(BaseQuals(t)) + (WordTokens(BaseWords(t)) + Declarator(Lex(seed), t, env)) == Declaration(Lex(seed), t, env);
  }

  lemma LexEntityName(own: Quals, s: string)
    ensures Lex(EntityText(own, s)) == EntityTokens(own) + Lex(s)
  {
    hide Lex;
    assert "const" + " " == "const " && "volatile" + " " == "volatile ";
    var s' := if own.v then "volatile " + s else s;
    LexQualifier("volatile", s);
    LexQualifier("const", s');
    if own.v && own.c {
      assert [Word("const")] + ([Word("volatile")] + Lex(s)) == EntityTokens(own) + Lex(s);
    }
  }

  lemma AffixEntity(own: Quals, s: string, name: string)
    ensures Affix(EntityText(own, s), name) == EntityText(own, Affix(s, name))
  {
    hide Affix;
    var s' := if own.v then "volatile " + s else s;
    AffixAfter("volatile ", s, name);
    AffixAfter("const ", s', name);
  }

  lemma EntityGrows(own: Quals, s: string, more: string)
    ensures EntityText(own, s) + more == EntityText(own, s + more)
  {
    assert "volatile " + s + more == "volatile " + (s + more);
    var s' := if own.v then "volatile " + s else s;
    assert "const " + s' + more == "const " + (s' + more);
  }

  lemma LexEntityBase(own: Quals, s: string, words: seq<string>, q: Quals)
    requires NameOk(words) && SeedOk(s)
    ensures Lex(Affix(Qualified(q, EntityText(own, s)), Join(words))) == QualTokens(q) + EntityTokens(own) + WordTokens(words) + Lex(s)
  {
    hide Lex, Qualified, Affix, EntityText, QualTokens, EntityTokens, Join, WordTokens;
    var name := Join(words);
    AffixSplits(q, EntityText(own, s), name);
    AffixEntity(own, s, name);
    SeedUnqualified(s);
    AffixBefore(s, name);
    LexQuals(q, EntityText(own, name + " " + s));
    LexEntityName(own, name + " " + s);
    LexJoin(words);
    LexBlank(s);
    assert name + " " + s == name + ([' '] + s);
    LexSplit(name, [' '] + s);
    assert QualTokens(q) + (EntityTokens(own) + (WordTokens(words) + Lex(s)))
           == QualTokens(q) + EntityTokens(own) + WordTokens(words) + Lex(s);
  }

  lemma PointerStartsPlain(seed: string, to: Type, q: Quals, env: Env)
    ensures SeedOk(PointerText(seed, to, q, env))
  {
    assert PointerText(seed, to, q, env)[0] == '*' || PointerText(seed, to, q, env)[0] == '(';
  }

  /** A whole declaration's text, with the qualifiers the entity itself was declared with. */
  lemma {:induction false} LexEntity(own: Quals, s: string, t: Type, env: Env)
    requires WordsOk(t) && SeedOk(s) && Within(own, ElementQuals(t))
    ensures Lex(Affix(TypeText(EntityText(own, s), t, env), Join(BaseWords(t)))) == EntityDeclaration(own, Lex(s), t, env)
    decreases t
  {
    hide Lex, Affix, SeedOk, EntityText, EntityTokens, Qualified, QualTokens, PointerText, PointerTokens,
         Declaration, Join, FormalsText;
    match t
    case Base(words, q) => LexEntityBase(own, s, words, q);
    case Pointer(to, q) =>
      LexEntityName(own, s);
      LexPointer(EntityText(own, s), to, q, env);
      PointerStartsPlain(EntityText(own, s), to, q, env);
      LexDeclaration(PointerText(EntityText(own, s), to, q, env), to, env);
    case Array(bound, of) =>
      var b := PrintedBound(bound, of, env);
      EntityGrows(own, s, BoundText(b));
      SeedGrows(s, BoundText(b));
      LexBound(b);
      LexSplit(s, BoundText(b));
      LexEntity(own, s + BoundText(b), of, env);
    case Function(_, _, _) =>
      PlainEntity(s);
      LexDeclaration(s, t, env);
  }

  lemma PlainEntity(s: string)
    ensures EntityText(PLAIN, s) == s
  {
  }

  lemma {:induction false} BaseWordsOk(t: Type)
    requires WordsOk(t)
    ensures NameOk(BaseWords(t))
    decreases t
  {
    match t
    case Base(_, _) =>
    case Pointer(to, _) => BaseWordsOk(to);
    case Array(_, of) => BaseWordsOk(of);
    case Function(_, _, ret) => BaseWordsOk(ret);
  }

  lemma {:induction false} LexFormal(p: Type, env: Env)
    requires WordsOk(p)
    ensures Lex(FormalText(p, env)) == Declaration([], p, env) && FormalText(p, env) != ""
    decreases p, 2
  {
    if TypeText("", p, env) == "" {
      BaseWordsOk(p);
      LexJoin(BaseWords(p));
      BareFormal(p, env);
    } else {
      LexDeclaration("", p, env);
      LexNothing();
      AffixNonempty(TypeText("", p, env), Join(BaseWords(p)));
    }
  }

  lemma BareFormal(p: Type, env: Env)
    requires WordsOk(p) && TypeText("", p, env) == ""
    ensures Declaration([], p, env) == WordTokens(BaseWords(p))
    decreases p, 1
  {
    hide Lex, Qualified, TypeText, CoreText, Declarator;
    TextIsQualified("", p, env);
    LexCore("", p, env);
    LexNothing();
    EmptyQualified(BaseQuals(p), CoreText("", p, env));
  }

  lemma EmptyQualified(q: Quals, s: string)
    requires Qualified(q, s) == ""
    ensures s == "" && QualTokens(q) == []
  {
  }

  lemma AffixNonempty(s: string, name: string)
    ensures Affix(s, name) != ""
  {
  }

  lemma LexComma()
    ensures Lex(", ") == [Punct(',')]
  {
  }

  lemma LexNothing()
    ensures Lex("") == []
  {
  }

  lemma {:induction false} LexList(params: seq<Type>, env: Env)
    requires forall p :: p in params ==> WordsOk(p)
    ensures Lex(FormalList(params, env)) == ListTokens(params, env)
    ensures params != [] ==> FormalList(params, env) != ""
    decreases params, 0
  {
    hide Lex, FormalText, Declaration;
    LexNothing();
    if params != [] {
      var k := |params| - 1;
      LexList(params[..k], env);
      LexFormal(params[k], env);
      var before := FormalList(params[..k], env);
      if k > 0 {
        LexComma();
        LexSplit(before, ", ");
        LexSplit(before + ", ", FormalText(params[k], env));
        assert Lex(FormalList(params, env)) == ListTokens(params[..k], env) + [Punct(',')] + Declaration([], params[k], env);
      } else {
        assert params[..k] == [];
        assert "" + FormalText(params[k], env) == FormalText(params[k], env);
        assert [] + Declaration([], params[k], env) == Declaration([], params[k], env);
      }
    }
  }

  lemma {:induction false} LexFormals(params: seq<Type>, ellipsis: bool, env: Env)
    requires forall p :: p in params ==> WordsOk(p)
    ensures Lex(FormalsText(params, ellipsis, env)) == FormalsTokens(params, ellipsis, env)
    decreases params, 1
  {
    hide Lex;
    LexList(params, env);
    var list := FormalList(params, env);
    var inner := if list == "" then "void" else if ellipsis then list + ", ..." else list;
    LexWord("void");
    LexEllipsis(list);
    LexPunct('(');
    LexPunct(')');
    assert " (" == [' '] + "(";
    LexBlank("(");
    LexSplit(" (" + inner, ")");
    LexSplit(" (", inner);
  }

  lemma LexEllipsis(list: string)
    ensures Lex(list + ", ...") == Lex(list) + EllipsisTokens(true)
  {
    LexSplit(list, ", ...");
    LexPunct(',');
    LexPunct('.');
    LexBlank("...");
    assert ", ..." == "," + ([' '] + "...");
    LexSplit(",", [' '] + "...");
    assert "..." == "." + "..";
    LexSplit(".", "..");
    assert ".." == "." + ".";
    LexSplit(".", ".");
  }
}
