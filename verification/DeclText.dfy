/** Declarations as text, and the tokens a lexer makes of it. */
module DeclText {
  /** A word (identifier, keyword or number) or one punctuation character. */
  datatype Token = Word(text: string) | Punct(c: char)

  predicate IsWordChar(c: char) {
    'a' <= c <= 'z' || 'A' <= c <= 'Z' || '0' <= c <= '9' || c == '_'
  }

  predicate IsWord(s: string) {
    s != [] && forall i :: 0 <= i < |s| ==> IsWordChar(s[i])
  }

  /** How many word characters s starts with. */
  function WordLength(s: string): (n: nat)
    ensures n <= |s| && (forall i :: 0 <= i < n ==> IsWordChar(s[i])) && (n < |s| ==> !IsWordChar(s[n]))
  {
    if s == [] || !IsWordChar(s[0]) then 0 else 1 + WordLength(s[1..])
  }

  function Lex(s: string): seq<Token>
    decreases |s|
  {
    if s == [] then []
    else if s[0] == ' ' then Lex(s[1..])
    else if IsWordChar(s[0]) then [Word(s[..WordLength(s)])] + Lex(s[WordLength(s)..])
    else [Punct(s[0])] + Lex(s[1..])
  }

  /** No word runs across the seam of a + b. */
  predicate Seam(a: string, b: string) {
    a == [] || b == [] || !IsWordChar(a[|a| - 1]) || !IsWordChar(b[0])
  }

  lemma {:induction false} WordLengthSplit(a: string, b: string)
    requires Seam(a, b) && a != []
    ensures WordLength(a + b) == WordLength(a)
    decreases |a|
  {
    if IsWordChar(a[0]) {
      assert (a + b)[1..] == a[1..] + b;
      if |a| > 1 {
        WordLengthSplit(a[1..], b);
      } else {
        assert a[1..] + b == b;
      }
    }
  }

  /** Lexing one token, or one space. */
  lemma LexFirst(s: string)
    requires s != []
    ensures IsWordChar(s[0]) ==> 0 < WordLength(s) <= |s| && Lex(s) == [Word(s[..WordLength(s)])] + Lex(s[WordLength(s)..])
    ensures !IsWordChar(s[0]) ==> Lex(s) == (if s[0] == ' ' then [] else [Punct(s[0])]) + Lex(s[1..])
  {
  }

  /** Text put together at a seam lexes as its parts do. */
  lemma {:induction false} LexSplit(a: string, b: string)
    requires Seam(a, b)
    ensures Lex(a + b) == Lex(a) + Lex(b)
    decreases |a|
  {
    hide Lex, WordLength;
    if a == [] {
      assert a + b == b;
      LexEmpty();
    } else {
      LexFirst(a);
      LexFirst(a + b);
      if IsWordChar(a[0]) {
        WordLengthSplit(a, b);
        var n := WordLength(a);
        assert (a + b)[..n] == a[..n] && (a + b)[n..] == a[n..] + b;
        LexSplit(a[n..], b);
      } else {
        assert (a + b)[1..] == a[1..] + b;
        LexSplit(a[1..], b);
      }
    }
  }

  lemma LexEmpty()
    ensures Lex([]) == []
  {
  }

  lemma {:induction false} LexWord(w: string)
    requires IsWord(w)
    ensures Lex(w) == [Word(w)]
  {
    WholeWord(w);
    assert w[..|w|] == w && w[|w|..] == [];
  }

  lemma {:induction false} WholeWord(w: string)
    requires forall i :: 0 <= i < |w| ==> IsWordChar(w[i])
    ensures WordLength(w) == |w|
  {
  }

  lemma LexPunct(c: char)
    requires !IsWordChar(c) && c != ' '
    ensures Lex([c]) == [Punct(c)]
  {
  }

  lemma LexBlank(s: string)
    ensures Lex([' '] + s) == Lex(s)
  {
  }

  // Numbers.

  function DigitChar(d: nat): (c: char)
    requires d < 10
  {
    '0' + d as char
  }

  /** sprintf's %d of a nonnegative number. */
  function Decimal(n: nat): (s: string)
    ensures IsWord(s)
  {
    if n < 10 then [DigitChar(n)] else Decimal(n / 10) + [DigitChar(n % 10)]
  }

  predicate IsNumber(s: string) {
    s != [] && forall i :: 0 <= i < |s| ==> '0' <= s[i] <= '9'
  }

  function NumberOf(s: string): nat
    requires IsNumber(s)
  {
    var d := s[|s| - 1] as int - '0' as int;
    if |s| == 1 then d else NumberOf(s[..|s| - 1]) * 10 + d
  }

  lemma {:induction false} DecimalReads(n: nat)
    ensures IsNumber(Decimal(n)) && NumberOf(Decimal(n)) == n
  {
    if n >= 10 {
      DecimalReads(n / 10);
      assert Decimal(n)[..|Decimal(n)| - 1] == Decimal(n / 10);
    }
  }
}
