/** What a binding level does to the per-identifier local values, and what leaving it restores. */
module ScopeSpec {
  import opened Options

  type Name = string

  /** The tree codes of what an ordinary identifier can name. */
  datatype Kind = Variable | Parameter | Function | TypeName | Constant

  /** A declaration; those without a name are listed in their level but bind nothing. */
  datatype Decl = Decl(uid: nat, name: Option<Name>, kind: Kind)

  datatype Shadow = Shadow(name: Name, decl: Decl)

  type Values = map<Name, Decl>

  predicate Names(d: Decl, n: Name) {
    d.name == Some(n)
  }

  /** IDENTIFIER_LOCAL_VALUE of every identifier after the decls of a level (latest
      first) were installed over the values in force at its entry. */
  function LocalAfter(entry: Values, names: seq<Decl>): Values {
    if names == [] then entry
    else if names[0].name.None? then LocalAfter(entry, names[1..])
    else LocalAfter(entry, names[1..])[names[0].name.value := names[0]]
  }

  /** The level's `shadowed` list: each local value a decl displaced, latest first. */
  function ShadowedBy(entry: Values, names: seq<Decl>): seq<Shadow> {
    if names == [] then []
    else
      var d, rest := names[0], ShadowedBy(entry, names[1..]);
      if d.name.Some? && d.name.value in LocalAfter(entry, names[1..])
      then [Shadow(d.name.value, LocalAfter(entry, names[1..])[d.name.value])] + rest
      else rest
  }

  /** What poplevel's first loop leaves: the names of the level mean nothing. */
  function Cleared(values: Values, decls: seq<Decl>): Values {
    if decls == [] then values
    else if decls[|decls| - 1].name.None? then Cleared(values, decls[..|decls| - 1])
    else Cleared(values, decls[..|decls| - 1]) - {decls[|decls| - 1].name.value}
  }

  /** And its second: the shadowed values are put back in list order. */
  function Restored(values: Values, shadowed: seq<Shadow>): Values {
    if shadowed == [] then values
    else
      var s := shadowed[|shadowed| - 1];
      Restored(values, shadowed[..|shadowed| - 1])[s.name := s.decl]
  }

  /** The innermost declaration of a name in a level. */
  function FirstNamed(names: seq<Decl>, n: Name): (d: Option<Decl>)
    ensures d.Some? ==> d.value in names && Names(d.value, n)
    ensures d.None? ==> forall i :: 0 <= i < |names| ==> !Names(names[i], n)
  {
    if names == [] then None
    else if Names(names[0], n) then Some(names[0])
    else FirstNamed(names[1..], n)
  }

  /** The walk: from the innermost level (last) outward. */
  function Walk(levels: seq<seq<Decl>>, n: Name): Option<Decl> {
    if levels == [] then None
    else
      var here := FirstNamed(levels[|levels| - 1], n);
      if here.Some? then here else Walk(levels[..|levels| - 1], n)
  }

  function Value(values: Values, n: Name): Option<Decl> {
    if n in values then Some(values[n]) else None
  }

  /** The latest declaration of a name is its local value; other names keep theirs. */
  lemma {:induction false} LocalAfterValue(entry: Values, names: seq<Decl>, n: Name)
    ensures Value(LocalAfter(entry, names), n) ==
            if FirstNamed(names, n).Some? then FirstNamed(names, n) else Value(entry, n)
  {
    if names != [] {
      LocalAfterValue(entry, names[1..], n);
    }
  }

  predicate Declares(names: seq<Decl>, n: Name) {
    exists i :: 0 <= i < |names| && Names(names[i], n)
  }

  lemma {:induction false} ClearedValue(values: Values, decls: seq<Decl>, n: Name)
    ensures Value(Cleared(values, decls), n) == if Declares(decls, n) then None else Value(values, n)
  {
    if decls != [] {
      var k := |decls| - 1;
      ClearedValue(values, decls[..k], n);
      assert Declares(decls[..k], n) ==> Declares(decls, n) by {
        if Declares(decls[..k], n) {
          var i :| 0 <= i < k && Names(decls[..k][i], n);
          assert Names(decls[i], n);
        }
      }
      if Declares(decls, n) && !Names(decls[k], n) {
        var i :| 0 <= i < |decls| && Names(decls[i], n);
        assert Names(decls[..k][i], n);
      }
    }
  }

  /** The oldest value put aside for a name: restoring ends with it. */
  function Oldest(shadowed: seq<Shadow>, n: Name): Option<Decl> {
    if shadowed == [] then None
    else if shadowed[|shadowed| - 1].name == n then Some(shadowed[|shadowed| - 1].decl)
    else Oldest(shadowed[..|shadowed| - 1], n)
  }

  lemma {:induction false} RestoredValue(values: Values, shadowed: seq<Shadow>, n: Name)
    ensures Value(Restored(values, shadowed), n) ==
            if Oldest(shadowed, n).Some? then Oldest(shadowed, n) else Value(values, n)
  {
    if shadowed != [] {
      RestoredValue(values, shadowed[..|shadowed| - 1], n);
    }
  }

  lemma {:induction false} OldestAfter(s: Shadow, rest: seq<Shadow>, n: Name)
    ensures Oldest([s] + rest, n) ==
            if Oldest(rest, n).Some? then Oldest(rest, n) else if s.name == n then Some(s.decl) else None
  {
    if rest == [] {
      assert [s] + rest == [s];
      assert Oldest([s][..0], n) == None;
    } else {
      var k := |rest| - 1;
      OldestAfter(s, rest[..k], n);
      assert ([s] + rest)[..k + 1] == [s] + rest[..k];
    }
  }

  /** How many decls of a level name n. */
  function Count(names: seq<Decl>, n: Name): nat {
    if names == [] then 0 else (if Names(names[0], n) then 1 else 0) + Count(names[1..], n)
  }

  /** The oldest value put aside is the one in force at entry, or, failing that, the first
      decl of a name installed more than once. */
  lemma {:induction false} OldestShadowed(entry: Values, names: seq<Decl>, n: Name)
    ensures var o := Oldest(ShadowedBy(entry, names), n);
            && (Count(names, n) == 0 ==> o == None && FirstNamed(names, n) == None)
            && (Count(names, n) == 1 ==> o == Value(entry, n))
            && (Count(names, n) >= 1 ==> FirstNamed(names, n).Some?)
            && (Count(names, n) >= 2 ==> if n in entry then o == Some(entry[n]) else o.Some?)
  {
    if names != [] {
      var d, rest := names[0], names[1..];
      OldestShadowed(entry, rest, n);
      LocalAfterValue(entry, rest, n);
      if d.name.Some? && d.name.value in LocalAfter(entry, rest) {
        OldestAfter(Shadow(d.name.value, LocalAfter(entry, rest)[d.name.value]), ShadowedBy(entry, rest), n);
      }
    }
  }

  /** A name installed more than once in the level though no outer level declared it:
      its second decl put the first aside as if that were an outer one. */
  predicate Orphaned(entry: Values, names: seq<Decl>, n: Name) {
    Count(names, n) >= 2 && n !in entry
  }

  ghost predicate NoOrphans(entry: Values, names: seq<Decl>) {
    forall n :: !Orphaned(entry, names, n)
  }

  /** The local values poplevel leaves. */
  function Left(entry: Values, names: seq<Decl>, decls: seq<Decl>): Values {
    Restored(Cleared(LocalAfter(entry, names), decls), ShadowedBy(entry, names))
  }

  lemma {:induction false} CountDeclares(names: seq<Decl>, n: Name)
    ensures Declares(names, n) <==> Count(names, n) >= 1
  {
    if names != [] {
      CountDeclares(names[1..], n);
      if Declares(names, n) && !Names(names[0], n) {
        var i :| 0 <= i < |names| && Names(names[i], n);
        assert Names(names[1..][i - 1], n);
      }
      if Declares(names[1..], n) {
        var i :| 0 <= i < |names| - 1 && Names(names[1..][i], n);
        assert Names(names[i + 1], n);
      }
    }
  }

  ghost predicate SameDecls(a: seq<Decl>, b: seq<Decl>) {
    forall d :: d in a <==> d in b
  }

  lemma SameDeclares(a: seq<Decl>, b: seq<Decl>, n: Name)
    requires SameDecls(a, b)
    ensures Declares(a, n) == Declares(b, n)
  {
    if Declares(a, n) {
      var i :| 0 <= i < |a| && Names(a[i], n);
      assert a[i] in b;
    }
    if Declares(b, n) {
      var i :| 0 <= i < |b| && Names(b[i], n);
      assert b[i] in a;
    }
  }

  /** Leaving a level gives a name its value at entry exactly when the name is not orphaned. */
  lemma LeftValue(entry: Values, names: seq<Decl>, decls: seq<Decl>, n: Name)
    requires SameDecls(names, decls)
    ensures Value(Left(entry, names, decls), n) == Value(entry, n) <==> !Orphaned(entry, names, n)
  {
    SameDeclares(names, decls, n);
    CountDeclares(names, n);
    OldestShadowed(entry, names, n);
    LocalAfterValue(entry, names, n);
    ClearedValue(LocalAfter(entry, names), decls, n);
    RestoredValue(Cleared(LocalAfter(entry, names), decls), ShadowedBy(entry, names), n);
  }

  /** Leaving a level restores the local values in force at its entry if and only if no
      name of it was installed twice without an outer local declaration. */
  lemma RestoresExactly(entry: Values, names: seq<Decl>, decls: seq<Decl>)
    requires SameDecls(names, decls)
    ensures Left(entry, names, decls) == entry <==> NoOrphans(entry, names)
  {
    var left := Left(entry, names, decls);
    if left == entry {
      forall n ensures !Orphaned(entry, names, n) {
        LeftValue(entry, names, decls, n);
      }
    } else if NoOrphans(entry, names) {
      forall n ensures Value(left, n) == Value(entry, n) {
        LeftValue(entry, names, decls, n);
      }
      SameValues(left, entry);
    }
  }

  lemma SameValues(a: Values, b: Values)
    requires forall n :: Value(a, n) == Value(b, n)
    ensures a == b
  {
    forall n ensures n in a <==> n in b {
      assert Value(a, n) == Value(b, n);
    }
    forall n | n in a ensures a[n] == b[n] {
      assert Value(a, n) == Value(b, n);
    }
  }

  // From the text of a level to what is installed in it.

  /** What duplicate_decls answers for a redeclaration in the same level: even one of
      another type is merged into the old decl, one of another kind is not. */
  predicate Merges(earlier: Decl, x: Decl) {
    earlier.kind == x.kind
  }

  /** The decl x is merged into, if any. */
  function MergedInto(names: seq<Decl>, x: Decl): Option<Decl> {
    var found := if x.name.Some? then FirstNamed(names, x.name.value) else None;
    if found.Some? && Merges(found.value, x) then found else None
  }

  function Declare(names: seq<Decl>, x: Decl): seq<Decl> {
    if MergedInto(names, x).Some? then names else [x] + names
  }

  /** The decls of a level, latest first, from its declarations in the order written. */
  function Installed(text: seq<Decl>): seq<Decl> {
    if text == [] then [] else Declare(Installed(text[..|text| - 1]), text[|text| - 1])
  }

  predicate OneKind(text: seq<Decl>, n: Name) {
    forall x, y :: x in text && y in text && Names(x, n) && Names(y, n) ==> x.kind == y.kind
  }

  /** No name is declared in a level as two kinds of symbol, unless an outer level
      declared it. */
  ghost predicate TextKeeps(entry: Values, text: seq<Decl>) {
    forall n :: n !in entry ==> OneKind(text, n)
  }

  lemma {:induction false} InstalledIn(text: seq<Decl>)
    ensures forall d :: d in Installed(text) ==> d in text
    ensures forall n, x :: x in text && Names(x, n) ==> FirstNamed(Installed(text), n).Some?
  {
    if text != [] {
      InstalledIn(text[..|text| - 1]);
      assert text == text[..|text| - 1] + [text[|text| - 1]];
    }
  }

  lemma {:induction false} CountFound(names: seq<Decl>, n: Name)
    ensures Count(names, n) >= 1 <==> FirstNamed(names, n).Some?
  {
    if names != [] {
      CountFound(names[1..], n);
    }
  }

  /** A name is installed twice exactly when it is declared as two kinds of symbol. */
  lemma {:induction false} TwiceExactly(text: seq<Decl>, n: Name)
    ensures Count(Installed(text), n) >= 2 <==> !OneKind(text, n)
  {
    if text != [] {
      var before, x := text[..|text| - 1], text[|text| - 1];
      assert text == before + [x];
      TwiceExactly(before, n);
      InstalledIn(before);
      CountFound(Installed(before), n);
      OneKindNext(before, x, n);
      assert ([x] + Installed(before))[1..] == Installed(before);
    }
  }

  lemma OneKindNext(before: seq<Decl>, x: Decl, n: Name)
    ensures OneKind(before + [x], n) <==>
            OneKind(before, n) && (Names(x, n) ==> forall y :: y in before && Names(y, n) ==> y.kind == x.kind)
  {
    var text := before + [x];
    assert x in text && forall y :: y in before ==> y in text;
  }

  /** So the condition for leaving a level can be read off its text. */
  lemma KeptByText(entry: Values, text: seq<Decl>)
    ensures NoOrphans(entry, Installed(text)) <==> TextKeeps(entry, text)
  {
    forall n ensures Orphaned(entry, Installed(text), n) <==> n !in entry && !OneKind(text, n) {
      TwiceExactly(text, n);
    }
    if !NoOrphans(entry, Installed(text)) {
      var n :| Orphaned(entry, Installed(text), n);
      assert !OneKind(text, n);
    }
    if !TextKeeps(entry, text) {
      var n :| n !in entry && !OneKind(text, n);
      assert Orphaned(entry, Installed(text), n);
    }
  }

  /** Leaving a level restores the local values in force at its entry if and only if it
      declares no name as two kinds of symbol without an outer local declaration. */
  lemma LeavingExactly(entry: Values, text: seq<Decl>, decls: seq<Decl>)
    requires SameDecls(Installed(text), decls)
    ensures Left(entry, Installed(text), decls) == entry <==> TextKeeps(entry, text)
  {
    RestoresExactly(entry, Installed(text), decls);
    KeptByText(entry, text);
  }

  /** `{ int x; typedef int x; }` with no outer local x leaves the variable behind as
      local value. */
  lemma OrphanLeft()
    ensures var x0, x1 := Decl(0, Some("x"), Variable), Decl(1, Some("x"), TypeName);
            Installed([x0, x1]) == [x1, x0] && Left(map[], [x1, x0], [x0, x1]) == map["x" := x0]
  {
    var x0, x1 := Decl(0, Some("x"), Variable), Decl(1, Some("x"), TypeName);
    var entry: Values := map[];
    assert [x0, x1][..1] == [x0] && [x0][..0] == [];
    assert Installed([x0]) == [x0];
    assert [x1, x0][1..] == [x0] && [x0][1..] == [];
    assert LocalAfter(entry, [x0]) == map["x" := x0];
    assert ShadowedBy(entry, [x0]) == [];
    assert ShadowedBy(entry, [x1, x0]) == [Shadow("x", x0)];
    assert [Shadow("x", x0)][..0] == [];
    var values := LocalAfter(entry, [x1, x0]);
    assert values == map["x" := x1];
    assert Cleared(values, [x0]) == values - {"x"} == map[];
    assert Cleared(values, [x0, x1]) == Cleared(values, [x0]) - {"x"} == map[];
    assert Restored(map[], [Shadow("x", x0)]) == map["x" := x0];
  }

  /** Levels whose entry values are those left by the levels outside. */
  function LocalsOf(levels: seq<seq<Decl>>): Values {
    if |levels| <= 1 then map[] else LocalAfter(LocalsOf(levels[..|levels| - 1]), levels[|levels| - 1])
  }

  /** The cached values answer as the walk does: the local value if there is one, else the
      global value (that of the outermost level). */
  lemma {:induction false} CacheIsWalk(levels: seq<seq<Decl>>, n: Name)
    requires |levels| >= 1
    ensures Walk(levels, n) ==
            if n in LocalsOf(levels) then Some(LocalsOf(levels)[n]) else Value(LocalAfter(map[], levels[0]), n)
    decreases |levels|
  {
    var k := |levels| - 1;
    if k == 0 {
      LocalAfterValue(map[], levels[0], n);
      assert Walk(levels[..0], n) == None;
    } else {
      CacheIsWalk(levels[..k], n);
      LocalAfterValue(LocalsOf(levels[..k]), levels[k], n);
      assert levels[..k][0] == levels[0];
    }
  }
}
