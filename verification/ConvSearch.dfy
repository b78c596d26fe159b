/** The search for a chain of conversions. */
module ConvSearch {
  import opened Lists
  import opened Options
  import opened Arith
  import opened ConvChain

  const BIG_ARBITRARY_NUMBER := 100000
  const NO_OPCODE := -1

  /** One link of a conversion list, from the first to the latest. */
  datatype Node = Node(opcode: int, to: TypeCode, cost: int)

  type Chain = seq<Node>

  type Table = seq<Conversion>

  function Codes(c: Chain): (codes: seq<TypeCode>)
    ensures |codes| == |c| && forall i :: 0 <= i < |c| ==> codes[i] == c[i].to
  {
    if c == [] then [] else Codes(c[..|c| - 1]) + [c[|c| - 1].to]
  }

  function Link(v: Conversion): Node { Node(v.opcode, v.to, v.cost) }

  /** Each link is a conversion of the table from where the chain then stood. */
  predicate Linked(table: Table, c: Chain, k: nat)
    requires 0 < k < |c|
  {
    exists i :: 0 <= i < |table| && table[i].from == c[k - 1].to && c[k] == Link(table[i])
  }

  predicate LinkedAll(table: Table, c: Chain) {
    forall k {:trigger Linked(table, c, k)} :: 0 < k < |c| ==> Linked(table, c, k)
  }

  predicate IsChain(table: Table, from: TypeCode, c: Chain) {
    && c != [] && c[0] == Node(NO_OPCODE, from, 0)
    && LinkedAll(table, c)
    && Reasonable(Codes(c))
  }

  function Last(c: Chain): TypeCode
    requires c != []
  {
    c[|c| - 1].to
  }

  predicate Arrived(c: Chain, to: TypeCode) {
    c != [] && c[|c| - 1].to == to
  }

  /** A chain that has not been at `to` before its last link. */
  predicate Fresh(c: Chain, to: TypeCode) {
    forall k :: 0 <= k < |c| - 1 ==> c[k].to != to
  }

  lemma ChainExtends(table: Table, from: TypeCode, c: Chain, i: nat)
    requires IsChain(table, from, c) && i < |table| && table[i].from == Last(c)
    ensures IsChain(table, from, c + [Link(table[i])]) <==> Reasonable(Codes(c) + [table[i].to])
  {
    hide Reasonable, LinkedAll;
    LongerLinked(table, c, i);
    assert (c + [Link(table[i])])[..|c|] == c;
    assert Codes(c + [Link(table[i])]) == Codes(c) + [table[i].to];
  }

  lemma LongerLinked(table: Table, c: Chain, i: nat)
    requires c != [] && LinkedAll(table, c) && i < |table| && table[i].from == Last(c)
    ensures LinkedAll(table, c + [Link(table[i])])
  {
    var longer := c + [Link(table[i])];
    forall k | 0 < k < |longer| ensures Linked(table, longer, k) {
      if k < |c| {
        assert Linked(table, c, k);
      }
    }
  }

  lemma ChainShortens(table: Table, from: TypeCode, c: Chain) returns (i: nat)
    requires IsChain(table, from, c) && |c| > 1
    ensures IsChain(table, from, c[..|c| - 1]) && i < |table|
    ensures table[i].from == Last(c[..|c| - 1]) && c == c[..|c| - 1] + [Link(table[i])]
  {
    hide Reasonable;
    var n := |c| - 1;
    ShorterReasonable(c);
    ShorterLinked(table, c);
    assert Linked(table, c, n);
    i :| 0 <= i < |table| && table[i].from == c[n - 1].to && c[n] == Link(table[i]);
  }

  lemma ShorterReasonable(c: Chain)
    requires |c| > 1 && Reasonable(Codes(c))
    ensures Reasonable(Codes(c[..|c| - 1]))
  {
    var n := |c| - 1;
    assert Codes(c) == Codes(c[..n]) + [c[n].to];
    ReasonablePrefix(Codes(c[..n]), c[n].to);
  }

  lemma ShorterLinked(table: Table, c: Chain)
    requires |c| > 1 && LinkedAll(table, c)
    ensures LinkedAll(table, c[..|c| - 1])
  {
    var shorter := c[..|c| - 1];
    forall k | 0 < k < |shorter| ensures Linked(table, shorter, k) {
      assert Linked(table, c, k);
    }
  }

  // No chain is longer than there are typecodes.

  function NumbersOf(codes: seq<TypeCode>): set<nat> {
    if codes == [] then {} else NumbersOf(codes[..|codes| - 1]) + {Number(codes[|codes| - 1])}
  }

  lemma {:induction false} NumbersIn(codes: seq<TypeCode>, c: TypeCode)
    ensures Number(c) in NumbersOf(codes) <==> c in codes
    ensures forall n :: n in NumbersOf(codes) ==> n < 13
  {
    if codes != [] {
      var k := |codes| - 1;
      NumbersIn(codes[..k], c);
      assert codes == codes[..k] + [codes[k]];
    }
  }

  lemma {:induction false} DistinctCount(codes: seq<TypeCode>)
    requires Distinct(codes)
    ensures |NumbersOf(codes)| == |codes|
  {
    if codes != [] {
      var k := |codes| - 1;
      assert codes == codes[..k] + [codes[k]];
      DistinctLast(codes[..k], codes[k]);
      DistinctCount(codes[..k]);
      NumbersIn(codes[..k], codes[k]);
    }
  }

  lemma AtMostThirteen(codes: seq<TypeCode>)
    requires Distinct(codes)
    ensures |codes| <= 13
  {
    DistinctCount(codes);
    NumbersIn(codes, QI);
    BoundedSet(NumbersOf(codes), 13);
  }

  lemma {:induction false} BoundedSet(s: set<nat>, n: nat)
    requires forall x :: x in s ==> x < n
    ensures |s| <= n
    decreases n
  {
    if n == 0 {
      assert s == {};
    } else {
      BoundedSet(s - {n - 1}, n - 1);
      if n - 1 in s {
        assert |s - {n - 1}| == |s| - 1;
      } else {
        assert s - {n - 1} == s;
      }
    }
  }

  // One round of the search.

  predicate AllChains(table: Table, from: TypeCode, cs: seq<Chain>) {
    forall c :: c in cs ==> IsChain(table, from, c)
  }

  /** What a sweep takes out of a round, in order: a chain that has arrived, unless it
      follows one just taken out, which is stepped over. */
  function Taken(pending: seq<Chain>, to: TypeCode): seq<Chain> {
    if pending == [] then []
    else if !Arrived(pending[0], to) then Taken(pending[1..], to)
    else [pending[0]] + if |pending| > 1 then Taken(pending[2..], to) else []
  }

  /** And what it leaves. */
  function Rest(pending: seq<Chain>, to: TypeCode): seq<Chain> {
    if pending == [] then []
    else if !Arrived(pending[0], to) then [pending[0]] + Rest(pending[1..], to)
    else if |pending| > 1 then [pending[1]] + Rest(pending[2..], to) else []
  }

  lemma {:induction false} TakenOrRest(pending: seq<Chain>, to: TypeCode)
    ensures forall c :: c in pending <==> c in Taken(pending, to) || c in Rest(pending, to)
    ensures forall c :: c in Taken(pending, to) ==> Arrived(c, to)
    ensures (exists c :: c in pending && Arrived(c, to)) <==> Taken(pending, to) != []
    decreases |pending|
  {
    if pending != [] {
      if !Arrived(pending[0], to) {
        TakenOrRest(pending[1..], to);
        assert pending == [pending[0]] + pending[1..];
      } else if |pending| > 1 {
        TakenOrRest(pending[2..], to);
        assert pending == [pending[0], pending[1]] + pending[2..];
      }
    }
  }

  /** The sweep: chains that have arrived go to `good`; the one after a chain taken out
      is stepped over. */
  method Sweep(pending: seq<Chain>, good: seq<Chain>, to: TypeCode) returns (rest: seq<Chain>, good': seq<Chain>)
    requires forall c :: c in pending ==> c != []
    ensures rest == Rest(pending, to) && good' == Reversed(Taken(pending, to)) + good
    ensures forall c :: c in pending && !Arrived(c, to) ==> c in rest
    ensures forall c :: c in rest ==> c in pending
    ensures forall c :: c in good' ==> c in good || (c in pending && Arrived(c, to))
    ensures forall c :: c in good ==> c in good'
    ensures good != [] ==> good' != []
    ensures good == [] ==> (good' != [] <==> exists c :: c in pending && Arrived(c, to))
  {
    hide Swept, Taken, Rest, Reversed, Arrived;
    rest, good' := pending, good;
    var i := 0;
    ghost var taken: seq<Chain> := [];
    SweptStart(pending, to);
    ReversedNext<Chain>([], pending, good);
    while i < |rest|
      invariant 0 <= i && (forall c :: c in rest ==> c != []) && Swept(pending, rest, i, taken, to)
      invariant good' == Reversed(taken) + good
      decreases |rest| - i
    {
      assert rest[i] in rest;
      ArrivedIs(rest[i], to);
      if rest[i][|rest[i]| - 1].to == to {
        SweptTakes(pending, rest, i, taken, to);
        SplitAt(rest, i);
        ghost var was := rest;
        ReversedNext(taken, [rest[i]], good);
        good' := [rest[i]] + good';
        taken := taken + [rest[i]];
        rest := rest[..i] + rest[i + 1..];
        assert forall c :: c in rest ==> c in was;
      } else {
        SweptLeaves(pending, rest, i, taken, to);
      }
      i := i + 1;
    }
    SweptDone(pending, rest, i, taken, to);
    TakenOrRest(pending, to);
    InReversed(Taken(pending, to));
  }

  lemma ArrivedIs(c: Chain, to: TypeCode)
    requires c != []
    ensures Arrived(c, to) <==> c[|c| - 1].to == to
  {
  }

  /** Where a sweep stands: before i it is done, and from i on it is still to be done,
      unless the last entry was stepped over. */
  ghost predicate Swept(pending: seq<Chain>, rest: seq<Chain>, i: nat, taken: seq<Chain>, to: TypeCode) {
    || (i <= |rest| && taken + Taken(rest[i..], to) == Taken(pending, to) && rest[..i] + Rest(rest[i..], to) == Rest(pending, to))
    || (i == |rest| + 1 && taken == Taken(pending, to) && rest == Rest(pending, to))
  }

  lemma SweptStart(pending: seq<Chain>, to: TypeCode)
    ensures Swept(pending, pending, 0, [], to)
  {
    assert pending[0..] == pending;
  }

  lemma SweptLeaves(pending: seq<Chain>, rest: seq<Chain>, i: nat, taken: seq<Chain>, to: TypeCode)
    requires i < |rest| && Swept(pending, rest, i, taken, to) && !Arrived(rest[i], to)
    ensures Swept(pending, rest, i + 1, taken, to)
  {
    hide Arrived;
    assert rest[i..][1..] == rest[i + 1..] && rest[i..][0] == rest[i];
    assert rest[..i] + ([rest[i]] + Rest(rest[i + 1..], to)) == rest[..i + 1] + Rest(rest[i + 1..], to);
  }

  lemma SweptTakes(pending: seq<Chain>, rest: seq<Chain>, i: nat, taken: seq<Chain>, to: TypeCode)
    requires i < |rest| && Swept(pending, rest, i, taken, to) && Arrived(rest[i], to)
    ensures Swept(pending, rest[..i] + rest[i + 1..], i + 1, taken + [rest[i]], to)
  {
    hide Arrived;
    var after := rest[..i] + rest[i + 1..];
    TakesFirst(rest[i..], to);
    if i + 1 < |rest| {
      assert rest[i..][2..] == rest[i + 2..] == after[i + 1..];
      assert after[..i + 1] == rest[..i] + [rest[i + 1]];
      assert taken + ([rest[i]] + Taken(rest[i + 2..], to)) == (taken + [rest[i]]) + Taken(rest[i + 2..], to);
      assert rest[..i] + ([rest[i + 1]] + Rest(rest[i + 2..], to)) == after[..i + 1] + Rest(rest[i + 2..], to);
    } else {
      assert after == rest[..i] && rest[i..] == [rest[i]];
    }
  }

  lemma TakesFirst(pending: seq<Chain>, to: TypeCode)
    requires pending != [] && Arrived(pending[0], to)
    ensures |pending| > 1 ==> Taken(pending, to) == [pending[0]] + Taken(pending[2..], to)
                              && Rest(pending, to) == [pending[1]] + Rest(pending[2..], to)
    ensures |pending| == 1 ==> Taken(pending, to) == [pending[0]] && Rest(pending, to) == []
  {
  }

  lemma SweptDone(pending: seq<Chain>, rest: seq<Chain>, i: nat, taken: seq<Chain>, to: TypeCode)
    requires i >= |rest| && Swept(pending, rest, i, taken, to)
    ensures taken == Taken(pending, to) && rest == Rest(pending, to)
  {
    if i == |rest| {
      assert rest[i..] == [] && rest[..i] == rest;
    }
  }

  lemma ReversedNext<T>(s: seq<T>, one: seq<T>, more: seq<T>)
    ensures Reversed<T>([]) + more == more
    ensures |one| == 1 ==> Reversed(s + one) + more == one + (Reversed(s) + more)
  {
    if |one| == 1 {
      assert Reversed(s + one) == one + Reversed(s);
    }
  }

  lemma InReversed<T>(s: seq<T>)
    ensures forall x :: x in Reversed(s) <==> x in s
  {
    forall x | x in s ensures x in Reversed(s) {
      var i :| 0 <= i < |s| && s[i] == x;
      assert Reversed(s)[|s| - 1 - i] == x;
    }
  }

  lemma SplitAt(cs: seq<Chain>, i: nat)
    requires i < |cs|
    ensures forall c :: c in cs <==> c == cs[i] || c in cs[..i] + cs[i + 1..]
  {
  }

  /** The reasonable steps of a chain by the first n conversions, latest first. */
  function StepsOf(table: Table, c: Chain, n: nat): seq<Chain>
    requires n <= |table|
  {
    if n == 0 then []
    else
      var v := table[n - 1];
      (if Arrived(c, v.from) && Reasonable(Codes(c) + [v.to]) then [c + [Link(v)]] else []) + StepsOf(table, c, n - 1)
  }

  lemma StepsNone(table: Table, c: Chain)
    ensures StepsOf(table, c, 0) == []
  {
  }

  lemma StepsNext(table: Table, c: Chain, i: nat)
    requires i < |table| && c != []
    ensures StepsOf(table, c, i + 1) ==
            if table[i].from == Last(c) && Reasonable(Codes(c) + [table[i].to]) then [c + [Link(table[i])]] + StepsOf(table, c, i)
            else StepsOf(table, c, i)
  {
  }

  /** Those of all chains left, latest first. */
  function NextOf(table: Table, rest: seq<Chain>): seq<Chain> {
    if rest == [] then []
    else StepsOf(table, rest[|rest| - 1], |table|) + NextOf(table, rest[..|rest| - 1])
  }

  /** Every step of every chain still pending: the new chains, latest first. */
  method Extend(table: Table, from: TypeCode, rest: seq<Chain>) returns (pending: seq<Chain>)
    requires AllChains(table, from, rest)
    ensures pending == NextOf(table, rest)
    ensures AllChains(table, from, pending)
    ensures forall c :: c in pending ==> |c| > 1 && c[..|c| - 1] in rest
    ensures forall c :: IsChain(table, from, c) && |c| > 1 && c[..|c| - 1] in rest ==> c in pending
  {
    hide IsChain, StepsOf;
    pending := [];
    var j := 0;
    while j < |rest|
      invariant 0 <= j <= |rest| && pending == NextOf(table, rest[..j])
    {
      assert rest[j] in rest;
      var more := Steps(table, from, rest[j]);
      pending := more + pending;
      assert rest[..j + 1][..j] == rest[..j];
      j := j + 1;
    }
    assert rest[..j] == rest;
    NextAre(table, from, rest);
  }

  lemma ChainReady(table: Table, from: TypeCode, c: Chain)
    requires IsChain(table, from, c)
    ensures c != [] && Reasonable(Codes(c))
  {
  }

  /** The inner loop: one chain, all conversions of the table. */
  method Steps(table: Table, from: TypeCode, c: Chain) returns (more: seq<Chain>)
    requires IsChain(table, from, c)
    ensures more == StepsOf(table, c, |table|)
  {
    hide IsChain, Reasonable, StepsOf;
    ChainReady(table, from, c);
    StepsNone(table, c);
    more := [];
    var i := 0;
    while i < |table|
      invariant 0 <= i <= |table| && more == StepsOf(table, c, i)
    {
      StepsNext(table, c, i);
      if table[i].from == Last(c) {
        var ok := ConversionReasonable(table[i], Codes(c));
        if ok {
          more := [c + [Link(table[i])]] + more;
        }
      }
      i := i + 1;
    }
  }

  /** The chains of n steps that arrive nowhere before their end. */
  ghost predicate Round(table: Table, from: TypeCode, to: TypeCode, pending: seq<Chain>, n: nat) {
    && AllChains(table, from, pending) && (forall c :: c in pending ==> |c| == n + 1)
    && (forall c :: IsChain(table, from, c) && |c| == n + 1 && Fresh(c, to) ==> c in pending)
  }

  ghost predicate GoodChains(table: Table, from: TypeCode, to: TypeCode, good: seq<Chain>) {
    forall c :: c in good ==> IsChain(table, from, c) && Arrived(c, to)
  }

  lemma {:induction false} ChainPrefix(table: Table, from: TypeCode, c: Chain, m: nat)
    requires IsChain(table, from, c) && 1 <= m <= |c|
    ensures IsChain(table, from, c[..m])
    decreases |c|
  {
    hide IsChain;
    if m == |c| {
      assert c[..m] == c;
    } else {
      var i := ChainShortens(table, from, c);
      ChainPrefix(table, from, c[..|c| - 1], m);
      assert c[..|c| - 1][..m] == c[..m];
    }
  }

  /** A chain that arrives has not been there before. */
  lemma ArrivedFresh(table: Table, from: TypeCode, to: TypeCode, c: Chain, m: nat)
    requires IsChain(table, from, c) && Arrived(c, to) && m <= |c|
    ensures Fresh(c[..m], to)
  {
  }

  lemma RoundNext(table: Table, from: TypeCode, to: TypeCode, pending: seq<Chain>, rest: seq<Chain>, next: seq<Chain>, n: nat)
    requires Round(table, from, to, pending, n) && AllChains(table, from, next)
    requires forall c :: c in rest ==> c in pending
    requires forall c :: c in pending && !Arrived(c, to) ==> c in rest
    requires forall c :: c in next ==> |c| > 1 && c[..|c| - 1] in rest
    requires forall c :: IsChain(table, from, c) && |c| > 1 && c[..|c| - 1] in rest ==> c in next
    ensures Round(table, from, to, next, n + 1)
  {
    hide IsChain;
    forall c: Chain | IsChain(table, from, c) && |c| == n + 2 && Fresh(c, to) ensures c in next {
      var i := ChainShortens(table, from, c);
      FreshFront(c, to);
    }
  }

  lemma FreshFront(c: Chain, to: TypeCode)
    requires |c| > 1 && Fresh(c, to)
    ensures Fresh(c[..|c| - 1], to) && !Arrived(c[..|c| - 1], to)
  {
  }

  lemma RoundBounded(table: Table, from: TypeCode, to: TypeCode, pending: seq<Chain>, n: nat)
    requires Round(table, from, to, pending, n) && pending != []
    ensures n < 13 && AllChains(table, from, pending) && forall c :: c in pending ==> c != []
  {
    var c := pending[0];
    assert c in pending;
    AtMostThirteen(Codes(c));
  }

  lemma StartChain(table: Table, from: TypeCode)
    ensures IsChain(table, from, [Node(NO_OPCODE, from, 0)]) && Arrived([Node(NO_OPCODE, from, 0)], from)
  {
    assert Codes([Node(NO_OPCODE, from, 0)]) == [from];
  }

  lemma FirstRound(table: Table, from: TypeCode, to: TypeCode)
    ensures Round(table, from, to, [[Node(NO_OPCODE, from, 0)]], 0)
  {
    hide IsChain;
    StartChain(table, from);
    forall d: Chain | IsChain(table, from, d) ensures d != [] && (|d| == 1 ==> d == [Node(NO_OPCODE, from, 0)]) {
      ChainReady(table, from, d);
      if |d| == 1 {
        OneNode(table, from, d);
      }
    }
  }

  lemma OneNode(table: Table, from: TypeCode, d: Chain)
    requires IsChain(table, from, d) && |d| == 1
    ensures d == [Node(NO_OPCODE, from, 0)]
  {
  }

  /** The chains pending in round n. */
  function PendingAt(table: Table, from: TypeCode, to: TypeCode, n: nat): seq<Chain> {
    if n == 0 then [[Node(NO_OPCODE, from, 0)]] else NextOf(table, Rest(PendingAt(table, from, to, n - 1), to))
  }

  /** The chains kept before round n, latest first. */
  function KeptBefore(table: Table, from: TypeCode, to: TypeCode, n: nat): seq<Chain> {
    if n == 0 then []
    else Reversed(Taken(PendingAt(table, from, to, n - 1), to)) + KeptBefore(table, from, to, n - 1)
  }

  /** All that the search keeps: no chain has more than thirteen links. */
  function Kept(table: Table, from: TypeCode, to: TypeCode): seq<Chain> {
    KeptBefore(table, from, to, 13)
  }

  lemma RoundStep(table: Table, from: TypeCode, to: TypeCode, n: nat)
    ensures var pending := PendingAt(table, from, to, n);
            && PendingAt(table, from, to, n + 1) == NextOf(table, Rest(pending, to))
            && KeptBefore(table, from, to, n + 1) == Reversed(Taken(pending, to)) + KeptBefore(table, from, to, n)
    ensures PendingAt(table, from, to, 0) == [[Node(NO_OPCODE, from, 0)]] && KeptBefore(table, from, to, 0) == []
  {
  }

  lemma {:induction false} Settled(table: Table, from: TypeCode, to: TypeCode, n: nat, m: nat)
    requires PendingAt(table, from, to, n) == [] && n <= m
    ensures PendingAt(table, from, to, m) == [] && KeptBefore(table, from, to, m) == KeptBefore(table, from, to, n)
    decreases m
  {
    hide PendingAt, KeptBefore, NextOf, Rest, Taken, Reversed;
    if n < m {
      Settled(table, from, to, n, m - 1);
      RoundStep(table, from, to, m - 1);
      NothingPending(table, to);
    }
  }

  lemma NothingPending(table: Table, to: TypeCode)
    ensures NextOf(table, Rest([], to)) == [] && Reversed(Taken([], to)) == []
  {
  }

  // Which chains are kept.

  lemma {:induction false} StepsAre(table: Table, from: TypeCode, c: Chain, n: nat)
    requires IsChain(table, from, c) && n <= |table|
    ensures forall d :: d in StepsOf(table, c, n) <==>
              exists i :: 0 <= i < n && Arrived(c, table[i].from) && d == c + [Link(table[i])] && IsChain(table, from, d)
  {
    hide Reasonable, IsChain;
    ChainReady(table, from, c);
    if n > 0 {
      StepsAre(table, from, c, n - 1);
      if table[n - 1].from == Last(c) {
        ChainExtends(table, from, c, n - 1);
      }
    }
  }

  lemma {:induction false} NextAre(table: Table, from: TypeCode, rest: seq<Chain>)
    requires AllChains(table, from, rest)
    ensures AllChains(table, from, NextOf(table, rest))
    ensures forall d :: d in NextOf(table, rest) ==> |d| > 1 && d[..|d| - 1] in rest
    ensures forall d :: IsChain(table, from, d) && |d| > 1 && d[..|d| - 1] in rest ==> d in NextOf(table, rest)
    decreases |rest|
  {
    hide IsChain, StepsOf;
    if rest != [] {
      var k := |rest| - 1;
      var c := rest[k];
      assert rest == rest[..k] + [c];
      NextAre(table, from, rest[..k]);
      StepsAre(table, from, c, |table|);
      forall d | d in StepsOf(table, c, |table|) ensures |d| > 1 && d[..|d| - 1] == c {
      }
      forall d | IsChain(table, from, d) && |d| > 1 && d[..|d| - 1] == c ensures d in StepsOf(table, c, |table|) {
        var i := ChainShortens(table, from, d);
      }
    }
  }

  lemma {:induction false} RoundAt(table: Table, from: TypeCode, to: TypeCode, n: nat)
    ensures Round(table, from, to, PendingAt(table, from, to, n), n)
  {
    hide IsChain, NextOf, Rest, Taken;
    if n == 0 {
      FirstRound(table, from, to);
    } else {
      RoundAt(table, from, to, n - 1);
      var before := PendingAt(table, from, to, n - 1);
      TakenOrRest(before, to);
      NextAre(table, from, Rest(before, to));
      RoundNext(table, from, to, before, Rest(before, to), PendingAt(table, from, to, n), n - 1);
    }
  }

  lemma {:induction false} KeptAre(table: Table, from: TypeCode, to: TypeCode, n: nat, c: Chain)
    ensures c in KeptBefore(table, from, to, n) <==>
            1 <= |c| <= n && c in Taken(PendingAt(table, from, to, |c| - 1), to)
    decreases n
  {
    hide Taken, Rest, PendingAt, KeptBefore;
    if n == 0 {
      RoundStep(table, from, to, 0);
    } else {
      KeptAre(table, from, to, n - 1, c);
      KeptNext(table, from, to, n - 1, c);
    }
  }

  lemma KeptNext(table: Table, from: TypeCode, to: TypeCode, n: nat, c: Chain)
    ensures c in KeptBefore(table, from, to, n + 1) <==>
            c in Taken(PendingAt(table, from, to, n), to) || c in KeptBefore(table, from, to, n)
    ensures c in Taken(PendingAt(table, from, to, n), to) ==> |c| == n + 1
  {
    hide Taken, Rest, PendingAt, KeptBefore, Round, Reversed;
    var pending := PendingAt(table, from, to, n);
    RoundStep(table, from, to, n);
    RoundAt(table, from, to, n);
    RoundLengths(table, from, to, pending, n);
    TakenPending(pending, to, c);
  }

  lemma TakenPending(pending: seq<Chain>, to: TypeCode, c: Chain)
    ensures c in Reversed(Taken(pending, to)) <==> c in Taken(pending, to)
    ensures c in Taken(pending, to) ==> c in pending
  {
    TakenOrRest(pending, to);
    InReversed(Taken(pending, to));
  }

  lemma RoundLengths(table: Table, from: TypeCode, to: TypeCode, pending: seq<Chain>, n: nat)
    requires Round(table, from, to, pending, n)
    ensures forall c :: c in pending ==> |c| == n + 1
  {
  }

  lemma RoundChains(table: Table, from: TypeCode, to: TypeCode, pending: seq<Chain>, n: nat, c: Chain)
    requires Round(table, from, to, pending, n) && c in pending
    ensures IsChain(table, from, c)
  {
  }

  /** A reasonable chain that arrives is pending in the round of its length, and is kept
      exactly when the sweep does not step over it there. */
  lemma KeptExactly(table: Table, from: TypeCode, to: TypeCode, c: Chain)
    requires IsChain(table, from, c) && Arrived(c, to)
    ensures c in PendingAt(table, from, to, |c| - 1)
    ensures c in Kept(table, from, to) <==> c in Taken(PendingAt(table, from, to, |c| - 1), to)
  {
    hide Taken, Rest;
    RoundAt(table, from, to, |c| - 1);
    ArrivedFresh(table, from, to, c, |c|);
    assert c[..|c|] == c;
    AtMostThirteen(Codes(c));
    KeptAre(table, from, to, 13, c);
  }

  /** All that is kept are chains that arrive. */
  lemma KeptGood(table: Table, from: TypeCode, to: TypeCode)
    ensures GoodChains(table, from, to, Kept(table, from, to))
  {
    hide IsChain, Taken, Rest, PendingAt, KeptBefore, Arrived, Kept;
    forall c | c in Kept(table, from, to) ensures IsChain(table, from, c) && Arrived(c, to) {
      KeptIs(table, from, to);
      KeptAre(table, from, to, 13, c);
      RoundAt(table, from, to, |c| - 1);
      TakenOrRest(PendingAt(table, from, to, |c| - 1), to);
    }
  }

  lemma KeptIs(table: Table, from: TypeCode, to: TypeCode)
    ensures Kept(table, from, to) == KeptBefore(table, from, to, 13)
  {
  }

  /** And if any arrives, one of its length is kept. */
  lemma KeptSome(table: Table, from: TypeCode, to: TypeCode, c: Chain) returns (d: Chain)
    requires IsChain(table, from, c) && Arrived(c, to)
    ensures d in Kept(table, from, to) && |d| == |c|
  {
    hide IsChain, Taken, Rest, PendingAt, KeptBefore, Kept, Round;
    ChainReady(table, from, c);
    KeptExactly(table, from, to, c);
    var pending := PendingAt(table, from, to, |c| - 1);
    TakenOrRest(pending, to);
    RoundAt(table, from, to, |c| - 1);
    RoundLengths(table, from, to, pending, |c| - 1);
    d := Taken(pending, to)[0];
    assert d in Taken(pending, to);
    RoundChains(table, from, to, pending, |c| - 1, d);
    KeptExactly(table, from, to, d);
  }

  /** While anything is pending, it is chains, and so is what a sweep leaves of it. */
  lemma Underway(table: Table, from: TypeCode, to: TypeCode, n: nat)
    requires PendingAt(table, from, to, n) != []
    ensures n < 13 && AllChains(table, from, Rest(PendingAt(table, from, to, n), to))
    ensures forall c :: c in PendingAt(table, from, to, n) ==> c != []
  {
    hide PendingAt, Rest, Taken;
    var pending := PendingAt(table, from, to, n);
    RoundAt(table, from, to, n);
    RoundBounded(table, from, to, pending, n);
    TakenOrRest(pending, to);
  }

  lemma KeptMeans(table: Table, from: TypeCode, to: TypeCode)
    ensures GoodChains(table, from, to, Kept(table, from, to))
    ensures Kept(table, from, to) != [] <==> exists c :: IsChain(table, from, c) && Arrived(c, to)
  {
    hide IsChain, Kept, Arrived;
    KeptGood(table, from, to);
    var kept := Kept(table, from, to);
    if kept != [] {
      assert kept[0] in kept;
    }
    if c :| IsChain(table, from, c) && Arrived(c, to) {
      var d := KeptSome(table, from, to, c);
    }
  }

  /** Collecting the chains that arrive, round by round. */
  method Search(table: Table, from: TypeCode, to: TypeCode) returns (good: seq<Chain>)
    ensures good == Kept(table, from, to)
    ensures GoodChains(table, from, to, good)
    ensures good != [] <==> exists c :: IsChain(table, from, c) && Arrived(c, to)
  {
    hide IsChain, NextOf, Rest, Taken, PendingAt, KeptBefore, Kept, Reversed, Arrived, GoodChains, AllChains;
    RoundStep(table, from, to, 0);
    var pending: seq<Chain> := [[Node(NO_OPCODE, from, 0)]];
    good := [];
    ghost var n: nat := 0;
    while pending != []
      invariant n <= 13 && pending == PendingAt(table, from, to, n) && good == KeptBefore(table, from, to, n)
      decreases 13 - n
    {
      RoundStep(table, from, to, n);
      Underway(table, from, to, n);
      var rest;
      rest, good := Sweep(pending, good, to);
      pending := Extend(table, from, rest);
      n := n + 1;
    }
    Settled(table, from, to, n, 13);
    KeptIs(table, from, to);
    KeptMeans(table, from, to);
  }

  // The recipe.

  function Cost(c: Chain): int {
    if c == [] then 0 else Cost(c[..|c| - 1]) + c[|c| - 1].cost
  }

  function Opcodes(c: Chain): seq<int> {
    if c == [] then []
    else if c[|c| - 1].opcode == NO_OPCODE then Opcodes(c[..|c| - 1])
    else Opcodes(c[..|c| - 1]) + [c[|c| - 1].opcode]
  }

  method CostOf(c: Chain) returns (cost: int)
    ensures cost == Cost(c)
  {
    cost := 0;
    var k := |c|;
    assert c[..k] == c;
    while k > 0
      invariant 0 <= k <= |c|
      invariant cost + Cost(c[..k]) == Cost(c)
    {
      assert c[..k][..k - 1] == c[..k - 1];
      k := k - 1;
      cost := cost + c[k].cost;
    }
  }

  /** Every chain before it is dearer. */
  ghost predicate FirstCheapest(good: seq<Chain>, best: Chain) {
    exists i :: 0 <= i < |good| && good[i] == best && forall j :: 0 <= j < i ==> Cost(good[j]) > Cost(best)
  }

  /** The first of the cheapest, if cheap enough. */
  method Best(good: seq<Chain>) returns (best: Option<Chain>)
    ensures best.None? <==> forall c :: c in good ==> Cost(c) >= BIG_ARBITRARY_NUMBER
    ensures best.Some? ==> best.value in good && Cost(best.value) < BIG_ARBITRARY_NUMBER
    ensures best.Some? ==> forall c :: c in good ==> Cost(best.value) <= Cost(c)
    ensures best.Some? ==> FirstCheapest(good, best.value)
  {
    hide Cost;
    best := None;
    var bestCost := BIG_ARBITRARY_NUMBER;
    var k := 0;
    ghost var at := 0;
    assert good[..0] == [];
    while k < |good|
      invariant 0 <= k <= |good| && bestCost <= BIG_ARBITRARY_NUMBER
      invariant best.Some? ==> 0 <= at < k && good[at] == best.value && forall j :: 0 <= j < at ==> Cost(good[j]) > bestCost
      invariant forall c :: c in good[..k] ==> bestCost <= Cost(c)
      invariant if best.Some? then best.value in good && bestCost == Cost(best.value) < BIG_ARBITRARY_NUMBER
                else bestCost == BIG_ARBITRARY_NUMBER
    {
      var cost := CostOf(good[k]);
      assert good[..k + 1] == good[..k] + [good[k]];
      if cost < bestCost {
        assert forall j :: 0 <= j < k ==> good[j] in good[..k];
        best, bestCost, at := Some(good[k]), cost, k;
      }
      k := k + 1;
    }
    assert good[..k] == good;
  }

  /** The opcodes, filled in from the last. */
  method FillOpcodes(best: Chain) returns (opcodes: array<int>)
    ensures fresh(opcodes) && opcodes[..] == Opcodes(best)
  {
    var i := CountOpcodes(best);
    opcodes := new int[i];
    var k := |best|;
    assert best[..k] == best;
    while k > 0
      invariant 0 <= k <= |best| && 0 <= i <= opcodes.Length
      invariant |Opcodes(best[..k])| == i && Opcodes(best) == Opcodes(best[..k]) + opcodes[i..]
    {
      assert best[..k][..k - 1] == best[..k - 1];
      k := k - 1;
      if best[k].opcode != NO_OPCODE {
        i := i - 1;
        opcodes[i] := best[k].opcode;
      }
    }
    assert opcodes[..] == opcodes[0..];
  }

  method CountOpcodes(best: Chain) returns (n: nat)
    ensures n == |Opcodes(best)|
  {
    n := 0;
    var k := |best|;
    assert best[..k] == best;
    while k > 0
      invariant 0 <= k <= |best|
      invariant n + |Opcodes(best[..k])| == |Opcodes(best)|
    {
      assert best[..k][..k - 1] == best[..k - 1];
      k := k - 1;
      if best[k].opcode != NO_OPCODE {
        n := n + 1;
      }
    }
  }

  /** With steps as cheap as the table's, no chain is too dear. */
  lemma {:induction false} ChainCheap(table: Table, from: TypeCode, c: Chain, most: nat)
    requires IsChain(table, from, c) && forall i :: 0 <= i < |table| ==> table[i].cost <= most
    ensures Cost(c) <= (|c| - 1) * most
    decreases |c|
  {
    hide IsChain;
    ChainReady(table, from, c);
    if |c| > 1 {
      var i := ChainShortens(table, from, c);
      ChainCheap(table, from, c[..|c| - 1], most);
      SumTimes(|c| - 2, 1, most);
    } else {
      OneNode(table, from, c);
      assert c[..0] == [];
    }
  }

  lemma NeverTooDear(table: Table, from: TypeCode, c: Chain)
    requires IsChain(table, from, c) && forall i :: 0 <= i < |table| ==> table[i].cost <= 8
    ensures Cost(c) < BIG_ARBITRARY_NUMBER
  {
    ChainCheap(table, from, c, 8);
    AtMostThirteen(Codes(c));
  }

  /** From a code to itself the only chain is the empty one. */
  lemma NoDetour(table: Table, from: TypeCode, c: Chain)
    requires IsChain(table, from, c) && Arrived(c, from)
    ensures c == [Node(NO_OPCODE, from, 0)] && Cost(c) == 0 && Opcodes(c) == []
  {
  }

  /** Two conversions between the same codes: the cheaper arrives just after the dearer
      in its round and is stepped over, so the one chain kept costs 8 and not 2. */
  lemma SteppedOver()
    ensures var table := [Conversion(0, QI, HI, 2), Conversion(1, QI, HI, 8)];
            var cheap, dear := [Node(NO_OPCODE, QI, 0), Node(0, HI, 2)], [Node(NO_OPCODE, QI, 0), Node(1, HI, 8)];
            && IsChain(table, QI, cheap) && Arrived(cheap, HI) && Cost(cheap) == 2
            && Kept(table, QI, HI) == [dear] && Cost(dear) == 8
  {
    hide Reasonable, NextOf, StepsOf, Taken, Rest, PendingAt, KeptBefore, Cost;
    var table := [Conversion(0, QI, HI, 2), Conversion(1, QI, HI, 8)];
    var start: Chain := [Node(NO_OPCODE, QI, 0)];
    var cheap, dear := start + [Node(0, HI, 2)], start + [Node(1, HI, 8)];
    StartChain(table, QI);
    OneStepReasonable();
    assert Codes(start) == [QI];
    ChainExtends(table, QI, start, 0);
    TwoSteps(table, start, cheap, dear);
    FirstSwept(start, cheap, dear);
    RoundStep(table, QI, HI, 0);
    RoundStep(table, QI, HI, 1);
    assert Reversed([dear]) == [dear] && Reversed<Chain>([]) == [];
    Settled(table, QI, HI, 2, 13);
    CostsOf(start, cheap, dear);
    assert cheap == [Node(NO_OPCODE, QI, 0), Node(0, HI, 2)] && dear == [Node(NO_OPCODE, QI, 0), Node(1, HI, 8)];
  }

  lemma CostsOf(start: Chain, cheap: Chain, dear: Chain)
    requires start == [Node(NO_OPCODE, QI, 0)] && cheap == start + [Node(0, HI, 2)] && dear == start + [Node(1, HI, 8)]
    ensures Cost(cheap) == 2 && Cost(dear) == 8
  {
    assert cheap[..1] == start && dear[..1] == start && start[..0] == [];
    assert Cost(start) == 0;
  }

  lemma FirstSwept(start: Chain, cheap: Chain, dear: Chain)
    requires !Arrived(start, HI) && Arrived(cheap, HI) && Arrived(dear, HI)
    ensures Taken([start], HI) == [] && Rest([start], HI) == [start]
    ensures Taken([dear, cheap], HI) == [dear] && Rest([dear, cheap], HI) == [cheap]
  {
    assert [start][1..] == [] && [dear, cheap][2..] == [];
  }

  lemma TwoSteps(table: Table, start: Chain, cheap: Chain, dear: Chain)
    requires table == [Conversion(0, QI, HI, 2), Conversion(1, QI, HI, 8)] && start == [Node(NO_OPCODE, QI, 0)]
    requires cheap == start + [Node(0, HI, 2)] && dear == start + [Node(1, HI, 8)]
    ensures NextOf(table, [start]) == [dear, cheap] && NextOf(table, [cheap]) == []
  {
    hide Reasonable;
    OneStepReasonable();
    assert Codes(start) == [QI];
    assert [start][..0] == [] && [cheap][..0] == [];
    assert StepsOf(table, start, 1) == [cheap];
    assert StepsOf(table, start, 2) == [dear] + StepsOf(table, start, 1);
    assert StepsOf(table, cheap, 1) == [];
  }

  lemma OneStepReasonable()
    ensures Reasonable([QI] + [HI])
  {
    hide Has, Size;
    HasTwo(QI, HI, FloatToInt);
    HasTwo(QI, HI, ZeroExtends);
    assert [QI] + [HI] == [QI, HI];
    assert Size(QI) == 1 && Size(HI) == 2 by { SizesOfTwo(); }
    assert Rising([QI, HI]);
  }

  lemma SizesOfTwo()
    ensures Size(QI) == 1 && Size(HI) == 2
  {
  }

  lemma HasTwo(a: TypeCode, b: TypeCode, kind: (TypeCode, TypeCode) -> bool)
    ensures Has([a, b], kind) <==> kind(a, b)
  {
    assert [a, b][0] == a && [a, b][1] == b;
  }

  /** A recipe: the opcodes and cost of some reasonable chain. */
  ghost predicate IsRecipe(table: Table, from: TypeCode, to: TypeCode, opcodes: seq<int>, cost: int) {
    exists c :: IsChain(table, from, c) && Arrived(c, to) && cost == Cost(c) && opcodes == Opcodes(c)
  }

  /** deduce_conversion. A recipe is found only if a reasonable chain exists; it is that of
      a cheapest chain among those kept, and costs the sum of its steps. Finding none
      aborts: that happens when no chain exists or none kept is cheap enough, which with
      the table's costs is never the reason. */
  method DeduceConversion(table: Table, from: TypeCode, to: TypeCode)
    returns (opcodes: array?<int>, cost: int, ghost good: seq<Chain>)
    ensures opcodes != null ==> IsRecipe(table, from, to, opcodes[..], cost) && cost < BIG_ARBITRARY_NUMBER
    ensures opcodes != null && NoMarker(table) ==> Runs(opcodes[..], table, from, to, cost)
    ensures (forall i :: 0 <= i < |table| ==> table[i].cost <= 8) ==>
              (opcodes != null <==> exists c :: IsChain(table, from, c) && Arrived(c, to))
    ensures from == to ==> opcodes != null && opcodes[..] == [] && cost == 0
    ensures good == Kept(table, from, to) && GoodChains(table, from, to, good)
    ensures good != [] <==> exists c :: IsChain(table, from, c) && Arrived(c, to)
    ensures opcodes == null <==> forall c :: c in good ==> Cost(c) >= BIG_ARBITRARY_NUMBER
    ensures opcodes != null ==>
              && (forall c :: c in good ==> cost <= Cost(c))
              && exists c :: c in good && FirstCheapest(good, c) && cost == Cost(c) && opcodes[..] == Opcodes(c)
  {
    hide IsChain, Cost, Opcodes, IsRecipe, Kept, Arrived, Runs, NoMarker, FirstCheapest;
    var found := Search(table, from, to);
    good := found;
    if forall i :: 0 <= i < |table| ==> table[i].cost <= 8 {
      CheapGood(table, from, to, found);
    }
    if from == to {
      EmptyGood(table, from, found);
      StartChain(table, from);
    }
    var b := Best(found);
    opcodes, cost := null, BIG_ARBITRARY_NUMBER;
    if b.Some? {
      opcodes := FillOpcodes(b.value);
      cost := CostOf(b.value);
      RecipeOf(table, from, to, b.value);
      if NoMarker(table) {
        ChainRuns(table, from, b.value);
        ArrivedLast(b.value, to);
      }
    }
    assert good != [] ==> good[0] in good;
  }

  /** The cheapest of the chains kept is the cheapest of all if and only if some cheapest
      chain is not stepped over in its round. */
  lemma CheapestExactly(table: Table, from: TypeCode, to: TypeCode, best: Chain)
    requires best in Kept(table, from, to) && forall c :: c in Kept(table, from, to) ==> Cost(best) <= Cost(c)
    ensures (forall c :: IsChain(table, from, c) && Arrived(c, to) ==> Cost(best) <= Cost(c)) <==>
            exists d :: && IsChain(table, from, d) && Arrived(d, to)
                        && d in Taken(PendingAt(table, from, to, |d| - 1), to)
                        && forall c :: IsChain(table, from, c) && Arrived(c, to) ==> Cost(d) <= Cost(c)
  {
    hide IsChain, Arrived, Kept, Taken, PendingAt, Cost;
    KeptGood(table, from, to);
    KeptExactly(table, from, to, best);
    forall d | IsChain(table, from, d) && Arrived(d, to)
      ensures d != [] && (d in Kept(table, from, to) <==> d in Taken(PendingAt(table, from, to, |d| - 1), to)) {
      ChainReady(table, from, d);
      KeptExactly(table, from, to, d);
    }
  }

  /** Carried out one after the other from the first, the opcodes are those of conversions
      that lead from one code to the other and together cost so much. */
  ghost predicate Runs(opcodes: seq<int>, table: Table, from: TypeCode, to: TypeCode, cost: int) {
    if opcodes == [] then from == to && cost == 0
    else exists v :: v in table && v.opcode == opcodes[0] && v.from == from
                     && Runs(opcodes[1..], table, v.to, to, cost - v.cost)
  }

  /** One conversion more at the end. */
  lemma {:induction false} RunsOn(opcodes: seq<int>, table: Table, from: TypeCode, cost: int, v: Conversion)
    requires v in table && Runs(opcodes, table, from, v.from, cost)
    ensures Runs(opcodes + [v.opcode], table, from, v.to, cost + v.cost)
    decreases |opcodes|
  {
    var longer := opcodes + [v.opcode];
    if opcodes == [] {
      assert longer[1..] == [];
      assert v in table && v.opcode == longer[0] && v.from == from && Runs(longer[1..], table, v.to, v.to, 0);
    } else {
      var u :| u in table && u.opcode == opcodes[0] && u.from == from && Runs(opcodes[1..], table, u.to, v.from, cost - u.cost);
      RunsOn(opcodes[1..], table, u.to, cost - u.cost, v);
      assert longer[1..] == opcodes[1..] + [v.opcode] && longer[0] == opcodes[0];
      assert cost - u.cost + v.cost == cost + v.cost - u.cost;
    }
  }

  /** The opcode that stands for no conversion is not in the table. */
  predicate NoMarker(table: Table) {
    forall v :: v in table ==> v.opcode != -1
  }

  /** The recipe of a chain converts as the chain does, at its cost. */
  lemma {:induction false} ChainRuns(table: Table, from: TypeCode, c: Chain)
    requires NoMarker(table) && IsChain(table, from, c)
    ensures c != [] && Runs(Opcodes(c), table, from, Last(c), Cost(c))
    decreases |c|
  {
    hide IsChain, Runs, Cost, Opcodes, Reasonable;
    ChainReady(table, from, c);
    if |c| == 1 {
      OneNode(table, from, c);
      StartRecipe(from);
      RunsNowhere(table, from);
    } else {
      var before := c[..|c| - 1];
      var i := ChainShortens(table, from, c);
      ChainRuns(table, from, before);
      assert table[i] in table;
      RecipeNext(before, table[i]);
      RunsOn(Opcodes(before), table, from, Cost(before), table[i]);
    }
  }

  lemma StartRecipe(from: TypeCode)
    ensures var c := [Node(NO_OPCODE, from, 0)]; Opcodes(c) == [] && Cost(c) == 0
  {
    var c := [Node(NO_OPCODE, from, 0)];
    assert c[..0] == [];
  }

  lemma RecipeNext(before: Chain, v: Conversion)
    requires v.opcode != NO_OPCODE
    ensures var c := before + [Link(v)];
            Opcodes(c) == Opcodes(before) + [v.opcode] && Cost(c) == Cost(before) + v.cost
  {
    assert (before + [Link(v)])[..|before|] == before;
  }

  lemma RunsNowhere(table: Table, from: TypeCode)
    ensures Runs([], table, from, from, 0)
  {
  }

  lemma ArrivedLast(c: Chain, to: TypeCode)
    requires Arrived(c, to)
    ensures c != [] && Last(c) == to
  {
  }

  lemma RecipeOf(table: Table, from: TypeCode, to: TypeCode, c: Chain)
    requires IsChain(table, from, c) && Arrived(c, to)
    ensures IsRecipe(table, from, to, Opcodes(c), Cost(c))
  {
  }

  lemma CheapGood(table: Table, from: TypeCode, to: TypeCode, good: seq<Chain>)
    requires GoodChains(table, from, to, good) && forall i :: 0 <= i < |table| ==> table[i].cost <= 8
    ensures forall c :: c in good ==> Cost(c) < BIG_ARBITRARY_NUMBER
  {
    forall c | c in good ensures Cost(c) < BIG_ARBITRARY_NUMBER {
      NeverTooDear(table, from, c);
    }
  }

  lemma EmptyGood(table: Table, from: TypeCode, good: seq<Chain>)
    requires GoodChains(table, from, from, good)
    ensures forall c :: c in good ==> Cost(c) == 0 && Opcodes(c) == []
  {
    forall c | c in good ensures Cost(c) == 0 && Opcodes(c) == [] {
      NoDetour(table, from, c);
    }
  }
}
