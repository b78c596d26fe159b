/** BLOCK nodes and the trees they form. */
module BlockTree {
  import opened Options
  import opened ScopeSpec

  /** A BLOCK, numbered in the order of creation. */
  datatype Block = Block(uid: nat, vars: seq<Decl>, subblocks: seq<Block>)

  /** BLOCK_SUPERCONTEXT of each block, by number. */
  type Superiors = map<nat, Option<nat>>

  /** The blocks of the trees bs in postorder: everything below a block, then the block. */
  function Post(bs: seq<Block>): seq<nat> {
    if bs == [] then []
    else
      var k := |bs| - 1;
      Post(bs[..k]) + Post(bs[k].subblocks) + [bs[k].uid]
  }

  function PostAll(roots: seq<seq<Block>>): seq<nat> {
    if roots == [] then [] else PostAll(roots[..|roots| - 1]) + Post(roots[|roots| - 1])
  }

  predicate Increasing(s: seq<nat>) {
    forall i, j :: 0 <= i < j < |s| ==> s[i] < s[j]
  }

  /** Every block below b names the block it is directly below. */
  predicate Linked(b: Block, up: Superiors) {
    forall c :: c in b.subblocks ==> c.uid in up && up[c.uid] == Some(b.uid) && Linked(c, up)
  }

  predicate Roots(bs: seq<Block>, up: Superiors) {
    forall b :: b in bs ==> b.uid in up && up[b.uid] == None && Linked(b, up)
  }

  predicate Apart(a: seq<Block>, b: seq<Block>) {
    forall x, y :: x in a && y in b ==> x.uid != y.uid
  }

  /** The trees the active levels hold: together they list the blocks created, once each
      and in order, and every block names the one it is below. */
  predicate Forest(roots: seq<seq<Block>>, created: seq<nat>, next: nat, up: Superiors) {
    && created == PostAll(roots) && Increasing(created) && (forall u :: u in created ==> u < next)
    && (forall u :: u in up ==> u < next)
    && (forall i :: 0 <= i < |roots| ==> Roots(roots[i], up))
    && (forall i, j :: 0 <= i < j < |roots| ==> Apart(roots[i], roots[j]))
  }

  lemma {:induction false} PostLast(bs: seq<Block>, b: Block)
    ensures Post(bs + [b]) == Post(bs) + (Post(b.subblocks) + [b.uid])
  {
    var longer := bs + [b];
    assert longer[..|bs|] == bs && longer[|bs|] == b;
    assert Post(longer) == Post(bs) + Post(b.subblocks) + [b.uid];
  }

  lemma {:induction false} PostAppend(a: seq<Block>, b: seq<Block>)
    ensures Post(a + b) == Post(a) + Post(b)
  {
    hide Post;
    if b == [] {
      assert a + b == a;
      PostNothing(a);
    } else {
      var k := |b| - 1;
      var last := Post(b[k].subblocks) + [b[k].uid];
      PostAppend(a, b[..k]);
      assert a + b == (a + b[..k]) + [b[k]] && b == b[..k] + [b[k]];
      PostLast(a + b[..k], b[k]);
      PostLast(b[..k], b[k]);
      Associative(Post(a), Post(b[..k]), last);
    }
  }

  lemma PostNothing(a: seq<Block>)
    ensures Post(a) + Post([]) == Post(a)
  {
  }

  lemma {:induction false} PostHasRoots(bs: seq<Block>, b: Block)
    requires b in bs
    ensures b.uid in Post(bs)
  {
    var k := |bs| - 1;
    if b != bs[k] {
      assert b in bs[..k];
      PostHasRoots(bs[..k], b);
    }
  }

  lemma PostAllLast(roots: seq<seq<Block>>, last: seq<Block>)
    ensures PostAll(roots + [last]) == PostAll(roots) + Post(last)
  {
  }

  lemma {:induction false} PostAllHasRoots(roots: seq<seq<Block>>, i: nat, b: Block)
    requires i < |roots| && b in roots[i]
    ensures b.uid in PostAll(roots)
  {
    var k := |roots| - 1;
    if i == k {
      PostHasRoots(roots[k], b);
    } else {
      PostAllHasRoots(roots[..k], i, b);
    }
  }

  /** Trees stay linked when only blocks that were below nothing change. */
  lemma {:induction false} LinkedStays(b: Block, up: Superiors, up': Superiors)
    requires Linked(b, up)
    requires forall u :: u in up && up[u].Some? ==> u in up' && up'[u] == up[u]
    ensures Linked(b, up')
    decreases b
  {
    forall c | c in b.subblocks ensures c.uid in up' && up'[c.uid] == Some(b.uid) && Linked(c, up') {
      LinkedStays(c, up, up');
    }
  }

  lemma ForestPush(roots: seq<seq<Block>>, created: seq<nat>, next: nat, up: Superiors)
    requires Forest(roots, created, next, up)
    ensures Forest(roots + [[]], created, next, up)
  {
    hide Linked, Post, PostAll, Increasing;
    PostAllEmpty(roots);
    var longer := roots + [[]];
    forall i | 0 <= i < |longer| ensures Roots(longer[i], up) {
      assert i < |roots| ==> longer[i] == roots[i] && Roots(roots[i], up);
    }
    forall i, j | 0 <= i < j < |longer| ensures Apart(longer[i], longer[j]) {
      assert longer[i] == roots[i] && (j < |roots| ==> longer[j] == roots[j] && Apart(roots[i], roots[j]));
    }
  }

  lemma PostAllEmpty(roots: seq<seq<Block>>)
    ensures PostAll(roots + [[]]) == PostAll(roots)
  {
    PostAllLast(roots, []);
  }

  lemma PostOne(b: Block)
    ensures Post([b]) == Post(b.subblocks) + [b.uid]
  {
  }

  /** What a pop does to the superiors of the blocks of the level left. */
  ghost predicate Adopted(bs: seq<Block>, parent: Option<nat>, up: Superiors, up': Superiors) {
    && up'.Keys == up.Keys
    && (forall b :: b in bs ==> b.uid in up' && up'[b.uid] == parent)
    && (forall u :: u in up && (forall b :: b in bs ==> b.uid != u) ==> u in up' && up'[u] == up[u])
  }

  lemma AdoptedStays(bs: seq<Block>, parent: Option<nat>, up: Superiors, up': Superiors)
    requires Roots(bs, up) && Adopted(bs, parent, up, up')
    ensures forall u :: u in up && up[u].Some? ==> u in up' && up'[u] == up[u]
  {
  }

  /** Adopting the roots of one level leaves the others what they were. */
  lemma OthersStay(bs: seq<Block>, parent: Option<nat>, others: seq<Block>, up: Superiors, up': Superiors)
    requires Roots(bs, up) && Adopted(bs, parent, up, up') && Roots(others, up) && Apart(others, bs)
    ensures Roots(others, up')
  {
    AdoptedStays(bs, parent, up, up');
    forall b | b in others ensures b.uid in up' && up'[b.uid] == None && Linked(b, up') {
      LinkedStays(b, up, up');
    }
  }

  /** The new block over the roots of the level left. */
  lemma BlockLinked(bs: seq<Block>, b: Block, up: Superiors, up': Superiors)
    requires Roots(bs, up) && b.subblocks == bs && Adopted(bs, Some(b.uid), up, up')
    ensures Linked(b, up')
  {
    AdoptedStays(bs, Some(b.uid), up, up');
    forall c | c in bs ensures Linked(c, up') {
      LinkedStays(c, up, up');
    }
  }

  /** Passing the roots up without a block over them. */
  lemma RootsPassed(bs: seq<Block>, up: Superiors, up': Superiors)
    requires Roots(bs, up) && Adopted(bs, None, up, up')
    ensures Roots(bs, up')
  {
    AdoptedStays(bs, None, up, up');
    forall c | c in bs ensures Linked(c, up') {
      LinkedStays(c, up, up');
    }
  }

  lemma PostAllMerged(rest: seq<seq<Block>>, outer: seq<Block>, more: seq<Block>)
    ensures PostAll(rest + [outer + more]) == PostAll(rest + [outer]) + Post(more)
  {
    PostAllLast(rest, outer);
    PostAllLast(rest, outer + more);
    PostAppend(outer, more);
    Associative(PostAll(rest), Post(outer), Post(more));
  }

  lemma Associative(a: seq<nat>, b: seq<nat>, c: seq<nat>)
    ensures a + (b + c) == a + b + c
  {
  }

  /** All levels but the one left are what they were. */
  lemma RestStays(rest: seq<seq<Block>>, inner: seq<Block>, created: seq<nat>, next: nat,
                  parent: Option<nat>, up: Superiors, up': Superiors)
    requires Forest(rest + [inner], created, next, up) && Adopted(inner, parent, up, up')
    ensures forall i :: 0 <= i < |rest| ==> Roots(rest[i], up')
    ensures forall i, j :: 0 <= i < j < |rest| ==> Apart(rest[i], rest[j])
    ensures Roots(inner, up) && forall i :: 0 <= i < |rest| ==> Apart(rest[i], inner)
  {
    var roots := rest + [inner];
    assert roots[|rest|] == inner;
    forall i | 0 <= i < |rest| ensures Roots(rest[i], up') && Apart(rest[i], inner) {
      assert roots[i] == rest[i];
      assert Apart(roots[i], roots[|rest|]);
      OthersStay(inner, parent, rest[i], up, up');
    }
    forall i, j | 0 <= i < j < |rest| ensures Apart(rest[i], rest[j]) {
      assert Apart(roots[i], roots[j]);
    }
  }

  /** Leaving a level without a block: its trees go to the level outside, in order. */
  lemma ForestPassed(rest: seq<seq<Block>>, outer: seq<Block>, inner: seq<Block>, created: seq<nat>, next: nat,
                     up: Superiors, up': Superiors)
    requires Forest(rest + [outer] + [inner], created, next, up) && Adopted(inner, None, up, up')
    ensures Forest(rest + [outer + inner], created, next, up')
  {
    PostAllLast(rest + [outer], inner);
    PostAllMerged(rest, outer, inner);
    RestStays(rest + [outer], inner, created, next, None, up, up');
    RootsPassed(inner, up, up');
    MergedLast(rest, outer, inner, up');
  }

  lemma MergedLast(rest: seq<seq<Block>>, outer: seq<Block>, more: seq<Block>, up: Superiors)
    requires forall i :: 0 <= i < |rest + [outer]| ==> Roots((rest + [outer])[i], up) && Apart((rest + [outer])[i], more)
    requires forall i, j :: 0 <= i < j < |rest + [outer]| ==> Apart((rest + [outer])[i], (rest + [outer])[j])
    requires Roots(more, up)
    ensures forall i :: 0 <= i < |rest + [outer + more]| ==> Roots((rest + [outer + more])[i], up)
    ensures forall i, j :: 0 <= i < j < |rest + [outer + more]| ==> Apart((rest + [outer + more])[i], (rest + [outer + more])[j])
  {
    var before, after := rest + [outer], rest + [outer + more];
    assert before[|rest|] == outer;
    forall i | 0 <= i < |after| ensures Roots(after[i], up) {
      assert Roots(before[i], up);
    }
    forall i, j | 0 <= i < j < |after| ensures Apart(after[i], after[j]) {
      assert Apart(before[i], before[j]) && Apart(before[i], more);
    }
  }

  /** Leaving a level with a block: the block takes its trees and follows those of the
      level outside. */
  lemma ForestClosed(rest: seq<seq<Block>>, outer: seq<Block>, b: Block, created: seq<nat>, up: Superiors, up': Superiors)
    requires Forest(rest + [outer] + [b.subblocks], created, b.uid, up)
    requires Adopted(b.subblocks, Some(b.uid), up[b.uid := None], up')
    ensures Forest(rest + [outer + [b]], created + [b.uid], b.uid + 1, up')
  {
    BlockOverLevel(rest + [outer], b, created, up, up');
    MergedLast(rest, outer, [b], up');
    ClosedCreated(rest, outer, b, created);
    IncreasingLast(created, b.uid);
  }

  lemma IncreasingLast(created: seq<nat>, u: nat)
    requires Increasing(created) && forall c :: c in created ==> c < u
    ensures Increasing(created + [u])
  {
    forall i | 0 <= i < |created| ensures created[i] < u {
      assert created[i] in created;
    }
  }

  lemma ClosedCreated(rest: seq<seq<Block>>, outer: seq<Block>, b: Block, created: seq<nat>)
    requires created == PostAll(rest + [outer] + [b.subblocks])
    ensures created + [b.uid] == PostAll(rest + [outer + [b]])
  {
  }

  /** The block made for the level left, and the levels outside. */
  lemma BlockOverLevel(rest: seq<seq<Block>>, b: Block, created: seq<nat>, up: Superiors, up': Superiors)
    requires Forest(rest + [b.subblocks], created, b.uid, up)
    requires Adopted(b.subblocks, Some(b.uid), up[b.uid := None], up')
    ensures Roots([b], up') && Linked(b, up')
    ensures forall i :: 0 <= i < |rest| ==> Roots(rest[i], up') && Apart(rest[i], [b])
    ensures forall i, j :: 0 <= i < j < |rest| ==> Apart(rest[i], rest[j])
  {
    NewBlock(rest, b.subblocks, created, b.uid, up);
    RestStays(rest, b.subblocks, created, b.uid + 1, Some(b.uid), up[b.uid := None], up');
    BlockLinked(b.subblocks, b, up[b.uid := None], up');
    BelowNew(rest, b.subblocks, created, b.uid, up);
  }

  /** Leaving a function's outermost level: the trees outside stay, and the body's block
      tree lists, last of all blocks created, those created inside it. */
  lemma ForestFinished(rest: seq<seq<Block>>, b: Block, created: seq<nat>, up: Superiors, up': Superiors)
    requires Forest(rest + [b.subblocks], created, b.uid, up)
    requires Adopted(b.subblocks, Some(b.uid), up[b.uid := None], up')
    ensures Forest(rest, PostAll(rest), b.uid + 1, up') && Linked(b, up')
    ensures PostAll(rest) + Post([b]) == created + [b.uid]
    ensures Increasing(Post([b]))
  {
    BlockOverLevel(rest, b, created, up, up');
    FinishedCreated(rest, b, created);
  }

  lemma FinishedCreated(rest: seq<seq<Block>>, b: Block, created: seq<nat>)
    requires created == PostAll(rest + [b.subblocks]) && Increasing(created) && forall c :: c in created ==> c < b.uid
    ensures PostAll(rest) + Post([b]) == created + [b.uid]
    ensures Increasing(PostAll(rest)) && Increasing(Post([b]))
    ensures forall c :: c in PostAll(rest) ==> c < b.uid
  {
    PostAllLast(rest, b.subblocks);
    PostOne(b);
    Associative(PostAll(rest), Post(b.subblocks), [b.uid]);
    IncreasingLast(created, b.uid);
    IncreasingParts(PostAll(rest), Post([b]));
    InFirst(PostAll(rest), Post(b.subblocks));
  }

  lemma InFirst(a: seq<nat>, b: seq<nat>)
    ensures forall c :: c in a ==> c in a + b
  {
  }

  lemma BelowNew(rest: seq<seq<Block>>, inner: seq<Block>, created: seq<nat>, next: nat, up: Superiors)
    requires Forest(rest + [inner], created, next, up)
    ensures forall c :: c in inner ==> c.uid < next
    ensures forall i, c :: 0 <= i < |rest| && c in rest[i] ==> c.uid < next
  {
  }

  /** A block just made is below nothing and nothing is below it. */
  lemma NewBlock(rest: seq<seq<Block>>, inner: seq<Block>, created: seq<nat>, next: nat, up: Superiors)
    requires Forest(rest + [inner], created, next, up)
    ensures Forest(rest + [inner], created, next + 1, up[next := None])
  {
    var roots := rest + [inner];
    forall i | 0 <= i < |roots| ensures Roots(roots[i], up[next := None]) {
      forall b | b in roots[i] ensures Linked(b, up[next := None]) {
        LinkedStays(b, up, up[next := None]);
      }
    }
  }

  lemma IncreasingParts(a: seq<nat>, b: seq<nat>)
    requires Increasing(a + b)
    ensures Increasing(a) && Increasing(b)
  {
    forall i, j | 0 <= i < j < |a| ensures a[i] < a[j] {
      assert (a + b)[i] < (a + b)[j];
    }
    forall i, j | 0 <= i < j < |b| ensures b[i] < b[j] {
      assert (a + b)[|a| + i] < (a + b)[|a| + j];
    }
  }

  /** In a tree whose postorder is increasing, siblings are in the order they were created
      and every block was created after those below it. */
  lemma {:induction false} ExitOrder(bs: seq<Block>, i: nat, j: nat)
    requires Increasing(Post(bs)) && i < j < |bs|
    ensures bs[i].uid < bs[j].uid
  {
    var k := |bs| - 1;
    var front, tail := Post(bs[..k]), Post(bs[k].subblocks) + [bs[k].uid];
    assert Post(bs) == front + tail;
    if j == k {
      PostHasRoots(bs[..k], bs[..k][i]);
      var p :| 0 <= p < |front| && front[p] == bs[i].uid;
      assert (front + tail)[p] < (front + tail)[|front + tail| - 1];
    } else {
      IncreasingParts(front, tail);
      ExitOrder(bs[..k], i, j);
    }
  }

  lemma BelowIsOlder(b: Block, c: Block)
    requires Increasing(Post([b])) && c in b.subblocks
    ensures c.uid < b.uid
  {
    PostOne(b);
    PostHasRoots(b.subblocks, c);
    var below := Post(b.subblocks);
    var p :| 0 <= p < |below| && below[p] == c.uid;
    assert (below + [b.uid])[p] < (below + [b.uid])[|below|];
  }

  // What the trees record.

  /** A level that was left: its declarations in the order its block was to have them, and
      the block, if one was made. */
  datatype Exit = Exit(decls: seq<Decl>, block: Option<nat>)

  /** The blocks of the trees in postorder, each with its variables. */
  function Listing(bs: seq<Block>): seq<Exit> {
    if bs == [] then []
    else
      var k := |bs| - 1;
      Listing(bs[..k]) + Listing(bs[k].subblocks) + [Exit(bs[k].vars, Some(bs[k].uid))]
  }

  /** The levels left with a block. */
  function Kept(exits: seq<Exit>): seq<Exit> {
    if exits == [] then []
    else
      var k := |exits| - 1;
      Kept(exits[..k]) + if exits[k].block.Some? then [exits[k]] else []
  }

  /** Everything declared in them, in order. */
  function AllDecls(exits: seq<Exit>): seq<Decl> {
    if exits == [] then [] else AllDecls(exits[..|exits| - 1]) + exits[|exits| - 1].decls
  }

  lemma {:induction false} ListingLast(bs: seq<Block>, b: Block)
    ensures Listing(bs + [b]) == Listing(bs) + (Listing(b.subblocks) + [Exit(b.vars, Some(b.uid))])
  {
    var longer := bs + [b];
    assert longer[..|bs|] == bs && longer[|bs|] == b;
    assert Listing(longer) == Listing(bs) + Listing(b.subblocks) + [Exit(b.vars, Some(b.uid))];
  }

  lemma {:induction false} ListingAppend(a: seq<Block>, b: seq<Block>)
    ensures Listing(a + b) == Listing(a) + Listing(b)
  {
    hide Listing;
    if b == [] {
      assert a + b == a;
      ListingNothing(a);
    } else {
      var k := |b| - 1;
      ListingAppend(a, b[..k]);
      assert a + b == (a + b[..k]) + [b[k]] && b == b[..k] + [b[k]];
      ListingLast(a + b[..k], b[k]);
      ListingLast(b[..k], b[k]);
    }
  }

  lemma ListingOne(b: Block)
    ensures Listing([b]) == Listing(b.subblocks) + [Exit(b.vars, Some(b.uid))]
  {
    ListingLast([], b);
    assert [] + [b] == [b];
  }

  lemma ListingNothing(a: seq<Block>)
    ensures Listing(a) + Listing([]) == Listing(a)
  {
  }

  lemma {:induction false} KeptAppend(a: seq<Exit>, b: seq<Exit>)
    ensures Kept(a + b) == Kept(a) + Kept(b)
    decreases |b|
  {
    if b == [] {
      assert a + b == a;
    } else {
      var k := |b| - 1;
      KeptAppend(a, b[..k]);
      assert (a + b)[..|a| + k] == a + b[..k];
    }
  }

  lemma KeptOne(e: Exit)
    ensures Kept([e]) == if e.block.Some? then [e] else []
  {
    assert [e][..0] == [];
  }

  lemma AllDeclsLast(exits: seq<Exit>, e: Exit)
    ensures AllDecls(exits + [e]) == AllDecls(exits) + e.decls
  {
  }

  /** No declaration is lost: only levels without any were left without a block. */
  predicate Thorough(exits: seq<Exit>) {
    forall i :: 0 <= i < |exits| && exits[i].block.None? ==> exits[i].decls == []
  }

  /** Then the levels left with a block declare everything. */
  lemma {:induction false} NoneLost(exits: seq<Exit>)
    requires Thorough(exits)
    ensures AllDecls(Kept(exits)) == AllDecls(exits)
    decreases |exits|
  {
    if exits != [] {
      var k := |exits| - 1;
      NoneLost(exits[..k]);
      if exits[k].block.Some? {
        assert (Kept(exits[..k]) + [exits[k]])[..|Kept(exits[..k])|] == Kept(exits[..k]);
      } else {
        assert Kept(exits[..k]) + [] == Kept(exits[..k]);
      }
    }
  }

  /** The uids of a listing are the postorder of the trees. */
  lemma {:induction false} ListingIsPost(bs: seq<Block>)
    ensures |Listing(bs)| == |Post(bs)| && forall i :: 0 <= i < |Post(bs)| ==> Listing(bs)[i].block == Some(Post(bs)[i])
    decreases bs
  {
    if bs != [] {
      var k := |bs| - 1;
      ListingIsPost(bs[..k]);
      ListingIsPost(bs[k].subblocks);
    }
  }
}
