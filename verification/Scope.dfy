/** Binding levels and the per-identifier values that cache them. */
module Scope {
  import opened Lists
  import opened Options
  import opened ScopeSpec
  import opened BlockTree

  /** struct binding_level. */
  datatype Level = Level(names: seq<Decl>, shadowed: seq<Shadow>, blocks: seq<Block>, keep: bool, keepIfSubblocks: bool)

  /** The walk over levels, innermost last. */
  function NamesOf(levels: seq<Level>): (r: seq<seq<Decl>>)
    ensures |r| == |levels| && forall i :: 0 <= i < |levels| ==> r[i] == levels[i].names
  {
    if levels == [] then [] else NamesOf(levels[..|levels| - 1]) + [levels[|levels| - 1].names]
  }

  lemma ReversedSame(s: seq<Decl>)
    ensures SameDecls(s, Reversed(s))
  {
  }

  /** A level's decls as poplevel takes them: in the order declared, or latest first. */
  function InOrder(names: seq<Decl>, reverse: bool): seq<Decl> {
    if reverse then Reversed(names) else names
  }

  lemma SameInOrder(names: seq<Decl>, reverse: bool)
    ensures SameDecls(names, InOrder(names, reverse))
  {
    ReversedSame(names);
  }

  /** The local values once the decls of level i are installed. */
  function Inner(levels: seq<Level>, entries: seq<Values>, i: nat): Values
    requires i < |levels| == |entries|
  {
    if i == 0 then map[] else LocalAfter(entries[i], levels[i].names)
  }

  /** entries[i] holds the local values in force when level i was entered: those of the
      level outside it. Each level put aside what its decls displaced, and the local
      values now are those of the current level. */
  ghost predicate CacheOk(levels: seq<Level>, entries: seq<Values>, local: Values) {
    && 1 <= |levels| == |entries|
    && local == Inner(levels, entries, |levels| - 1)
    && (forall i, j {:trigger Inner(levels, entries, i), entries[j]} ::
          0 <= i < j < |levels| && j == i + 1 ==> entries[j] == Inner(levels, entries, i))
    && (forall i {:trigger levels[i].shadowed} :: 0 < i < |levels| ==>
          levels[i].shadowed == ShadowedBy(entries[i], levels[i].names))
  }

  /** Then every active level has the values its decls and those outside it give. */
  lemma {:induction false} InnerIsLocals(levels: seq<Level>, entries: seq<Values>, local: Values, k: nat)
    requires CacheOk(levels, entries, local) && k < |levels|
    ensures Inner(levels, entries, k) == LocalsOf(NamesOf(levels[..k + 1]))
  {
    assert levels[..k + 1][..k] == levels[..k];
    if k > 0 {
      InnerIsLocals(levels, entries, local, k - 1);
    }
  }

  /** So the cached values answer as the walk over the active levels does. */
  lemma CachedIsWalk(levels: seq<Level>, entries: seq<Values>, local: Values, n: Name)
    requires CacheOk(levels, entries, local)
    ensures Walk(NamesOf(levels), n) ==
            if |levels| > 1 && n in local then Some(local[n]) else Value(LocalAfter(map[], levels[0].names), n)
  {
    InnerIsLocals(levels, entries, local, |levels| - 1);
    assert levels[..|levels|] == levels;
    CacheIsWalk(NamesOf(levels), n);
  }

  lemma CachePush(levels: seq<Level>, entries: seq<Values>, local: Values, level: Level)
    requires CacheOk(levels, entries, local) && level.names == [] && level.shadowed == []
    ensures CacheOk(levels + [level], entries + [local], local)
  {
    var ls, es := levels + [level], entries + [local];
    assert forall i :: 0 <= i < |levels| ==> Inner(ls, es, i) == Inner(levels, entries, i);
  }

  /** The roots each active level holds. */
  ghost function RootsOf(levels: seq<Level>): (r: seq<seq<Block>>)
    ensures |r| == |levels| && forall i :: 0 <= i < |levels| ==> r[i] == levels[i].blocks
  {
    seq(|levels|, i requires 0 <= i < |levels| => levels[i].blocks)
  }

  /** The local values after x is installed in level k; nothing is local at the global level. */
  function LocalWith(local: Values, x: Decl, k: nat): Values {
    if x.name.Some? && k > 0 then local[x.name.value := x] else local
  }

  function LevelWith(level: Level, local: Values, x: Decl, k: nat): Level {
    var names := [x] + level.names;
    if x.name.Some? && k > 0 && x.name.value in local then
      level.(names := names, shadowed := [Shadow(x.name.value, local[x.name.value])] + level.shadowed)
    else level.(names := names)
  }

  lemma WithName(level: Level, local: Values, x: Decl, k: nat)
    ensures LevelWith(level, local, x, k).(names := level.names).(names := [x] + level.names) == LevelWith(level, local, x, k)
    ensures LevelWith(level, local, x, k).names == [x] + level.names
    ensures LevelWith(level, local, x, k).blocks == level.blocks
  {
  }

  /** Installing a decl in the current level. */
  lemma CacheInstall(levels: seq<Level>, entries: seq<Values>, local: Values, x: Decl)
    requires CacheOk(levels, entries, local)
    ensures var k := |levels| - 1;
            CacheOk(levels[k := LevelWith(levels[k], local, x, k)], entries, LocalWith(local, x, k))
  {
    var k := |levels| - 1;
    var level := LevelWith(levels[k], local, x, k);
    var ls := levels[k := level];
    assert forall i :: 0 <= i < k ==> Inner(ls, entries, i) == Inner(levels, entries, i);
    assert level.names[1..] == levels[k].names;
  }

  lemma InstalledLists(levels: seq<Level>, local: Values, x: Decl)
    requires levels != []
    ensures var k := |levels| - 1;
            var ls := levels[k := LevelWith(levels[k], local, x, k)];
            && RootsOf(ls) == RootsOf(levels)
            && NamesOf(ls) == NamesOf(levels)[k := [x] + levels[k].names]
  {
  }

  /** After a declaration its name means the decl it is merged into, or itself, and every
      other name means what it did. */
  lemma DeclaredFound(before: seq<Level>, after: seq<Level>, x: Decl, n: Name)
    requires before != [] && |after| == |before| && after[..|before| - 1] == before[..|before| - 1]
    requires var k := |before| - 1; after[k].names == Declare(before[k].names, x)
    ensures Walk(NamesOf(after), n) ==
            if !Names(x, n) then Walk(NamesOf(before), n)
            else if MergedInto(before[|before| - 1].names, x).Some? then MergedInto(before[|before| - 1].names, x)
            else Some(x)
  {
    var k := |before| - 1;
    assert NamesOf(after)[..k] == NamesOf(before)[..k];
    assert ([x] + before[k].names)[1..] == before[k].names;
  }

  lemma DeclaredMeaning(before: seq<Level>, after: seq<Level>, x: Decl, d: Decl)
    requires before != [] && |after| == |before| && after == before[|before| - 1 := after[|before| - 1]]
    requires var k := |before| - 1; after[k].names == Declare(before[k].names, x)
    requires var merged := MergedInto(before[|before| - 1].names, x); d == if merged.Some? then merged.value else x
    ensures forall n :: Walk(NamesOf(after), n) == if Names(x, n) then Some(d) else Walk(NamesOf(before), n)
  {
    hide Walk, NamesOf, Declare;
    forall n ensures Walk(NamesOf(after), n) == if Names(x, n) then Some(d) else Walk(NamesOf(before), n) {
      DeclaredFound(before, after, x, n);
    }
  }

  /** Entering a level changes the meaning of no name, and leaving it gives every name the
      meaning it has outside. */
  lemma LevelTransparent(levels: seq<Level>, level: Level, passed: seq<Block>, n: Name)
    requires level.names == []
    ensures Walk(NamesOf(levels + [level]), n) == Walk(NamesOf(levels), n)
    ensures |levels| >= 2 ==> Walk(NamesOf(LevelsAfter(levels, passed)), n) == Walk(NamesOf(levels[..|levels| - 1]), n)
  {
    assert NamesOf(levels + [level])[..|levels|] == NamesOf(levels);
    if |levels| >= 2 {
      assert NamesOf(LevelsAfter(levels, passed)) == NamesOf(levels[..|levels| - 1]);
    }
  }

  /** Leaving the current level keeps the cache exactly when no name of it is orphaned. */
  lemma CachePop(levels: seq<Level>, entries: seq<Values>, local: Values, outer: Level, decls: seq<Decl>)
    requires CacheOk(levels, entries, local) && |levels| >= 2
    requires var k := |levels| - 1;
             && outer.names == levels[k - 1].names && outer.shadowed == levels[k - 1].shadowed
             && SameDecls(levels[k].names, decls)
    ensures var k := |levels| - 1;
            CacheOk(levels[..k][k - 1 := outer], entries[..k],
                    Restored(Cleared(local, decls), levels[k].shadowed))
            <==> NoOrphans(entries[k], levels[k].names)
    ensures var k := |levels| - 1;
            Restored(Cleared(local, decls), levels[k].shadowed) == entries[k] <==> NoOrphans(entries[k], levels[k].names)
  {
    var k := |levels| - 1;
    var ls, es := levels[..k][k - 1 := outer], entries[..k];
    assert forall i :: 0 <= i < k ==> Inner(ls, es, i) == Inner(levels, entries, i);
    RestoresExactly(entries[k], levels[k].names, decls);
    assert Restored(Cleared(local, decls), levels[k].shadowed) == Left(entries[k], levels[k].names, decls);
    assert entries[k] == Inner(ls, es, k - 1);
  }

  /** marks[i] is how many blocks there were when level i was entered: those in the trees
      of the levels outside it. */
  ghost predicate MarksOk(levels: seq<Level>, marks: seq<nat>) {
    |marks| == |levels| && forall i :: 0 <= i < |levels| ==> marks[i] == |PostAll(RootsOf(levels[..i]))|
  }

  lemma MarksCount(levels: seq<Level>, marks: seq<nat>)
    requires MarksOk(levels, marks)
    ensures |marks| == |levels|
  {
  }

  lemma MarksPush(levels: seq<Level>, marks: seq<nat>, level: Level, count: nat)
    requires MarksOk(levels, marks) && count == |PostAll(RootsOf(levels))|
    ensures MarksOk(levels + [level], marks + [count])
  {
    assert (levels + [level])[..|levels|] == levels;
    assert forall i :: 0 <= i < |levels| ==> (levels + [level])[..i] == levels[..i];
  }

  lemma MarksInstall(levels: seq<Level>, marks: seq<nat>, level: Level)
    requires MarksOk(levels, marks) && levels != []
    ensures MarksOk(levels[|levels| - 1 := level], marks)
  {
    assert forall i :: 0 <= i < |levels| ==> levels[|levels| - 1 := level][..i] == levels[..i];
  }

  /** The levels left keep their marks, and a function's tree begins at that of its level. */
  lemma MarksPop(levels: seq<Level>, marks: seq<nat>, passed: seq<Block>)
    requires MarksOk(levels, marks) && |levels| >= 2
    ensures MarksOk(LevelsAfter(levels, passed), marks[..|levels| - 1])
    ensures marks[|levels| - 1] == |PostAll(RootsOf(LevelsAfter(levels, [])))|
  {
    var k := |levels| - 1;
    assert forall i :: 0 <= i < k ==> LevelsAfter(levels, passed)[..i] == levels[..i];
    RootsAfter(levels, []);
    assert RootsOf(LevelsAfter(levels, [])) == RootsOf(levels[..k]);
  }

  /** Each level lists what its declarations installed. */
  ghost predicate ToldBy(levels: seq<Level>, declared: seq<seq<Decl>>) {
    |declared| == |levels| && forall i :: 0 <= i < |levels| ==> levels[i].names == Installed(declared[i])
  }

  lemma ToldNext(levels: seq<Level>, declared: seq<seq<Decl>>, x: Decl, level: Level)
    requires ToldBy(levels, declared) && levels != [] && level.names == Declare(levels[|levels| - 1].names, x)
    ensures var k := |levels| - 1;
            ToldBy(levels[k := level], declared[k := declared[k] + [x]])
  {
    var k := |levels| - 1;
    assert (declared[k] + [x])[..|declared[k]|] == declared[k];
  }

  lemma ToldPush(levels: seq<Level>, declared: seq<seq<Decl>>, level: Level)
    requires ToldBy(levels, declared) && level.names == []
    ensures ToldBy(levels + [level], declared + [[]])
  {
  }

  /** What the level left says of its names, and that the others list what they did. */
  lemma ToldPop(levels: seq<Level>, declared: seq<seq<Decl>>, entry: Values, passed: seq<Block>)
    requires ToldBy(levels, declared) && |levels| >= 2
    ensures ToldBy(LevelsAfter(levels, passed), declared[..|levels| - 1])
    ensures NoOrphans(entry, levels[|levels| - 1].names) <==> TextKeeps(entry, declared[|levels| - 1])
  {
    KeptByText(entry, declared[|levels| - 1]);
  }

  /** The invariant of every run: the global values are what the outermost level declares,
      and the blocks form the trees of the active levels. */
  ghost predicate StateOk(levels: seq<Level>, global: Values, created: seq<nat>, next: nat, up: Superiors) {
    && levels != []
    && global == LocalAfter(map[], levels[0].names)
    && Forest(RootsOf(levels), created, next, up)
  }

  lemma StatePush(levels: seq<Level>, global: Values, created: seq<nat>, next: nat, up: Superiors, level: Level)
    requires StateOk(levels, global, created, next, up) && level.blocks == []
    ensures StateOk(levels + [level], global, created, next, up)
  {
    ForestPush(RootsOf(levels), created, next, up);
    assert RootsOf(levels + [level]) == RootsOf(levels) + [[]];
  }

  lemma StateInstall(levels: seq<Level>, global: Values, created: seq<nat>, next: nat, up: Superiors,
                     local: Values, x: Decl)
    requires StateOk(levels, global, created, next, up)
    ensures var k := |levels| - 1;
            StateOk(levels[k := LevelWith(levels[k], local, x, k)], GlobalWith(global, x, k), created, next, up)
  {
    InstalledLists(levels, local, x);
    var level := LevelWith(levels[|levels| - 1], local, x, |levels| - 1);
    assert level.names[1..] == levels[|levels| - 1].names;
  }

  function GlobalWith(global: Values, x: Decl, k: nat): Values {
    if x.name.Some? && k == 0 then global[x.name.value := x] else global
  }

  /** The level outside, once it has the trees the level left hands on. */
  function OuterAfter(outer: Level, passed: seq<Block>): Level {
    outer.(blocks := outer.blocks + passed)
  }

  function LevelsAfter(levels: seq<Level>, passed: seq<Block>): seq<Level>
    requires |levels| >= 2
  {
    var k := |levels| - 1;
    levels[..k][k - 1 := OuterAfter(levels[k - 1], passed)]
  }

  lemma RootsAfter(levels: seq<Level>, passed: seq<Block>)
    requires |levels| >= 2
    ensures var k := |levels| - 1;
            && RootsOf(levels) == RootsOf(levels)[..k - 1] + [levels[k - 1].blocks] + [levels[k].blocks]
            && RootsOf(LevelsAfter(levels, passed)) == RootsOf(levels)[..k - 1] + [levels[k - 1].blocks + passed]
            && RootsOf(LevelsAfter(levels, [])) == RootsOf(levels)[..k - 1] + [levels[k - 1].blocks]
  {
    assert levels[|levels| - 2].blocks + [] == levels[|levels| - 2].blocks;
  }

  lemma StatePassed(levels: seq<Level>, global: Values, created: seq<nat>, next: nat, up: Superiors, up': Superiors)
    requires StateOk(levels, global, created, next, up) && |levels| >= 2
    requires Adopted(levels[|levels| - 1].blocks, None, up, up')
    ensures StateOk(LevelsAfter(levels, levels[|levels| - 1].blocks), global, created, next, up')
  {
    var k := |levels| - 1;
    RootsAfter(levels, levels[k].blocks);
    ForestPassed(RootsOf(levels)[..k - 1], levels[k - 1].blocks, levels[k].blocks, created, next, up, up');
  }

  lemma StateClosed(levels: seq<Level>, global: Values, created: seq<nat>, b: Block, up: Superiors, up': Superiors)
    requires StateOk(levels, global, created, b.uid, up) && |levels| >= 2
    requires b.subblocks == levels[|levels| - 1].blocks
    requires Adopted(b.subblocks, Some(b.uid), up[b.uid := None], up')
    ensures StateOk(LevelsAfter(levels, [b]), global, created + [b.uid], b.uid + 1, up')
  {
    var k := |levels| - 1;
    RootsAfter(levels, [b]);
    ForestClosed(RootsOf(levels)[..k - 1], levels[k - 1].blocks, b, created, up, up');
  }

  lemma StateFinished(levels: seq<Level>, global: Values, created: seq<nat>, b: Block, up: Superiors, up': Superiors)
    requires StateOk(levels, global, created, b.uid, up) && |levels| >= 2
    requires b.subblocks == levels[|levels| - 1].blocks
    requires Adopted(b.subblocks, Some(b.uid), up[b.uid := None], up')
    ensures var left := LevelsAfter(levels, []);
            && StateOk(left, global, PostAll(RootsOf(left)), b.uid + 1, up')
            && PostAll(RootsOf(left)) + Post([b]) == created + [b.uid]
    ensures Increasing(Post([b])) && Linked(b, up')
  {
    var k := |levels| - 1;
    RootsAfter(levels, []);
    assert RootsOf(levels)[..k - 1] + [levels[k - 1].blocks] == RootsOf(levels)[..k];
    ForestFinished(RootsOf(levels)[..k], b, created, up, up');
  }

  /** What poplevel hands to the level outside. */
  function Passed(level: Level, block: Option<Block>, functionbody: bool): seq<Block> {
    if functionbody then [] else if block.Some? then [block.value] else level.blocks
  }

  /** The blocks created and still in no finished function. */
  ghost function CreatedAfter(left: seq<Level>, created: seq<nat>, block: Option<Block>, functionbody: bool): seq<nat> {
    if functionbody then PostAll(RootsOf(left)) else if block.Some? then created + [block.value.uid] else created
  }

  lemma CreatedUnfinished(left: seq<Level>, created: seq<nat>, block: Option<Block>)
    ensures CreatedAfter(left, created, block, false) == if block.Some? then created + [block.value.uid] else created
  {
  }

  /** The numbers and superiors once a block was made, or not, for the level left. */
  ghost predicate Closed(level: Level, block: Option<Block>, next: nat, next': nat, up: Superiors, up': Superiors) {
    if block.Some? then
      && block.value.uid == next && next' == next + 1 && block.value.subblocks == level.blocks
      && Adopted(level.blocks, Some(next), up[next := None], up')
    else next' == next && Adopted(level.blocks, None, up, up')
  }

  lemma StatePopped(levels: seq<Level>, global: Values, created: seq<nat>, next: nat, next': nat,
                    up: Superiors, up': Superiors, block: Option<Block>, functionbody: bool)
    requires StateOk(levels, global, created, next, up) && |levels| >= 2 && (functionbody ==> block.Some?)
    requires Closed(levels[|levels| - 1], block, next, next', up, up')
    ensures var left := LevelsAfter(levels, Passed(levels[|levels| - 1], block, functionbody));
            && StateOk(left, global, CreatedAfter(left, created, block, functionbody), next', up')
            && (functionbody ==> CreatedAfter(left, created, block, functionbody) + Post([block.value])
                                 == created + [block.value.uid])
    ensures functionbody ==> Increasing(Post([block.value])) && Linked(block.value, up')
  {
    if functionbody {
      StateFinished(levels, global, created, block.value, up, up');
    } else if block.Some? {
      StateClosed(levels, global, created, block.value, up, up');
    } else {
      StatePassed(levels, global, created, next, up, up');
    }
  }

  lemma AllCreated(levels: seq<Level>, global: Values, created: seq<nat>, next: nat, up: Superiors)
    requires StateOk(levels, global, created, next, up)
    ensures created == PostAll(RootsOf(levels))
  {
  }

  /** b's tree lists the blocks made from `mark` on, each once and in order, b last; those
      before are left. */
  ghost predicate TakesFrom(mark: nat, created: seq<nat>, b: Block, kept: seq<nat>) {
    mark <= |created| && kept == created[..mark] && Post([b]) == (created + [b.uid])[mark..]
  }

  lemma Stretch(created: seq<nat>, b: Block, kept: seq<nat>)
    requires kept + Post([b]) == created + [b.uid]
    ensures TakesFrom(|kept|, created, b, kept)
  {
    PostOne(b);
    var tree := Post([b]);
    assert |kept| + |tree| == |created| + 1;
    assert kept == (kept + tree)[..|kept|];
    assert tree == (kept + tree)[|kept|..];
  }

  /** What a pop does to the invariant, the marks and, for a function, the trees. */
  lemma PopFacts(levels: seq<Level>, marks: seq<nat>, global: Values, created: seq<nat>, next: nat, next': nat,
                 up: Superiors, up': Superiors, block: Option<Block>, functionbody: bool)
    requires StateOk(levels, global, created, next, up) && MarksOk(levels, marks)
    requires |levels| >= 2 && (functionbody ==> block.Some?)
    requires Closed(levels[|levels| - 1], block, next, next', up, up')
    ensures var left := LevelsAfter(levels, Passed(levels[|levels| - 1], block, functionbody));
            && StateOk(left, global, CreatedAfter(left, created, block, functionbody), next', up')
            && MarksOk(left, marks[..|levels| - 1])
            && (functionbody ==>
                  TakesFrom(marks[|levels| - 1], created, block.value, CreatedAfter(left, created, block, functionbody)))
    ensures functionbody ==> Increasing(Post([block.value])) && Linked(block.value, up')
  {
    hide StateOk, MarksOk, Closed, LevelsAfter, TakesFrom, Linked;
    StatePopped(levels, global, created, next, next', up, up', block, functionbody);
    MarksPop(levels, marks, Passed(levels[|levels| - 1], block, functionbody));
    if functionbody {
      Stretch(created, block.value, PostAll(RootsOf(LevelsAfter(levels, []))));
    }
  }

  // What the trees record of the declarations.

  predicate LatestFirst(names: seq<Decl>, installed: seq<Decl>) {
    |names| == |installed| && forall j :: 0 <= j < |names| ==> names[j] == installed[|installed| - 1 - j]
  }

  /** Each level lists what was installed in it, latest first, and its trees list the
      blocks of the levels left inside it, with what was declared there. */
  ghost predicate RecordOk(levels: seq<Level>, installed: seq<seq<Decl>>, exits: seq<seq<Exit>>) {
    && |installed| == |exits| == |levels|
    && forall i :: 0 <= i < |levels| ==>
         LatestFirst(levels[i].names, installed[i]) && Listing(levels[i].blocks) == Kept(exits[i])
  }

  lemma RecordPush(levels: seq<Level>, installed: seq<seq<Decl>>, exits: seq<seq<Exit>>, level: Level)
    requires RecordOk(levels, installed, exits) && level.names == [] && level.blocks == []
    ensures RecordOk(levels + [level], installed + [[]], exits + [[]])
  {
  }

  lemma RecordInstall(levels: seq<Level>, installed: seq<seq<Decl>>, exits: seq<seq<Exit>>, x: Decl, level: Level)
    requires RecordOk(levels, installed, exits) && levels != []
    requires level.names == [x] + levels[|levels| - 1].names && level.blocks == levels[|levels| - 1].blocks
    ensures var k := |levels| - 1;
            RecordOk(levels[k := level], installed[k := installed[k] + [x]], exits)
  {
  }

  /** What a new level keeps, if it held. */
  lemma PushedKeeps(levels: seq<Level>, level: Level, entries: seq<Values>, local: Values, declared: seq<seq<Decl>>,
                    installed: seq<seq<Decl>>, exits: seq<seq<Exit>>)
    requires level.names == [] && level.shadowed == [] && level.blocks == []
    ensures CacheOk(levels, entries, local) ==> CacheOk(levels + [level], entries + [local], local)
    ensures ToldBy(levels, declared) ==> ToldBy(levels + [level], declared + [[]])
    ensures RecordOk(levels, installed, exits) ==> RecordOk(levels + [level], installed + [[]], exits + [[]])
  {
    hide CacheOk, ToldBy, RecordOk;
    if CacheOk(levels, entries, local) {
      CachePush(levels, entries, local, level);
    }
    if ToldBy(levels, declared) {
      ToldPush(levels, declared, level);
    }
    if RecordOk(levels, installed, exits) {
      RecordPush(levels, installed, exits, level);
    }
  }

  /** The level left, with its declarations in the order their block was to have them. */
  function ExitOf(names: seq<Decl>, installed: seq<Decl>, reverse: bool, block: Option<Block>): Exit {
    Exit(if reverse then installed else names, if block.Some? then Some(block.value.uid) else None)
  }

  function ExitsAfter(exits: seq<seq<Exit>>, e: Exit, functionbody: bool): seq<seq<Exit>>
    requires |exits| >= 2
  {
    var k := |exits| - 1;
    if functionbody then exits[..k] else exits[..k][k - 1 := exits[k - 1] + exits[k] + [e]]
  }

  lemma StillThorough(exits: seq<seq<Exit>>, names: seq<Decl>, installed: seq<Decl>, e: Exit, functionbody: bool)
    requires |exits| >= 2 && LatestFirst(names, installed) && (e.decls == names || e.decls == installed)
    ensures var k := |exits| - 1;
            && |ExitsAfter(exits, e, functionbody)| == k
            && (!functionbody && (e.block.Some? || names == []) && Thorough(exits[k - 1]) && Thorough(exits[k])
                ==> Thorough(ExitsAfter(exits, e, functionbody)[k - 1]))
  {
  }

  lemma ListedInOrder(names: seq<Decl>, installed: seq<Decl>, reverse: bool)
    requires LatestFirst(names, installed)
    ensures InOrder(names, reverse) == if reverse then installed else names
  {
  }

  lemma PassedListing(outer: seq<Block>, level: Level, block: Option<Block>, before: seq<Exit>, inner: seq<Exit>, e: Exit)
    requires Listing(outer) == Kept(before) && Listing(level.blocks) == Kept(inner)
    requires block.Some? ==> block.value.subblocks == level.blocks && e == Exit(block.value.vars, Some(block.value.uid))
    requires block.None? ==> e.block.None?
    ensures Listing(outer + Passed(level, block, false)) == Kept(before + inner + [e])
  {
    hide Listing, Kept;
    KeptAppend(before + inner, [e]);
    KeptAppend(before, inner);
    KeptOne(e);
    if block.Some? {
      ListingLast(outer, block.value);
    } else {
      ListingAppend(outer, level.blocks);
    }
  }

  lemma RecordPop(levels: seq<Level>, installed: seq<seq<Decl>>, exits: seq<seq<Exit>>,
                  block: Option<Block>, e: Exit, functionbody: bool)
    requires RecordOk(levels, installed, exits) && |levels| >= 2
    requires block.Some? ==> block.value.subblocks == levels[|levels| - 1].blocks
    requires !functionbody && block.Some? ==> e == Exit(block.value.vars, Some(block.value.uid))
    requires block.None? ==> e.block.None?
    ensures var k := |levels| - 1;
            RecordOk(LevelsAfter(levels, Passed(levels[k], block, functionbody)), installed[..k], ExitsAfter(exits, e, functionbody))
  {
    hide Listing, Kept;
    var k := |levels| - 1;
    if !functionbody {
      PassedListing(levels[k - 1].blocks, levels[k], block, exits[k - 1], exits[k], e);
    } else {
      assert levels[k - 1].blocks + [] == levels[k - 1].blocks;
    }
  }

  /** What a finished function's tree records: every level left inside it with a block, in
      the order left, with all that was declared there; and everything declared inside it
      when no level with declarations was left without one. */
  lemma RecordFinished(b: Block, inner: seq<Exit>)
    requires Listing(b.subblocks) == Kept(inner) && b.vars == []
    ensures Listing([b]) == Kept(inner) + [Exit([], Some(b.uid))]
    ensures Thorough(inner) ==> AllDecls(Listing([b])) == AllDecls(inner)
  {
    hide Listing, Kept, AllDecls, Thorough;
    var e := Exit([], Some(b.uid));
    ListingOne(b);
    AllDeclsLast(Kept(inner), e);
    if Thorough(inner) {
      NoneLost(inner);
    }
  }

  /** The global level alone, with nothing in it. */
  lemma GlobalLevel(level: Level)
    requires level.names == [] && level.blocks == [] && level.shadowed == []
    ensures CacheOk([level], [map[]], map[]) && MarksOk([level], [0]) && StateOk([level], map[], [], 0, map[])
    ensures ToldBy([level], [[]]) && RecordOk([level], [[]], [[]])
  {
    hide StateOk, MarksOk;
    GlobalTrees(level);
  }

  lemma GlobalTrees(level: Level)
    requires level.names == [] && level.blocks == []
    ensures MarksOk([level], [0]) && StateOk([level], map[], [], 0, map[])
  {
    hide Post, Linked;
    assert RootsOf([level][..0]) == [] && RootsOf([level]) == [[]];
    PostAllLast([], []);
    NoBlocks();
  }

  lemma NoBlocks()
    ensures Post([]) == []
  {
  }

  class Bindings {
    var levels: seq<Level>              // the active levels, global first
    var local: Values
    var global: Values
    var keepNext: bool
    var keepNextIfSubblocks: bool
    ghost var entries: seq<Values>      // the local values in force when each level was entered
    var supercontext: Superiors
    var nextBlock: nat
    ghost var created: seq<nat>         // the blocks made and not in a finished function, in order
    ghost var marks: seq<nat>           // how many of them there were when each level was entered
    ghost var declared: seq<seq<Decl>>  // each level's declarations as written
    ghost var installed: seq<seq<Decl>> // those of them that were installed, in order
    ghost var exits: seq<seq<Exit>>     // the levels left inside each level, in order

    ghost predicate Valid()
      reads this
    {
      && |levels| == |entries| == |declared| && MarksOk(levels, marks)
      && StateOk(levels, global, created, nextBlock, supercontext)
    }

    ghost predicate Cached()
      reads this`levels, this`entries, this`local
    {
      CacheOk(levels, entries, local)
    }

    ghost predicate Told()
      reads this`levels, this`declared
    {
      ToldBy(levels, declared)
    }

    ghost predicate Recorded()
      reads this`levels, this`installed, this`exits
    {
      RecordOk(levels, installed, exits)
    }

    function Current(): Level
      requires levels != []
      reads this`levels
    {
      levels[|levels| - 1]
    }

    constructor ()
      ensures Valid() && Cached() && Told() && Recorded()
      ensures |levels| == 1 && created == [] && exits == [[]] && local == map[] == global
    {
      hide CacheOk, MarksOk, StateOk, ToldBy, RecordOk;
      levels, local, global := [Level([], [], [], false, false)], map[], map[];
      keepNext, keepNextIfSubblocks := false, false;
      supercontext, nextBlock := map[], 0;
      entries, created, marks, declared := [map[]], [], [0], [[]];
      installed, exits := [[]], [[]];
      new;
      GlobalLevel(levels[0]);
    }

    /** lookup_name. */
    method LookupName(n: Name) returns (d: Option<Decl>)
      requires Valid()
      ensures Cached() ==> d == Walk(NamesOf(levels), n)
    {
      hide Forest;
      if |levels| > 1 && n in local {
        d := Some(local[n]);
      } else {
        d := if n in global then Some(global[n]) else None;
      }
      if Cached() {
        CachedIsWalk(levels, entries, local, n);
      }
    }

    /** lookup_name_current_level. */
    method LookupNameCurrentLevel(n: Name) returns (d: Option<Decl>)
      requires Valid()
      ensures Cached() ==> d == FirstNamed(Current().names, n)
    {
      hide Forest;
      LocalAfterValue(map[], levels[0].names, n);
      if |levels| == 1 {
        return if n in global then Some(global[n]) else None;
      }
      var names := Current().names;
      if n !in local {
        LocalAfterValue(entries[|levels| - 1], names, n);
        return None;
      }
      var i := 0;
      while i < |names| && !Names(names[i], n)
        invariant 0 <= i <= |names|
        invariant FirstNamed(names, n) == FirstNamed(names[i..], n)
      {
        i := i + 1;
      }
      d := if i < |names| then Some(names[i]) else None;
    }

    /** pushlevel. */
    method PushLevel()
      requires Valid()
      modifies this
      ensures Valid() && (old(Cached()) ==> Cached()) && (old(Told()) ==> Told()) && (old(Recorded()) ==> Recorded())
      ensures levels == old(levels) + [Level([], [], [], old(keepNext), old(keepNextIfSubblocks))]
      ensures entries == old(entries) + [local]
      ensures marks == old(marks) + [|created|] && declared == old(declared) + [[]]
      ensures installed == old(installed) + [[]] && exits == old(exits) + [[]]
      ensures local == old(local) && global == old(global) && created == old(created)
      ensures !keepNext && !keepNextIfSubblocks
    {
      hide StateOk, MarksOk, ToldBy, CacheOk, RecordOk, PostAll, RootsOf, Forest, Post;
      var level := Level([], [], [], keepNext, keepNextIfSubblocks);
      PushedKeeps(levels, level, entries, local, declared, installed, exits);
      StatePush(levels, global, created, nextBlock, supercontext, level);
      AllCreated(levels, global, created, nextBlock, supercontext);
      MarksPush(levels, marks, level, |created|);
      keepNext, keepNextIfSubblocks, levels := false, false, levels + [level];
      NoteLevel();
    }

    /** What is noted of a level when it is entered. */
    ghost method NoteLevel()
      modifies this`entries, this`marks, this`declared, this`installed, this`exits
      ensures entries == old(entries) + [local] && marks == old(marks) + [|created|]
      ensures declared == old(declared) + [[]] && installed == old(installed) + [[]] && exits == old(exits) + [[]]
    {
      entries, marks := entries + [local], marks + [|created|];
      declared, installed, exits := declared + [[]], installed + [[]], exits + [[]];
    }

    /** keep_next_level. */
    method KeepNextLevel()
      modifies this`keepNext
      ensures keepNext
    {
      keepNext := true;
    }

    /** kept_level_p, of a level without tags: what poplevel is told to keep. A level that
        is not kept has no declarations. */
    method KeptLevel() returns (keep: bool)
      requires levels != []
      ensures !keep ==> Current().names == []
      ensures keep && Current().names == [] ==> Current().keep || (Current().keepIfSubblocks && Current().blocks != [])
    {
      var level := Current();
      keep := (level.keepIfSubblocks && level.blocks != []) || level.keep || level.names != [];
    }

    /** pushdecl: a redeclaration of the same kind in this level is merged into the old
        decl; anything else is installed, even what is an error. */
    method PushDecl(x: Decl) returns (d: Decl)
      requires Valid()
      modifies this`levels, this`local, this`global, this`declared, this`installed
      ensures Valid() && (old(Cached()) ==> Cached()) && (old(Cached() && Told()) ==> Told())
      ensures old(Recorded()) ==> Recorded()
      ensures old(Cached() && Recorded()) ==>
                var k := |levels| - 1;
                installed == if MergedInto(old(Current().names), x).Some? then old(installed)
                             else old(installed)[k := old(installed)[k] + [x]]
      ensures declared == old(declared[|declared| - 1 := declared[|declared| - 1] + [x]])
      ensures old(Cached()) ==>
                var merged := MergedInto(old(Current().names), x);
                if merged.Some? then d == merged.value && levels == old(levels)
                else d == x && levels == old(levels)[|levels| - 1 := LevelWith(old(Current()), old(local), x, |levels| - 1)]
      ensures old(Cached()) ==> Current().names == Declare(old(Current().names), x)
      ensures old(Cached()) ==>
                forall n :: Walk(NamesOf(levels), n) == if Names(x, n) then Some(d) else Walk(NamesOf(old(levels)), n)
    {
      hide StateOk, CacheOk, MarksOk, LevelWith, ToldBy, Walk, NamesOf, RecordOk;
      SomeLevel();
      d := x;
      var merged := false;
      if x.name.Some? {
        var t := LookupNameCurrentLevel(x.name.value);
        if t.Some? && Merges(t.value, x) {
          d, merged := t.value, true;
        }
      }
      if !merged {
        Install(x);
      }
      ghost var k := |levels| - 1;
      if old(Cached()) {
        assert levels == old(levels)[k := Current()];
        DeclaredMeaning(old(levels), levels, x, d);
      }
      declared := declared[k := declared[k] + [x]];
      if old(Cached() && Told()) {
        ToldNext(old(levels), old(declared), x, Current());
        assert levels == old(levels)[k := Current()];
      }
    }

    /** The part of pushdecl that installs a new decl and puts it on the level's list. */
    method Install(x: Decl)
      requires Valid()
      modifies this`levels, this`local, this`global, this`installed
      ensures Valid() && (old(Cached()) ==> Cached())
      ensures old(Recorded()) ==>
                Recorded() && installed == old(installed)[|levels| - 1 := old(installed)[|levels| - 1] + [x]]
      ensures |levels| == old(|levels|) && Current().names == [x] + old(Current().names)
      ensures levels == old(levels)[|levels| - 1 := LevelWith(old(Current()), old(local), x, |levels| - 1)]
      ensures local == LocalWith(old(local), x, |levels| - 1)
    {
      hide StateOk, CacheOk, MarksOk, LevelWith;
      SomeLevel();
      StateInstall(levels, global, created, nextBlock, supercontext, local, x);
      if Cached() {
        CacheInstall(levels, entries, local, x);
      }
      MarksInstall(levels, marks, LevelWith(Current(), local, x, |levels| - 1));
      BindName(x);
      var k := |levels| - 1;
      levels := levels[k := levels[k].(names := [x] + levels[k].names)];
      WithName(old(Current()), old(local), x, k);
      assert levels == old(levels)[k := LevelWith(old(Current()), old(local), x, k)];
      if old(Recorded()) {
        RecordInstall(old(levels), installed, exits, x, LevelWith(old(Current()), old(local), x, k));
        installed := installed[k := installed[k] + [x]];
      }
    }

    method BindName(x: Decl)
      requires levels != []
      modifies this`levels, this`local, this`global
      ensures |levels| == old(|levels|)
      ensures levels == old(levels)[old(|levels|) - 1 := LevelWith(old(Current()), old(local), x, old(|levels|) - 1).(names := old(Current()).names)]
      ensures local == LocalWith(old(local), x, old(|levels|) - 1)
      ensures global == GlobalWith(old(global), x, old(|levels|) - 1)
    {
      var k := |levels| - 1;
      if x.name.Some? {
        var n := x.name.value;
        if k == 0 {
          global := global[n := x];
        } else {
          if n in local {
            levels := levels[k := levels[k].(shadowed := [Shadow(n, local[n])] + levels[k].shadowed)];
          }
          local := local[n := x];
        }
      }
    }

    /** The two loops of poplevel over the decls left and the values they displaced. */
    method RestoreValues(decls: seq<Decl>, shadowed: seq<Shadow>)
      modifies this`local
      ensures local == Restored(Cleared(old(local), decls), shadowed)
    {
      var i := 0;
      while i < |decls|
        invariant 0 <= i <= |decls|
        invariant local == Cleared(old(local), decls[..i])
      {
        assert decls[..i + 1][..i] == decls[..i];
        if decls[i].name.Some? {
          local := local - {decls[i].name.value};
        }
        i := i + 1;
      }
      assert decls[..i] == decls;
      i := 0;
      while i < |shadowed|
        invariant 0 <= i <= |shadowed|
        invariant local == Restored(Cleared(old(local), decls), shadowed[..i])
      {
        assert shadowed[..i + 1][..i] == shadowed[..i];
        local := local[shadowed[i].name := shadowed[i].decl];
        i := i + 1;
      }
      assert shadowed[..i] == shadowed;
    }

    /** The loop of poplevel that records the superior of each subblock. */
    method Adopt(bs: seq<Block>, parent: Option<nat>)
      requires forall b :: b in bs ==> b.uid in supercontext
      modifies this`supercontext
      ensures Adopted(bs, parent, old(supercontext), supercontext)
    {
      var i := 0;
      while i < |bs|
        invariant 0 <= i <= |bs|
        invariant Adopted(bs[..i], parent, old(supercontext), supercontext)
      {
        assert bs[i] in bs;
        assert bs[..i + 1] == bs[..i] + [bs[i]];
        supercontext := supercontext[bs[i].uid := parent];
        i := i + 1;
      }
      assert bs[..i] == bs;
    }

    /** The part of poplevel that takes the current level's names out of force. */
    method LeaveBindings(decls: seq<Decl>, passed: seq<Block>)
      requires |levels| == |entries| > 1 && SameDecls(Current().names, decls)
      modifies this`local
      ensures old(Cached()) ==>
                var entry, kept := entries[|entries| - 1], NoOrphans(entries[|entries| - 1], Current().names);
                && (local == entry <==> kept)
                && (CacheOk(LevelsAfter(levels, passed), entries[..|entries| - 1], local) <==> kept)
    {
      var k := |levels| - 1;
      if Cached() {
        CachePop(levels, entries, local, OuterAfter(levels[k - 1], passed), decls);
      }
      RestoreValues(decls, levels[k].shadowed);
    }

    /** The part of poplevel that makes the block, if any, and records it as superior. */
    method CloseLevel(decls: seq<Decl>, make: bool, functionbody: bool) returns (block: Option<Block>)
      requires levels != [] && forall b :: b in Current().blocks ==> b.uid in supercontext
      modifies this`supercontext, this`nextBlock
      ensures block.Some? <==> make
      ensures Closed(Current(), block, old(nextBlock), nextBlock, old(supercontext), supercontext)
      ensures block.Some? ==> block.value.subblocks == Current().blocks && block.value.vars == if functionbody then [] else decls
    {
      block := None;
      if make {
        block := Some(Block(nextBlock, if functionbody then [] else decls, Current().blocks));
        supercontext := supercontext[nextBlock := None];
        nextBlock := nextBlock + 1;
      }
      Adopt(Current().blocks, if block.Some? then Some(block.value.uid) else None);
    }

    /** poplevel. */
    method PopLevel(keep: bool, reverse: bool, functionbody: bool) returns (block: Option<Block>)
      requires Valid() && |levels| > 1
      modifies this
      ensures Valid() && global == old(global)
      ensures old(Cached()) ==>
                (Cached() <==> NoOrphans(old(entries[|entries| - 1]), old(Current().names)))
      ensures old(Cached()) ==>
                (local == old(entries[|entries| - 1]) <==> NoOrphans(old(entries[|entries| - 1]), old(Current().names)))
      ensures old(Told()) ==> Told()
      ensures old(Told()) ==>
                (NoOrphans(old(entries[|entries| - 1]), old(Current().names))
                 <==> TextKeeps(old(entries[|entries| - 1]), old(declared[|declared| - 1])))
      ensures declared == old(declared[..|declared| - 1]) && marks == old(marks[..|marks| - 1])
      ensures entries == old(entries[..|entries| - 1])
      ensures block.Some? <==> keep || functionbody || old(Current().keep)
                               || (old(Current().keepIfSubblocks) && old(Current().blocks) != [])
      ensures old(Recorded()) ==>
                var k := old(|levels|) - 1;
                && Recorded() && installed == old(installed[..k])
                && exits == ExitsAfter(old(exits), ExitOf(old(Current().names), old(installed[k]), reverse, block), functionbody)
                && (block.Some? ==>
                      block.value.vars == if functionbody then [] else if reverse then old(installed[k]) else old(Current().names))
                && (functionbody ==> Listing([block.value]) == Kept(old(exits[k])) + [Exit([], Some(block.value.uid))])
                && (functionbody && Thorough(old(exits[k])) ==> AllDecls(Listing([block.value])) == AllDecls(old(exits[k])))
      ensures old(Recorded()) && !functionbody && (keep || old(Current().names) == []) ==>
                var k := old(|levels|) - 1;
                Thorough(old(exits[k - 1])) && Thorough(old(exits[k])) ==> Thorough(exits[k - 1])
      ensures Closed(old(Current()), block, old(nextBlock), nextBlock, old(supercontext), supercontext)
      ensures block.Some? && !functionbody ==> block.value.vars == InOrder(old(Current().names), reverse)
      ensures levels == LevelsAfter(old(levels), Passed(old(Current()), block, functionbody))
      ensures !functionbody ==> created == if block.Some? then old(created) + [block.value.uid] else old(created)
      ensures functionbody ==> TakesFrom(old(marks[|marks| - 1]), old(created), block.value, created)
      ensures functionbody ==> Increasing(Post([block.value])) && Linked(block.value, supercontext)
    {
      hide StateOk, MarksOk, ToldBy, NoOrphans, TextKeeps, Closed, CacheOk, TakesFrom, LevelsAfter, Passed,
           Increasing, Linked, Post,
           InOrder, SameDecls, CreatedAfter, RecordOk, ExitsAfter, Listing, Kept, Thorough;
      var level := Current();
      var decls := InOrder(level.names, reverse);
      RootsKnown();
      MarksCount(levels, marks);
      block := CloseLevel(decls, keep || level.keep || functionbody || (level.keepIfSubblocks && level.blocks != []), functionbody);
      PopFacts(levels, marks, global, created, old(nextBlock), nextBlock, old(supercontext), supercontext, block, functionbody);
      SameInOrder(level.names, reverse);
      var passed := Passed(level, block, functionbody);
      CreatedUnfinished(LevelsAfter(levels, passed), created, block);
      DropLevel(decls, passed, CreatedAfter(LevelsAfter(levels, passed), created, block, functionbody));
      if old(Recorded()) {
        RecordLeft(old(levels), reverse, block, functionbody);
      }
    }

    /** The record of the level left. */
    ghost method RecordLeft(before: seq<Level>, reverse: bool, block: Option<Block>, functionbody: bool)
      requires |before| >= 2 && RecordOk(before, installed, exits) && (functionbody ==> block.Some?)
      requires levels == LevelsAfter(before, Passed(before[|before| - 1], block, functionbody))
      requires block.Some? ==>
                 && block.value.subblocks == before[|before| - 1].blocks
                 && block.value.vars == if functionbody then [] else InOrder(before[|before| - 1].names, reverse)
      modifies this`installed, this`exits
      ensures var k := |before| - 1;
              && |old(installed)| == |old(exits)| == |before|
              && Recorded() && installed == old(installed)[..k]
              && exits == ExitsAfter(old(exits), ExitOf(before[k].names, old(installed)[k], reverse, block), functionbody)
              && (block.Some? ==>
                    block.value.vars == if functionbody then [] else if reverse then old(installed)[k] else before[k].names)
              && (functionbody ==> Listing([block.value]) == Kept(old(exits)[k]) + [Exit([], Some(block.value.uid))])
              && (functionbody && Thorough(old(exits)[k]) ==> AllDecls(Listing([block.value])) == AllDecls(old(exits)[k]))
              && (!functionbody && (block.Some? || before[k].names == []) && Thorough(old(exits)[k - 1]) && Thorough(old(exits)[k])
                  ==> Thorough(exits[k - 1]))
    {
      hide Listing, Kept, Thorough, LevelsAfter, ExitsAfter, AllDecls, InOrder, LatestFirst;
      var k := |before| - 1;
      var e := ExitOf(before[k].names, installed[k], reverse, block);
      ListedInOrder(before[k].names, installed[k], reverse);
      RecordPop(before, installed, exits, block, e, functionbody);
      if functionbody {
        RecordFinished(block.value, exits[k]);
      }
      StillThorough(exits, before[k].names, installed[k], e, functionbody);
      installed, exits := installed[..k], ExitsAfter(exits, e, functionbody);
    }

    /** The part of poplevel that makes the level outside current again. */
    method DropLevel(decls: seq<Decl>, passed: seq<Block>, ghost kept: seq<nat>)
      requires |levels| == |entries| == |declared| && |levels| > 1 && MarksOk(levels, marks)
      requires SameDecls(Current().names, decls)
      requires StateOk(LevelsAfter(levels, passed), global, kept, nextBlock, supercontext)
      modifies this`levels, this`local, this`entries, this`created, this`marks, this`declared
      ensures Valid() && levels == LevelsAfter(old(levels), passed) && created == kept
      ensures entries == old(entries[..|entries| - 1])
      ensures declared == old(declared[..|declared| - 1]) && marks == old(marks[..|marks| - 1])
      ensures old(Cached()) ==>
                (Cached() <==> NoOrphans(old(entries[|entries| - 1]), old(Current().names)))
      ensures old(Cached()) ==>
                (local == old(entries[|entries| - 1]) <==> NoOrphans(old(entries[|entries| - 1]), old(Current().names)))
      ensures old(Told()) ==> Told()
      ensures old(Told()) ==>
                (NoOrphans(old(entries[|entries| - 1]), old(Current().names))
                 <==> TextKeeps(old(entries[|entries| - 1]), old(declared[|declared| - 1])))
    {
      hide StateOk, MarksOk, ToldBy, NoOrphans, TextKeeps, CacheOk, LocalAfter;
      MarksCount(levels, marks);
      LeaveBindings(decls, passed);
      MarksPop(levels, marks, passed);
      if Told() {
        ToldPop(levels, declared, entries[|levels| - 1], passed);
      }
      levels := LevelsAfter(levels, passed);
      entries, marks, declared := entries[..|levels|], marks[..|levels|], declared[..|levels|];
      created := kept;
    }

    lemma SomeLevel()
      requires Valid()
      ensures levels != []
    {
    }

    lemma RootsKnown()
      requires Valid()
      ensures forall b :: b in Current().blocks ==> b.uid in supercontext
    {
    }
  }
}
