# A model of GCC 2.8.1's C front end and bytecode emitter

This project models eight parts of GCC 2.8.1 whose result has a simple meaning that the
code reaches by a cached, streamed, narrowed, inside-out or backpatched route, and proves
that the route leads there: for every input, every aliasing and every run.

| modules | part | what is proved |
|---|---|---|
| `IntTypes`, `Exprs`, `ShortenCompare` | `get_narrower` and `shorten_compare` | what a comparison left behind computes, for all widths, signedness, constants and the six codes; exactly when it is the comparison as written, against a constant on either side and for two variables; two families on which the code is wrong |
| `NarrowOps`, `NarrowExact`, `NarrowPair` | narrowing in `build_binary_op` | the narrow operation extends to the wide one; operation by operation, exactly when the result is right, with a constant on either side and for two variables, and exactly which right shifts are; three families on which the code is wrong |
| `DeclText`, `DeclPrint`, `DeclTokens`, `DeclRead`, `DeclRoundTrip` | `gen_decl`, `gen_type` and the layer loop of `grokdeclarator` | lexing, parsing and folding the printed text of a declaration gives back its name and type; no declaration builds a type C does not have |
| `BitmapSpec`, `BitmapList`, `Bitmap`, `BitmapIter` | `bitmap.c`, `bitmap.h` | linked lists with a cursor and a shared free list refine sets of numbers, under every aliasing; the iteration macros visit exactly the members |
| `InitSpec`, `InitMeaning`, `InitReorder` | array initializers in any order | incremental bytes and the CONSTRUCTOR list both denote what the items mean, with the same bound and errors; where values go, told by the text |
| `ScopeSpec`, `BlockTree`, `Scope` | `pushlevel`, `poplevel`, `pushdecl`, `lookup_name` | the per-identifier cache agrees with the scope walk; exactly when leaving a level restores it, read off the level's text; a function's BLOCK tree lists every block made since its level was entered, once, in order, with its parent and all that was declared in its level |
| `BcSeg`, `BcEmit`, `BcWrite` | `bc-emit.c` | backpatching and concatenation keep every symbol and relocation on the byte or word it addressed; writing a segment denotes it, or fails exactly when a symbol stands at its end |
| `Numerals`, `LexNumber`, `HexEscape` | integer constants and `\x` escapes in `c-lex.c` | exact range checks although the host's ints wrap, exact value or its low bits, first type that holds the value, from every numeral as it is written |
| `ConvChain`, `ConvMeaning`, `ConvSearch` | `bc-optab.c` | the search finds a recipe exactly when a reasonable chain exists, and a cheapest of those it keeps; exactly which chains it keeps; reasonable integer chains convert values as one direct conversion does |

Where the source updates things in place the model is a class whose methods have loops and
invariants, proved against functions on values; where it computes, the model is functions
and lemmas. `Arith`, `Lists` and `Options` hold what several modules share.

Six places where the code does not do what its comments say are kept as they are in the
code; each has a lemma with a concrete input and a lemma that says exactly when the code
is right, for operands whose narrow forms take every value of their type where operands
are concerned:

- a comparison whose operand hides a sign change inside a widening
  (`ShortenCompare.WrongForResignedExtension`, `WrongForResignedValue`, `SafeExactly`,
  `PairExactly`);
- a bitwise operation with a constant, after the operand's zero extension was removed and
  exposed a sign extension (`NarrowExact.WrongAfterUnextending`, `ShortenedExactly`,
  `ShortenedLeftExactly`);
- an operation on two operands taken as sign-extended from the same width although one
  was then zero-extended (`NarrowPair.WrongAnd`, `PairExactly`);
- an unsigned right shift of a sign-extended operand, which the comment allows when the
  result is twice as wide (`NarrowOps.WrongShift`, `ShiftSafeExactly`);
- leaving a scope level in which a name was declared as two kinds of symbol and no outer
  level declared it (`ScopeSpec.OrphanLeft`, `LeavingExactly`);
- the search for a conversion, whose sweep steps over a chain that arrives next to one
  just taken out and so may miss the cheapest (`ConvSearch.SteppedOver`,
  `CheapestExactly`).

`bitmap_copy` of a bitmap onto itself empties it, and `bc_seg_write` aborts on a symbol at
the end of a segment; both are part of the contracts.

## Model

| member | source | states |
|---|---|---|
| Exprs.GetNarrowerLoop | gcc-2.8.1_psyq-4.4/gcc/tree.c:4390-4434 | the loop returns what stripping conversions by the rules on extensions gives |
| Exprs.StripKeeps | gcc-2.8.1_psyq-4.4/gcc/tree.c:4407-4439 | a stripped conversion does not change the value as the remembered flag extends it, nor the side effects |
| Exprs.GetNarrowerOk | gcc-2.8.1_psyq-4.4/gcc/tree.c:4381-4384 | the operand is its narrow form extended as the flag says and converted to its own type |
| ShortenCompare.FixedAnswerOk | gcc-2.8.1_psyq-4.4/gcc/c-common.c:2125-2200 | a comparison folded to a constant holds or fails for every value of the narrow type; otherwise the constant lies within its bounds |
| ShortenCompare.AgainstConstantOk | gcc-2.8.1_psyq-4.4/gcc/c-common.c:2104-2267 | a narrow operand against a constant, re-signed or folded, answers as the wide comparison |
| ShortenCompare.BothNarrowOk | gcc-2.8.1_psyq-4.4/gcc/c-common.c:2273-2293 | two operands extended alike may be compared in the wider of their narrow types |
| ShortenCompare.NominalOk | gcc-2.8.1_psyq-4.4/gcc/c-common.c:2294-2352 | the comparison left in the nominal type, and the folding of unsigned against zero, answer as written |
| ShortenCompare.CommonTypeIs | gcc-2.8.1_psyq-4.4/gcc/c-typeck.c:255-285 | the common type is as wide as the wider, unsigned if one as wide is, and holds what either holds but for negative values once it is unsigned |
| ShortenCompare.ShortenMeaning | gcc-2.8.1_psyq-4.4/gcc/c-common.c:2031-2352 | what the comparison left behind computes for all operands, codes and values, with no condition on the operands |
| ShortenCompare.ShortenPreserves | gcc-2.8.1_psyq-4.4/gcc/c-common.c:2016-2030 | the rewrite preserves the comparison when each operand's type keeps its narrow form's extension |
| ShortenCompare.FaithfulExactly | gcc-2.8.1_psyq-4.4/gcc/c-common.c:2047-2077 | the narrow form stands for the operand if and only if the operand's own type holds the extended value or is as wide as the common type |
| ShortenCompare.SafeExactly | gcc-2.8.1_psyq-4.4/gcc/c-common.c:2047-2352 | an operand compares right with every constant, on either side and for all values, if and only if its type keeps the extension |
| ShortenCompare.PairExactly | gcc-2.8.1_psyq-4.4/gcc/c-common.c:2047-2352 | two operands of distinct variables compare right for every code and all values if and only if the narrow forms are not used, or each operand's type keeps its extension or the other is narrower and both are unsigned |
| ShortenCompare.WrongForResignedExtension | gcc-2.8.1_psyq-4.4/gcc/c-common.c:2047-2064 | a sign extension re-read as unsigned makes a true comparison fold to false |
| ShortenCompare.WrongForResignedValue | gcc-2.8.1_psyq-4.4/gcc/c-common.c:2047-2064 | an unsigned value re-read as signed does too |
| ShortenCompare.EffectsKept | gcc-2.8.1_psyq-4.4/gcc/c-common.c:2254-2346 | operands with side effects are still evaluated and no others are |
| NarrowOps.BitwiseConverts | gcc-2.8.1_psyq-4.4/gcc/c-typeck.c:2385-2392 | the low bits of a bitwise result depend on the low bits of the operands only |
| NarrowOps.BitwiseBits | gcc-2.8.1_psyq-4.4/gcc/c-typeck.c:2385-2392 | each bit of a bitwise result, sign bits included, is what the operator says of the operands' bits |
| NarrowOps.BitwiseSums | gcc-2.8.1_psyq-4.4/gcc/c-typeck.c:2385-2392 | or and and add up to the operands' sum, as exclusive or and twice and do |
| NarrowOps.QuotientTruncates | gcc-2.8.1_psyq-4.4/gcc/c-typeck.c:2048-2118 | quotients truncate toward zero and remainders have the dividend's sign |
| NarrowOps.LeastAndGreatest | gcc-2.8.1_psyq-4.4/gcc/c-typeck.c:2293-2296 | minimum and maximum are operands and bound both |
| NarrowOps.OpFits | gcc-2.8.1_psyq-4.4/gcc/c-typeck.c:2058-2063 | only the least value divided by -1 leaves a type |
| NarrowOps.OpPreserved | gcc-2.8.1_psyq-4.4/gcc/c-typeck.c:2393-2455 | bitwise operations, minimum, maximum, quotient and remainder in the type chosen extend to the wide result |
| NarrowOps.ShortenedPreserves | gcc-2.8.1_psyq-4.4/gcc/c-typeck.c:2053-2118 | the same from the operands as they come, through common_type and the removal of a zero extension |
| NarrowExact.StepExactly | gcc-2.8.1_psyq-4.4/gcc/c-typeck.c:2393-2455 | for each operation by itself with a constant on the right, from where a zero extension has been removed: right for all values and constants if and only if the operand's type keeps its extension, or the operation is never narrowed on it, or masks the extension off |
| NarrowExact.ShortenedExactly | gcc-2.8.1_psyq-4.4/gcc/c-typeck.c:2053-2455 | the same from the operand as it comes, for what is left of it without a zero extension |
| NarrowExact.ShortenedLeftExactly | gcc-2.8.1_psyq-4.4/gcc/c-typeck.c:2053-2455 | the same with the constant on the left, where and-not masks too and a shortened dividend is not negative |
| NarrowExact.UnextendingExposes | gcc-2.8.1_psyq-4.4/gcc/c-typeck.c:2082-2098 | removing a zero extension can leave an operand whose own type does not keep its extension |
| NarrowExact.WrongAfterUnextending | gcc-2.8.1_psyq-4.4/gcc/c-typeck.c:2082-2098 | `(unsigned short) sc \| 0` with sc -1 then gives -1 instead of 65535 |
| NarrowPair.PairExactly | gcc-2.8.1_psyq-4.4/gcc/c-typeck.c:2053-2455 | for each operation on two distinct variables: right for all their values if and only if it is not narrowed, or both types keep their extensions, or it is a remainder of single sign bits by one that keeps its extension or whose width divides the dividend's |
| NarrowPair.PowRemainder | gcc-2.8.1_psyq-4.4/gcc/c-typeck.c:2102-2117 | the remainder of 2^a - 1 by 2^b - 1, which decides that last case, is 2^(a mod b) - 1 |
| NarrowPair.WrongAnd | gcc-2.8.1_psyq-4.4/gcc/c-typeck.c:2421-2434 | `(unsigned) sc & (unsigned long long) sd` with both -1 gives all ones instead of 0xFFFFFFFF |
| NarrowOps.ShiftRightBits | gcc-2.8.1_psyq-4.4/gcc/c-typeck.c:2459-2494 | a shifted value's bits are those of the value from the count up |
| NarrowOps.ShiftPreservedExactly | gcc-2.8.1_psyq-4.4/gcc/c-typeck.c:2459-2494 | a shortened right shift is right if and only if the result is signed, the operand zero-extended, or its narrow value not negative |
| NarrowOps.WrongShift | gcc-2.8.1_psyq-4.4/gcc/c-typeck.c:2473-2483 | `(unsigned) sc >> 4` with sc -1 gives 0xFFFFFFFF instead of 0x0FFFFFFF |
| NarrowOps.ShiftSafeExactly | gcc-2.8.1_psyq-4.4/gcc/c-typeck.c:2473-2483 | for all values it is right if and only if the result is signed or the operand zero-extended |
| DeclPrint.PrintedBoundExactly | gcc-2.8.1_psyq-4.4/gcc/c-aux-info.c:384-397 | an array's printed bound is its bound unless the elements are incomplete, or empty and not none |
| DeclPrint.ShownBoundIs | gcc-2.8.1_psyq-4.4/gcc/c-aux-info.c:384-397 | told by the elements' type alone, the printed bound is none for incomplete elements, 0 for any number of empty ones, else the bound |
| DeclPrint.HiddenFunction | gcc-2.8.1_psyq-4.4/gcc/c-aux-info.c:371-382 | a pointer to a function or array that a type name stands for is parenthesized, with the two orders of qualifiers |
| DeclPrint.PrototypeText | gcc-2.8.1_psyq-4.4/gcc/c-aux-info.c:161-232 | the text of a prototype over named types, its commas, `void` and ellipsis |
| DeclPrint.Printer.AffixDataType | gcc-2.8.1_psyq-4.4/gcc/c-aux-info.c:116-152 | the name goes in after exactly the leading qualifiers |
| DeclPrint.Printer.GenFormalList | gcc-2.8.1_psyq-4.4/gcc/c-aux-info.c:161-232 | the loop prints each parameter with its own name, `void` for none and the ellipsis |
| DeclPrint.Printer.GenType | gcc-2.8.1_psyq-4.4/gcc/c-aux-info.c:356-508 | the text is the inside-out text of the type, and data_type ends as the name at its bottom whatever nested lists did to it |
| DeclPrint.Printer.GenDecl | gcc-2.8.1_psyq-4.4/gcc/c-aux-info.c:520-591 | the text is the type's around the name and the entity's own qualifiers, with the name at the bottom put in |
| DeclTokens.LexDeclaration | gcc-2.8.1_psyq-4.4/gcc/c-aux-info.c:116-152 | the characters printed for a type lex to qualifiers, name and declarator tokens, with no two words run together |
| DeclTokens.LexEntity | gcc-2.8.1_psyq-4.4/gcc/c-aux-info.c:520-591 | so do those of a declaration, the entity's own qualifiers among them a second time |
| DeclTokens.LexFormals | gcc-2.8.1_psyq-4.4/gcc/c-aux-info.c:161-232 | so do parameter lists, however deep |
| DeclRead.GrokLayers | gcc-2.8.1_psyq-4.4/gcc/c-decl.c:4635-4926 | the loop over layers computes the fold, with its errors and its pending qualifiers |
| DeclRead.FoldFormed | gcc-2.8.1_psyq-4.4/gcc/c-decl.c:4663-4822 | whatever is declared, no array of void or of functions and no function returning an array or function is built |
| DeclRead.FoldFailsExactly | gcc-2.8.1_psyq-4.4/gcc/c-decl.c:4663-4680 | a declaration fails if and only if it declares an array of functions, or an array of what is named void or as a function |
| DeclRead.ReturnsInt | gcc-2.8.1_psyq-4.4/gcc/c-decl.c:4812-4822 | a function declared to return an array or function is taken to return int |
| DeclRoundTrip.EntityQuals | gcc-2.8.1_psyq-4.4/gcc/c-decl.c:5224-5232 | the qualifiers recorded for a declared entity are those of its elements |
| DeclRoundTrip.FoldLayers | gcc-2.8.1_psyq-4.4/gcc/c-decl.c:4635-4926 | folding the layers of a type's declarator, outermost first, builds the type |
| DeclRoundTrip.ReadsDeclarator | gcc-2.8.1_psyq-4.4/gcc/c-aux-info.c:371-402 | the grammar of section 3.5.4 of ANSI X3.159-1989 reads the printed tokens as those layers: the two-way parenthesis test is enough |
| DeclRoundTrip.ReadsParamList | gcc-2.8.1_psyq-4.4/gcc/c-aux-info.c:161-232 | it reads a printed parameter list as the parameters' types |
| DeclRoundTrip.DeclarationRoundTrip | gcc-2.8.1_psyq-4.4/gcc/c-aux-info.c:356-591 | the characters printed for a declaration read back as its name and type, with each bound as the elements' type tells, up to the parameters' own qualifiers and although the entity's are printed twice |
| DeclRoundTrip.ProperRoundTrip | gcc-2.8.1_psyq-4.4/gcc/c-aux-info.c:356-591 | as the type itself, bounds unchanged, when elements are pointers, named types of some size, or arrays of these |
| DeclRoundTrip.ParameterAdjusted | gcc-2.8.1_psyq-4.4/gcc/c-decl.c:5010-5038 | a parameter written as an array or function reads as a pointer to its elements or to it |
| DeclRoundTrip.TypeNameRoundTrip | gcc-2.8.1_psyq-4.4/gcc/c-aux-info.c:178-190 | so does a type name printed without a declared name |
| DeclPrint.TextAsPrinted | gcc-2.8.1_psyq-4.4/gcc/c-aux-info.c:384-397 | a type is printed as the type with its printed bounds is |
| DeclPrint.EmptyElements | gcc-2.8.1_psyq-4.4/gcc/c-aux-info.c:384-397 | three elements without a size are printed with the bound 0 |
| DeclRoundTrip.CanonicalExactly | gcc-2.8.1_psyq-4.4/gcc/c-decl.c:5010-5047 | the type comes back itself if and only if no parameter in it is qualified, an array or a function, and every bound in it is printed as it is |
| BitmapSpec.Canonical | gcc-2.8.1_psyq-4.4/gcc/bitmap.h:40-70 | sorted lists without empty elements that hold the same members are the same list |
| BitmapSpec.MergeContents | gcc-2.8.1_psyq-4.4/gcc/bitmap.c:428-506 | the element-by-element merge holds exactly the combination of the two sets |
| BitmapList.CursorSurvivesRemoval | gcc-2.8.1_psyq-4.4/gcc/bitmap.c:66-86 | after a removal moves the cursor, no element lies between the stale index and the cursor's |
| BitmapList.Head.FindBit | gcc-2.8.1_psyq-4.4/gcc/bitmap.c:292-323 | the element with the wanted index is returned if and only if there is one, and the cursor is refreshed |
| BitmapList.Head.Link | gcc-2.8.1_psyq-4.4/gcc/bitmap.c:168-221 | linking keeps the list sorted and adds exactly the new element |
| BitmapList.Head.Unlink | gcc-2.8.1_psyq-4.4/gcc/bitmap.c:62-86 | unlinking takes out exactly that element and leaves a usable cursor |
| Bitmap.Bitmaps.Allocate | gcc-2.8.1_psyq-4.4/gcc/bitmap.c:90-145 | an element comes from the free list or is new, and is in no bitmap |
| Bitmap.Bitmaps.SetBit | gcc-2.8.1_psyq-4.4/gcc/bitmap.c:350-370 | the set gains exactly the bit; no other bitmap changes |
| Bitmap.Bitmaps.ClearBit | gcc-2.8.1_psyq-4.4/gcc/bitmap.c:327-346 | the set loses exactly the bit; no other bitmap changes |
| Bitmap.Bitmaps.BitP | gcc-2.8.1_psyq-4.4/gcc/bitmap.c:374-393 | answers membership and changes no bitmap's contents |
| Bitmap.Bitmaps.Clear | gcc-2.8.1_psyq-4.4/gcc/bitmap.c:225-238 | the set becomes empty and its elements free |
| Bitmap.Bitmaps.Copy | gcc-2.8.1_psyq-4.4/gcc/bitmap.c:243-287 | the target becomes the source's set, or empty when it is the source |
| Bitmap.Bitmaps.Operation | gcc-2.8.1_psyq-4.4/gcc/bitmap.c:398-526 | under every aliasing the target holds AND, AND-COMPL or IOR of the two old sets and no other bitmap changes |
| Bitmap.Bitmaps.IorAndCompl | gcc-2.8.1_psyq-4.4/gcc/bitmap.c:530-543 | under every aliasing the target becomes TO + (FROM1 - FROM2) of the old sets |
| Bitmap.Bitmaps.OnePlaceEach | gcc-2.8.1_psyq-4.4/gcc/bitmap.c:62-145 | every element ever allocated is on exactly one bitmap's list or on the free list |
| BitmapIter.ExecuteIfSet | gcc-2.8.1_psyq-4.4/gcc/bitmap.h:124-175 | visits the members from MIN on, each once, ascending |
| BitmapIter.ExecuteIfAndCompl | gcc-2.8.1_psyq-4.4/gcc/bitmap.h:181-242 | visits the members of the difference from MIN on, each once, ascending |
| BitmapIter.ExecuteIfAnd | gcc-2.8.1_psyq-4.4/gcc/bitmap.h:248-315 | visits the members of the intersection from MIN on, each once, ascending |
| InitReorder.Constructor.SetInitIndex | gcc-2.8.1_psyq-4.4/gcc/c-typeck.c:5809-5850 | a designator moves the index and range as its meaning says, with its two errors |
| InitReorder.Constructor.OutputElement | gcc-2.8.1_psyq-4.4/gcc/c-typeck.c:5898-6073 | an element is placed, or refused exactly when its index was given before; all that is next is put out |
| InitReorder.Constructor.OutputPending | gcc-2.8.1_psyq-4.4/gcc/c-typeck.c:6086-6223 | what has become next is put out in order, or everything with the gaps filled |
| InitReorder.Constructor.ProcessElement | gcc-2.8.1_psyq-4.4/gcc/c-typeck.c:6440-6496 | an element or range is placed, clamped or refused at the bound |
| InitReorder.Constructor.Finish | gcc-2.8.1_psyq-4.4/gcc/c-typeck.c:5700-5765 | the zero-filled image or the ascending list denotes everything given, and the bound is the highest index given or the one declared |
| InitReorder.Initialize | gcc-2.8.1_psyq-4.4/gcc/c-typeck.c:5594-6500 | both ways of putting elements out give the array the items mean, the same errors and the same bound; values without designators fill it from index 0, zeros follow to the bound, and each value without room is reported |
| InitMeaning.ValueFollows | gcc-2.8.1_psyq-4.4/gcc/c-typeck.c:5809-6496 | after `[i] = v` or `[i ... j] = v` the next value goes to i + 1 or j + 1, and nothing else changes |
| InitMeaning.RangeCutOff | gcc-2.8.1_psyq-4.4/gcc/c-typeck.c:6440-6453 | a range that ends past the array is reported by its end and fills the rest of the array |
| InitMeaning.EmptyRangeFirst | gcc-2.8.1_psyq-4.4/gcc/c-typeck.c:5829-5843 | an empty range is reported and taken for its first index |
| InitReorder.DuplicateExactly | gcc-2.8.1_psyq-4.4/gcc/c-typeck.c:5809-5970 | `[i] = v` brings a duplicate error, and it first, if and only if i was given before or is negative: from the designator below the first missing index, else from the element; otherwise it brings none and gives i its value |
| InitReorder.RangeExactly | gcc-2.8.1_psyq-4.4/gcc/c-typeck.c:5809-5970 | `[i ... j] = v` brings a duplicate for exactly the indices of the range given before and gives the others v |
| InitReorder.GivenStays | gcc-2.8.1_psyq-4.4/gcc/c-typeck.c:5943-5970 | what an index was given first stays, whatever follows |
| InitSpec.ImageAt | gcc-2.8.1_psyq-4.4/gcc/c-typeck.c:6193-6205 | element i of an image starts at byte i times the element size |
| InitSpec.UpwardAll | gcc-2.8.1_psyq-4.4/gcc/c-decl.c:4146-4158 | the ascending list stands for everything given, and its last purpose is the highest index |
| ScopeSpec.LocalAfterValue | gcc-2.8.1_psyq-4.4/gcc/c-decl.c:2291-2296 | a name's local value is the level's latest declaration of it, else the value at entry |
| ScopeSpec.RestoresExactly | gcc-2.8.1_psyq-4.4/gcc/c-decl.c:1090-1113 | leaving a level restores the values at its entry if and only if no name was installed twice in it without an outer local declaration |
| ScopeSpec.TwiceExactly | gcc-2.8.1_psyq-4.4/gcc/c-decl.c:1434-1455 | a name is installed twice in a level if and only if the level declares it as two kinds of symbol |
| ScopeSpec.LeavingExactly | gcc-2.8.1_psyq-4.4/gcc/c-decl.c:1090-1113 | so leaving a level restores the values at its entry if and only if it declares no name as two kinds of symbol without an outer local declaration |
| ScopeSpec.OrphanLeft | gcc-2.8.1_psyq-4.4/gcc/c-decl.c:1090-1113 | `{ int x; typedef int x; }` with no outer local x leaves the variable behind as local value |
| ScopeSpec.CacheIsWalk | gcc-2.8.1_psyq-4.4/gcc/c-decl.c:2833-2845 | values built level by level answer as a walk from the current level out does |
| Scope.CachePop | gcc-2.8.1_psyq-4.4/gcc/c-decl.c:1090-1113 | leaving a level keeps the whole cache right if and only if the level has no such name |
| Scope.Bindings.LookupName | gcc-2.8.1_psyq-4.4/gcc/c-decl.c:2833-2845 | returns what the walk over the active levels finds |
| Scope.Bindings.LookupNameCurrentLevel | gcc-2.8.1_psyq-4.4/gcc/c-decl.c:2848-2865 | returns the current level's latest declaration of the name |
| Scope.Bindings.PushLevel | gcc-2.8.1_psyq-4.4/gcc/c-decl.c:909-950 | a fresh level over unchanged values keeps cache and trees |
| Scope.Bindings.PushDecl | gcc-2.8.1_psyq-4.4/gcc/c-decl.c:1999-2426 | a redeclaration of the same kind in the level returns the old decl and installs nothing; anything else is installed and returned; the name then means the decl returned, other names what they meant, and the cache stays right |
| Scope.Bindings.PopLevel | gcc-2.8.1_psyq-4.4/gcc/c-decl.c:983-1200 | local values, block and trees after leaving a level, with the exact condition for the cache told by the level's text too; when a block is made, and with what declarations in what order; a function's tree lists exactly the blocks made since its level was entered and in no finished nested function, once each, in order of exit, with all that was declared in the levels left |
| Scope.RecordFinished | gcc-2.8.1_psyq-4.4/gcc/c-decl.c:999-1082 | a function's tree holds every level left with a block, in order with its declarations, and every declaration once if no level with any was left without a block |
| Scope.Bindings.KeptLevel | gcc-2.8.1_psyq-4.4/gcc/c-decl.c:874-883 | a level that is not to be kept has no declarations |
| Scope.DeclaredFound | gcc-2.8.1_psyq-4.4/gcc/c-decl.c:1999-2426 | a declared name means its decl and other names are not affected |
| Scope.LevelTransparent | gcc-2.8.1_psyq-4.4/gcc/c-decl.c:909-1113 | entering a level changes no name's meaning, and leaving it gives back the meaning outside |
| BlockTree.ForestPassed | gcc-2.8.1_psyq-4.4/gcc/c-decl.c:1174-1182 | a level without a block hands its trees on in order |
| BlockTree.ForestClosed | gcc-2.8.1_psyq-4.4/gcc/c-decl.c:1060-1088 | a level's block takes its trees, becomes their parent, and follows those outside |
| BlockTree.ForestFinished | gcc-2.8.1_psyq-4.4/gcc/c-decl.c:1166-1182 | a finished function's tree holds the last blocks created, each once and linked to its parent, and leaves the rest alone |
| BlockTree.ExitOrder | gcc-2.8.1_psyq-4.4/gcc/c-decl.c:1166-1182 | siblings are in the order their levels were left |
| BlockTree.BelowIsOlder | gcc-2.8.1_psyq-4.4/gcc/c-decl.c:1070-1088 | a block is made after every block below it |
| BcSeg.DefinedOk | gcc-2.8.1_psyq-4.4/gcc/bc-emit.c:245-264 | a new symbol keeps the list in order and no relocated word around a symbol |
| BcSeg.ReferredOk | gcc-2.8.1_psyq-4.4/gcc/bc-emit.c:270-287 | so does a new relocation |
| BcSeg.ReferredHolds | gcc-2.8.1_psyq-4.4/gcc/bc-emit.c:270-287 | the relocated word is the segment's last and reads back as the addend |
| BcSeg.IntReadsBack | gcc-2.8.1_psyq-4.4/gcc/bc-emit.c:270-287 | an int read from its bytes is the int stored |
| BcSeg.JoinedOk | gcc-2.8.1_psyq-4.4/gcc/bc-emit.c:291-326 | concatenation keeps both segments' symbols and relocations in order, apart and in bounds |
| BcSeg.RoundUpIs | gcc-2.8.1_psyq-4.4/gcc/bc-emit.c:184-199 | alignment reaches a multiple of the unit and is idempotent |
| BcEmit.Assembler.SegConcat | gcc-2.8.1_psyq-4.4/gcc/bc-emit.c:291-326 | the loops move every symbol and relocation of the second segment as far as its bytes |
| BcEmit.Assembler.BeginFunction | gcc-2.8.1_psyq-4.4/gcc/bc-emit.c:490-498 | empty segments with the function's name at the start of the trampoline, unless it was defined before |
| BcEmit.Assembler.LabelDef | gcc-2.8.1_psyq-4.4/gcc/bc-emit.c:543-562 | a label is defined once, at the size the code then has |
| BcEmit.Assembler.EmitLabelRef | gcc-2.8.1_psyq-4.4/gcc/bc-emit.c:567-586 | a blank word is left and remembered, apart from all others |
| BcEmit.Assembler.EmitCodeLabelRef | gcc-2.8.1_psyq-4.4/gcc/bc-emit.c:591-605 | the number put in the code is that of the pointer constant made for it, which holds the addend |
| BcEmit.Assembler.ConstLabelRef | gcc-2.8.1_psyq-4.4/gcc/bc-emit.c:697-703 | a word at the end of the text is relocated and holds the addend |
| BcEmit.Assembler.Backpatch | gcc-2.8.1_psyq-4.4/gcc/bc-emit.c:621-627 | every reference holds its label's offset, or zero, and every other byte is unchanged |
| BcEmit.Assembler.EndFunction | gcc-2.8.1_psyq-4.4/gcc/bc-emit.c:612-656 | the text gains trampoline, patched code and pointers with zeros between; symbols and relocations move with them; the table's label is its first byte unless the name was taken |
| BcEmit.LayoutFits | gcc-2.8.1_psyq-4.4/gcc/bc-emit.c:642-647 | the parts follow each other at multiples of the unit, with less than a unit between them |
| BcEmit.EndedBytes | gcc-2.8.1_psyq-4.4/gcc/bc-emit.c:642-647 | each part's bytes stand in the text where its symbols and relocations were moved to |
| BcEmit.EverythingRides | gcc-2.8.1_psyq-4.4/gcc/bc-emit.c:612-656 | every symbol of the parts and of the text before them addresses the byte it addressed, every relocation the word, for the same symbol |
| BcEmit.ReferencesHold | gcc-2.8.1_psyq-4.4/gcc/bc-emit.c:621-647 | in the text every reference to a defined label, forward or backward, holds the label's offset from the start of the code |
| BcWrite.WritePass | gcc-2.8.1_psyq-4.4/gcc/bc-emit.c:358-393 | the single pass emits each byte, word and symbol once and in place |
| BcWrite.WriteSegment | gcc-2.8.1_psyq-4.4/gcc/bc-emit.c:330-400 | it fails if and only if a symbol stands at the end; else what is written assembles to the same bytes, symbols and relocations |
| LexNumber.AddDigit | gcc-2.8.1_psyq-4.4/gcc/c-lex.c:1440-1452 | the carrying loop computes the carried parts, the highest wrapped to an int |
| LexNumber.ScaledOk | gcc-2.8.1_psyq-4.4/gcc/c-lex.c:1436-1457 | carried parts are bytes below the highest and hold value times base plus digit |
| LexNumber.HoldsScaled | gcc-2.8.1_psyq-4.4/gcc/c-lex.c:1440-1457 | taking a digit keeps the low bytes of the value in the parts and the overflow flag exact, even after the highest part has wrapped |
| LexNumber.HighPart | gcc-2.8.1_psyq-4.4/gcc/c-lex.c:1454-1457 | the highest part is used if and only if the value does not fit the parts below |
| LexNumber.ReadDigits | gcc-2.8.1_psyq-4.4/gcc/c-lex.c:1313-1476 | radix, end, low bytes of the value, exact overflow and the digits the errors are judged by, for any length; every octal, decimal or hexadecimal numeral is read to its end as its number, and digits up to a point or exponent as floating |
| LexNumber.ConstantScanned | gcc-2.8.1_psyq-4.4/gcc/c-lex.c:1340-1457 | a numeral with its prefix, letters of either case, is scanned as an integer of its radix and number with no digit to complain of |
| LexNumber.FloatingScanned | gcc-2.8.1_psyq-4.4/gcc/c-lex.c:1362-1423 | decimal digits before a point or exponent start a floating constant, after a leading zero too |
| LexNumber.OutOfRange | gcc-2.8.1_psyq-4.4/gcc/c-lex.c:1682-1690 | the diagnostic is given if and only if the value needs more bytes than a long long has |
| LexNumber.Gather | gcc-2.8.1_psyq-4.4/gcc/c-lex.c:1692-1705 | the or-ed words are the low bits of the value, in range or not |
| LexNumber.IntFitsOk | gcc-2.8.1_psyq-4.4/gcc/tree.c:4489-4508 | the two-word comparison decides whether the type holds the value |
| LexNumber.AnsiTypeIsFirst | gcc-2.8.1_psyq-4.4/gcc/c-lex.c:1737-1759 | a value in range gets the first type of the list of section 3.1.3.2 of ANSI X3.159-1989, extended by long long, that holds it |
| LexNumber.CandidatesAre | gcc-2.8.1_psyq-4.4/gcc/c-lex.c:1737-1759 | the list holds just the types that the suffixes and the radix allow, in order of rank |
| LexNumber.MakeConstant | gcc-2.8.1_psyq-4.4/gcc/c-lex.c:1682-1759 | from the digits: out of range exactly when it is, the low bits of the value, and when in range the value itself in that type |
| HexEscape.RangeTestOk | gcc-2.8.1_psyq-4.4/gcc/c-lex.c:946-957 | the count of significant digits and the first of them decide whether the true value fits |
| HexEscape.ReadHexEscape | gcc-2.8.1_psyq-4.4/gcc/c-lex.c:912-958 | the diagnostic is exact for any number of digits although the code has wrapped, and the code is the value converted to int; a numeral in either case is read to its end as its number |
| HexEscape.HexNumeralRead | gcc-2.8.1_psyq-4.4/gcc/c-lex.c:917-940 | a hexadecimal numeral's digits are those read and have its number |
| HexEscape.WrapConverts | gcc-2.8.1_psyq-4.4/gcc/c-lex.c:936-937 | wrapping is conversion to the signed int |
| ConvChain.ReasonableLast | gcc-2.8.1_psyq-4.4/gcc/bc-optab.c:404-413 | what one more step must satisfy for the whole chain to keep the five rules |
| ConvChain.SizesInOrder | gcc-2.8.1_psyq-4.4/gcc/bc-optab.c:489-519 | the two loops accept exactly the chains whose sizes go in one direction |
| ConvChain.ConversionReasonable | gcc-2.8.1_psyq-4.4/gcc/bc-optab.c:413-520 | it accepts a step exactly when the longer chain keeps the five rules |
| ConvMeaning.ReasonableIsDirect | gcc-2.8.1_psyq-4.4/gcc/bc-optab.c:404-411 | a reasonable chain through integer types converts every value as the one direct conversion does |
| ConvMeaning.NoThereAndBack | gcc-2.8.1_psyq-4.4/gcc/bc-optab.c:404-411 | a reasonable chain of integer and floating point types has no floating point between integers and no integer between floating point |
| ConvMeaning.WidenedTooLate | gcc-2.8.1_psyq-4.4/gcc/bc-optab.c:404-411 | widening after a change of sign is unreasonable, and would change -1 |
| ConvSearch.Sweep | gcc-2.8.1_psyq-4.4/gcc/bc-optab.c:555-563 | it takes out and leaves what its two recursive descriptions say, an entry after one taken out being stepped over; no chain still under way is lost, and something is taken out exactly if something arrived |
| ConvSearch.Extend | gcc-2.8.1_psyq-4.4/gcc/bc-optab.c:565-585 | the next round holds exactly the reasonable extensions |
| ConvSearch.Search | gcc-2.8.1_psyq-4.4/gcc/bc-optab.c:553-586 | the search ends, keeps the chains of the thirteen rounds as described, and something if and only if a reasonable chain arrives |
| ConvSearch.KeptExactly | gcc-2.8.1_psyq-4.4/gcc/bc-optab.c:553-563 | a reasonable chain that arrives is kept if and only if the sweep of its round does not step over it |
| ConvSearch.CheapestExactly | gcc-2.8.1_psyq-4.4/gcc/bc-optab.c:553-602 | the cheapest chain kept is the cheapest of all reasonable ones if and only if some cheapest one is not stepped over |
| ConvSearch.SteppedOver | gcc-2.8.1_psyq-4.4/gcc/bc-optab.c:553-602 | of two conversions between the same codes, costing 2 and 8, only the dearer is kept |
| ConvSearch.DeduceConversion | gcc-2.8.1_psyq-4.4/gcc/bc-optab.c:526-613 | a recipe leads from one code to the other by conversions of the table that cost the sum given; it is that of a reasonable chain, the first of least cost among those kept; with the table's costs one is found if and only if a chain exists, and the empty one from a code to itself |
| ConvSearch.ChainRuns | gcc-2.8.1_psyq-4.4/gcc/bc-optab.c:588-611 | a chain's opcodes in order are conversions from where it starts to where it arrives, at its cost |
| ConvSearch.NeverTooDear | gcc-2.8.1_psyq-4.4/gcc/bc-optab.c:588-602 | with steps as cheap as the table's no chain reaches the limit |
| ConvSearch.NoDetour | gcc-2.8.1_psyq-4.4/gcc/bc-optab.c:541-549 | from a typecode to itself the only chain is the empty one |

## Left out

- Warnings, diagnostics' wording, RTL, debug output, obstacks and memory exhaustion; diagnostics appear as flags or error values where a contract names them.
- `-traditional` paths throughout.
- Exprs.GetNarrowerLoop: COMPONENT_REFs (bit-fields and narrow fields) are left out, as are `min_precision` and `combine_strings`.
- `shorten_compare` and `build_binary_op` on floating, complex, pointer and enumerated operands; MULT_EXPR, PLUS_EXPR and MINUS_EXPR, which are not narrowed there; the contract of `convert` is conversion modulo 2 to the precision.
- NarrowOps.OpPreserved: division by zero has no meaning in C; the model's quotient of x by 0 is 0 in both types, so the equality it states there is empty.
- NarrowExact.ShortenedExactly: the operand's narrow form is a variable or a variable cut down; a narrow form that is itself an extension of something smaller may never take the values that show the fault. The same holds of `StepExactly`, `ShortenedLeftExactly`, `NarrowPair.PairExactly`, `NarrowOps.ShiftSafeExactly`, `ShortenCompare.SafeExactly` and `ShortenCompare.PairExactly`.
- CEIL_DIV, FLOOR_DIV, ROUND_DIV, EXACT_DIV and FLOOR_MOD, which share the guards of the truncating operations but come from no operator of C (EXACT_DIV only from the difference of two pointers).
- DeclPrint.Printer.GenType: records, unions and enumerations without a name, and array bounds of more digits than its buffer holds.
- DeclPrint.Printer.GenFormalList: unprototyped functions, which are printed with a comment in the list.
- DeclPrint.Printer.GenDecl: storage classes and function definitions.
- DeclRead.GrokLayers: negative, variable and too large bounds, old-style parameter lists, attributes and bit-fields.
- c-parse.y is not part of this model: `DeclRead` is a reference reader for the declarator grammar, which is given the type names in scope.
- DeclRoundTrip.DeclarationRoundTrip: a qualified typedef name of an array or function type is excluded, because merging qualifiers into it makes a different, unnamed type, and so is one as a parameter, which is adjusted by what it hides; and the declared name must be none of the words that type names are made of, tags included, although C keeps tags apart.
- Bitmap words are sets of bit positions rather than machine words, so that shifts and masks are membership; an element's two words stay separate. `bitmap_print`, `bitmap_debug` and `bitmap_release_memory` are left out.
- Array initializers of aggregates, strings and bit-fields, records and unions, nested braces, and elements already put out by an inner level.
- InitReorder.Initialize: elements are already digested to bytes of the element size.
- Binding levels are values on a stack kept in a field; the free list of level structures, whose members are all cleared on reuse, is left out. So are limbo and implicit declarations, labels, tags, parameter-order lists, `pushdecl_top_level`, `set_block`, `insert_block` and `delete_block`.
- Scope.Bindings.KeptLevel: structure, union and enumeration tags, which also make a level one to keep.
- Scope.Bindings.PushDecl: `duplicate_decls` also discards the old decl when a function that is built in or predeclared is redeclared as static or, if built in, with another type; such functions are left out, and so are names that are marked as undeclared after an error. For a declaration in another level it never merges.
- `bc-emit.c`'s hash table of names is a map; buffer growth, the data segment (which works as the text segment does), common and global symbols, and the `.globl` and `.comm` output are left out. An int and a pointer have four bytes, least significant first.
- The suffix letters of an integer constant arrive as flags; floating, imaginary and character constants, and the shortcut for a single 0 or 1, are left out. The host's int has 32 bits.
