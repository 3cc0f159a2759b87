# Verified models of layered scene-description algorithms

This project models algorithmic cores of a repository that composes layered
scene description (AOUSD Core, OpenUSD) and proves what they promise. The modules
follow the source files; `Powers` and `Rounding` hold arithmetic that the number
modules share.

Code that updates state is modelled as methods and classes with loops
(`DictionaryLess`, `ArcGraph`, `StitchClipSequence`, `EvaluateVariantSets`, the
extraction and rewriting of assets, `CollectDependencies`, `Digits`, `History`,
`VariableReads`, `NormalizeAssetPath`). Each is proved equal to a function of its
inputs, or proved to have the stated property outright, and the lemmas beside it
say what that function means.

## The components

- `DictionaryOrder`: the order of names that reads digit runs as numbers and
  ignores case first. The two-cursor walk with look-back is proved to be the
  lexicographic order of a key of tokens, with ties broken by the first differing
  byte. That order is irreflexive, transitive and total, and the fast path agrees
  with it.
- `NameOrder`: the same order said in bytes, for numbers, zeros, letters, `_`,
  digits and other characters, with no token in sight.
- `DependencyGraph`: a depth-first walk with an explicit stack that leaves out
  edges back to prims it is below. What it adds is acyclic, and maximal: every
  other arc would close a cycle.
- `ClipTimes`: stitching clips into one time map. The map is accepted exactly when
  the clips agree wherever they overlap; then its interpolation is exact for every
  clip at every stage time. `ClipFields` says it in the fields of the sources.
- `VariantSets`: the evaluation of variant selections to a fixpoint. `VariantTurns`
  says which site each selection of its second loop comes from.
- `AssetUses`, `AssetOccurrences`, `AssetsInPlace`, `AssetDependencies`: extraction
  of asset identifiers and their rewriting. What is extracted is exactly what stands
  at the positions of the layer, a definition with no traversal in it, and rewriting
  replaces it there. Extracting from the rewritten layer gives the image of the extracted
  uses under the callback, whatever the callback answers.
- `DependencyCollection`: the recursive inventory of layers is exactly
  reachability, over links defined by positions too.
- `ListOps`: composing list edits is applying them one after the other.
- `FloatTies`, `DecimalRounding`, `DecimalText`, `FloatDigits`: the number theory
  of ties, rounding half to even through a sticky digit, and the two layouts of
  decimal text.
- `FloatShortcuts`: the guards on the bits and `is_positional` against the path
  they skip: both write the same text.
- `HalfText`: a half written to six digits reads back as that half.
- `ChangeHistory`: a bounded history that tells a reader exactly when it has
  dropped something the reader has not seen.
- `ExpressionVariables`: read sets that find every change of a value used, and
  record no lookup that does not matter.
- `AssetPaths`: normal forms of asset paths, when they are equal, what becomes of a
  search path, what is kept, and anchoring.
- `HalfFloat`: bit arithmetic of halves against rounding of real numbers.

## Where the code and its documentation part

- `layerstack/src/compose.rs:359-362` promises another evaluation of sets left
  without a selection whenever a branch comes to be selected. The first loop does
  so; the second loop never selects a set the first left unselected
  (`VariantSets.LeavesBehind` gives a prim). `VariantSets.RetryMatters` says
  exactly when this changes the result: when a site that has come to be composed
  authors a selection of such a set. On the sites alone, before any evaluation:
  it cannot happen when every site that authors a declared set lies in branches
  of sets declared around them, as branches of nested variant sets do
  (`VariantSets.NestedBranchesSuffice`); and it takes a site that authors a
  declared set from a branch whose selection some site authors but whose set no
  site around it declares (`VariantSets.LeftBehindNeeds`). No condition on the
  sites that is simpler than evaluating them closes the gap between the two:
  whether the second loop comes to select any given variant of a given prim is the
  same question as whether a set is left behind in that prim with two sites added
  (`VariantSets.LeftBehindDecides`).
- `layerstack/src/compose.rs:362-363` has the remaining sets take the strongest
  selection left. They take that of the site that comes to be composed first, in
  rounds over the sites (`VariantTurns.TakesFirstTurn`), and the strongest site
  composed in the end may come too late (`VariantTurns.StrongestMayBeLate`).
- `layerstack/src/ident.rs:46-50` has runs of digits compare by value, without their
  leading zeros. That is so exactly before a number that is not zero
  (`NameOrder.ZerosIgnored`): runs of zeros alone compare by length, before
  anything after them is looked at (`NameOrder.ZeroRunsByLength`).
- `layerstack/src/asset.rs:771-772` says that a search path stays one. The search
  path `a/../../x` becomes `../x`, which is relative to its layer
  (`AssetPaths.ClimbsOut`), and a search path may become a URI, a drive, an
  expression or nothing. `AssetPaths.StaysSearchPath` says exactly when it stays.
- `layerstack/src/asset.rs:768-770` promises that what is joined to a layer's
  directory is normalized too. At a URI it is joined only, since URIs are kept (`AssetPaths.AnchorUri`): `../c` at `https://h/a/b` gives
  `https://h/a/../c`.
- The comment on `POSITIONAL_F64` and `POSITIONAL_F32` (`layerstack/src/float_text.rs:79-80`)
  takes the two ranges of bits to be what `is_positional` accepts. For doubles
  they are (`FloatShortcuts.PositionalDoubles`). For floats the range leaves out the
  float at either end (`FloatShortcuts.PositionalFloats`), which only sends those
  two the longer way.
- `Digits::rounded` takes any number of significant digits. Its path through 19
  digits with a sticky last digit is correct for every integer of 128 bits up to
  17 significant digits, and for 18 and 19 it is not
  (`DecimalRounding.CorrectUpToSeventeen`). The repository asks for 6.
- Over the real numbers the checks that `stitch_clip_sequence` makes after sorting
  never fire: the pairwise checks before them reject everything they would
  (`ClipTimes.LaterChecksPass`).

## Model

| member | source | states |
|---|---|---|
| `DictionaryOrder.DictionaryLess` | layerstack/src/ident.rs:100-177 | the walk answers exactly whether the token key of the left name is less, ties going to the first differing byte, fewer zeros and uppercase first |
| `DictionaryOrder.DictionaryCmp` | layerstack/src/ident.rs:70-96 | fast path and walk together give the three-way ordering of that order |
| `DictionaryOrder.LessIrreflexive` | layerstack/src/ident.rs:100-177 | no name is before itself |
| `DictionaryOrder.LessTransitive` | layerstack/src/ident.rs:100-177 | the order is transitive for names of any length |
| `DictionaryOrder.LessTotal` | layerstack/src/ident.rs:100-177 | of two different names one comes first |
| `DictionaryOrder.CompareTotal` | layerstack/src/ident.rs:70-96 | equal only for equal names, and reversed with its arguments |
| `DictionaryOrder.FastPath` | layerstack/src/ident.rs:70-96 | the shortcut is right for every two names: where two letters of equal case are the first difference, and where one name begins the other |
| `DictionaryOrder.ValuesByPrefix` | layerstack/src/ident.rs:155-157 | digit runs of one length compare as numbers by their first differing digit |
| `DictionaryOrder.LongerRunIsGreater` | layerstack/src/ident.rs:155-157 | of runs without leading zeros the longer is the greater number |
| `DictionaryOrder.MatchRuns` | layerstack/src/ident.rs:133-151 | looking back and ahead finds both whole runs, past their zeros, and where they first differ |
| `DictionaryOrder.RunsVerdict` | layerstack/src/ident.rs:147-160 | what the runs found decide is what the keys decide |
| `DictionaryOrder.DigitAgainstCharacter` | layerstack/src/ident.rs:124-131 | a digit against another character is decided by the run it continues, or by byte at the start |
| `DictionaryOrder.SkipAgreement` | layerstack/src/ident.rs:102-110 | bytes that agree may be skipped, up to the run they end in |
| `DictionaryOrder.TiesDecide` | layerstack/src/ident.rs:173-176 | names of one key differ first at a byte that decides as the ties do |
| `NameOrder.NumbersOrdered` | layerstack/src/ident.rs:46-50 | numbers in the same place of two names order them by value, with any leading zeros and whatever follows |
| `NameOrder.ZerosIgnored` | layerstack/src/ident.rs:46-50 | leading zeros change no token exactly before a number that is not zero |
| `NameOrder.ZeroRunsByLength` | layerstack/src/ident.rs:124-131 | runs of zeros alone order by length |
| `NameOrder.FewerZerosFirst` | layerstack/src/ident.rs:48-50 | of names alike but for leading zeros the one with fewer comes first |
| `NameOrder.CaseAlone` | layerstack/src/ident.rs:48-50 | names that differ in ASCII case alone have one key, and uppercase comes first at the first difference |
| `NameOrder.CharactersOrdered` | layerstack/src/ident.rs:116-123 | other characters order by place in their band of 32 from 64 to 127, and elsewhere by byte, whatever surrounds them |
| `NameOrder.LettersEarlier` | layerstack/src/ident.rs:46-47 | that puts `_` before every letter, and letters in the order of the alphabet without case |
| `NameOrder.DigitOrdered` | layerstack/src/ident.rs:124-131 | a digit against another character goes by byte at the start, first after a character, and last in a number that goes on |
| `NameOrder.PrefixFirst` | layerstack/src/ident.rs:73-83 | a name comes before every name that goes on from it |
| `DependencyGraph.ArcGraph` | layerstack/src/dependency_map.rs:262-317 | for any order of roots: only arcs, acyclic, maximal, and each prim left once, after what it depends on |
| `DependencyGraph.WalkFrom` | layerstack/src/dependency_map.rs:279-315 | one walk by the explicit stack ends and keeps the invariant |
| `DependencyGraph.Stays` | layerstack/src/dependency_map.rs:300-313 | an edge to a prim already done keeps the invariant |
| `DependencyGraph.GoesBelow` | layerstack/src/dependency_map.rs:304-313 | entering a new prim keeps the invariant |
| `DependencyGraph.Leaves` | layerstack/src/dependency_map.rs:290-294 | leaving a prim with all its arcs followed keeps the invariant |
| `DependencyGraph.Closes` | layerstack/src/dependency_map.rs:297-302 | an edge left out closes a cycle through the walk's path |
| `DependencyGraph.ClosesCycle` | layerstack/src/dependency_map.rs:253-261 | an edge whose source reaches its target closes a cycle |
| `DependencyGraph.RankedIsAcyclic` | layerstack/src/dependency_map.rs:253-261 | edges along which a rank falls form no cycle |
| `DependencyGraph.WalkEnds` | layerstack/src/dependency_map.rs:249-261 | when every walk is over the graph is acyclic and maximal |
| `ClipTimes.StitchClipSequence` | layerstack/src/clip_authoring.rs:515-565 | the loops, sorts and checks give the specified map, or the first error in their order |
| `ClipTimes.CheckPairs` | layerstack/src/clip_authoring.rs:532-546 | the first conflict with an earlier interval |
| `ClipTimes.CheckSource` | layerstack/src/clip_authoring.rs:457-473 | the first fault of a source on its own, legacy bounds included |
| `ClipTimes.PairChecked` | layerstack/src/clip_authoring.rs:530-546 | the pairwise check passes exactly when the intervals start apart and map every shared time alike |
| `ClipTimes.CheckedIs` | layerstack/src/clip_authoring.rs:518-553 | the checks made while building accept exactly coherent sources |
| `ClipTimes.StitchedExactly` | layerstack/src/clip_authoring.rs:474-481 | a sequence is accepted exactly when it has sources and they are coherent |
| `ClipTimes.LaterChecksPass` | layerstack/src/clip_authoring.rs:554-564 | checks after sorting reject nothing more |
| `ClipTimes.StitchedIncreases` | layerstack/src/clip_authoring.rs:547-565 | activations and knots increase strictly; one activation a source, and exactly the sources' own knots |
| `ClipTimes.SortedDistinct` | layerstack/src/clip_authoring.rs:554-557 | sorting distinct times makes them increase |
| `ClipTimes.DedupIncreases` | layerstack/src/clip_authoring.rs:558-565 | without conflicts, removing neighbours that repeat leaves strictly increasing knots and loses none |
| `ClipTimes.KnotOnLine` | layerstack/src/clip_authoring.rs:530-553 | every knot inside a clip's interval lies on that clip's line |
| `ClipTimes.ReadsLine` | layerstack/src/value_clips/eval.rs:670-681 | interpolation between knots on a line reads the line |
| `ClipTimes.StitchedIsExact` | layerstack/src/clip_authoring.rs:474-481 | at every stage time of a clip the merged map reads the clip's own local time |
| `ClipFields.AcceptedExactly` | layerstack/src/clip_authoring.rs:474-481 | with readable bounds a sequence is accepted exactly when it is not empty, scales are positive, bounds ordered, starts distinct, and no stage time is two local times |
| `ClipFields.AcceptedIsReadable` | layerstack/src/clip_authoring.rs:457-473 | every bound of an accepted sequence is read from its present field, else from the legacy one, else zero |
| `ClipFields.RejectedFor` | layerstack/src/clip_authoring.rs:518-529 | the first source with a scale not positive, a field that is no time, or an end before its start is rejected with its own error |
| `ClipFields.KnotsExactly` | layerstack/src/clip_authoring.rs:547-565 | the knots are exactly the bounds of the clips at the stage times their offsets give, and each clip is activated at its start |
| `ClipFields.ReadsLocalTimes` | layerstack/src/value_clips/eval.rs:670-681 | the map reads every local time of every clip at the stage time its offset gives |
| `ClipFields.HeldOutside` | layerstack/src/value_clips/eval.rs:670-675 | before the first knot and after the last their local times are held |
| `VariantSets.EvaluateVariantSets` | layerstack/src/compose.rs:373-421 | both loops end and give the specified selections, in whatever order a site's selections are visited |
| `VariantSets.VisitSites` | layerstack/src/compose.rs:404-415 | one pass over the sites, and whether it changed anything |
| `VariantSets.Fill` | layerstack/src/compose.rs:409-414 | adding a site's selections gives the same in any order |
| `VariantSets.NextIs` | layerstack/src/compose.rs:378-382 | the next set is declared by a composed site and not evaluated; none is left when there is none |
| `VariantSets.NextIsFirst` | layerstack/src/compose.rs:378-382 | it comes first in its list, and no stronger composed site lists another |
| `VariantSets.FoundIs` | layerstack/src/compose.rs:386-389 | the selection comes from the strongest author composed, and is missing only if there is none |
| `VariantSets.FirstLoopSettles` | layerstack/src/compose.rs:377-399 | the first loop keeps every selection and ends with nothing to evaluate |
| `VariantSets.FirstLoopDecides` | layerstack/src/compose.rs:377-399 | then a set composed sites declare is selected, or is unselected and authored by no composed site |
| `VariantSets.PassTakesFirst` | layerstack/src/compose.rs:405-415 | a set a pass selects takes the selection of the first site composed when its turn comes |
| `VariantSets.SecondLoopSettles` | layerstack/src/compose.rs:403-419 | at return what a composed site authors is of a set selected or left unselected |
| `VariantSets.EvaluatedSettles` | layerstack/src/compose.rs:373-421 | the same for the whole evaluation, and selections of the first loop are kept |
| `VariantSets.EvaluatedIsGrounded` | layerstack/src/compose.rs:373-421 | the selections can be ordered so that each is authored by a site whose branches are selected earlier, the strongest one in the first loop |
| `VariantSets.GroundedEarlier` | layerstack/src/compose.rs:292-296 | what such an order says of each entry |
| `VariantSets.RetryMatters` | layerstack/src/compose.rs:359-362 | not evaluating unselected sets again changes the result exactly when one is left behind |
| `VariantSets.NestedBranchesSuffice` | layerstack/src/compose.rs:359-362 | none is, and the result is the promised one, when every site that authors a declared set lies in branches of sets declared around them |
| `VariantSets.LeftBehindNeeds` | layerstack/src/compose.rs:359-362 | one is only if a site authors a declared set from a branch that is authored somewhere and whose set no site around it declares |
| `VariantSets.LeftBehindDecides` | layerstack/src/compose.rs:400-421 | with two sites added, a set is left behind exactly when the second loop selects a given variant, so no exact condition is simpler than the evaluation |
| `VariantSets.LeavesBehind` | layerstack/src/compose.rs:403-419 | a prim where one is |
| `VariantTurns.TakesFirstTurn` | layerstack/src/compose.rs:400-419 | a set only the second loop selects takes the selection of the site whose turn to be composed comes first among its authors, turns being defined on the sites and the result |
| `VariantTurns.StrongestMayBeLate` | layerstack/src/compose.rs:362-363 | a prim whose strongest site composed in the end is not the one |
| `AssetOccurrences.UsesAreOccurrences` | layerstack/src/asset_dependencies.rs:146-175 | the uses of a layer are exactly the identifiers, and the unnamed links to another layer, that stand at its positions, with place, kind and target |
| `AssetOccurrences.ValueFinds` | layerstack/src/asset_dependencies.rs:488-556 | in a value: at the end of steps into arrays, dictionaries and the literals of both kinds of edit |
| `AssetOccurrences.OwnFinds` | layerstack/src/asset_dependencies.rs:336-487 | in a spec: in its fields and `assetInfo`, its properties, and the six lists of its references and payloads |
| `AssetOccurrences.TreeFinds` | layerstack/src/asset_dependencies.rs:463-486 | in the variants of a spec, with the names of sets and variants on the way |
| `AssetsInPlace.RewrittenInPlace` | layerstack/src/asset_dependencies.rs:261-304 | whatever the replacements, the rewritten layer has at each position exactly what the layer has there, with its identifier replaced |
| `AssetsInPlace.ValueInPlace` | layerstack/src/asset_dependencies.rs:558-646 | the same inside a value, through arrays, dictionaries and edits |
| `AssetsInPlace.BranchInPlace` | layerstack/src/asset_dependencies.rs:796-882 | the rewritten spec has the variants of the spec, under the same names |
| `AssetUses.ExtractedAfterRewriting` | layerstack/src/asset_dependencies.rs:253-304 | the uses of the rewritten layer are the uses with identifiers replaced, less those replaced by nothing that link to no layer; and nothing changes exactly when no identifier does |
| `AssetUses.ValueRewrites` | layerstack/src/asset_dependencies.rs:505-556 | the same through arrays, dictionaries, edit literals and clip templates |
| `AssetUses.PrimFieldRewrites` | layerstack/src/asset_dependencies.rs:397-436 | the same for `assetInfo` identities and `clips` |
| `AssetUses.PropertyRewrites` | layerstack/src/asset_dependencies.rs:375-393 | the same for metadata, default and samples of a property |
| `AssetUses.ArcRewrites` | layerstack/src/asset_dependencies.rs:336-361 | the same for an arc, unnamed or not, and its custom data |
| `AssetUses.ArcOpsRewrite` | layerstack/src/asset_dependencies.rs:725-758 | rewriting six lists one by one is rewriting all items in the order they are extracted in |
| `AssetUses.TreeRewrites` | layerstack/src/asset_dependencies.rs:796-843 | the same through nested variant sets |
| `AssetUses.LayerRewrites` | layerstack/src/asset_dependencies.rs:261-304 | the same for a layer |
| `AssetUses.LayerAt` | layerstack/src/asset_dependencies.rs:306-335 | every use names its layer, and has an identifier or links to another layer |
| `AssetDependencies.ExtractLayerDependencies` | layerstack/src/asset_dependencies.rs:146-175 | lists exactly what stands at the positions of the layer, each use once, strictly in the order of uses |
| `AssetDependencies.ExtractPrim` | layerstack/src/asset_dependencies.rs:438-487 | visiting branches by a stack finds the uses of the whole tree of variants |
| `AssetDependencies.ExtractValue` | layerstack/src/asset_dependencies.rs:505-556 | appends exactly the uses in a value |
| `AssetDependencies.ExtractPrimFields` | layerstack/src/asset_dependencies.rs:397-436 | appends exactly the uses in prim metadata |
| `AssetDependencies.ExtractProperties` | layerstack/src/asset_dependencies.rs:375-393 | appends exactly the uses in properties |
| `AssetDependencies.ExtractArcs` | layerstack/src/asset_dependencies.rs:336-361 | appends exactly the uses in arcs |
| `AssetDependencies.RewriteLayerAssets` | layerstack/src/asset_dependencies.rs:261-304 | fails exactly when the callback fails on a use, with the error of the first such use; otherwise the copy has at each position what the layer has there, with the answer for its identifier, and it counts as touched exactly when it differs |
| `AssetDependencies.RewriteValue` | layerstack/src/asset_dependencies.rs:558-620 | editing in place gives the specified value |
| `AssetDependencies.RewriteEdit` | layerstack/src/asset_dependencies.rs:621-646 | only literals of an edit change |
| `AssetDependencies.RewriteProperties` | layerstack/src/asset_dependencies.rs:660-724 | leaving alone properties no replacement touches gives what rewriting all would |
| `AssetDependencies.Untouched` | layerstack/src/asset_dependencies.rs:666-673 | such a property would not change |
| `AssetDependencies.RewriteArcs` | layerstack/src/asset_dependencies.rs:725-758 | rewrites every list of arcs |
| `AssetDependencies.RewriteSpec` | layerstack/src/asset_dependencies.rs:796-882 | rewrites a spec and the variants in it by recursion |
| `DependencyCollection.CollectDependencies` | layerstack/src/asset_dependencies.rs:184-251 | on any finite store, cyclic or not, the layers and missing layers are exactly the ids reachable by unnamed arcs and host targets, sorted and each once; the dependencies are exactly their uses as resolved, in the order of uses, and each once when layers are stored under their own ids |
| `DependencyCollection.LinksAre` | layerstack/src/asset_dependencies.rs:211-246 | the links followed are exactly the unnamed sublayers, the unnamed arcs at the positions of references and payloads in prims and their variants, and the layers the host resolves uses to |
| `DependencyCollection.Push` | layerstack/src/asset_dependencies.rs:194-198 | binary search keeps the worklist strictly descending |
| `DependencyCollection.WalkVisits` | layerstack/src/asset_dependencies.rs:200-246 | visiting the smallest pending layer keeps the invariant and leaves fewer to visit |
| `DependencyCollection.WalkEnds` | layerstack/src/asset_dependencies.rs:177-183 | with nothing pending the visited layers are the reachable ones |
| `ListOps.CombinedApplies` | core-spec-supplemental-release_dec2025/data_types/listop.py:161-198 | the combined edit does to any list what the weaker and then the stronger do |
| `ListOps.CombinedOverExplicit` | core-spec-supplemental-release_dec2025/data_types/listop.py:88-159 | `(A over B) over` an explicit list equals `A over (B over` it`)` |
| `ListOps.ComposedApplies` | core-spec-supplemental-release_dec2025/data_types/listop.py:111-159 | the same for two composable edits by the general formula |
| `ListOps.FoldApplies` | core-spec-supplemental-release_dec2025/composition/stage.py:171-176 | folding a chain strongest first applies it weakest first |
| `ListOps.ChainResolves` | core-spec-supplemental-release_dec2025/composition/stage.py:171-179 | the reduced fold read as a list is the chain applied to the empty list, without repetition |
| `ListOps.ApplyUnique` | core-spec-supplemental-release_dec2025/data_types/listop.py:13-26 | no list on the way repeats an element |
| `ListOps.OrderedIsApplied` | core-spec-supplemental-release_dec2025/data_types/listop.py:200-226 | reading an edit as a list, reduced or not, applies it to the empty list |
| `ListOps.AlikeMeans` | core-spec-supplemental-release_dec2025/data_types/listop.py:200-211 | edits are equal up to reduction and the order of deletions exactly when they mean the same |
| `ListOps.AlikeActs` | core-spec-supplemental-release_dec2025/data_types/listop.py:13-26 | edits are alike exactly when they do the same to every list, given an element neither speaks of; lists without repetition are enough to tell |
| `ListOps.CombinedMeans` | core-spec-supplemental-release_dec2025/data_types/listop.py:161-198 | combining edits composes their meanings |
| `ListOps.CombinedAssociative` | core-spec-supplemental-release_dec2025/data_types/listop.py:161-198 | combining is associative, up to that |
| `ListOps.ShortcutsAgree` | core-spec-supplemental-release_dec2025/data_types/listop.py:165-195 | each inert shortcut agrees with the formula it skips, up to that |
| `FloatTies.MayTieExactly` | layerstack/src/float_text.rs:137-155 | `may_tie` holds exactly for the numbers that are decimals ending in 5 of at most one digit more, past its tables and 64 bits too |
| `FloatTies.SameNumber` | layerstack/src/float_text.rs:480-485 | an odd multiple of a power of two is an odd multiple of a power of ten only at one place |
| `FloatTies.OddSignificandIs` | layerstack/src/float_text.rs:179-194 | the significand is odd, below 2^53, and the value is kept; none exactly for zero |
| `FloatTies.QuickDoubleNeverTies` | layerstack/src/float_text.rs:50-61 | no double on the quick path ties among 17 digits |
| `FloatTies.QuickFloatNeverTies` | layerstack/src/float_text.rs:66-77 | no float on the quick path ties among 9 digits |
| `FloatTies.EqualsDecimalExactly` | layerstack/src/float_text.rs:481-499 | `equals_decimal` holds exactly when the double is that decimal, overflow included |
| `Rounding.HalfEvenNearest` | layerstack/src/float_text.rs:346-352 | division rounded half to even is nearest, and even where two are |
| `DecimalRounding.StickyRounds` | layerstack/src/float_text.rs:333-342 | rounding what a sticky digit ends is rounding the number it stands for, for divisors that are multiples of four |
| `DecimalRounding.RoundsCorrectly` | layerstack/src/float_text.rs:324-352 | up to 17 digits every integer is rounded correctly |
| `DecimalRounding.CorrectUpToSeventeen` | layerstack/src/float_text.rs:324-352 | and not beyond |
| `FloatDigits.RoundedMeans` | layerstack/src/float_text.rs:322-371 | the digits denote the number rounded half to even, carries and trimmed zeros included |
| `FloatDigits.RoundDigits` | layerstack/src/float_text.rs:327-357 | the steps of the rounding give those digits and that exponent |
| `FloatDigits.Digits.Rounded` | layerstack/src/float_text.rs:322-371 | the buffer holds them |
| `FloatDigits.TieBrokenIs` | layerstack/src/float_text.rs:373-393 | digits change exactly when the last is odd and the double is halfway to the number before, which is as far from it |
| `FloatDigits.Digits.BreakTieToEven` | layerstack/src/float_text.rs:379-393 | in place, exactly so |
| `FloatDigits.TrimmedKeeps` | layerstack/src/float_text.rs:395-399 | dropping zeros at the end keeps the number |
| `FloatDigits.Digits.TrimTrailingZeros` | layerstack/src/float_text.rs:395-399 | in place, down to one digit |
| `FloatDigits.Digits.Read` | layerstack/src/float_text.rs:282-320 | reads sign, digits and exponent |
| `FloatDigits.Digits.PushPositional` | layerstack/src/float_text.rs:426-453 | appends the positional layout |
| `FloatDigits.Digits.PushExponential` | layerstack/src/float_text.rs:455-478 | appends the exponential layout in either style |
| `FloatDigits.Digits.PushShortest` | layerstack/src/float_text.rs:408-414 | appends the positional layout for exponents from -6 to 14, and the other without sign or padding otherwise |
| `FloatDigits.Digits.PushSixDigitLayout` | layerstack/src/float_text.rs:418-424 | appends the positional layout for exponents from -4 to 5, and the C style otherwise |
| `FloatDigits.LayoutsMean` | layerstack/src/float_text.rs:406-424 | whichever layout the exponent picks denotes the number |
| `FloatDigits.SixDigitsMean` | layerstack/src/float_text.rs:208 | what is written of an integer at a place denotes it rounded half to even to six digits |
| `FloatDigits.ExactDecimal` | layerstack/src/float_text.rs:205-207 | the integer and place it is rounded from are its exact value |
| `FloatShortcuts.NothingToBreak` | layerstack/src/float_text.rs:123-129 | where `may_tie` says no, breaking ties changes no digit |
| `FloatShortcuts.PositionalDoubles` | layerstack/src/float_text.rs:79-82 | the range of bits is exactly the doubles `is_positional` accepts, subnormals among the rest |
| `FloatShortcuts.PositionalFloats` | layerstack/src/float_text.rs:83-84 | for floats it is all of them but one at either end |
| `FloatShortcuts.PositionalExponent` | layerstack/src/float_text.rs:131-136 | digits near a number it accepts have an exponent that is written positionally |
| `FloatShortcuts.DoubleShortcuts` | layerstack/src/float_text.rs:50-61 | either shortcut of `push_double` writes what reading, correcting and laying out would write |
| `FloatShortcuts.SingleShortcuts` | layerstack/src/float_text.rs:66-77 | so does either of `push_float` |
| `HalfText.OddHalfIs` | layerstack/src/float_text.rs:204-208 | a half is an odd number below 2^11 times a power of two from -24 up, which is what its double is taken apart into; its exact decimal fits 128 bits |
| `HalfText.IntegerExactly` | layerstack/src/float_text.rs:202-206 | such a number is an integer exactly when the power is not negative |
| `HalfText.TextRoundsBack` | layerstack/src/float_text.rs:37-38 | six digits are enough: the half nearest to what a half's text denotes is that half, for every finite half and sign |
| `HalfText.TextReadsBack` | layerstack/src/float_text.rs:37-38 | also through a float that rounded the text: it narrows to the half bit for bit |
| `DecimalText.PositionalMeans` | layerstack/src/float_text.rs:426-453 | the positional layout denotes the number wherever its point falls |
| `DecimalText.ExponentialMeans` | layerstack/src/float_text.rs:455-478 | the exponential layout denotes the number |
| `DecimalText.ReadInverts` | layerstack/src/float_text.rs:282-320 | reading inverts the exponential layout digit for digit |
| `ChangeHistory.History.Record` | layerstack/src/change_history.rs:153-172 | keeps the most of the newest batches that fit beside the new one, or nothing, with all accounts exact, items included |
| `ChangeHistory.History.RecordWith` | layerstack/src/change_history.rs:141-152 | the same, discarding early on the estimate |
| `ChangeHistory.History.Discard` | layerstack/src/change_history.rs:173-178 | drops everything and moves the floor to the batch |
| `ChangeHistory.History.Evict` | layerstack/src/change_history.rs:127-133 | drops the oldest and moves the floor to it |
| `ChangeHistory.History.Trim` | layerstack/src/change_history.rs:134-140 | keeps the longest newest part that fits |
| `ChangeHistory.History.SetBudget` | layerstack/src/change_history.rs:116-120 | the same for a new budget |
| `ChangeHistory.History.Clear` | layerstack/src/change_history.rs:121-126 | drops everything, and ends |
| `ChangeHistory.History.Clone` | layerstack/src/change_history.rs:67-83 | a copy whose bytes are counted afresh is valid |
| `ChangeHistory.History.Read` | layerstack/src/live_stage/notices.rs:178-193 | a cursor gets exactly what it has not read, or an error exactly when some was dropped |
| `ChangeHistory.History.ChangedSince` | layerstack/src/doc.rs:4208-4213 | answers exactly when each generation since is retained, and then with every batch recorded since; a layer that replaced another, whose generation moved on with no batch, included |
| `ChangeHistory.RetainsSince` | layerstack/src/doc.rs:4208-4213 | each is retained exactly when the oldest batch leaves no gap, and then the floor is not past it |
| `ChangeHistory.History.RetainedSinceFloor` | layerstack/src/change_history.rs:113-115 | what is retained is exactly what was submitted since the floor |
| `ChangeHistory.ReplayComplete` | layerstack/src/change_history.rs:113-115 | a replay from a revision misses nothing exactly from the floor on |
| `ChangeHistory.RetainedIsNewer` | layerstack/src/change_history.rs:113-115 | the batches retained are those newer than the floor |
| `ChangeHistory.NewestIsLongest` | layerstack/src/change_history.rs:134-140 | no longer newest part fits the budget |
| `ExpressionVariables.UnchangedComposes` | layerstack/src/expression_variables.rs:282-298 | reads no layer changed compose the same value, whatever was edited |
| `ExpressionVariables.UnchangedEvaluates` | layerstack/src/expression_variables.rs:301-319 | then an expression uses the same variables and gives the same result |
| `ExpressionVariables.EveryReadMatters` | layerstack/src/expression_variables.rs:235-242 | for every lookup recorded, misses too, there is an edit of it alone that composes another value |
| `ExpressionVariables.ComposesStrongest` | layerstack/src/layer_stack.rs:71-73 | each variable has the value of the first layer stack that sets it, of its session layer before its root, and no other variable is set |
| `ExpressionVariables.CoversRecorded` | layerstack/src/expression_variables.rs:255-275 | what covers the chain records, in each stack up to the first that sets a variable, the session layer and then the root |
| `ExpressionVariables.ComposedAllIs` | layerstack/src/expression_variables.rs:212-233 | composing layer by layer gives each variable its strongest value |
| `ExpressionVariables.ComposedVariables` | layerstack/src/expression_variables.rs:218-233 | the loop over the chain, and its shortcut when no layer authors variables, give each variable the value of the first stack that sets it, session layer first |
| `ExpressionVariables.ComposeOver` | layerstack/src/variable_expression.rs:174-180 | adds what is not set, in any order |
| `ExpressionVariables.VariableReads.Record` | layerstack/src/expression_variables.rs:255-275 | records every variable used in each stack up to the first that sets it, session layer first; keeps what was covered, and adds only lookups that composition reaches |
| `ExpressionVariables.VariableReads.Extend` | layerstack/src/expression_variables.rs:278-280 | what either log covered in a store stays covered where the other read that store, and merged logs are as faithful as their parts |
| `ExpressionVariables.VariableReads.HasChanged` | layerstack/src/expression_variables.rs:284-298 | answers whether a value read from the layer differs now |
| `ExpressionVariables.Evaluate` | layerstack/src/expression_variables.rs:307-319 | evaluates with the strongest variables, an empty string counting as none, records what was used, and keeps what earlier evaluations covered in the same store |
| `AssetPaths.NormalizeAssetPath` | layerstack/src/asset.rs:639-675 | the loop over segments gives the normal form |
| `AssetPaths.NormalizeIdempotent` | layerstack/src/asset.rs:639-675 | normalizing again changes nothing, even when a search path has become a drive, a URI or an expression |
| `AssetPaths.NormalAbsolute` | layerstack/src/asset.rs:651-669 | an absolute normal form spells the place the path denotes, `..` stopping at the root |
| `AssetPaths.NormalDrive` | layerstack/src/asset.rs:648-650 | the same on a drive |
| `AssetPaths.NormalRelative` | layerstack/src/asset.rs:655-674 | a relative path leads to the same place from every base |
| `AssetPaths.SameAbsolute` | layerstack/src/asset.rs:632-635 | absolute paths have one normal form exactly when they denote one place |
| `AssetPaths.SameNormalForm` | layerstack/src/asset.rs:632-635 | relative paths have one normal form exactly when they lead to one place from every deep enough base, and are both relative to their layer, both search paths, or lead up |
| `AssetPaths.StaysSearchPath` | layerstack/src/asset.rs:769-772 | a normalized search path is one exactly when something is left of it, it does not climb out and go on, and its first name is no drive, scheme or expression |
| `AssetPaths.LeadsUpIs` | layerstack/src/asset.rs:655-664 | a normal form begins with `..` exactly when the path climbs above its start on the way |
| `AssetPaths.ClimbsOut` | layerstack/src/asset.rs:769-772 | a search path that does not stay one |
| `AssetPaths.UriKept` | layerstack/src/asset.rs:607-615 | a path that begins with a scheme and a colon, and no drive, is its own normal form and anchored form |
| `AssetPaths.DriveKept` | layerstack/src/asset.rs:648-650 | the rest of a path on a drive is normalized as an absolute path |
| `AssetPaths.SlashesAre` | layerstack/src/asset.rs:805-807 | every backslash becomes a slash and nothing else changes |
| `AssetPaths.RelativeIs` | layerstack/src/asset.rs:602-615 | what is relative: exactly the texts that do not begin at the root and have no colon at the end of a scheme, the empty one excepted |
| `AssetPaths.ExpressionKept` | layerstack/src/asset.rs:651-653 | an expression is its own normal form, brackets and all |
| `AssetPaths.ArgumentsFollow` | layerstack/src/asset.rs:786-788 | format arguments follow what the path before them is anchored to |
| `AssetPaths.AnchoredOrNot` | layerstack/src/asset.rs:796-803 | nothing is anchored exactly for an expression, or for a path relative to a layer without a location; other paths not relative to their layer are normalized |
| `AssetPaths.AnchorAbsolute` | layerstack/src/asset.rs:796-837 | at an absolute location, anchoring names the place the path leads to from the layer's directory |
| `AssetPaths.AnchorDrive` | layerstack/src/asset.rs:796-837 | the same on a drive |
| `AssetPaths.AnchorUri` | layerstack/src/asset.rs:796-837 | at a URI a path is joined to its directory and kept so, `..` and all; at one without a directory it is taken from the root |
| `AssetPaths.AnchorRelative` | layerstack/src/asset.rs:826-836 | at a relative location it stays relative and leads there from wherever the host resolves from |
| `HalfFloat.FromF32Rounds` | layerstack/src/half.rs:47-82 | every finite float narrows to the nearest half, ties to even, and keeps its sign |
| `HalfFloat.RoundsToNearest` | layerstack/src/half.rs:37-40 | no finite half is nearer, and only an even one has one as near |
| `HalfFloat.FromF32Monotone` | layerstack/src/half.rs:47-82 | narrowing is monotone, in the magnitude and with signs, and gives infinity exactly from 65520 up |
| `HalfFloat.AddAndShiftRounds` | layerstack/src/half.rs:58-61 | for every significand and shift, the add and shift is division rounded half to even |
| `HalfFloat.NarrowedNormal` | layerstack/src/half.rs:71-81 | the carry out of the significand gives the next exponent |
| `HalfFloat.SpecialsNarrow` | layerstack/src/half.rs:64-70 | infinities and NaNs stay what they are |
| `HalfFloat.ToF32Exact` | layerstack/src/half.rs:17-32 | widening is exact |
| `HalfFloat.RoundTrip` | layerstack/src/half.rs:17-82 | widening and narrowing gives every half back, NaNs included |

## Left out

- AssetDependencies.ExtractLayerDependencies: the order of uses is any strict total order; how the source compares handles depends on the interners, which are not part of this model. Sorting and dropping neighbours that repeat are one step.
- AssetDependencies.RewriteLayerAssets: the callback is a function of the use, which is all a callback asked once per use can show.
- DependencyCollection.CollectDependencies: the host's answers are a function of the use.
- ClipTimes.StitchClipSequence: times are real numbers, so the rounding of floating point, and the rejection of infinities and NaNs, are not modelled; nor are the layers, manifest and report the bundle holds. The reader's separate coordinates for jumps in a map do not arise, since stitched knots increase.
- AssetPaths.NormalizeAssetPath: paths inside packages (`[`) are excluded, since `PackagePath` is not part of this model; so are they from anchoring.
- ExpressionVariables.Evaluate: evaluation of an expression is a function of the variables, assumed to depend only on those it reports as used; parsing is not modelled.
- ExpressionVariables.ComposedVariables: that no layer authors variables when their name was never interned is a requirement, being a fact about the interner.
- ChangeHistory.History.Read: revisions increase by one from the first batch, as a live stage numbers them; a cursor of another stage is not modelled.
- FloatShortcuts.SingleShortcuts: subnormal floats take no shortcut and are not among the floats of this lemma.
- HalfText.Text: infinities and NaNs are written without arithmetic and left out.
- HalfFloat.ToF32Exact: the product of a subnormal mantissa and 2^-24 in floating point is modelled as the float of exactly that value.
- FloatDigits.Digits.Rounded: at least one significant digit is asked for, so that the table of powers of ten holds the divisor.
- The values in `AssetUses` keep their shape but not their types: numbers, tokens and the parts of edits that hold no value are opaque, and the two-level table of variant sets is one list of variants. Prims of the layer and prims inside its variants are one list.
- Counter widths other than those of the change history, allocation sizes, `Arc` sharing and copy on write, hashing (its order is arbitrary here), interners, threads.
- Rust's own shortest digits and number formatting: the digits are given. `push_time_code`, integers and special values follow from them without arithmetic.
- `is_identifier` and its Unicode tables, `create_identifier`, UDIM patterns, prim indexing, live stages, file, network and archive code.
