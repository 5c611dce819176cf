# The catalogue and its protocols, modelled and proved

A Dafny model of the shop's catalogue and of the small protocols beside it. Each component is a specification
of functions over plain values, the imperative form the program has (classes whose methods rewrite rows, loops over
arrays and maps) proved against it, and lemmas saying what the specification guarantees over all inputs, runs and interleavings.

- **Category tree** (`CategoryPath`, `CategoryTree`, `CategoryMove`, `CategoryWrites`, `CategoryService`,
  `CategoryLock`, `CategoryForest`, `CategoryNesting`, `CategoryListing`): paths are real strings such as `/1/5/12/`,
  so "string prefix" against "ancestor" is a theorem. Row constraints are equivalent to being a forest with the right
  cached columns; the one bulk rewrite of a move is equal to recomputing every path; runs and interleavings under the
  tree lock keep the forest, with the table's constraints checked as every statement ends; the nested tree built by
  the loop over heap objects flattens to exactly the reachable rows, and the listing shows exactly what nothing hides.
- **Attributes** (`AttributeInheritance`, `AttributeTable`, `AttributeDefinitions`, `AttributeService`,
  `AttributeSchema`): nearest-wins resolution independent of row order, the one-key-per-lineage rule with the exact
  condition under which a move breaks it, and the two validation passes of a save.
- **Products** (`VariantGrid`, `VariantRules`, `ProductRows`, `ProductAxes`, `ProductVariants`, `ProductWrites`,
  `ProductResults`, `ProductPublish`, `ProductService`, `ProductDuplicate`, `ProductUncopied`, `BulkStatusLocks`): the cartesian grid,
  overrides laid on it, replanning on every edit with retired and added choices, the derived price and the sale guard,
  duplication back through the planner, and the row locks of bulk status changes.
- **Protocols and algorithms** (`Sessions`, `SessionSteps`, `SessionService`, `DemoBudget`, `WakeLoop`, `ImagePlan`,
  `ImageRules`, `ImageNames`, `ImageRuns`, `ImageLoop`, `ImagePipeline`, `Cart`, `CartView`, `CartService`, `SearchPattern`).
- **Shared** (`Prelude`, `Texts`, `Sorting`): sequences, decimals, joins, trimming, stable sorting.

Every lemma carries `{:induction false}`: each proof is the one its body gives. `dafny verify dfyconfig.toml` checks all of it.
Line numbers below refer to the repository's files. Constants the repository keeps elsewhere (the depth cap, the variant,
cart and issue limits, the name cap) are parameters.

## Where the code and its comments differ

The model follows the code.

- A combination is matched by its values joined with U+001F (`variant-rules.ts:72-85`), said to be impossible to type.
  Values are not checked for it; `VariantRules.AcceptsWhatIsMeantIff` gives the exact condition under which the
  planner accepts what was meant, and `ProductDuplicate.DuplicateAcceptedIff` the one under which a copy is accepted.
  Where it fails: a request naming two combinations is refused (`VariantRules.RefusesWhatIsMeant`), one naming none is
  accepted (`VariantRules.AcceptsWhatIsNotMeant`), and a listing is created that can never be copied
  (`ProductUncopied.CreatedNeverCopied`).
- The shared contract calls `CART_ITEM_MAX_QUANTITY` an absolute cap per person and variant
  (`packages/shared/src/api/cart.ts:18-19`); `add` checks only the seller's limit and the stock
  (`Cart.AddPassesItemMax`, `Cart.AddWithinItemMaxIff`).
- The limit shown with a cart line is documented as resolved (`packages/shared/src/api/cart.ts:66-72`), but `present`
  asks for it without the variant's own (`CartView.ShownLimitIff`, one such line in `CartView.ShownLimitDiffers`).
- A required text attribute accepts white space, stores `''`, and the next save refuses it
  (`AttributeSchema.BlankSatisfiesRequired`, exact condition in `AttributeSchema.StableIff`).
- A category move does not look at attribute keys, so it may put one key twice on a lineage, as
  `attribute-inheritance.ts:11-16` foresees (`AttributeDefinitions.MoveKeepsRuleIff`).
- Jobs of the picture set are looked up by a rendered id that the planner never checks for repeats
  (`pipeline.py:104-106,150,157,172`). Two planned pictures share an id exactly when one variant's id goes on from
  another's by what one view's name has in front of another's (`ImageNames.DistinctIdsIff`; `x-model` beside `x` in
  `ImageNames.RenderedIdsCollide`). Of two jobs of one id only the last can be recorded, so every planned picture can
  be made, and a complete set is complete, exactly without such a pair (`ImageRuns.AllMakeableIff`,
  `ImageRuns.CompleteHonestIff`, one run in `ImageRuns.LookalikesComplete`). A caller who records what is offered
  first stops, with everything made, exactly without such a pair (`ImageLoop.LoopStopsIff`,
  `ImageLoop.LookalikesLoopStays`).
- Every invariant of the category writes is said to be a constraint of the table too (`category.service.ts:160-164`).
  All are but one: that a live category hangs under a live one (`CategoryLock.EnforcedIff`), which only the lock keeps
  (`CategoryLock.StaleCreateOrphans`).
- A logout or a reuse verdict is meant to end the session for good, grace window included
  (`session.service.ts:162-168,196-201`). It looks at unrevoked rows only (`session.service.ts:237-247,310-315`), so a
  token rotated in the ten seconds before keeps its expiry, is accepted when presented again, and mints a full session
  (`Sessions.RotatedOutlivesLogout`, `Sessions.RotatedOutlivesReuse`). An ending keeps the user out of the app until
  the next login exactly when none of their rows there was rotated within the window (`Sessions.EndingKeepsOutIff`)
  and, with statements interleaved, no refresh of theirs is under way on a row it read before
  (`SessionSteps.EndingSilencesIff`, one overtaken logout in `SessionSteps.LogoutOvertaken`).

## Model

| member | source | states |
|---|---|---|
| CategoryPath.DepthOf | apps/api/src/catalog/category-path.ts:29-35 | the loop counts the slashes: the depth a path encodes |
| CategoryPath.RenderDepth | apps/api/src/catalog/category-path.ts:29-35 | the path of a chain of ids has as its depth the number of ids |
| CategoryPath.RenderPrefix | apps/api/src/catalog/category-path.ts:45-47 | between paths, string prefix holds exactly when one chain of ids is a prefix of the other, so `/1/5/` is none of `/1/51/` |
| CategoryPath.RenderInjective | apps/api/src/catalog/category-path.ts:24-26 | two chains with one path are one chain |
| CategoryPath.RebaseRendered | apps/api/src/catalog/category-path.ts:95-97 | replacing the old prefix gives exactly the path the node has under the new one |
| CategoryTree.Lineage | apps/api/src/catalog/category-path.ts:24-26 | walking up the parents ends, and the cached path, depth and parent path are those of the chain walked |
| CategoryTree.WellFormedIffForest | apps/api/src/catalog/category.service.ts:243-497 | the constraints on single rows hold exactly when the table is a forest whose cached columns its parent edges determine |
| CategoryTree.WellFormedAcyclic | apps/api/src/catalog/category.service.ts:243-497 | parent edges have no cycle, every chain is within the depth cap and repeats nobody |
| CategoryTree.SubtreeQuery | apps/api/src/catalog/category.service.ts:558-566 | a `LIKE` on the node's path followed by `%`, and the prefix test in code, select exactly the node and its descendants |
| CategoryMove.MoveDecision | apps/api/src/catalog/category-path.ts:79-86 | `cycle` exactly when the destination is the node or below it; no refusal exactly when the re-parented edges are acyclic and within the cap |
| CategoryMove.MoveRecomputes | apps/api/src/catalog/category.service.ts:340-400 | the one bulk rewrite leaves a well-formed forest whose cached columns are those of the old edges with one replaced, and touches no other column |
| CategoryWrites.CreateDecision | apps/api/src/catalog/category.service.ts:243-278 | creation is refused for depth exactly when the new node's chain would exceed the cap |
| CategoryWrites.CreatePlaces | apps/api/src/catalog/category.service.ts:243-278 | a new node hangs under its parent's chain, after every live sibling unless told otherwise, and no other row changes |
| CategoryWrites.CreateExact | apps/api/src/catalog/category.service.ts:243-278 | a creation is refused exactly for a parent that is not live, one at the cap, or a slug a live row has, in that order; otherwise the one new row has the name, slug and parent given, is active, at version 0, not deleted, at the position given or after its siblings |
| CategoryWrites.ReorderExact | apps/api/src/catalog/category.service.ts:411-456 | a reorder is accepted exactly for an arrangement of all live children, and numbers each by its place; refused, it changes nothing |
| CategoryWrites.UpdateExact | apps/api/src/catalog/category.service.ts:290-325 | an edit is written exactly for a live row of that version and a slug no other live row has, and touches only what it names; a conflict tells the missing row, the version and the slug apart |
| CategoryWrites.MoveExact | apps/api/src/catalog/category.service.ts:340-400 | a move is written exactly when the re-parented tree is acyclic and within the cap, with each refusal its own condition; the node hangs under its destination at the position given, its own, or last, and every other column of every row stays |
| CategoryWrites.RemoveExact | apps/api/src/catalog/category.service.ts:465-497 | a removal is written exactly for a live row without live children: that row is deleted, switched off and one version on, and nothing else changes |
| CategoryWrites.RefusedChangesNothing | apps/api/src/catalog/category.service.ts:243-497 | a refused write changes no row |
| CategoryWrites.StepKeeps | apps/api/src/catalog/category.service.ts:243-497 | every write keeps the table well formed, slugs unique among live rows, and takes back no id or retirement |
| CategoryWrites.RunKeepsForest | apps/api/src/catalog/category.service.ts:243-497 | every run of writes ends in a forest: cached columns right, acyclic, within the cap, live under live |
| CategoryWrites.RunFromEmpty | apps/api/prisma/migrations/20260903082356_category_tree/migration.sql:1-22 | every run from the empty table is such a forest, under any depth cap |
| CategoryService.Categories.Create | apps/api/src/catalog/category.service.ts:243-278 | the method leaves the table and the error of the create specification, whose rows and refusals `CategoryWrites.CreateExact` tells column by column, and keeps the invariant |
| CategoryService.Categories.Update | apps/api/src/catalog/category.service.ts:290-325 | the guarded edit as specified: version and slug conflicts told apart, nothing structural touched |
| CategoryService.Categories.Move | apps/api/src/catalog/category.service.ts:340-400 | the move as specified: refusals in order, position kept, given or appended, subtree rewritten at once |
| CategoryService.Categories.DeepestBelow | apps/api/src/catalog/category.service.ts:558-566 | the deepest level in a subtree, retired rows included, zero when there is none |
| CategoryService.Categories.LastPosition | apps/api/src/catalog/category.service.ts:569-576 | one past the last live sibling, zero when there is none |
| CategoryService.Categories.Renumber | apps/api/src/catalog/category.service.ts:411-456 | the loop gives each listed row its place and changes no other |
| CategoryService.Categories.Reorder | apps/api/src/catalog/category.service.ts:411-456 | the reorder as specified, mismatch included |
| CategoryService.Categories.Remove | apps/api/src/catalog/category.service.ts:465-497 | the removal as specified: only without live children, soft and final |
| CategoryLock.WriteIsStep | apps/api/src/catalog/category.service.ts:507-519 | a write decided from what was read under the lock equals the same write decided now, whatever unlocked edits landed between |
| CategoryLock.CommittedIsStep | apps/api/src/catalog/category.service.ts:507-519 | decided under the lock, a statement passes the constraints and equals the same write decided now |
| CategoryLock.EnforcedAcyclic | apps/api/prisma/migrations/20260903082356_category_tree/migration.sql:38-47 | whatever a statement was decided from, rows the constraints accept have no cycle and keep to the depth cap |
| CategoryLock.EnforcedIff | apps/api/prisma/migrations/20260903082356_category_tree/migration.sql:30-75 | the invariant of the tree is the constraints and live rows under live ones |
| CategoryLock.Serializable | apps/api/src/catalog/category.service.ts:507-519 | under every interleaving of acquire, read, commit and unlocked edits the table is that of the serial run in commit order, hence a forest, and the constraints refuse no statement |
| CategoryLock.StaleMovesCycle | apps/api/src/catalog/category.service.ts:335-338 | without the lock: two moves into each other decided from one snapshot both pass their checks; the first statement stands, and the second, which would close a cycle, breaks the foreign key on parent and parent path and is refused |
| CategoryLock.StaleCreateOrphans | apps/api/src/catalog/category.service.ts:507-519 | without the lock: a creation decided before its parent was removed is taken by every constraint and leaves a live category under a retired one |
| CategoryForest.FlattenIsKept | apps/api/src/catalog/category-tree.ts:25-61 | flattening the built forest gives exactly the rows whose whole ancestor chain is present, each once |
| CategoryForest.FlattenParentsFirst | apps/api/src/catalog/category-tree.ts:25-61 | parents come before their children |
| CategoryForest.FlattenSiblingsInOrder | apps/api/src/catalog/category-tree.ts:25-61 | the children of one parent keep the order they arrived in |
| CategoryForest.FlattenTopsInOrder | apps/api/src/catalog/category-tree.ts:25-61 | the tops keep the order they arrived in |
| CategoryForest.ForestNests | apps/api/src/catalog/category-tree.ts:25-54 | the roots are exactly the tops, and below every node of the forest hang exactly the rows that name it as their parent |
| CategoryForest.StrayTopLeftOut | apps/api/src/catalog/category-tree.ts:32-51 | below a root asked for, a row without a parent that is another starts no tree |
| CategoryListing.AnswerArrives | apps/api/src/catalog/category.service.ts:185-200 | the query over a well-formed table gives rows as the forest builder needs them: one per id, parents a level up and earlier |
| CategoryListing.ListingShows | apps/api/src/catalog/category.service.ts:179-206 | the nested answer shows exactly the categories at or below the root asked for with nothing hidden from there down to them |
| CategoryListing.NothingFoundIff | apps/api/src/catalog/category.service.ts:202-204 | below a root nothing is found, which is an error, exactly when the root itself is not shown |
| CategoryListing.SiblingsByPosition | apps/api/src/catalog/category.service.ts:199-206 | in the nested answer the children of one category come by position, by id where that is the same |
| CategoryListing.ListingCarries | apps/api/src/catalog/category.service.ts:185-206 | what is listed carries its row's own name, parent, depth and position |
| CategoryNesting.BuildCategoryForest | apps/api/src/catalog/category-tree.ts:25-54 | the loop over shared, mutable child arrays builds exactly the specified forest |
| CategoryNesting.PlaceRow | apps/api/src/catalog/category-tree.ts:32-51 | one pass: the row's node joins the forest, its parent's array, or nothing, and every array stays right |
| CategoryNesting.FlattenCategoryForest | apps/api/src/catalog/category-tree.ts:57-61 | the recursion over the heap reads the represented forest depth first |
| SearchPattern.NameSearchIsLiteral | apps/api/src/catalog/seller-product-filters.ts:98-108 | the pattern is well formed and matches, case folded, exactly the names in which the trimmed query occurs literally; blank queries give none |
| SearchPattern.LikeInfix | apps/api/src/catalog/seller-product-filters.ts:98-108 | `%` + escaped text + `%` under `LIKE` is occurrence as a substring, for every text |
| SearchPattern.UnescapedUnderscoreMatchesAll | apps/api/src/catalog/seller-product-filters.ts:83-96 | left unescaped, `_` would match every nonempty name; escaped it asks for the character |
| AttributeInheritance.AncestorIdsInverse | apps/api/src/catalog/attribute-inheritance.ts:36-41 | splitting a path reads back the ids it was rendered from |
| AttributeInheritance.Winners | apps/api/src/catalog/attribute-inheritance.ts:104-117 | the loop holds one entry per key seen in the lineage: the definition no other of its key beats |
| AttributeInheritance.ResolveEffectiveAttributes | apps/api/src/catalog/attribute-inheritance.ts:100-123 | the answer is the winners, each once, in display order, marked inherited or own |
| AttributeInheritance.EveryKeyAnswered | apps/api/src/catalog/attribute-inheritance.ts:100-123 | every key defined in the lineage has exactly one winner, owned at least as near as any other |
| AttributeInheritance.NearestWins | apps/api/src/catalog/attribute-inheritance.ts:70-77 | with one definition of a key per category, winning is being owned nearest to the target |
| AttributeInheritance.ResolutionUnique | apps/api/src/catalog/attribute-inheritance.ts:88-99 | rows in any order, repeated or not, resolve to the same answer |
| AttributeInheritance.ResolutionExists | apps/api/src/catalog/attribute-inheritance.ts:100-123 | any definitions resolve along any lineage |
| AttributeInheritance.ResolutionMeans | apps/api/src/catalog/attribute-inheritance.ts:119-122 | the answer holds exactly the winners, no key twice, inherited exactly when the owner is not the target |
| AttributeInheritance.ResolutionOrdered | apps/api/src/catalog/attribute-inheritance.ts:79-85 | the answer is listed from the highest owner down, one owner's by position, then by id |
| AttributeInheritance.TieBroken | apps/api/src/catalog/attribute-inheritance.ts:70-77 | of several definitions of one key on one category the first by position and id wins |
| AttributeTable.Nearest | apps/api/src/catalog/product.service.ts:413-419 | the loop keeps, for each key, the first row in the query's order |
| AttributeTable.FindKeyIffWins | apps/api/src/catalog/product.service.ts:401-419 | under one definition per key and category, the first row of a held key is exactly the resolver's winner |
| AttributeTable.Build | apps/api/src/catalog/product.service.ts:394-432 | the table is the winners of the held keys by sort order and key, with the product's values |
| AttributeTable.TableUnique | apps/api/src/catalog/product.service.ts:394-432 | there is one such table, whatever order the rows were found in |
| AttributeTable.TableMeans | apps/api/src/catalog/product.service.ts:420-432 | each line has its winner's key and title and the product's value, lines by position, then key |
| AttributeDefinitions.ConflictsIff | apps/api/src/catalog/attribute.service.ts:439-463 | the two-way `LIKE` finds something exactly when a live definition of the key is on the category's lineage |
| AttributeDefinitions.IndexNeverAnswers | apps/api/src/catalog/attribute.service.ts:425-438 | what the lineage check lets through never meets the unique index |
| AttributeDefinitions.CreateExact | apps/api/src/catalog/attribute.service.ts:170-200 | created exactly on a live category whose lineage has no live definition of the key, column by column what was asked for, at version 0, in last place unless told; each refusal has its own condition |
| AttributeDefinitions.UpdateExact | apps/api/src/catalog/attribute.service.ts:213-268 | an edit writes title, flags, position and choices where it names them and keeps them otherwise, changes no key, type or category, and drops no choice that a live product listed at or below its category carries |
| AttributeDefinitions.UpdateWrittenIff | apps/api/src/catalog/attribute.service.ts:535-574 | an edit is written exactly for a live definition of that version whose choices fit its type and leave out none that a product at or below carries |
| AttributeDefinitions.UpdateRefusals | apps/api/src/catalog/attribute.service.ts:213-268 | which refusal an edit gets: the row, then the choices, then the choices in use, then the version |
| AttributeDefinitions.OptionsFitIff | apps/api/src/catalog/attribute.service.ts:213-268 | choices fit a type that has choices when there is one and none twice, and any other type when there are none |
| AttributeDefinitions.HoldsChoiceExact | apps/api/src/catalog/attribute.service.ts:543-561 | a value carries a choice as its text, as an entry of its list, or as what it is written as |
| AttributeDefinitions.RemoveExact | apps/api/src/catalog/attribute.service.ts:488-520 | a removal is written exactly when no live product at or below carries the key, and the refusal counts those that do |
| AttributeDefinitions.UsesIff | apps/api/src/catalog/attribute.service.ts:496-503 | the join and prefix match find exactly the live products listed at or below the category with a value under the key |
| AttributeDefinitions.CreateKeepsRule | apps/api/src/catalog/attribute.service.ts:170-200 | a creation keeps one live definition of a key per lineage |
| AttributeDefinitions.RunKeepsRule | apps/api/src/catalog/attribute.service.ts:170-300 | in every run of definition writes, product writes and tree writes without moves, no key is defined twice on a lineage |
| AttributeDefinitions.RunKeepsInv | apps/api/src/catalog/attribute.service.ts:170-300 | in every run, moves included, definitions stay on a well-formed tree with one live one of a key per category |
| AttributeDefinitions.MovedBelow | apps/api/src/catalog/category.service.ts:340-400 | who lies below whom after a move, told from the tree before it |
| AttributeDefinitions.MoveKeepsRuleIff | apps/api/src/catalog/attribute-inheritance.ts:11-16 | a move keeps the one-key rule exactly when no key is defined on both sides of the edge it makes |
| AttributeService.NothingShadowed | apps/api/src/catalog/attribute.service.ts:425-463 | while the rule holds, every live definition on a lineage wins its key: inheritance shadows nothing |
| AttributeService.ResolvesAfterAnyRun | apps/api/src/catalog/attribute-inheritance.ts:11-16 | after any run, moves that put a key twice on a lineage included, every category resolves to exactly one answer with each key of its lineage once, from the nearest owner |
| AttributeService.Attributes.Create | apps/api/src/catalog/attribute.service.ts:170-200 | the method as specified, keeping the one-key rule |
| AttributeService.Attributes.Update | apps/api/src/catalog/attribute.service.ts:213-268 | the guarded edit as specified: option list checks, narrowing against the products found, version conflict |
| AttributeService.Attributes.Remove | apps/api/src/catalog/attribute.service.ts:282-300 | the soft removal as specified, refused with the number of products found |
| AttributeService.Attributes.EffectiveFor | apps/api/src/catalog/attribute.service.ts:338-355 | answers for live categories only, with the resolution of all live definitions along the category's own chain |
| AttributeService.Attributes.TableFor | apps/api/src/catalog/product.service.ts:394-432 | the join by path prefix ordered by path length builds the same table the resolver's winners make |
| AttributeSchema.AcceptedMeans | apps/api/src/catalog/attribute-schema.ts:204-282 | key by key: when a bag is accepted, which keys the answer holds and that each value is the parsed one |
| AttributeSchema.IssuesExact | apps/api/src/catalog/attribute-schema.ts:247-282 | the issues of a refused bag: not an object; or each unknown key, each wrong value and each required key left out or blank |
| AttributeSchema.ParseExact | apps/api/src/catalog/attribute-schema.ts:126-181 | what each of the five types takes and what is stored of it: text trimmed and of at most 200 characters, the rest as it came |
| AttributeSchema.AbsentExact | apps/api/src/catalog/attribute-schema.ts:71-76 | undefined, null, the empty text and the empty list count as absent, and nothing else |
| AttributeSchema.AbsentIsMissing | apps/api/src/catalog/attribute-schema.ts:83-88 | a bag with an absent value is judged as the bag without its key |
| AttributeSchema.PassesAgree | apps/api/src/catalog/product.service.ts:1480-1502 | once the relaxed rules accept, the strict ones refuse exactly the unfilled required attributes, and else return the same values |
| AttributeSchema.DraftRefusalStands | apps/api/src/catalog/product.service.ts:1480-1502 | a bag refused as a draft is refused on sale, with the same issues and the unfilled ones |
| AttributeSchema.RequiredRefusalNamesOnlyMissing | apps/api/src/catalog/product.service.ts:1458-1479 | the refusal named for publishing names unfilled required attributes only, at least one, and the draft would have passed |
| AttributeSchema.SavedAlike | apps/api/src/catalog/product.service.ts:1480-1502 | a bag accepted on sale is stored as the same values in a draft |
| AttributeSchema.Revalidation | apps/api/src/catalog/attribute-schema.ts:71-88 | validating an accepted result again drops text that trimmed to nothing, refuses it when required, and changes nothing else |
| AttributeSchema.StableIff | apps/api/src/catalog/attribute-schema.ts:126-182 | saving again is a no-op exactly when no text was white space only |
| AttributeSchema.BlankSatisfiesRequired | apps/api/src/catalog/attribute-schema.ts:126-182 | a single space satisfies a required text and the stored bag fails its next save |
| VariantGrid.ExpandCombinations | apps/api/src/catalog/variant-rules.ts:120-128 | the loop that extends prefixes gives the grid defined axis by axis |
| VariantGrid.GridMembers | apps/api/src/catalog/variant-rules.ts:112-128 | the grid holds exactly the choices of one value per axis |
| VariantGrid.GridSize | apps/api/src/catalog/variant-rules.ts:112-128 | its size is the product of the axes' sizes; no axes make one empty combination |
| VariantGrid.GridOrdered | apps/api/src/catalog/variant-rules.ts:112-128 | it is listed strictly in lexicographic axis order, the first axis slowest |
| VariantGrid.GridDistinct | apps/api/src/catalog/variant-rules.ts:112-128 | no combination is listed twice |
| VariantGrid.SignatureIffSameIds | apps/api/src/catalog/variant-rules.ts:94-110 | signatures of slash-free ids are equal exactly for the same ids in whatever order |
| VariantGrid.SignatureIffSameSet | apps/api/src/catalog/variant-rules.ts:94-110 | without repeats: equal exactly for equal sets |
| VariantGrid.SignatureOfTwo | apps/api/src/catalog/variant-rules.ts:94-110 | a signature is the ids in text order with slashes between, in whatever order they are given |
| ProductRows.AdditionAt | apps/api/src/catalog/product.service.ts:1056-1066 | inserted choices are requested values not offered yet, numbered on from the stored ones, each with its own id |
| VariantRules.DuplicateIndexes | apps/api/src/catalog/variant-rules.ts:131-141 | the positions of entries that repeat an earlier one, in order |
| VariantRules.MatchOverrides | apps/api/src/catalog/variant-rules.ts:171-202 | the issues of every override in order; without any, the map finds for each key the override that has it |
| VariantRules.RepeatsAre | apps/api/src/catalog/variant-rules.ts:130-141 | the positions named as repeats are exactly those of entries that stand before |
| VariantRules.OverrideIssuesAre | apps/api/src/catalog/variant-rules.ts:171-202 | every faulty override is named, each with its first fault, and no other |
| VariantRules.FaultsNamed | apps/api/src/catalog/variant-rules.ts:171-202 | override issues come one per faulty override in order, each its fault: a wrong length, a key of no combination, or the key of one before it |
| VariantRules.AxisIssuesAre | apps/api/src/catalog/variant-rules.ts:143-161 | axis issues are exactly the names that stood before and the values that stood before on their axis |
| VariantRules.PlanAll | apps/api/src/catalog/variant-rules.ts:220-247 | the planner as specified: axis issues, then the limit, then override issues, then the plans |
| VariantRules.AcceptedIff | apps/api/src/catalog/variant-rules.ts:220-247 | accepted exactly for unique names and values, a grid within the limit and overrides matching distinct keys of it |
| VariantRules.RefusalsInOrder | apps/api/src/catalog/variant-rules.ts:220-247 | a refused request is told of its axes alone, then of the limit alone, then of every faulty override |
| VariantRules.MatchingIsIntended | apps/api/src/catalog/variant-rules.ts:171-202 | where keys tell combinations apart, matching by key is naming distinct existing combinations |
| VariantRules.AcceptsWhatIsMeantIff | apps/api/src/catalog/variant-rules.ts:72-85 | for all overrides the planner accepts what is meant exactly when the axes are refused anyway, there is at most one axis, no combination, or no value holds the separator |
| VariantRules.RefusesWhatIsMeant | apps/api/src/catalog/variant-rules.ts:72-85 | a request that names two combinations, once each, and is refused as naming one twice |
| VariantRules.AcceptsWhatIsNotMeant | apps/api/src/catalog/variant-rules.ts:72-85 | a request that names no combination and is accepted |
| VariantRules.PlansAreTheGrid | apps/api/src/catalog/variant-rules.ts:204-247 | the plans are every combination once, in lexicographic order |
| VariantRules.OverridesLandOnce | apps/api/src/catalog/variant-rules.ts:204-247 | with unambiguous keys a combination carries an override exactly when one names it, that one, and each lands exactly once |
| ProductRows.RevisedOffers | apps/api/src/catalog/product.service.ts:1050-1115 | after adding and retiring choices an axis offers exactly the requested values |
| ProductRows.RevisedIds | apps/api/src/catalog/product.service.ts:1050-1115 | a kept value keeps its id; an added one, re-added ones included, gets a new id |
| ProductRows.RevisedExact | apps/api/src/catalog/product.service.ts:1050-1115 | a revised axis choice by choice: the old ones with their ids, values and positions, retired where not asked for, then the new ones at the end, live |
| ProductRows.LiveChoicesOrdered | apps/api/src/catalog/product.service.ts:1201-1222 | the live choices of an axis are read by position, then by id |
| ProductRows.SignatureTells | apps/api/src/catalog/variant-rules.ts:94-110 | among one id per axis, equal signatures mean equal ids position by position |
| ProductRows.CombinationsSignApart | apps/api/src/catalog/product.service.ts:970-973 | different combinations of a product never share a signature, even when axes share a label |
| ProductAxes.RevisedAxesValid | apps/api/src/catalog/product.service.ts:1050-1115 | revising all axes keeps ids unique across axes and live values unique within one |
| ProductAxes.RevisedOffered | apps/api/src/catalog/product.service.ts:941-1011 | the combinations then on offer are exactly those of the requested axes |
| ProductAxes.LookupIsIdsFor | apps/api/src/catalog/product.service.ts:1594-1598 | ids looked up before retirements are the ids the combination has after them |
| ProductAxes.RevisedProduct | apps/api/src/catalog/product.service.ts:941-1011 | the stored axes make as many combinations as the requested ones |
| ProductVariants.KeptVariant | apps/api/src/catalog/product.service.ts:970-993 | a live variant still on offer takes each of price, list price, limit, stock and flag from its override where that names it and keeps it otherwise; its id, signature, choices and deletion stay |
| ProductVariants.OrphanedVariant | apps/api/src/catalog/product.service.ts:1000-1010 | a live variant no longer on offer is switched off and otherwise unchanged |
| ProductVariants.RetiredVariant | apps/api/src/catalog/product.service.ts:941-1011 | a retired variant stays as it is, whatever is revised |
| ProductVariants.AddedVariant | apps/api/src/catalog/product.service.ts:869-932 | a new variant answers for a combination none answered for, each field the override's where it gives one, else the default's, on unless told otherwise, with nothing in stock unless told |
| ProductVariants.OverrideNames | apps/api/src/catalog/product.service.ts:970-993 | with unambiguous keys the override applied is exactly the one naming the combination |
| ProductVariants.ReviseGridValid | apps/api/src/catalog/product.service.ts:941-1011 | a revision re-establishes the grid: distinct live signatures, one live variant per combination, sellable ones in the grid |
| ProductVariants.OnlyOneLive | apps/api/src/catalog/product.service.ts:869-932 | two live variants of a valid product never carry the same combination |
| ProductWrites.LowestIsMin | apps/api/src/catalog/product.service.ts:1128-1160 | the derived price is the least price among sellable variants, none when there is none |
| ProductWrites.SettleMeans | apps/api/src/catalog/product.service.ts:1128-1160 | a sale is refused exactly without a sellable variant; the price is derived from the variants as they are and nothing else changes |
| ProductWrites.EditMeans | apps/api/src/catalog/product.service.ts:559-632 | an edit is written from the current version only, bumps it once, and sets or keeps name and status |
| ProductWrites.RemovedForGood | apps/api/src/catalog/product.service.ts:741-770 | a removed listing keeps its rows, sells nothing, and no later write reaches it |
| ProductWrites.SettleEachMeans | apps/api/src/catalog/product.service.ts:719-725 | a bulk change settles every selected listing exactly once or, if one refuses, none |
| ProductResults.ChangeStatusesExact | apps/api/src/catalog/product.service.ts:699-729 | a bulk change is accepted exactly when every listing named is live and none is held back; each then has the status, one version more and its price derived anew, and every other column and row stays |
| ProductResults.ChangeStatusesRefused | apps/api/src/catalog/product.service.ts:699-729 | refused, it writes nothing and answers not found when one named is not live, otherwise what holds back the least id held back |
| ProductResults.CreateRefusals | apps/api/src/catalog/product.service.ts:449-514 | which refusal a creation gets, told of its axes, overrides and defaults: the plan, the attributes, a list price below its price, nothing to sell |
| ProductResults.CreateExact | apps/api/src/catalog/product.service.ts:449-514 | a created listing has the name, status and options asked for, version 0, its least price, and one variant per combination at the defaults under its override; no other row changes |
| ProductResults.UpdateExact | apps/api/src/catalog/product.service.ts:559-632 | an edit writes that one live row or nothing, with the error named |
| ProductResults.EditExact | apps/api/src/catalog/product.service.ts:559-632 | an edit leaves the name and status it gives or the old ones, one version more, the axes and variants of the product revised over its own options and overrides, and the price derived from those |
| ProductResults.EditOffers | apps/api/src/catalog/product.service.ts:941-1011 | after an edit the axes keep their names and offer exactly the combinations of the options asked for |
| ProductResults.EditRefusals | apps/api/src/catalog/product.service.ts:575-627 | which refusal an edit gets: the version, the attributes if it touches them or the listing is to be on sale, the axes, the revision, nothing to sell |
| ProductResults.ReviseRefusals | apps/api/src/catalog/product.service.ts:941-1047 | which refusal a revision gets: the plan, a kept variant's list price below its price, defaults missing for a new combination, a new one's prices |
| ProductResults.RemoveExact | apps/api/src/catalog/product.service.ts:741-770 | a removal retires exactly a live listing's row and its live variants, and keeps name, axes and every other row |
| ProductWrites.SelectionSorted | apps/api/src/catalog/product.service.ts:703-703 | the lock order is the selection without repeats, strictly ascending |
| ProductWrites.StepKeeps | apps/api/src/catalog/product.service.ts:449-770 | every write keeps the grid, the price and the sale guard of every product |
| ProductWrites.RunKeeps | apps/api/src/catalog/product.service.ts:449-770 | and so does every run of writes |
| ProductWrites.RefusedChangesNothing | apps/api/src/catalog/product.service.ts:449-770 | a refused write leaves every row as it was |
| ProductWrites.ExactlyOneVariant | apps/api/src/catalog/product.service.ts:941-1011 | each combination of a live listing's choices has exactly one live variant |
| ProductWrites.SecondEditLoses | apps/api/src/catalog/product.service.ts:576-584 | of two edits made from one version at most one is written |
| ProductPublish.RevisingNothing | apps/api/src/catalog/product.service.ts:941-1011 | replanning a stored product with nothing asked changes nothing and is never refused |
| ProductPublish.StatusOnlyEdit | apps/api/src/catalog/product.service.ts:649-667 | publishing and unpublishing move status and version only, refused exactly for the version, the attributes or nothing to sell |
| ProductService.LayPlans | apps/api/src/catalog/product.service.ts:964-994 | the loop over plans updates in place the variants their signatures find, collects the rest, and stops where the price check would |
| ProductService.Products.AddChoices | apps/api/src/catalog/product.service.ts:1050-1084 | inserts exactly the missing choices, numbered after the stored ones, each with a new id |
| ProductService.Products.RetireChoices | apps/api/src/catalog/product.service.ts:1097-1115 | retires exactly the dropped choices, axis by axis |
| ProductService.Products.WriteVariants | apps/api/src/catalog/product.service.ts:955-1010 | the variants after a plan: overlaid, created, switched off, or the refusal in the order the checks come |
| ProductService.Products.SettleRow | apps/api/src/catalog/product.service.ts:1128-1160 | derives the price by scanning and refuses a sale with nothing to sell |
| ProductService.Products.MinPrice | apps/api/src/catalog/product.service.ts:1151-1156 | the scan finds the least sellable price |
| ProductService.Products.Create | apps/api/src/catalog/product.service.ts:449-514 | creation as specified, whole or no trace; `ProductResults.CreateExact` tells the row it leaves |
| ProductService.Products.Update | apps/api/src/catalog/product.service.ts:559-632 | the edit as specified, under its version, whole or no trace; `ProductResults.EditExact` and `ProductVariants.KeptVariant` tell the row it leaves |
| ProductService.Products.ChangeStatuses | apps/api/src/catalog/product.service.ts:699-729 | the bulk change as specified, every check of the selection first, all or nothing; `ProductResults.ChangeStatusesExact` tells the rows it leaves |
| ProductService.Products.Remove | apps/api/src/catalog/product.service.ts:741-770 | the soft removal as specified, variants included |
| ProductDuplicate.DuplicateNameFits | apps/api/src/catalog/product-duplicate.ts:48-53 | the copy's name is within the cap, ends with the suffix, keeps the whole name when there is room, and otherwise its longest beginning that fits, without white space at its end |
| ProductDuplicate.ReadBack | apps/api/src/catalog/product-duplicate.ts:85-90 | a variant's ids in any order read back as its combination in axis order |
| ProductDuplicate.NamedIffInGrid | apps/api/src/catalog/product-duplicate.ts:82-84 | a variant is copied exactly when its combination is still on offer: retired choices are dropped |
| ProductDuplicate.CheapestIsLeast | apps/api/src/catalog/product-duplicate.ts:137-142 | the default price is the least price copied, zero when there is none |
| ProductDuplicate.DuplicateAcceptedIff | apps/api/src/catalog/product-duplicate.ts:76-127 | the planner accepts the copy's request exactly when the stored values' keys tell the combinations apart |
| ProductDuplicate.SeparatorFreeTells | apps/api/src/catalog/variant-rules.ts:72-85 | which they do whenever no value holds the separator |
| ProductDuplicate.DuplicateCarries | apps/api/src/catalog/product-duplicate.ts:85-95 | every combination of the copy is overridden with its source variant's price, list price, limit and flag |
| ProductDuplicate.DuplicateCreates | apps/api/src/catalog/product-duplicate.ts:76-127 | creating from the request succeeds with a draft whose variants mirror the source's, at no stock and never at the default price |
| ProductDuplicate.DuplicateExact | apps/api/src/catalog/product-duplicate.ts:48-127 | that copy has the source's name marked as a copy, version 0, the source's options, one variant per combination and none in stock, and no other row changes |
| ProductDuplicate.RequestExact | apps/api/src/catalog/product-duplicate.ts:76-127 | the request asks for a draft of the source's options, by default at the least price among the live variants on offer, none in stock, with no list price and no limit |
| ProductDuplicate.DuplicateRefused | apps/api/src/catalog/product-duplicate.ts:76-127 | otherwise the planner refuses the creation and nothing is written |
| ProductUncopied.PlainCreates | apps/api/src/catalog/product.service.ts:449-548 | options in order and within the limit can be listed, whatever their values hold; the store stays valid |
| ProductUncopied.CreatedNeverCopied | apps/api/src/catalog/product-duplicate.ts:76-127 | a listing created without complaint whose every copy is refused |
| BulkStatusLocks.NeverDeadlocked | apps/api/src/catalog/product.service.ts:680-699 | in every reachable lock state with an unfinished call some call can take its next step |
| BulkStatusLocks.AllFinish | apps/api/src/catalog/product.service.ts:680-729 | every run is bounded, and one that cannot go on has finished every call, however selections overlap or repeat |
| BulkStatusLocks.StepInv | apps/api/src/catalog/product.service.ts:1186-1199 | no row is locked twice, and what a call read of a locked row is what the row still says |
| BulkStatusLocks.VersionsCount | apps/api/src/catalog/product.service.ts:680-729 | each row's version counts the committed calls that selected it, once each |
| BulkStatusLocks.UnsortedDeadlocks | apps/api/src/catalog/product.service.ts:680-699 | taken in request order the same locks can deadlock |
| Sessions.AcceptedWithinGrace | apps/api/src/auth/session.service.ts:138-193 | in any run with a clock that never goes back, two accepted refreshes of one token are at most the grace window apart |
| Sessions.VerdictMeans | apps/api/src/auth/session.service.ts:138-193 | exactly which presentations are accepted, expired or taken for a replay |
| Sessions.RefreshExact | apps/api/src/auth/session.service.ts:138-193 | a refresh over the whole table: unknown, nothing; expired, that row alone ends; replayed, the unrevoked rows of that user and app end; otherwise that row alone is revoked if it was not, and one new row with a full lifetime is there exactly when the account may sign in |
| Sessions.OverForGood | apps/api/src/auth/session.service.ts:162-173 | a row past its expiry is never accepted again, whatever follows |
| Sessions.EndingExact | apps/api/src/auth/session.service.ts:202-247 | logout, logout everywhere and a reuse verdict end exactly the unrevoked rows of that user and app (or of every app), and no other row changes |
| Sessions.LogoutNothing | apps/api/src/auth/session.service.ts:202-234 | a logout without a token, with an unknown one or with another app's changes nothing |
| Sessions.SweepExact | apps/api/src/auth/session.service.ts:255-261 | a sweep takes exactly the rows past their expiry and leaves the others as they are |
| Sessions.IssueExact | apps/api/src/auth/session.service.ts:122-129 | a login adds one unrevoked row with a full lifetime and changes no other |
| Sessions.EndedForGood | apps/api/src/auth/session.service.ts:302-315 | a row that was unrevoked when its session ended is never accepted again |
| Sessions.ReuseClears | apps/api/src/auth/session.service.ts:173-180 | after a reuse verdict no unrevoked row of that user and app is left |
| Sessions.EndingKeepsOutIff | apps/api/src/auth/session.service.ts:144-316 | after a logout, a logout everywhere or a reuse verdict no refresh of theirs is accepted in any run without a new login, exactly when none of their rows in that app was rotated within the window before it and is unexpired |
| Sessions.RotatedOutlivesLogout | apps/api/src/auth/session.service.ts:202-216 | log in, refresh, log out a second later, present the first token again: accepted, with a full-lifetime row |
| Sessions.RotatedOutlivesReuse | apps/api/src/auth/session.service.ts:171-178 | two rotations, the older token replayed, which clears every unrevoked row: the other rotated token is accepted a second later |
| Sessions.OtherAppUnknown | apps/api/src/auth/session.service.ts:155-159 | a token presented to another app is unknown there and nothing is written |
| Sessions.RefreshIsolated | apps/api/src/auth/session.service.ts:138-193 | a refresh writes no row of another user or app |
| Sessions.AcceptedMints | apps/api/src/auth/session.service.ts:263-282 | an accepted refresh spends its token and leaves one new row with a full lifetime; what it leaves alone is in `Sessions.RefreshExact` |
| Sessions.SweepInvisible | apps/api/src/auth/session.service.ts:249-261 | sweeping changes no later verdict but for naming an expired token unknown |
| SessionSteps.InterleavedWithinGrace | apps/api/src/auth/session.service.ts:138-193 | with statements of refreshes, logouts and sweeps interleaved, two accepted refreshes of one token read the clock at most the grace window plus the earlier one's statement delay apart |
| SessionSteps.FirstRevocationStands | apps/api/src/auth/session.service.ts:175-188 | no interleaved statement moves the revocation of a token that is not over: its window is measured from the first |
| SessionSteps.BeginsTooLate | apps/api/src/auth/session.service.ts:162-173 | a refresh that begins once its row is over is not accepted, whatever runs before and between its statements |
| SessionSteps.OnlyEarlyReaders | apps/api/src/auth/session.service.ts:138-193 | once a token is over, the calls ever accepted on it are among those accepted already or having read its row while it was good |
| SessionSteps.EarlyReaderMints | apps/api/src/auth/session.service.ts:144-193 | a call is judged by its reading whatever runs after it, and accepted adds exactly one unrevoked row with a full lifetime |
| SessionSteps.StatementsAreRefresh | apps/api/src/auth/session.service.ts:138-193 | statements that follow one another are the refresh of `Sessions`: the same rows and the same verdict |
| SessionSteps.LogoutOvertaken | apps/api/src/auth/session.service.ts:144-216 | a refresh that read before a logout leaves an unrevoked session after it, where the logout had left none |
| SessionSteps.EndingSilencesIff | apps/api/src/auth/session.service.ts:144-316 | with statements interleaved, an ending lets no row be minted for them until the next login exactly when none of theirs was rotated within the window and no call of theirs is accepted and unfinished or has read a row it would be accepted on |
| SessionService.Tokens.Refresh | apps/api/src/auth/session.service.ts:138-193 | the method gives the specified verdict and leaves the specified rows, told one by one in `Sessions.RefreshExact` |
| SessionService.Tokens.RevokeWhere | apps/api/src/auth/session.service.ts:310-315 | revokes and expires exactly the unrevoked rows meant, and counts them |
| SessionService.Tokens.Logout | apps/api/src/auth/session.service.ts:202-214 | ends the app's session of the token's user, or does nothing |
| SessionService.Tokens.LogoutAll | apps/api/src/auth/session.service.ts:237-247 | ends every session of the user and counts the rows |
| SessionService.Tokens.LogoutEverywhere | apps/api/src/auth/session.service.ts:223-234 | the same for the token's user |
| SessionService.Tokens.SweepExpired | apps/api/src/auth/session.service.ts:255-261 | deletes exactly the rows past their expiry and counts them |
| ImagePlan.PlanAll | skills/product-image-set/scripts/pipeline.py:77-141 | the loops plan exactly the specified jobs, or the first error in order |
| ImagePlan.ListEntries | skills/product-image-set/scripts/pipeline.py:49-74 | the loops list exactly the specified views with their dependencies, or refuse the profiles |
| ImagePlan.PlanSound | skills/product-image-set/scripts/pipeline.py:77-141 | an accepted plan has one job per product, variant and view, depends only on its own jobs, and every dependency ranks lower: no cycle |
| ImagePlan.CoverageIsPlan | skills/product-image-set/scripts/pipeline.py:144-152 | coverage expects exactly the planned jobs, in the same order |
| ImageRules.PlannedIff | skills/product-image-set/scripts/pipeline.py:77-136 | a plan is made exactly for at least one product, of different ids, each plannable: kebab-case ids, shots once each with all they are made from, usable model profiles, variants that cover the shots |
| ImageRules.RefusedAt | skills/product-image-set/scripts/pipeline.py:77-136 | a refused plan answers for its first product that is not plannable or repeats an id, with the first check that fails there |
| ImageRules.PlanWaits | skills/product-image-set/scripts/pipeline.py:11-20 | what each planned picture waits for: the views of the same model it is made from or, for a variant, the product's own view and the variant's front |
| ImageRules.SlugIff | skills/product-image-set/scripts/pipeline.py:36-39 | the id check accepts exactly nonempty words of lowercase letters and digits joined by single hyphens |
| ImageRules.IdsAre | skills/product-image-set/scripts/pipeline.py:104-136 | the id of each of the eight shots, as it is and under a variant |
| ImageRules.ModelNamesAre | skills/product-image-set/scripts/pipeline.py:64-67 | the names of the four shots on a model under a profile |
| ImageNames.PlanListsExactly | skills/product-image-set/scripts/pipeline.py:116-136 | an accepted plan holds exactly every view of every product, as it is and under each of its variants |
| ImageNames.DistinctIdsIff | skills/product-image-set/scripts/pipeline.py:104-136 | the ids of an accepted plan are pairwise different exactly when no product shown on a model has a variant whose id goes on from another's by `-model` or, with profiles, by `-model-<profile>` or what one `model-<profile>` has in front of another |
| ImageNames.RenderedIdsCollide | skills/product-image-set/scripts/pipeline.py:104-105 | an accepted plan with two jobs of one id: variant `x-model` from the front, variant `x` on a model |
| ImageNames.LookupDescends | skills/product-image-set/scripts/pipeline.py:105-135 | shared ids or not, what a job waits for is found under its id, at a lower rank |
| ImageRuns.RecordKeeps | skills/product-image-set/scripts/pipeline.py:170-198 | a record keeps attempts within two, history as long as attempts, and accepted pictures valid on accepted dependencies |
| ImageRuns.RecordPreserves | skills/product-image-set/scripts/pipeline.py:170-198 | a record changes no accepted job and overwrites no file |
| ImageRuns.RecordedIff | skills/product-image-set/scripts/pipeline.py:170-190 | an attempt is recorded for the last job of the id, exactly when it is unaccepted with fewer than two attempts, a note, dependencies in place and a usable picture whose place is free |
| ImageRuns.RecordRefused | skills/product-image-set/scripts/pipeline.py:170-190 | which refusal an attempt gets, in the order of the checks |
| ImageRuns.RecordedMeans | skills/product-image-set/scripts/pipeline.py:183-197 | it counts once on its own job, accepted with the picture stored or failed without one, and no other job changes |
| ImageRuns.EveryRun | skills/product-image-set/scripts/pipeline.py:170-198 | from any accepted plan, shared ids or not, in any run, all of that holds and at most two records per job succeed |
| ImageRuns.AcceptedForGood | skills/product-image-set/scripts/pipeline.py:170-198 | between any two moments of a run no accepted job and no written file changes |
| ImageRuns.ShadowedUntouched | skills/product-image-set/scripts/pipeline.py:170-172 | a job whose id a later one has is written by no run |
| ImageRuns.AllHoldIff | skills/product-image-set/scripts/pipeline.py:150 | every job is the one found under its id exactly when no product is ambiguous |
| ImageRuns.LookupIsByKey | skills/product-image-set/scripts/pipeline.py:172 | without ambiguity the id of a key finds the job planned under that key |
| ImageRuns.SomethingReady | skills/product-image-set/scripts/pipeline.py:155-167 | while a picture is missing and no job is exhausted a job is ready, shared ids or not |
| ImageRuns.CompleteIff | skills/product-image-set/scripts/pipeline.py:144-152 | without ambiguity coverage is complete exactly when every job is accepted |
| ImageRuns.CompleteMeans | skills/product-image-set/scripts/pipeline.py:144-152 | in any case it is complete exactly when of the jobs of each id the last is accepted with its picture in place |
| ImageRuns.MissingExact | skills/product-image-set/scripts/pipeline.py:144-152 | missing are exactly the expected pictures whose last job shows none, in plan order |
| ImageRuns.ReadyExact | skills/product-image-set/scripts/pipeline.py:155-165 | offered are exactly the unaccepted jobs with attempts left and all they wait for in place, in plan order |
| ImageRuns.CanComplete | skills/product-image-set/scripts/pipeline.py:144-198 | every accepted plan has a run that leaves coverage complete |
| ImageRuns.CompleteHonestIff | skills/product-image-set/scripts/pipeline.py:144-198 | complete means every job accepted, in all runs, exactly when no product is ambiguous |
| ImageRuns.AllMakeableIff | skills/product-image-set/scripts/pipeline.py:144-198 | some run accepts every job exactly when no product is ambiguous |
| ImageRuns.LookalikesComplete | skills/product-image-set/scripts/pipeline.py:144-198 | a run that ends complete with a planned picture pending and still on offer |
| ImageRuns.StuckMeansDoneOrExhausted | skills/product-image-set/scripts/pipeline.py:155-167 | nothing is offered only when the set is complete or a job is exhausted |
| ImageLoop.LoopEnds | skills/product-image-set/scripts/pipeline.py:155-198 | without ambiguity, recording the job offered first, whatever comes of it, stops within two records per job, complete or with a job exhausted |
| ImageLoop.OfferTakenIff | skills/product-image-set/scripts/pipeline.py:155-190 | a usable answer for the job offered first is recorded exactly when the job found under its id is ready itself |
| ImageLoop.LoopStays | skills/product-image-set/scripts/pipeline.py:155-190 | when that job is accepted, used up or waiting, everything handed in is refused and the loop stays, later jobs unmade |
| ImageLoop.LoopStopsIff | skills/product-image-set/scripts/pipeline.py:155-198 | with good pictures only, from an empty directory, the loop stops with every job accepted exactly when no product is ambiguous, and otherwise never |
| ImageLoop.LookalikesLoopStays | skills/product-image-set/scripts/pipeline.py:155-198 | variants `x-model` and `x`: two pictures are recorded and nothing after them |
| ImagePipeline.Pipeline.Record | skills/product-image-set/scripts/pipeline.py:170-198 | the method records as specified, or refuses in the order of the checks and changes nothing |
| ImagePipeline.Pipeline.Coverage | skills/product-image-set/scripts/pipeline.py:144-152 | lists exactly the expected ids whose last job has no valid picture; without ambiguity none exactly when every job is accepted |
| ImagePipeline.Pipeline.Next | skills/product-image-set/scripts/pipeline.py:155-167 | stops at the first accepted job whose picture is gone or changed; otherwise offers the ready jobs up to the limit, none only when complete or exhausted |
| ImagePipeline.ExhaustedExact | skills/product-image-set/scripts/pipeline.py:166-167 | reported as used up are exactly the unaccepted jobs with two attempts made, in plan order |
| ImagePipeline.AcceptedCounted | skills/product-image-set/scripts/pipeline.py:166-167 | the number reported as accepted is that of the accepted jobs |
| DemoBudget.Budget.WaitForBudget | e2e/support/demo-budget.ts:32-49 | stops at the first poll that lets an issue through, if any |
| DemoBudget.Budget.RecordIssue | e2e/support/demo-budget.ts:51-57 | appends the issue kept through the next second, dropping a full batch first |
| DemoBudget.MayIssueExact | e2e/support/demo-budget.ts:32-49 | an issue may be made with fewer than the limit on file, or once all on file are older than the window and five seconds at the last full second |
| DemoBudget.RecordedExact | e2e/support/demo-budget.ts:51-57 | an issue is noted as of the end of its second, in a new file when the old one was full |
| DemoBudget.SpanExceedsWindow | e2e/support/demo-budget.ts:16-57 | any limit + 1 issues in a row span more than the window, although one batch is remembered |
| DemoBudget.WindowRespected | e2e/support/demo-budget.ts:16-57 | in every single-worker run no interval as long as the server's window holds more than the limit |
| DemoBudget.WaitEnds | e2e/support/demo-budget.ts:32-49 | a poll late enough after the last issue always passes, before the timeout |
| WakeLoop.WakeApi | apps/admin/src/lib/wake.ts:89-128 | the loop ends for every policy with positive waits, after exactly the attempts that went on, with the verdict of the last |
| WakeLoop.WorthRetryingExact | apps/admin/src/lib/wake.ts:44-48 | retried are exactly no connection, no answer in time, a failed answer, and a search not up that is waited for |
| WakeLoop.ShippedWaits | apps/admin/src/lib/wake-policy.ts:68-104 | the shipped waits: one, two, four, then eight seconds each time, within a budget of 150 seconds and 90 for one attempt |
| WakeLoop.RequestsBounded | apps/admin/src/lib/wake.ts:116-121 | a request after the first is made only if the waits before it fit the budget |
| WakeLoop.AttemptsBounded | apps/admin/src/lib/wake-policy.ts:99-104 | under any policy with positive waits the number of requests is bounded by budget over least wait |
| WakeLoop.AtMost21 | apps/admin/src/lib/wake-policy.ts:68-87 | under the shipped policy at most 21 requests, whatever the answers, latencies and timers |
| WakeLoop.Makes21 | packages/api-mocks/src/waking.ts:196-197 | and 21 are made against an instance that refuses at once |
| WakeLoop.LastStartsInBudget | apps/admin/src/lib/wake.ts:120-123 | with exact timers the last request starts within the budget, and its deadline bounds the wait |
| WakeLoop.GivesUpOnlyWhenSpent | apps/admin/src/lib/wake.ts:120-127 | a passing failure is handed back only when the next wait would not have fitted |
| Cart.MergeMeans | apps/api/src/cart/cart.service.ts:229-290 | after merging any list each sellable variant is at held plus all asked, capped as in `Cart.CapExact`, up to the item that finds the cart full; one line per variant, baselines untouched |
| Cart.CapExact | apps/api/src/cart/cart.service.ts:258-264 | the cap of a merge is the least of the per-person maximum, the stock and the variant's own limit or else the product's |
| Cart.MergedExact | apps/api/src/cart/cart.service.ts:254-267 | a merge leaves a variant at no more than any of the three, at all that was held and asked for when that fits, and untouched when it is not on sale or nothing fits |
| Cart.AddAcceptedIff | apps/api/src/cart/cart.service.ts:129-174 | adding is accepted exactly when the sum is orderable (`Cart.OrderableExact` tells when) and there is a line or room for one |
| Cart.AddAcceptedExact | apps/api/src/cart/cart.service.ts:129-174 | said of the columns alone: on sale, the sum within the variant's own limit or, without one, the product's, within stock, and a line there or room for one |
| Cart.AddExact | apps/api/src/cart/cart.service.ts:129-174 | an addition is refused as its sum is, then for a full cart; otherwise the variant's line has the sum, or a new last line has today's seller and price |
| Cart.OrderableExact | apps/api/src/cart/cart.service.ts:356-406 | which refusal a quantity gets, with its number: not on sale, above the variant's own limit or else the product's, above the stock |
| Cart.HeldExact | apps/api/src/cart/cart.service.ts:133-141 | the units a cart holds of a variant are those of its one line, or none |
| Cart.AddMeans | apps/api/src/cart/cart.service.ts:123-174 | an accepted addition sums on one line and changes no other; the price baseline stays |
| Cart.UpdateMeans | apps/api/src/cart/cart.service.ts:180-202 | accepted exactly for an orderable quantity (`Cart.OrderableExact` tells when), which that line alone then has |
| Cart.UpdateExact | apps/api/src/cart/cart.service.ts:180-202 | setting a quantity is not found for a line of another cart, refused as the quantity is, and otherwise changes that line alone |
| Cart.UpdateAcceptedExact | apps/api/src/cart/cart.service.ts:180-202 | said of the columns alone: on sale, within the limit that applies and within stock |
| Cart.RemoveMeans | apps/api/src/cart/cart.service.ts:208-217 | exactly the listed lines go |
| Cart.AddWithinItemMaxIff | apps/api/src/cart/cart.service.ts:142-144 | an addition stays within the per-person cap exactly when the sum does |
| Cart.AddPassesItemMax | packages/shared/src/api/cart.ts:18-19 | a concrete cart in which adding passes the per-person cap |
| Cart.RunKeeps | apps/api/src/cart/cart.service.ts:129-290 | in every run over a changing catalogue: one line per variant and never more lines than allowed |
| CartService.Lines.Add | apps/api/src/cart/cart.service.ts:129-174 | the method as specified, refusals in order; `Cart.AddExact` tells the lines it leaves |
| CartService.Lines.Update | apps/api/src/cart/cart.service.ts:180-202 | the assignment as specified; `Cart.UpdateExact` tells the lines it leaves |
| CartService.Lines.Remove | apps/api/src/cart/cart.service.ts:208-217 | deletes exactly the listed lines of this cart |
| CartService.Lines.Merge | apps/api/src/cart/cart.service.ts:229-287 | the loop with its skips and its break as specified; `Cart.MergedExact` tells what it leaves of each variant |
| CartService.Lines.AssertOrderable | apps/api/src/cart/cart.service.ts:356-406 | the checks in order, unavailable, limit, stock, told in the row's columns in `Cart.OrderableExact` |
| CartView.PresentLines | apps/api/src/cart/cart.service.ts:422-478 | the loop over a map of buckets gives the specified groups and total |
| CartView.EachLineOnce | apps/api/src/cart/cart.service.ts:422-460 | every line stands once in its seller's group, the only one of that seller, and in no other |
| CartView.ShownExact | apps/api/src/cart/cart.service.ts:425-477 | every row is shown in its seller's group with its own id, variant, quantity, price and the product's limit, and the count is the number of rows |
| CartView.GroupExact | apps/api/src/cart/cart.service.ts:462-466 | a group shows only lines of its seller, each as its row says, and their amount |
| CartView.GroupsInOrder | apps/api/src/cart/cart.service.ts:422-462 | groups come in the order in which their sellers first stand in the rows |
| CartView.ItemsInOrder | apps/api/src/cart/cart.service.ts:434-457 | lines of one seller keep the order of the rows |
| CartView.TotalConserved | apps/api/src/cart/cart.service.ts:462-477 | the grand total is the sum of price times quantity over all lines |
| CartView.ShownLimitIff | apps/api/src/cart/cart.service.ts:106-109 | the limit shown is the one that applies exactly when the variant has none of its own or the product's |
| CartView.ShownLimitDiffers | apps/api/src/cart/cart.service.ts:106-109 | a line shown without a limit whose variant is limited to two |

## Left out

- AttributeService.Attributes.Update: reads the products and writes in one step, because each operation does; a product saved between the two is not modelled, and the same holds for removal.
- How the database writes a number or a boolean as text is a parameter (`AttributeDefinitions.Rendering`).
- Transactions: outside `CategoryLock`, `BulkStatusLocks` and `SessionSteps` each operation is one atomic step; in `SessionSteps` a logout or a sweep still is.
- SessionSteps.InterleavedWithinGrace: bounds the clock readings of accepted calls only; the rows they mint are followed by the run lemmas of `Sessions`, where a refresh is one step.
- Row and tree locks as such: `lockCart`, `FOR UPDATE` and the advisory lock are taken to serialise what they serialise.
- Permissions, ownership, store state, `SUSPENDED` moves, followers, the search outbox, images, option metadata and timestamps of a product.
- SKUs: their generation, their unique index per store and the conflict it raises.
- The stock ledger: a level asked for is taken to be reached; movements and reservations are not modelled.
- `AdminCatalogService.moderate` and the other writers of product rows outside `ProductService`.
- Identifiers are numbers drawn from a counter, never twice, written in decimal where the program writes UUIDs; a rolled back product write gives its numbers back, which nothing can observe.
- A product update's attribute verdict is an input; `AttributeSchema` models the verdict itself.
- `localeCompare` is code unit order; case folding is a parameter that keeps `%`, `_` and the escape character; `trim` and Python's `strip` cover the white space listed in `Texts.IsSpace`; lengths count characters, not UTF-16 units.
- The query language: joins, `LIKE` and `ORDER BY` appear through their effect on the rows.
- `stockBandOf`, `stockBoundsOf`, the storefront read paths, list paging and the presentation of a category.
- Token bytes, digests, cookies and signed access tokens; a digest is an injective key.
- Prompts, labels and previews of the picture set.
- Field checks of a product specification for images other than its shots, models and variants, and shot names outside the known eight.
- Cart notices, option labels, thumbnails and shipping policy; the cart row itself and its creation race.
- Screen code of the wake-up: listeners are the numbers of the attempts told, an abort is an input per wait.
