# Kconfig engine and boot image tool, verified

This project models two programs of the repository in Dafny and proves what they promise.

**The Kconfig engine** (`support/kconfig`) is an optimiser, an evaluator and a persistent store
for a configuration language over three values, n < m < y.

- *Expressions* (`Tristates`, `CStrings`, `Exprs`, `Transforms`, `Equality`, `EqRewriter`, `Joins`,
  `Paths`, `Dups`, `DupsRewriter`, `Redundancy`): the rewriting functions of expr.c keep the value of every
  expression. A `struct expr **` is a position in a tree; the two functions that overwrite trees
  through such pointers are classes that do the same, proved equal to functions on values.
- *Conditions and menus* (`Dependencies`, `Finalised`, `Submenus`, `MenuForest`, `MenuLinks`,
  `MenuItems`, `MenuWalk`): what menu_finalize does to conditions and to the menu tree. Menu nodes are numbers,
  their `next`, `list` and `parent` pointers are maps that the methods reassign.
- *Evaluation* (`Configs`, `Outcomes`, `Evaluator`, `Ranges`, `Setters`, `Choices`, `CheckDeps`, `EvalOrder`): `Configs`
  says what a configuration means without any evaluation order, `Outcomes` what that gives the user;
  `Evaluator.Engine` is the memoising evaluator with its VALID flags and is proved to agree with it.
- *Persistence* (`ConfText`, `ConfFile`, `Saving`, `AutoConf`): the writers and readers of
  .config, defconfig and auto.conf undo each other.

**mkpimage** (`Crc`, `Image`) builds boot images: a table-driven CRC-32 over the polynomial of
clause 3.2.9 of IEEE 802.3, most significant bit first; the branch of section A8.8.18 of the
ARMv7-A Architecture Reference Manual; and a header that a boot ROM checks.

## Where the code does not do what one would expect

Each of these has a theorem that says when the code is right, an if-and-only-if unless it says
otherwise, and a lemma with a failing input where the theorem does not show one itself.

- `expr_transform` negates an ordering by flipping it, but an ordering with an operand of the
  "other" type is n both ways (`Transforms.TransformNeedsOrder`, exactly `Transforms.TransformNegated`).
- `expr_join_and` merges `a=b && a!=c` on the assumption that different constants cannot both
  equal a; the texts "2" and "0x2" do (`Joins.JoinAndNeedsTriConsts`); exactly when that matters
  is `Joins.JoinEqNeExact`.
- `expr_trans_compare` is not "differs from n" when a negated tristate is m
  (`Submenus.NegatedReading`, exactly `Submenus.ReadingMeaning`), and then an automatic submenu can
  hold an entry that is available without its symbol (`Submenus.NestedMisread`).
- `expr_trans_compare` for the target m leaves && and || as they are and drops the sense of `!`
  (exactly `Submenus.TransCompareMod`).
- A symbol defined at several places, one of them without a condition, gets only the conditions of the
  others as its direct dependency (exactly `Finalised.PlacesMeaning`).
- A symbol without a prompt takes every later entry that mentions it (`Submenus.BareSymbolTakesAll`),
  and flattening then moves these entries into the submenu around it, where they do not belong
  (`MenuItems.StrangerInSubmenu`). Apart from such entries and misread ones, submenus are sound
  (`MenuItems.SubmenuSound`, one way).
- `expr_trans_bool` runs before a select condition is copied and so weakens it
  (`Finalised.TransBoolWeakensSelect`, exactly `Finalised.StrengthMeaning` and `Finalised.FinalisedSolutions`).
- Setting a symbol to the value it already has skips the range check. A default of y above a
  visibility of m is then lost (`Setters.DropsHappens`, exactly `Setters.SetTakesEffect`); the same family is the only one in which saving and
  reloading .config changes the configuration (`Saving.ConfigReload`).
- A user's m on a tristate whose visibility and reverse dependency are both m is not recorded in a
  defconfig (`Saving.PinnedHappens`, `Saving.PinnedIsLost`).
- A negative bound of a hex range prints as text that does not parse back
  (`CStrings.HexNegativeSaturates`, exactly `Ranges.ClampInRange`); bounds the wrong way round make clamping swing
  (`Ranges.ClampUnorderedSwings`).
- `sym_check_deps` does not follow implies, range bounds and the modules symbol
  (`EvalOrder.ImpliesAreNotWalked`, exactly `EvalOrder.CheckedIsRanked`).
- mkpimage admits version 1 images of 80 to 84 bytes without barebox header, for which there is no
  room for trampoline and CRC (`Image.AdmittedHasRoom`).

## Conventions

A valuation is *well-typed* when bool and tristate symbols show the text of their tristate value, a
bool is never m, constants show their names and y, m, n have their values; every solution of a configuration is
well-typed (`Configs.SolutionWellTyped`). An expression is *admissible* when no ordering has an
operand of the "other" type and the constants tristates are compared with by = and != are y, m, n or
texts that stand for none of the three values, as "foo" does and "2" does not. Acyclic
configurations are those with a rank (`Configs.Ranked`), which exists exactly if no symbol is read
for its own value (`EvalOrder.OrderExists`).

## Model

| member | source | states |
|---|---|---|
| `Exprs.CompareWithConst` | buildroot-at91-linux4microchip-2023.10/support/kconfig/expr.c:1046-1104 | comparing a bool or tristate symbol with y, m or n by = or != compares tristate values, although the code compares parsed or unparsed text |
| `Exprs.NegatedComparison` | buildroot-at91-linux4microchip-2023.10/support/kconfig/expr.c:1071-1104 | negating the operator negates the comparison if and only if it is not an ordering of operands without order; such an ordering is n both ways |
| `Exprs.UndefinedMeaning` | buildroot-at91-linux4microchip-2023.10/support/kconfig/expr.c:1076-1080 | an ordering is undefined exactly if an operand is of the "other" type and neither parses as text |
| `Exprs.IntOrder` | buildroot-at91-linux4microchip-2023.10/support/kconfig/expr.c:1082-1103 | ints compare by all six operators as the numbers they show |
| `Exprs.IntConstOrder` | buildroot-at91-linux4microchip-2023.10/support/kconfig/expr.c:991-1024 | an int and a decimal constant compare as these numbers, though the constant's base is left to its text |
| `Exprs.HexOrder` | buildroot-at91-linux4microchip-2023.10/support/kconfig/expr.c:1082-1103 | hexes compare as the unsigned 64-bit numbers they show |
| `Exprs.StringOrder` | buildroot-at91-linux4microchip-2023.10/support/kconfig/expr.c:1066-1075 | strings compare in dictionary order, whatever numbers they show |
| `Exprs.TriOrder` | buildroot-at91-linux4microchip-2023.10/support/kconfig/expr.c:991-1024 | bools and tristates compare as n < m < y |
| `Transforms.Transform` | buildroot-at91-linux4microchip-2023.10/support/kconfig/expr.c:686-841 | terminates: the weight (symbol 1, comparison 3, `!` doubles, operators sum plus 1) never grows, although `!(a && b)` copies a negation |
| `Transforms.TransformMeaning` | buildroot-at91-linux4microchip-2023.10/support/kconfig/expr.c:686-841 | the transformed expression has the value of the original in every well-typed valuation, for every expression without operands of the "other" type in orderings |
| `Transforms.TransformExact` | buildroot-at91-linux4microchip-2023.10/support/kconfig/expr.c:686-841 | for every expression whatsoever, the value of the result: the original with `!` pushed down to symbols and comparisons |
| `Transforms.TransformOrdered` | buildroot-at91-linux4microchip-2023.10/support/kconfig/expr.c:686-841 | the value is never raised, and is kept in every valuation in which no undefined ordering stands below an odd number of negations |
| `Transforms.TransformNegated` | buildroot-at91-linux4microchip-2023.10/support/kconfig/expr.c:762-785 | a negated comparison keeps its value if and only if it is not an undefined ordering, and otherwise falls from y to n |
| `Transforms.TransformNormal` | buildroot-at91-linux4microchip-2023.10/support/kconfig/expr.c:686-841 | in the result `!` stands only on a symbol other than y, m, n and no bool is compared by = or != with y, m, n |
| `Transforms.TransformFixesNormal` | buildroot-at91-linux4microchip-2023.10/support/kconfig/expr.c:686-841 | an expression already in that form is returned unchanged |
| `Transforms.TransformIdempotent` | buildroot-at91-linux4microchip-2023.10/support/kconfig/expr.c:686-841 | transforming twice is transforming once |
| `Transforms.TransformNeedsOrder` | buildroot-at91-linux4microchip-2023.10/support/kconfig/expr.c:1076-1080 | undefined orderings exist: with two operands of the "other" type `!(a < b)` is y before and n after |
| `Equality.EliminateYnMeaning` | buildroot-at91-linux4microchip-2023.10/support/kconfig/expr.c:308-389 | removing y and n operands keeps the value in every valuation |
| `Equality.EliminateYnShrinks` | buildroot-at91-linux4microchip-2023.10/support/kconfig/expr.c:308-389 | never adds an operator, and removes at least one when an operator has its unit as an operand |
| `Equality.EliminateYnComplete` | buildroot-at91-linux4microchip-2023.10/support/kconfig/expr.c:308-389 | no y or n operand survives, and an expression without one is left alone |
| `Equality.PassCommon` | buildroot-at91-linux4microchip-2023.10/support/kconfig/expr.c:149-189 | one pass removes from both expressions one common operand value: both inputs are the outputs joined with it on the level |
| `Equality.EliminateEqReflects` | buildroot-at91-linux4microchip-2023.10/support/kconfig/expr.c:220-240 | for each valuation one monotone clamp maps both results back to both inputs |
| `Equality.ExprEqSound` | buildroot-at91-linux4microchip-2023.10/support/kconfig/expr.c:251-295 | expressions the equality test accepts have equal value in every valuation |
| `Redundancy.ExprEqReflexive` | buildroot-at91-linux4microchip-2023.10/support/kconfig/expr.c:251-295 | every expression is found equal to itself |
| `Redundancy.ExprEqSwap` | buildroot-at91-linux4microchip-2023.10/support/kconfig/expr.c:251-295 | the two operands of && or of an or-expression, symbols, negated symbols or comparisons, may come in either order |
| `Redundancy.PassComplete` | buildroot-at91-linux4microchip-2023.10/support/kconfig/expr.c:149-189 | after the pass the two expressions share no equal operands but y and n, and every operand is an old one or the unit |
| `Redundancy.SharedOperandRemoved` | buildroot-at91-linux4microchip-2023.10/support/kconfig/expr.c:220-240 | an expression that stands among the operands of the other is removed altogether, on either side |
| `EqRewriter.Pair.EliminateLevel` | buildroot-at91-linux4microchip-2023.10/support/kconfig/expr.c:149-189 | the walk that overwrites leaves of two trees through two positions leaves exactly the pair the functional pass gives, and an unchanged count means nothing was overwritten |
| `EqRewriter.Pair.EliminateEq` | buildroot-at91-linux4microchip-2023.10/support/kconfig/expr.c:220-240 | the in-place elimination on two trees is the functional one; no y or n operand is left |
| `Joins.JoinOrMeaning` | buildroot-at91-linux4microchip-2023.10/support/kconfig/expr.c:423-485 | a merged pair is worth the or of the two, in every well-typed valuation |
| `Joins.JoinAndMeaning` | buildroot-at91-linux4microchip-2023.10/support/kconfig/expr.c:487-579 | a merged pair is worth the && of the two when the constants tristates are tested against are y, m, n or texts that stand for none of the three values |
| `Joins.EqualsAtRank` | buildroot-at91-linux4microchip-2023.10/support/kconfig/expr.c:1066-1104 | a constant equals a bool or tristate symbol at exactly one value: the number its text reads as, or the place of n, m or y |
| `Joins.JoinEqNeExact` | buildroot-at91-linux4microchip-2023.10/support/kconfig/expr.c:531-545 | merging `a=b && a!=c` into `a=b` is right in every well-typed valuation if and only if b and c are the same constant or do not stand for the same one of the three values |
| `Joins.JoinAndNeedsTriConsts` | buildroot-at91-linux4microchip-2023.10/support/kconfig/expr.c:531-545 | "2" and "0x2" both equal a tristate that is y, so a="2" && a!="0x2" is n but is merged into a y |
| `Joins.JoinShrinks` | buildroot-at91-linux4microchip-2023.10/support/kconfig/expr.c:423-579 | a merge has no more operators than an operand had and is no operator of the level it joins |
| `Dups.Pass1` | buildroot-at91-linux4microchip-2023.10/support/kconfig/expr.c:588-643 | the walk through two positions of one tree keeps the shape of the level and never adds operators; a count of zero means nothing changed |
| `Dups.Pass1LeavesUnit` | buildroot-at91-linux4microchip-2023.10/support/kconfig/expr.c:588-643 | a walk that joined something leaves a unit operand behind for expr_eliminate_yn to remove |
| `Dups.Pass1Meaning` | buildroot-at91-linux4microchip-2023.10/support/kconfig/expr.c:588-643 | the walk keeps the value although both positions may overlap and leaves are overwritten as it goes |
| `Dups.EliminateDupsMeaning` | buildroot-at91-linux4microchip-2023.10/support/kconfig/expr.c:656-678 | deduplication keeps the value of every expression under every well-typed valuation |
| `Dups.QuietPass` | buildroot-at91-linux4microchip-2023.10/support/kconfig/expr.c:588-643 | a walk that joined nothing has tried every pair of distinct operands below its two positions, and none of them joins |
| `Dups.QuietIsIrreducible` | buildroot-at91-linux4microchip-2023.10/support/kconfig/expr.c:588-643 | an expression on which a whole walk joins nothing has, on every level, no two operands that the join function accepts |
| `Dups.EliminateDupsSettles` | buildroot-at91-linux4microchip-2023.10/support/kconfig/expr.c:656-678 | at exit the join function accepts no two distinct operands of one level, and a second run changes nothing |
| `Redundancy.EliminateDupsLean` | buildroot-at91-linux4microchip-2023.10/support/kconfig/expr.c:645-678 | at exit no level holds the same operand twice, nor any of the listed pairs of tests of one symbol that a single operand replaces |
| `Redundancy.DoubleOperand` | buildroot-at91-linux4microchip-2023.10/support/kconfig/expr.c:645-678 | x && x and x or x come out as x |
| `Redundancy.IrreducibleIsQuiet` | buildroot-at91-linux4microchip-2023.10/support/kconfig/expr.c:656-678 | an expression in which nothing joins comes out unchanged |
| `DupsRewriter.Rewriter.EliminateDups1` | buildroot-at91-linux4microchip-2023.10/support/kconfig/expr.c:588-643 | the in-place walk through two aliased positions overwrites the tree exactly as the functional pass says, and counts its joins |
| `DupsRewriter.Rewriter.EliminateDups` | buildroot-at91-linux4microchip-2023.10/support/kconfig/expr.c:656-678 | the loop terminates with the functional result and restores the caller's trans_count |
| `Dependencies.RewriteMMeaning` | buildroot-at91-linux4microchip-2023.10/support/kconfig/menu.c:81-104 | rewriting m into m && MODULES gives every expression the value it has when m is read so |
| `Dependencies.FinalizeDepMeaning` | buildroot-at91-linux4microchip-2023.10/support/kconfig/menu.c:343-352 | a finalised dependency is the conjunction of the outer one and the written one with m read as m && MODULES |
| `Dependencies.PropagateMeaning` | buildroot-at91-linux4microchip-2023.10/support/kconfig/menu.c:328-353 | through any depth of nested menus, ifs and choices the propagated dependency is the conjunction of all written ones from the innermost choice on, which passes its own value down |
| `Dependencies.ConjunctionIsLeast` | buildroot-at91-linux4microchip-2023.10/support/kconfig/menu.c:335-353 | the written conjunction is at most every condition on the way and equals one of them unless it is y |
| `Dependencies.TransBoolMeaning` | buildroot-at91-linux4microchip-2023.10/support/kconfig/expr.c:394-418 | replacing `FOO!=n` by FOO keeps whether the expression is n and never raises it |
| `Dependencies.PipelineVisibility` | buildroot-at91-linux4microchip-2023.10/support/kconfig/menu.c:335-398 | the whole pipeline gives a symbol of any type the prompt visibility of the plain conjunction of all conditions as written, m read as m && MODULES |
| `Finalised.CondOfSound` | buildroot-at91-linux4microchip-2023.10/support/kconfig/menu.c:328-353 | what menu_finalize makes of a condition, layer by layer, has the value of the plain conjunction as written in every well-typed valuation |
| `Finalised.FinalisedSolutions` | buildroot-at91-linux4microchip-2023.10/support/kconfig/menu.c:343-413 | with every condition finalised, those copied into selects and implies included, an assignment that solves the written or the finalised configuration solves both if and only if the selects and implies of every symbol keep their joint strength under it |
| `Finalised.StrengthMeaning` | buildroot-at91-linux4microchip-2023.10/support/kconfig/menu.c:392-413 | the selects of a symbol keep their joint strength if and only if the symbol is two-valued, none of them is y as written, or one that is y has a condition that does not fall |
| `Finalised.RevTriIsLargest` | buildroot-at91-linux4microchip-2023.10/support/kconfig/menu.c:404-413 | the joint strength of selects is that of the strongest |
| `Finalised.PlacesMeaning` | buildroot-at91-linux4microchip-2023.10/support/kconfig/menu.c:496 | the direct dependency is the largest condition of the places a symbol is defined at; a place without a condition counts only if no place has one |
| `Finalised.SelectKept` | buildroot-at91-linux4microchip-2023.10/support/kconfig/menu.c:392-407 | a select by a bool pulls its target as strongly as written if and only if the target is two-valued, the selector is n, or the condition does not fall |
| `Finalised.SimplifyKeepsSolutions` | buildroot-at91-linux4microchip-2023.10/support/kconfig/menu.c:343-413 | if selects and implies aim at bools or have conditions that expr_trans_bool leaves alone, written and finalised configuration have the same solutions |
| `Finalised.TransBoolTest` | buildroot-at91-linux4microchip-2023.10/support/kconfig/expr.c:394-418 | `T!=n` turned into T keeps its value if and only if T is not m |
| `Finalised.TransBoolExact` | buildroot-at91-linux4microchip-2023.10/support/kconfig/expr.c:394-418 | the exact value of every rewritten condition: m if the condition rests on a test `T!=n` with T at m, read off the original, and otherwise unchanged |
| `Finalised.TransBoolWeakensSelect` | buildroot-at91-linux4microchip-2023.10/support/kconfig/menu.c:392-407 | weakened selects exist: a bool under `T!=n` with T at m selects m where the written condition is y |
| `Submenus.DependsSound` | buildroot-at91-linux4microchip-2023.10/support/kconfig/expr.c:871-898 | an expression that depends on a bool or tristate symbol is n whenever the symbol is n |
| `Submenus.DependsExact` | buildroot-at91-linux4microchip-2023.10/support/kconfig/expr.c:871-898 | an expression depends on s if and only if one of its && operands is s, s=y, s=m or s!=n |
| `Submenus.ContainsExact` | buildroot-at91-linux4microchip-2023.10/support/kconfig/expr.c:843-869 | an expression contains exactly the symbols it mentions |
| `Submenus.DemandNests` | buildroot-at91-linux4microchip-2023.10/support/kconfig/menu.c:455-461 | an entry with such an operand is nested under s whatever the prompt of s needs |
| `Submenus.SupersetOfOperand` | buildroot-at91-linux4microchip-2023.10/support/kconfig/menu.c:463-484 | a base whose test form is an && operand of the entry's test form is accepted |
| `Submenus.SupersetNests` | buildroot-at91-linux4microchip-2023.10/support/kconfig/menu.c:463-484 | the documented case: an entry under (S or Q) && R is nested under S whose prompt needs R |
| `Submenus.TransCompareMeaning` | buildroot-at91-linux4microchip-2023.10/support/kconfig/expr.c:914-977 | the exact meaning, in every well-typed valuation, of the comparisons inserted for the targets n and y |
| `Submenus.TransCompareMod` | buildroot-at91-linux4microchip-2023.10/support/kconfig/expr.c:914-977 | for the target m the inserted comparison is right on symbols and comparisons, on && and or-expressions if and only if they are n, and on a negated symbol never |
| `Submenus.ReadingMeaning` | buildroot-at91-linux4microchip-2023.10/support/kconfig/expr.c:914-977 | the test form of a finalised condition for != n holds if and only if the condition is not n, and not only so because of negated symbols at m |
| `Submenus.NegatedReading` | buildroot-at91-linux4microchip-2023.10/support/kconfig/expr.c:914-977 | for `!A` the test form agrees with the value if and only if A is not at m; at m `!A` is m but its test A=n is n |
| `Submenus.SupersetImplies` | buildroot-at91-linux4microchip-2023.10/support/kconfig/menu.c:463-484 | an accepted superset test is an implication of the test forms in every well-typed valuation |
| `Submenus.NestedSound` | buildroot-at91-linux4microchip-2023.10/support/kconfig/menu.c:448-484 | an entry nested under sym is available only when sym is not n (dependency test, every configuration) or its prompt is available (superset test, every configuration in which the entry is not available only because of negated symbols at m) |
| `Submenus.NestedMisread` | buildroot-at91-linux4microchip-2023.10/support/kconfig/menu.c:448-484 | such entries exist: one under S!=m && !T is nested under S whose prompt needs T=n, and with S at n and T at m it is available while S is n and its prompt is not |
| `Submenus.BareSymbolTakesAll` | buildroot-at91-linux4microchip-2023.10/support/kconfig/menu.c:448-484 | under a symbol without a prompt every entry that mentions the symbol is nested, and no other |
| `MenuForest.FinalizeOrder` | buildroot-at91-linux4microchip-2023.10/support/kconfig/menu.c:419-577 | finalising a node moves nodes between levels but keeps the pre-order of the node and its later siblings, and finalises each node that ends up below it exactly once |
| `MenuForest.FlattenOrder` | buildroot-at91-linux4microchip-2023.10/support/kconfig/menu.c:498-577 | moving the children of promptless nodes up behind them keeps the pre-order |
| `MenuForest.AbsorbOrder` | buildroot-at91-linux4microchip-2023.10/support/kconfig/menu.c:452-494 | collecting a submenu splits the pre-order of the later siblings into submenu and rest, and finalises exactly the submenu |
| `MenuForest.FlattenFixes` | buildroot-at91-linux4microchip-2023.10/support/kconfig/menu.c:498-577 | flattening leaves a list of children alone if and only if no node without a prompt in it has children |
| `MenuForest.FinalizeIsFlat` | buildroot-at91-linux4microchip-2023.10/support/kconfig/menu.c:498-577 | after menu_finalize no menu below the node holds an entry without a prompt that has children |
| `MenuForest.FinalizeSurface` | buildroot-at91-linux4microchip-2023.10/support/kconfig/menu.c:296-577 | finalising a node brings nothing to the surface of its level, through nodes without a prompt, that was not there |
| `MenuItems.AbsorbsPassing` | buildroot-at91-linux4microchip-2023.10/support/kconfig/menu.c:452-494 | the list collected for a submenu, before flattening, holds only entries that pass the test, and the first sibling left outside fails it |
| `MenuItems.BuiltInherits` | buildroot-at91-linux4microchip-2023.10/support/kconfig/menu.c:328-353 | with the conditions menu_finalize propagates, no entry below an `if` is more available than the `if` |
| `MenuItems.SubmenuSound` | buildroot-at91-linux4microchip-2023.10/support/kconfig/menu.c:448-577 | every entry of the finished, flattened submenu of p is available only if the symbol of p is not n or its prompt is available, if no symbol without a prompt brings others along and no collected entry is available only because of negated symbols at m |
| `MenuItems.BuiltSubmenuSound` | buildroot-at91-linux4microchip-2023.10/support/kconfig/menu.c:328-577 | the same with the inheritance by children of ifs derived from the written conditions |
| `MenuItems.StrangerInSubmenu` | buildroot-at91-linux4microchip-2023.10/support/kconfig/menu.c:448-577 | symbols without a prompt do bring others along: C under !Q is moved from Q, which has no prompt, into the submenu of P; with all of P, Q, R at n C is available, P is n, its prompt is not available, and C does not pass its test |
| `MenuLinks.MenuStore.MenuFinalize` | buildroot-at91-linux4microchip-2023.10/support/kconfig/menu.c:296-577 | the pointer surgery on next, list and parent turns the represented forest into the one the tree function gives, with right parent pointers, and touches no node outside it |
| `MenuLinks.MenuStore.AbsorbSiblings` | buildroot-at91-linux4microchip-2023.10/support/kconfig/menu.c:452-494 | siblings that pass are relinked as children with the right parent, the rest stay behind as siblings |
| `MenuLinks.MenuStore.FlattenChildren` | buildroot-at91-linux4microchip-2023.10/support/kconfig/menu.c:498-577 | children of promptless nodes are spliced into the sibling list behind them and get the outer parent |
| `MenuLinks.MenuStore.SpliceUp` | buildroot-at91-linux4microchip-2023.10/support/kconfig/menu.c:567-576 | one splice: the children become next siblings, list is cleared, nothing else moves |
| `MenuWalk.FinalizeRoot` | buildroot-at91-linux4microchip-2023.10/support/kconfig/menu.c:296-577 | from the root every node is finalised exactly once, the pre-order is unchanged and the pointers form a tree again |
| `MenuWalk.Advance` | buildroot-at91-linux4microchip-2023.10/support/kconfig/confdata.c:812-825 | one step of the stackless walk reaches the next node in pre-order, or none exactly when all nodes have been visited |
| `MenuWalk.WriteConfig` | buildroot-at91-linux4microchip-2023.10/support/kconfig/confdata.c:680-825 | both writers visit every node of a menu tree once, in pre-order, and record exactly the symbols they want, each once, as they are shown |
| `CStrings.DecRoundTrip` | buildroot-at91-linux4microchip-2023.10/support/kconfig/symbol.c:181-187 | a 64-bit integer printed in decimal scans back to itself with nothing left over |
| `CStrings.HexRoundTrip` | buildroot-at91-linux4microchip-2023.10/support/kconfig/symbol.c:181-187 | a non-negative 64-bit integer printed in hexadecimal scans back to itself |
| `CStrings.HexNegativeSaturates` | buildroot-at91-linux4microchip-2023.10/support/kconfig/symbol.c:181-187 | a negative one does not: the scan saturates at the maximum |
| `CStrings.StrCmpOrder` | buildroot-at91-linux4microchip-2023.10/support/kconfig/expr.c:1074-1075 | strcmp is dictionary order |
| `Ranges.IntValidExact` | buildroot-at91-linux4microchip-2023.10/support/kconfig/symbol.c:591-632 | the valid ints are exactly the decimal prints of natural numbers, with or without a minus |
| `Ranges.HexValidExact` | buildroot-at91-linux4microchip-2023.10/support/kconfig/symbol.c:591-632 | the valid hexes are exactly the non-empty texts of hexadecimal digits, with or without 0x or 0X |
| `Ranges.BoundMeaning` | buildroot-at91-linux4microchip-2023.10/support/kconfig/symbol.c:139-153 | a bound is the number it shows, in its own base, or for a constant in that of the ranged symbol |
| `Ranges.ClampInRange` | buildroot-at91-linux4microchip-2023.10/support/kconfig/symbol.c:155-187 | with lo <= hi the clamped text parses inside the range if and only if no negative hex bound is printed that the scan saturates out of the range |
| `Ranges.ClampSound` | buildroot-at91-linux4microchip-2023.10/support/kconfig/symbol.c:155-187 | with lo <= hi, non-negative for hex, clamping gives lo from below, hi from above and the text itself inside; it is idempotent, and yields text the range test accepts |
| `Ranges.ClampUnorderedSwings` | buildroot-at91-linux4microchip-2023.10/support/kconfig/symbol.c:155-187 | with hi < lo clamping swings between the two bounds |
| `Ranges.PrintValid` | buildroot-at91-linux4microchip-2023.10/support/kconfig/symbol.c:591-632 | what clamping prints is a valid text of the type and scans back to the bound, except for negative hex bounds |
| `Configs.SolutionExists` | buildroot-at91-linux4microchip-2023.10/support/kconfig/symbol.c:357-498 | every acyclic configuration has a solution of its declarative meaning, for all user values |
| `Configs.SolutionUnique` | buildroot-at91-linux4microchip-2023.10/support/kconfig/symbol.c:357-498 | and only one |
| `Configs.SolutionWellTyped` | buildroot-at91-linux4microchip-2023.10/support/kconfig/symbol.c:406-445 | in every solution bools are never m and tristates show their value, so the simplifier theorems apply to it |
| `Configs.SolutionInRange` | buildroot-at91-linux4microchip-2023.10/support/kconfig/symbol.c:155-187 | in every solution an int or hex value lies inside its active range, if that is ordered and, for hex, not negative |
| `Outcomes.VisibleOutcome` | buildroot-at91-linux4microchip-2023.10/support/kconfig/symbol.c:209-235 | a symbol is visible if and only if the condition of one of its prompts is not n; a tristate as far as its strongest prompt, all others fully |
| `Outcomes.StringOutcome` | buildroot-at91-linux4microchip-2023.10/support/kconfig/symbol.c:446-466 | a visible string with a user value shows it; any other shows the text of the first default that applies, or nothing |
| `Outcomes.NumberOutcome` | buildroot-at91-linux4microchip-2023.10/support/kconfig/symbol.c:446-466 | an int or hex shows the user's text or that of the first default as it is without an active range or inside it, and else the nearer bound |
| `Outcomes.TextWritten` | buildroot-at91-linux4microchip-2023.10/support/kconfig/symbol.c:446-466 | a string, int or hex is written if and only if it is visible or a default that names a symbol applies, unless the environment sets it |
| `Outcomes.TriBounds` | buildroot-at91-linux4microchip-2023.10/support/kconfig/symbol.c:406-445 | a symbol is at least as high as its selects, never m where it is two-valued or implied at y, and written if and only if it is visible or not n, unless the environment sets it |
| `Outcomes.UserOutcome` | buildroot-at91-linux4microchip-2023.10/support/kconfig/symbol.c:406-445 | what the user asked for, as far as the symbol is visible, holds unless a select is stronger or m is not possible |
| `Outcomes.DefaultOutcome` | buildroot-at91-linux4microchip-2023.10/support/kconfig/symbol.c:406-445 | otherwise the symbol has the highest of its first applicable default, its implies and its selects, m counting as y where m is not possible |
| `Outcomes.DepOutcome` | buildroot-at91-linux4microchip-2023.10/support/kconfig/symbol.c:236-270 | the direct, reverse and implied dependency values are n exactly when their expressions are, implies only under a direct dependency |
| `Evaluator.Engine.CalcValue` | buildroot-at91-linux4microchip-2023.10/support/kconfig/symbol.c:357-498 | the memoised, demand-driven evaluation of a symbol ends, keeps everything already valid and leaves the declared value, visibility, dependency values and WRITE flag |
| `Evaluator.Engine.ExprCalcValue` | buildroot-at91-linux4microchip-2023.10/support/kconfig/expr.c:1026-1104 | evaluating an expression on demand gives its value in the solution, whatever had been evaluated before |
| `Evaluator.Engine.CalcVisibility` | buildroot-at91-linux4microchip-2023.10/support/kconfig/symbol.c:209-270 | visibility and the direct, reverse and implied dependency values become those of the solution |
| `Evaluator.Engine.ValidateRange` | buildroot-at91-linux4microchip-2023.10/support/kconfig/symbol.c:155-187 | the text is clamped into the active range, whose bounds are evaluated first |
| `Evaluator.Engine.StringValue` | buildroot-at91-linux4microchip-2023.10/support/kconfig/symbol.c:803-825 | the text shown for an evaluated symbol |
| `Evaluator.Engine.ClearAllValid` | buildroot-at91-linux4microchip-2023.10/support/kconfig/symbol.c:500-509 | after invalidation the engine is consistent again with the same solution |
| `Evaluator.Engine.Evaluate` | buildroot-at91-linux4microchip-2023.10/support/kconfig/symbol.c:357-498 | any sequence of evaluations, in any order and with repetitions, ends with every VALID symbol holding what every solution of the configuration gives it |
| `Setters.SetTakesEffect` | buildroot-at91-linux4microchip-2023.10/support/kconfig/symbol.c:511-566 | a value within range takes effect; setting the value a symbol has keeps it if and only if it is not in the dropped family, and then nothing about the symbol changes |
| `Setters.RangeIsExact` | buildroot-at91-linux4microchip-2023.10/support/kconfig/symbol.c:511-530 | of the values up to its visibility exactly those in range would take effect on a changeable symbol |
| `Setters.SelectedIsFixed` | buildroot-at91-linux4microchip-2023.10/support/kconfig/symbol.c:511-530 | a symbol that a select holds as high as it is visible, or that is invisible, takes no value |
| `Setters.DropsHappens` | buildroot-at91-linux4microchip-2023.10/support/kconfig/symbol.c:532-566 | the dropped family is not empty: A is y by default, is set to y, and re-evaluates to m |
| `Setters.ExampleIsRanked` | buildroot-at91-linux4microchip-2023.10/support/kconfig/symbol.c:532-566 | that configuration can be evaluated |
| `Setters.SolutionStays` | buildroot-at91-linux4microchip-2023.10/support/kconfig/symbol.c:532-566 | a setting that leaves the symbol's result alone leaves the whole configuration alone |
| `Setters.SetTristate` | buildroot-at91-linux4microchip-2023.10/support/kconfig/symbol.c:532-566 | a refused value changes nothing; an accepted one is stored and the symbol re-evaluates to it, except exactly in the dropped family |
| `Setters.Toggle` | buildroot-at91-linux4microchip-2023.10/support/kconfig/symbol.c:568-589 | toggling stops within three attempts at the next admissible value of the cycle n, m, y, which the symbol then has, except exactly when it comes back to a dropped value |
| `Setters.ToggleCycle` | buildroot-at91-linux4microchip-2023.10/support/kconfig/symbol.c:568-589 | from n to m, from m to y and from y to n, past values out of range |
| `Choices.WinnerMeaning` | buildroot-at91-linux4microchip-2023.10/support/kconfig/symbol.c:278-334 | there is a winner exactly if some member is offered, and the winner is offered |
| `Choices.WinnerIsDue` | buildroot-at91-linux4microchip-2023.10/support/kconfig/symbol.c:278-334 | the winner is the user's member if offered, else the member of the first default that applies with its member offered, else the first member offered, said by position |
| `Choices.Choice.CalcAll` | buildroot-at91-linux4microchip-2023.10/support/kconfig/symbol.c:304-334 | evaluating the members in any order leaves exactly the member that is due at y if there is one, and all members n otherwise |
| `Choices.Choice.SetMember` | buildroot-at91-linux4microchip-2023.10/support/kconfig/symbol.c:532-566 | an accepted y makes that member the winner, every other accepted value keeps the winner, a refusal changes nothing |
| `Choices.Choice.SetChoice` | buildroot-at91-linux4microchip-2023.10/support/kconfig/symbol.c:532-566 | a choice accepts only the value it already has, because of the reverse dependency menu_finalize adds |
| `Choices.Choice.Run` | buildroot-at91-linux4microchip-2023.10/support/kconfig/symbol.c:278-566 | after any finite run of settings, loads, condition changes and evaluations a visible choice with a visible member has exactly one member at y, the one that is due, and otherwise all are n |
| `ConfText.EscapeStringValue` | buildroot-at91-linux4microchip-2023.10/support/kconfig/symbol.c:962-1003 | the escaped value is the quoted string and fills the computed buffer length exactly |
| `ConfText.UnescapeInPlace` | buildroot-at91-linux4microchip-2023.10/support/kconfig/confdata.c:160-178 | cutting backslashes by shifting the buffer gives the functional unescaping, or the error for an unterminated string |
| `ConfText.QuoteRoundTrip` | buildroot-at91-linux4microchip-2023.10/support/kconfig/confdata.c:160-178 | unescaping undoes escaping for every string, whatever follows the closing quote |
| `ConfText.QuotedPlain` | buildroot-at91-linux4microchip-2023.10/support/kconfig/symbol.c:962-1003 | text without quotes and backslashes is quoted unchanged |
| `ConfText.EscapedAt` | buildroot-at91-linux4microchip-2023.10/support/kconfig/symbol.c:962-1003 | wherever it stands, a quote or backslash gets a backslash before it, and any other character stays |
| `ConfText.NeverClosed` | buildroot-at91-linux4microchip-2023.10/support/kconfig/confdata.c:160-178 | text without a quote is no string |
| `ConfFile.Reader.SetSymVal` | buildroot-at91-linux4microchip-2023.10/support/kconfig/confdata.c:125-193 | one assignment is stored if its text is valid for the type, and otherwise nothing changes |
| `ConfFile.Reader.ReadSimple` | buildroot-at91-linux4microchip-2023.10/support/kconfig/confdata.c:250-405 | reading replaces all stored values by those of the lines of the file |
| `ConfFile.EntryRoundTrip` | buildroot-at91-linux4microchip-2023.10/support/kconfig/confdata.c:487-507 | the line printed for a symbol, read back, stores exactly the symbol's value |
| `ConfFile.PrintedLines` | buildroot-at91-linux4microchip-2023.10/support/kconfig/confdata.c:487-507 | the printed lines word for word: y, m, the comment for n, numbers and plain strings |
| `ConfFile.RefusedValues` | buildroot-at91-linux4microchip-2023.10/support/kconfig/confdata.c:125-193 | bools take y and n, tristates m too, numbers must be valid and strings quoted; all else is refused |
| `ConfFile.LineStores` | buildroot-at91-linux4microchip-2023.10/support/kconfig/confdata.c:346-376 | what an assignment line stores: the value for the symbol of that name, or nothing |
| `ConfFile.CarriageReturn` | buildroot-at91-linux4microchip-2023.10/support/kconfig/confdata.c:351-355 | a carriage return at the end of a line is not part of the value |
| `ConfFile.CommentStores` | buildroot-at91-linux4microchip-2023.10/support/kconfig/confdata.c:314-344 | a comment stores n for the bool or tristate it names if it goes on with "is not set", and else nothing |
| `ConfFile.PrintReadRoundTrip` | buildroot-at91-linux4microchip-2023.10/support/kconfig/confdata.c:312-401 | reading any printed list of symbols stores exactly their values and sets the flag for no other symbol |
| `ConfFile.FileRoundTrip` | buildroot-at91-linux4microchip-2023.10/support/kconfig/confdata.c:628-647 | the same through the text of the file, for values without newlines |
| `ConfFile.LinesRoundTrip` | buildroot-at91-linux4microchip-2023.10/support/kconfig/confdata.c:216-248 | lines without newlines survive the file |
| `ConfFile.StoreContents` | buildroot-at91-linux4microchip-2023.10/support/kconfig/confdata.c:125-193 | a load of distinct entries holds every entry with its value and only entries |
| `Saving.StringDefault` | buildroot-at91-linux4microchip-2023.10/support/kconfig/symbol.c:732-801 | the string default of an evaluated symbol, computed from the engine |
| `Saving.DefaultShown` | buildroot-at91-linux4microchip-2023.10/support/kconfig/symbol.c:732-801 | for a bool or tristate it is what the symbol would show without a user value |
| `Saving.Record` | buildroot-at91-linux4microchip-2023.10/support/kconfig/confdata.c:684-722 | one visit adds a symbol exactly if the writer wants it and it has not been added before |
| `Saving.DefconfigReproduces` | buildroot-at91-linux4microchip-2023.10/support/kconfig/confdata.c:667-738 | the old solution solves the configuration with only the recorded values |
| `Saving.DefconfigRoundTrip` | buildroot-at91-linux4microchip-2023.10/support/kconfig/confdata.c:667-738 | writing the minimal configuration and loading it into a fresh state gives every symbol, of every type, its old value, visibility and WRITE flag |
| `Saving.DefconfigMinimal` | buildroot-at91-linux4microchip-2023.10/support/kconfig/confdata.c:694-698 | every bool, tristate and string in the minimal configuration has a user value that counts and would show something else without it |
| `Saving.TriMinimal` | buildroot-at91-linux4microchip-2023.10/support/kconfig/confdata.c:694-698 | a bool or tristate is recorded if and only if it can be changed and would show something else without its user value |
| `Saving.StringMinimal` | buildroot-at91-linux4microchip-2023.10/support/kconfig/confdata.c:694-698 | the same for strings |
| `Saving.TextMinimal` | buildroot-at91-linux4microchip-2023.10/support/kconfig/symbol.c:790-801 | a string, int or hex is recorded if and only if it can be changed and its value is not the text of its first default; a default that is clamped to the value does not count |
| `Saving.PinnedIsLost` | buildroot-at91-linux4microchip-2023.10/support/kconfig/confdata.c:694-698 | a tristate whose visibility and reverse dependency are both m with a default of y is never reproduced: nothing records the user's choice |
| `Saving.PinnedHappens` | buildroot-at91-linux4microchip-2023.10/support/kconfig/confdata.c:694-698 | such symbols exist: the user's A is m, is not recorded, and is y without a user value |
| `Saving.PinnedIsRanked` | buildroot-at91-linux4microchip-2023.10/support/kconfig/confdata.c:694-698 | that configuration can be evaluated |
| `Saving.ConfigReload` | buildroot-at91-linux4microchip-2023.10/support/kconfig/confdata.c:740-841 | saving everything and loading it reproduces the configuration if and only if no written tristate is in the dropped family |
| `AutoConf.AutoRead` | buildroot-at91-linux4microchip-2023.10/support/kconfig/confdata.c:1021-1032 | auto.conf read back holds exactly the values a build sees |
| `AutoConf.SyncTouchesChanges` | buildroot-at91-linux4microchip-2023.10/support/kconfig/confdata.c:873-922 | a sync touches the header of a symbol if and only if its seen value differs from the one auto.conf was written with |
| `AutoConf.SecondSyncIsQuiet` | buildroot-at91-linux4microchip-2023.10/support/kconfig/confdata.c:873-922 | with an unchanged configuration no header is touched |
| `AutoConf.SplitConfig` | buildroot-at91-linux4microchip-2023.10/support/kconfig/confdata.c:843-922 | the loop over the symbol table touches exactly those headers |
| `CheckDeps.Checker.CheckSymbol` | buildroot-at91-linux4microchip-2023.10/support/kconfig/symbol.c:1312-1344 | one call keeps the path, CHECK flags and finishing order consistent; a symbol is left behind only after all it depends on |
| `CheckDeps.Checker.CheckAll` | buildroot-at91-linux4microchip-2023.10/support/kconfig/symbol.c:1206-1344 | calls covering all symbols report a recursion if and only if the followed dependencies contain a cycle, and leave no CHECK flag and an empty stack |
| `CheckDeps.TargetsExact` | buildroot-at91-linux4microchip-2023.10/support/kconfig/symbol.c:1241-1273 | the symbols followed are exactly those of the conditions of selects, prompts, defaults, ranges, own implies and places, and of the values of defaults |
| `CheckDeps.NoCycle` | buildroot-at91-linux4microchip-2023.10/support/kconfig/symbol.c:1206-1273 | dependencies that finish in order contain no cycle |
| `EvalOrder.OrderExists` | buildroot-at91-linux4microchip-2023.10/support/kconfig/symbol.c:115-498 | a configuration has an evaluation order if and only if what its symbols read, implies, range bounds and the modules symbol included, contains no cycle |
| `EvalOrder.UnwalkedMeaning` | buildroot-at91-linux4microchip-2023.10/support/kconfig/symbol.c:1241-1273 | what the evaluator reads and the dependency check does not follow is read through implies, range bounds or the modules symbol |
| `EvalOrder.CheckedIsRanked` | buildroot-at91-linux4microchip-2023.10/support/kconfig/symbol.c:1241-1273 | after a clean check an evaluation order exists if and only if no cycle takes such a step |
| `EvalOrder.CheckedIsEnough` | buildroot-at91-linux4microchip-2023.10/support/kconfig/symbol.c:1241-1273 | a clean check is enough when these steps lead only to symbols that read nothing, as range bounds that are constants do |
| `EvalOrder.ImpliesAreNotWalked` | buildroot-at91-linux4microchip-2023.10/support/kconfig/symbol.c:1241-1273 | such cycles exist: a symbol implied by itself passes the check but has no evaluation order |
| `Crc.TableIsRemainder` | buildroot-at91-linux4microchip-2023.10/package/mkpimage/mkpimage.c:104-148 | every entry of the table is the remainder of its index under eight steps of division by 0x04c11db7 |
| `Crc.DivisionLinear` | buildroot-at91-linux4microchip-2023.10/package/mkpimage/mkpimage.c:150-158 | eight division steps are linear over exclusive or |
| `Crc.TableStepIsDivision` | buildroot-at91-linux4microchip-2023.10/package/mkpimage/mkpimage.c:154-155 | one table step is eight division steps |
| `Crc.Crc32` | buildroot-at91-linux4microchip-2023.10/package/mkpimage/mkpimage.c:150-158 | the table-driven loop is bitwise polynomial division, for every byte sequence and start value |
| `Image.BranchRoundTrip` | buildroot-at91-linux4microchip-2023.10/package/mkpimage/mkpimage.c:163-171 | the branch bytes decode as an ARM branch that leads from the instruction to the destination |
| `Image.PutHeaderV0` | buildroot-at91-linux4microchip-2023.10/package/mkpimage/mkpimage.c:208-247 | a version 0 header with decodable length, right checksum and a start vector to the start address; no other byte changes |
| `Image.PutHeaderV1` | buildroot-at91-linux4microchip-2023.10/package/mkpimage/mkpimage.c:208-247 | a version 1 header with decodable lengths, entry offset and right checksum; no other byte changes |
| `Image.PutTrampoline` | buildroot-at91-linux4microchip-2023.10/package/mkpimage/mkpimage.c:195-206 | a start before the header is reached through a branch behind it |
| `Image.PutCrc` | buildroot-at91-linux4microchip-2023.10/package/mkpimage/mkpimage.c:249-252 | the last word is the complemented CRC of all before it, which stays as it was |
| `Image.AddHeader` | buildroot-at91-linux4microchip-2023.10/package/mkpimage/mkpimage.c:175-255 | refuses sizes that are no multiple of four without touching the buffer, and overruns exactly the buffers too short for header and trampoline; else the CRC is right and, with room, the image passes checksum and CRC, decodes its length and leads to the start |
| `Image.AdmittedHasRoom` | buildroot-at91-linux4microchip-2023.10/package/mkpimage/mkpimage.c:299-340 | an admitted size has room for header, trampoline and CRC if and only if it is not a version 1 image of at most 84 bytes without barebox header |
| `Image.MakeImage` | buildroot-at91-linux4microchip-2023.10/package/mkpimage/mkpimage.c:299-359 | rejects exactly the sizes outside the limits and overflows exactly at 80 bytes in version 1 without barebox header; otherwise the image has the padded length, keeps the input bytes outside the header, starts with the barebox header if asked to, and boots into the input, except at the sizes at which the CRC overwrites the trampoline |
| `Image.BareboxImage` | buildroot-at91-linux4microchip-2023.10/package/mkpimage/mkpimage.c:45-66 | with the tool's own barebox header the first word of the image is a branch to the input, and the image boots |

## Left out

- Image.MakeImage: option parsing, files and memory allocation are not modelled; the host is taken to be little-endian, as the tool stores the CRC as a host word.
- Image.AddHeader: what lies behind an overrun buffer is not modelled; buffers are below 256 KB, above which no admitted image lies and the 16-bit length of version 0 is cut off.
- Evaluator.Engine.CalcValue: configurations with dependency cycles are not modelled, nor are choices inside the evaluated graph; boolean choices are modelled on their own in `Choices`.
- Evaluator.Engine.CalcValue: unmet-dependency warnings and the CHANGED flag are not modelled; the modules symbol is a typed symbol or n.
- Choices.Choice.Run: tristate and optional choices are not modelled; members have no defaults and choice defaults are members.
- Saving.DefconfigRoundTrip: covers user values that belong to menu symbols not bound to the environment, are valid and within ordered ranges; the remaining tristate exception is `Saving.PinnedIsLost`.
- Saving.ConfigReload: written int and hex values are valid and ranges ordered.
- MenuWalk.WriteConfig: menu heading comments and the file heading are not modelled; choice symbols are passed over as the code passes over them.
- CheckDeps.Checker.CheckAll: the conditions of the properties that say where a symbol is defined are represented by its direct dependency, which is made of them.
- MenuLinks.MenuStore.MenuFinalize: the outcome of the dependency tests is fixed per pair of nodes; choice member lists, symbol type inheritance and warnings are not modelled.
- MenuItems.SubmenuSound: entries that a symbol or choice without a prompt brings along are excluded; the code is unsound for them (`MenuItems.StrangerInSubmenu`).
- Dependencies.PropagateMeaning: the loops over menu entries and properties that store the new conditions are modelled as a function along the path of enclosing menus, without update in place.
- Transforms.TransformMeaning: `expr_transform`, `expr_eliminate_yn` and `expr_trans_bool` are functions on expressions; reuse and freeing of the nodes they overwrite is not modelled.
- ConfFile.Reader.ReadSimple: symbols that reading auto.conf would create, choice bookkeeping and warnings for reassigned symbols are not modelled.
- The expression kinds E_LIST, E_RANGE and E_NONE do not occur in conditions and are not modelled.
- The Kconfig grammar, symbol lookup, regular expression search, expression printing and help texts.
- Random and all-yes/no configurations (`conf_set_all_new_symbols`).
- User interfaces, file opening and renaming, directory creation and environment lookups.
- The copies of the same files under buildroot-at91-linux4sam-2022.10 and all packages other than mkpimage.
