# Verified model of the OpenWrt configuration engine and of three firmware tools

OpenWrt is configured by the Kconfig engine in `scripts/config`. This project models that engine and
proves what it is for:

* **Dependency formulas** over n < m < y (AND = min, OR = max, NOT = 2 - x) are simplified by a dozen
  rewriting passes. Each pass is proved to keep the value that `expr_calc_value` gives, for all three
  values and every well-typed assignment, or its exact domain is given together with an input outside it.
* **Symbols** are evaluated by memoised recursion over flags and partial results. The evaluation is proved
  to compute one plain recursive definition, in whatever order symbols are asked for; consequences for
  choices, for setting a value and for the dependency check are proved from that definition.
* **The menu tree** is rearranged in place through next, list and parent pointers, while every entry inherits
  conditions and choices collect their members. The outcome is exactly that of functions on the tree the parser
  built; it keeps the order of the entries, moves none without a reason, and what hides a menu hides everything
  below it.
* **The config file** that is printed is read back to the values that were written, by a reader that edits
  its line buffer in place. Whether evaluating again after loading gives every symbol the value it had when it
  was saved is decided exactly, from the evaluation through the walk and the text and back.

Three firmware tools are modelled beside it: the encrypted container of Buffalo images, streaming MD5, and
the table-driven CRC of mkbrnimg.

An assignment (`Env`) gives every symbol a tristate and a string. It is well typed when a boolean is never
m, the string of a boolean or tristate spells its tristate, and a constant has its name as string.

| file | what it holds |
|---|---|
| Options.dfy, Expr.dfy | optional values; the three values, expression trees and their meaning |
| Yn.dfy, Transform.dfy, ExprEq.dfy, ExprEqExact.dfy, ExprEqLaws.dfy, Join.dfy, Extract.dfy, Compare.dfy | the passes as functions on trees, and their theorems |
| Nodes.dfy | expr_eliminate_yn, expr_transform, expr_copy, expr_eq and expr_eliminate_eq on nodes of the heap, changed in place |
| Slots.dfy, Dups.dfy, DupsExact.dfy, DupsLoss.dfy | expr_eliminate_dups on slots of one tree, aliased arguments included; what it is exact for, and which step loses an m |
| Nest.dfy, NestExact.dfy | when an entry is nested below a symbol: what that means for the values, and which conditions are recognised |
| Symbols.dfy, SymbolLemmas.dfy, SymbolMarks.dfy, SymbolEval.dfy | the value of a symbol as a recursive definition, what is marked for writing, and the program that computes both |
| SymbolTheorems.dfy, SymbolSetting.dfy, SymbolExamples.dfy | what follows for choices, and for setting a value; the inputs at which an accepted value is not obtained |
| SymbolLaws.dfy | the equations the values solve: prompts, selects, defaults, ranges, and which values are accepted |
| RoundTrip.dfy, SaveLoad.dfy, SaveChoices.dfy, SaveWalk.dfy | evaluating again after the values have been saved and loaded: for any set of lines, for choices, and for the lines the two walks write |
| DepCheck.dfy | the search for dependency cycles, and how it relates to the evaluation |
| Menu.dfy, MenuModel.dfy, MenuNesting.dfy, MenuFinalize.dfy | the linked tree, what menu_finalize makes of it as functions, which entries are nested for certain, and menu_finalize in place |
| Walk.dfy | the walks of conf_write and conf_write_defconfig |
| Conf.dfy, ConfBuffer.dfy | config lines as text, and the same in the buffers of the program |
| Numerals.dfy, Grammar.dfy | which texts are numbers, and which lines set or unset a symbol |
| Bits.dfy, Cipher.dfy, Buffalo.dfy, Md5.dfy, Crc.dfy | the firmware tools |

Where the code and its comments disagree, the model follows the code:

* `expr_trans_bool` is described as being for boolean symbols (scripts/config/expr.c:314-316); the code
  rewrites comparisons of tristate symbols.
* `expr_join_and` announces `(a!='m') && (a!='n') -> (a='m')` (scripts/config/expr.c:480-484); the code
  returns `a='y'`, which is right.
* `sym_check_sym_deps` is described as returning NULL when the dependencies are fine
  (scripts/config/symbol.c:1183); for symbols that are neither choices nor members, the call from outside
  returns NULL in every case, so a cycle is printed but never counted as an error (`Checker.CheckAll`).

## Model

| member | source | states |
|---|---|---|
| EliminateYn.YnValue | scripts/config/expr.c:231-312 | expr_eliminate_yn keeps the value under every well-typed tristate assignment |
| EliminateYn.YnExact | scripts/config/expr.c:231-312 | its result has no y or n operand left in a junction, and it changes an expression only if there was one |
| ExprNodes.Node.EliminateYn | scripts/config/expr.c:231-312 | on nodes, in place: the node it was given ends up as the root of exactly the simplified tree, using no node that was not in the tree before |
| ExprTransform.TransformValue | scripts/config/expr.c:636-771 | expr_transform keeps the value under every well-typed assignment; its recursion ends by a weight in which NOT doubles |
| ExprTransform.TransformNormal | scripts/config/expr.c:636-771 | in the result NOT is only above symbols other than y, m and n, and no boolean is compared with y, m or n |
| ExprTransform.TransformFixes | scripts/config/expr.c:636-771 | the expressions left alone are exactly those normal forms, so the pass is idempotent |
| ExprNodes.Node.TransformNode | scripts/config/expr.c:636-771 | on nodes, in place and with nodes relinked and reused: the returned tree is the transformed one and shares nothing with the rest of the heap |
| ExprEquality.CancelRecRestores | scripts/config/expr.c:130-162 | cancelling common operands is reversible: one value joined back to both remainders gives both originals |
| ExprEquality.CancelRecCount | scripts/config/expr.c:130-162 | trans_count grows by the number of operands other than y and n that vanish, which is the same on both sides |
| ExprEquality.CancelPassesMonotone | scripts/config/expr.c:164-184 | if the remainders are ordered, so are the originals |
| ExprEquality.ExprEqSound | scripts/config/expr.c:189-219 | expr_eq says yes only to expressions of equal value under every assignment |
| ExprEquality.CancelToYesImplies | scripts/config/expr.c:164-184 | if cancelling leaves y of the second expression, the value of the first is at most that of the second |
| ExprEqualityExact.ExprEqReflexive | scripts/config/expr.c:189-219 | every expression equals itself |
| ExprEqualityExact.ExprEqDecides | scripts/config/expr.c:130-219 | on two ANDs or two ORs of atomic operands expr_eq holds if and only if both are absorbed by a constant, or neither is and they have the same other operands as often, in any order and nesting |
| ExprEqualityExact.ExprEqUpToOrder | scripts/config/expr.c:130-219 | the same multiset of atomic operands is always recognised |
| ExprEqualityExact.CancelRecMatches | scripts/config/expr.c:130-162 | the recursion over two junctions cancels as matching the lists of their operands, one by one and in order, does |
| ExprEqualityLaws.ExprEqSymmetric | scripts/config/expr.c:130-219 | expr_eq is symmetric, although it takes the operands of the first argument in turn |
| ExprEqualityLaws.ExprEqNotTransitive | scripts/config/expr.c:130-219 | it is not transitive: (X or n) and (W or n) equals (X or n) and W, which equals X and W, but the first does not equal the last; a constant is dropped from a remainder but not from a common operand |
| ExprEqualityLaws.ExprEqTransitive | scripts/config/expr.c:130-219 | without the operands y and n it is transitive, hence an equivalence |
| ExprEqualityLaws.ExprEqClasses | scripts/config/expr.c:130-219 | without them it holds of two ANDs or two ORs of any expressions if and only if both have as many operands equal to each expression, in any order and nesting |
| ExprNodes.EqualNodes | scripts/config/expr.c:189-219 | on nodes: gives that answer, leaves both arguments unchanged and trans_count as it was; the mutual recursion with the cancelling ends |
| ExprNodes.CancelNodes | scripts/config/expr.c:164-184 | on nodes, in place: both slots end up with the remainders, in two trees without common nodes, and trans_count has grown by the pairs cancelled |
| ExprNodes.CancelRecNodes | scripts/config/expr.c:130-162 | the same for the recursion on the operand slots of both trees |
| ExprNodes.Copy | scripts/config/expr.c:62-97 | a tree of new nodes that reads the same |
| ExprJoin.JoinValue | scripts/config/expr.c:346-502 | whenever expr_join_or or expr_join_and merges two operands, the result has the value of their OR or AND |
| ExprJoin.JoinExact | scripts/config/expr.c:346-502 | which pairs are merged: equal ones; in an OR exactly two comparisons of one tristate by = with different ones of y, m and n, and a boolean with its negation; in an AND exactly two such by !=, one of each kind with constants, and a symbol with its being y, not n or not m |
| ExprExtract.ExtractValue | scripts/config/expr.c:826-875 | factoring is exact: each input is the common part joined with its remainder, for all three values |
| ExprExtract.ExtractRecApart | scripts/config/expr.c:826-875 | what factoring leaves over has no operand in common any more, constants aside |
| ExprDups.Simplifier.Dups1 | scripts/config/expr.c:504-554 | with both arguments in one tree: only that tree changes, keeping its value for n, m and y and its normal form; if nothing was counted, nothing changed and no pair of the operands can be joined |
| ExprDups.Simplifier.Dups2 | scripts/config/expr.c:556-610 | the same, except that an m may become n or y; if nothing was counted, no pair of the operands is contradictory |
| ExprDups.Simplifier.EliminateDups | scripts/config/expr.c:612-634 | the loop computes the functional form of the two passes and ends; the value is kept wherever it is y or n, the tree does not grow, normal forms stay normal, trans_count is restored, and in the result no operands can be joined and none contradict |
| ExprDups.RoundEffect | scripts/config/expr.c:612-634 | a round that counted something is followed by a strictly smaller tree, one that did not has changed nothing |
| ExprDups.ContradictsValue | scripts/config/expr.c:556-610 | replacing a contradicted operand by the absorbing constant is right if and only if the junction is not m |
| ExprDups.JoinedPass | scripts/config/expr.c:504-554 | storing the join in one slot and the neutral constant in the other keeps the value of the tree around them |
| ExprSlots.PutPairValue | scripts/config/expr.c:504-554 | two operands of one junction may be exchanged for two others of the same joint value |
| ExprDupsExact.EliminateDupsOnYn | scripts/config/expr.c:612-634 | on y/n assignments the value is kept for every expression without m as an operand |
| ExprDupsExact.EliminateDupsFixes | scripts/config/expr.c:504-634 | the expressions expr_eliminate_dups leaves alone are exactly those in which no operands can be joined and none contradict |
| ExprDupsExact.EliminateDupsExact | scripts/config/expr.c:556-634 | if no round replaces a contradicted operand, the value is kept for all three values |
| ExprDupsExact.EliminateDupsAt | scripts/config/expr.c:556-634 | for each assignment: if no junction in which some round replaces an operand is m there, the value is kept, also if it is m; so of trees that are never m it always is |
| ExprDupsExact.EliminateDupsSharpens | scripts/config/expr.c:612-634 | in any case the result differs from the value only where that is m, and normal forms stay normal |
| ExprDupsLoss.EliminateDupsLoss | scripts/config/expr.c:556-634 | the exact account: at an assignment the value changes if and only if at one of the replacements the whole formula is m, the junction of the replaced operand is m, and the formula with the junction read as its absorbing constant is not m |
| ExprDupsLoss.TopLosesM | scripts/config/expr.c:556-634 | so a replacement among the operands of the formula itself loses its m whenever it is m |
| ExprDupsExact.EliminateDupsLosesM | scripts/config/expr.c:556-634 | with FOO=m and BAR=n, "FOO or BAR, and neither" is m; the pass, run on it, gives n, with one replacement |
| ExprCompare.TransCompareRounded | scripts/config/expr.c:877-936 | on every assignment the expression built for a comparison with y (n) compares the value that the expression has when each m is read as n (as y) |
| ExprCompare.TransCompareExact | scripts/config/expr.c:877-936 | so for whole trees it is right if and only if that rounding does not change whether the value is the one asked for |
| ExprCompare.TransCompareValue | scripts/config/expr.c:877-936 | the expression built for "e = y", "e != n" and so on is y exactly when the comparison holds, as long as no negated part of e is m; a corollary of the two rows above |
| ExprCompare.TransCompareOfNot | scripts/config/expr.c:877-936 | for a negation it is right if and only if what is negated is not m |
| ExprCompare.TransCompareMod | scripts/config/expr.c:877-936 | comparing a chain of NOTs above a tristate symbol or constant with m is right if and only if the number of NOTs is even, since each turns the relation round |
| ExprCompare.TransBoolVisible | scripts/config/expr.c:317-341 | on normal forms expr_trans_bool keeps whether the value is n and never raises it |
| ExprCompare.TransBoolNeedsNormal | scripts/config/expr.c:317-341 | !(FOO!=n) shows that it does not on others |
| ExprCompare.DependsSymbolBlocks | scripts/config/expr.c:797-824 | a dependency recognised as depending on a symbol is n whenever the symbol is n, also with every m in it read as y; which dependencies are recognised is fixed by ExprNestingExact.DependsExact |
| ExprNesting.Nests | scripts/config/menu.c:342-365 | gives the test of menu_finalize; an entry is nested below a symbol only if, with every m in the conditions read as y, its condition is n whenever the symbol and the condition of its prompt are n. Read as they are, this needs that no negated part of either condition is m, see NestedDefinite and NestedThoughInvisible. Which entries are nested for certain is stated by ExprNestingExact.OutrightNests, UnconditionalNests and CoveredNests |
| ExprNesting.NestedDefinite | scripts/config/menu.c:342-365 | where no negated part of either condition is m, a nested entry is n whenever the symbol and the condition of its prompt are n |
| ExprNesting.NestedThoughInvisible | scripts/config/menu.c:342-365 | elsewhere it need not be: "!A && (S || X)" is nested below S with the prompt condition A=n, but with A=m, S=n, X=y it is m and both others are n; a negated m is also what TransCompareOfNot fails at |
| ExprNesting.Prepared | scripts/config/menu.c:343-353 | the preparation of both conditions: compared with n, transformed and simplified |
| ExprNesting.PreparedValue | scripts/config/menu.c:343-344 | the prepared condition is y exactly when the condition, every m in it read as y, is not n; where no negated part is m that is when the condition itself is not n (ExprCompare.RoundedDefinite) |
| ExprNestingExact.DependsExact | scripts/config/expr.c:797-824 | recognised are exactly the dependencies with s, "s = y", "s = m" or "s != n" at some path among the operands of their AND |
| ExprNestingExact.ContainsExact | scripts/config/expr.c:772-795 | expr_contains_symbol finds exactly the symbols that occur in the expression |
| ExprNestingExact.OutrightNests | scripts/config/menu.c:342-365 | an entry with such an operand is nested, whatever the prompt of the symbol needs |
| ExprNestingExact.UnconditionalNests | scripts/config/menu.c:342-365 | below an entry whose prompt needs nothing an entry is nested if and only if its condition mentions the symbol |
| ExprNestingExact.CancelCovers | scripts/config/expr.c:130-184 | cancelling leaves y of the condition of the prompt if and only if all its operands occur as often in the dependency, and none is n |
| ExprNestingExact.CoveredNests | scripts/config/menu.c:342-365 | so the exact answer of the test for prepared conditions that are ANDs of atoms |
| ExprNestingExact.TransBoolExact | scripts/config/expr.c:317-341 | expr_trans_bool leaves no "s != n" of a tristate among the operands of the ANDs and ORs, and changes an expression only if there was one |
| SymbolEval.Solver.CalcExpr | scripts/config/expr.c:938-977 | evaluating an expression evaluates the symbols in it and gives the value under the specified values |
| SymbolEval.Solver.CalcVisibility | scripts/config/symbol.c:189-227 | stores the specified visibility and, for symbols that are no members, the specified select floor |
| SymbolEval.Solver.CalcTristate | scripts/config/symbol.c:339-384 | the tristate of a symbol, from its choice or from user value, defaults and selects, is the specified one; SYMBOL_WRITE is set exactly if the symbol does not just follow its choice and is visible, selected or has a default that applies |
| SymbolEval.Solver.CalcText | scripts/config/symbol.c:385-404 | so is the string of an int, hex or string symbol, and SYMBOL_WRITE is set exactly if it is visible or has a default that applies |
| SymbolEval.Solver.CalcDefault | scripts/config/symbol.c:115-125 | finds the first default that applies |
| SymbolEval.Solver.CalcChoiceDefault | scripts/config/symbol.c:235-259 | finds the first default that applies and is visible, else the first visible member |
| SymbolEval.Solver.CalcChoice | scripts/config/symbol.c:261-291 | picks the specified member, having computed the visibility of all members, and clears SYMBOL_DEF_USER of the choice exactly if some visible member has no user value |
| SymbolEval.Solver.ValidateRange | scripts/config/symbol.c:155-187 | gives the specified string forced into the first range that applies, which is the nearest number of that range (SymbolLaws.Nearest) |
| SymbolEval.Solver.CalcValue | scripts/config/symbol.c:293-440 | once SYMBOL_VALID is set the stored value is that of the recursive definition without flags or memory, which is the one solution of the equations of SymbolLaws, and SYMBOL_DEF_USER is as the definition says; a valid symbol is left alone; nothing at or above the rank of the symbol is touched except what its choice has to store; over all it evaluates on the way SYMBOL_WRITE ends up as defined: on each symbol that is no member exactly if its own value says so, on a member also if it was there before or its choice sets it |
| SymbolEval.Solver.CalcAll | scripts/config/symbol.c:293-440 | evaluating any symbols in any order gives each its specified value, leaves each the user flag it is to keep, and marks for writing what the definition says, so the order does not matter |
| SymbolEval.Solver.ClearAllValid | scripts/config/symbol.c:442-452 | clears SYMBOL_VALID everywhere but on the predefined symbols and those of type other, and nothing else |
| SymbolEval.Solver.SetTristateValue | scripts/config/symbol.c:493-527 | accepts exactly the current value and the values within range, which are those the symbol can take (SymbolLaws.AcceptedExactly, ChoiceAccepted and MemberAccepted); then the user value is set, with a member set to y also the pick of its choice and the user flags of the choice and its visible members, and everything is to be computed again from a consistent state |
| SymbolEval.Solver.SetThenCalc | scripts/config/symbol.c:474-527 | for plain symbols, members and choices: setting an accepted new value and evaluating again gives that value if and only if the limits of the symbol, or of its choice, under the user flags in memory at the call, admit it; outside choices in particular if nothing of lower rank has lost its user value. Which values are accepted is stated by the rows of SymbolLaws |
| SymbolLaws.AcceptedExactly | scripts/config/symbol.c:474-491 | a value of a boolean or tristate outside choices is within range if and only if its visibility is above what selects it and setting the value gives the value; so a visible option that nothing selects can be switched off |
| SymbolLaws.ChoiceAccepted | scripts/config/symbol.c:474-491 | the same for a choice with a visible member |
| SymbolLaws.MemberAccepted | scripts/config/symbol.c:474-491 | a member shown at y takes y alone, one shown at m all but y and then has the value set, a hidden one nothing |
| SymbolLaws.SpecSolves | scripts/config/symbol.c:293-440 | every value is what the declaration of its symbol makes of the final values of the others |
| SymbolLaws.RankingsAgree | scripts/config/symbol.c:293-440 | the values do not depend on the ranking by which they are defined |
| SymbolLaws.PromptLaw | scripts/config/symbol.c:189-208 | a symbol is as visible as its most visible prompt, m being y where m is not possible |
| SymbolLaws.SelectLaw | scripts/config/symbol.c:208-226 | the floor of a symbol is the final value of its select condition, m being y for booleans and without modules; members have none |
| SymbolLaws.ValueLaw | scripts/config/symbol.c:339-384 | the tristate is no less than the floor, and above that the user value up to the visibility, or without one the first default whose condition is not n, up to that condition |
| SymbolLaws.WrittenLaw | scripts/config/symbol.c:339-384 | a boolean or tristate sets its own SYMBOL_WRITE if and only if its choice does not decide about it and it is visible, selected, or no choice and some default applies |
| SymbolLaws.TextLaw | scripts/config/symbol.c:385-404 | without a range that applies the string is the one the user has set, if visible, or that of the first default that applies |
| SymbolLaws.RangeLaw | scripts/config/symbol.c:127-187 | with one, the number obtained lies in it, no number of it is nearer to the one wanted, and the text is kept if and only if it was in there; for bounds that survive being printed and read |
| SymbolLaws.Nearest | scripts/config/symbol.c:155-187 | the same for the single step of forcing a string into a range |
| SymbolLaws.EmptyRange | scripts/config/symbol.c:155-187 | with the bounds the wrong way round a number below the first becomes the first, any other the second |
| SymbolSetting.SetExact | scripts/config/symbol.c:339-384 | in the definition: a symbol outside choices gets the value it is set to if and only if the limits it has anyway, visibility and selects, admit the value; they do not move |
| SymbolSetting.SelectExact | scripts/config/symbol.c:493-527 | a member set to y is visible and y afterwards if and only if the user value of its choice, within the limits the choice has under the flags in memory, gives y and the member is visible to it; then the choice is y and picks it |
| SymbolSetting.SetChoiceExact | scripts/config/symbol.c:339-384 | a choice set to a value gets what its limits make of it, except that it cannot be y without a visible member |
| SymbolSetting.SetMemberExact | scripts/config/symbol.c:339-384 | a member set to n or m gets that value if it is shown at m; one decided by its choice, or hidden, keeps the value it has |
| SymbolSetting.SelectTakesEffect | scripts/config/symbol.c:493-527 | the case of SelectExact in which the choice is y and nothing below it has lost its user value: the choice stays y, picks the member and keeps its user flag, and the member is y |
| SymbolSetting.SetTakesEffect | scripts/config/symbol.c:474-491 | the case of SetExact in which no user value below the symbol has changed since the limits were computed: then every value within range becomes the value |
| SymbolExamples.ForgetfulSet | scripts/config/symbol.c:261-291 | the input at which an accepted value is not the one obtained: a choice that is y by the user and selected to m, with a visible member without user value, loses its flag when evaluated; y is then accepted for a symbol that depends on it, which becomes m |
| SymbolExamples.ForgetfulSelect | scripts/config/symbol.c:261-291 | the same for members: a choice c that depends on that choice is y, its second member is shown and y is accepted for it; afterwards c is m, picks nothing and the member is n |
| SymbolExamples.PairOk | scripts/config/symbol.c:261-291 | that configuration is well formed and has a ranking |
| SymbolSetting.InitialSettled | scripts/config/symbol.c:14-30 | the memory before anything is evaluated, only the predefined symbols valid, is one the theorems speak about |
| SymbolSetting.RereadSettles | scripts/config/confdata.c:245-268 | so is the memory after conf_reset and the reading of a file, whatever has been evaluated before under other user values |
| SymbolTheorems.SpecLocal | scripts/config/symbol.c:293-440 | the value of a symbol depends only on the user values of the symbols it ranks above |
| SymbolTheorems.ValuesWellTyped | scripts/config/symbol.c:293-440 | the values form a well-typed assignment, so the theorems on expressions apply to them |
| SymbolTheorems.MemberSees | scripts/config/symbol.c:235-291 | a member is as visible on its own evaluation as it was when its choice decided |
| SymbolTheorems.ChoiceMembers | scripts/config/symbol.c:261-383 | which visible members of a choice that is y are y, for members of any type: of those that may be y exactly the one picked; one that may only be m if and only if it has no user value and its default gives y |
| SymbolTheorems.ChoiceAtMostOne | scripts/config/symbol.c:261-383 | without defaults of members a visible member is y if and only if it is the pick and may be y: at most one, and exactly one if the pick may be y |
| SymbolTheorems.ChoiceExactlyOne | scripts/config/symbol.c:261-383 | so a choice of booleans that is y has exactly one visible member at y, the one it picked |
| SymbolTheorems.PickOrder | scripts/config/symbol.c:235-291 | the pick is the user's if visible, else the first applicable default that is visible, else the first visible member |
| DependencyCheck.Checker.CheckDeps | scripts/config/symbol.c:1255-1287 | the search ends, leaves SYMBOL_CHECK and the stack as they were, reports only real cycles, and otherwise has finished all that can be reached |
| DependencyCheck.Checker.CheckSymDeps | scripts/config/symbol.c:1184-1216 | the same for the expressions of one symbol, whichever of them returns early |
| DependencyCheck.Checker.CheckAll | scripts/config/symbol.c:1255-1287 | over all symbols: a cycle is reported if and only if there is one; no error is ever counted |
| DependencyCheck.SegmentIsPath | scripts/config/symbol.c:1081-1151 | the part of the stack from the symbol met again to the top is a cycle of dependencies |
| DependencyCheck.FinishedAcyclic | scripts/config/symbol.c:1255-1287 | if everything is finished in an order in which dependencies come first, there is no cycle |
| DependencyCheck.RankedExactly | scripts/config/symbol.c:1184-1216 | after a clean check of a configuration without choices, the ranking the evaluation relies on exists if and only if no symbol is reached, along what evaluations read, from one of its own unchecked needs: range bounds and direct dependency |
| DependencyCheck.CheckedIsRanked | scripts/config/symbol.c:1184-1216 | the order in which the check finishes is itself such a ranking when the unchecked needs lead to symbols that need nothing; RankedExactly has the exact condition |
| DependencyCheck.UncheckedRange | scripts/config/symbol.c:1200-1211 | the smallest configuration that fails it: one number whose range is bounded by itself; its check is clean, and no ranking exists |
| MenuModel.InheritedMeans | scripts/config/menu.c:315-331 | the conditions of a child mean those of its parent and its own together, wherever that is y or n; for symbols that cannot be m whether the prompt is n is kept; what is passed on is again a normal form |
| MenuModel.InheritedPlain | scripts/config/menu.c:327-331 | in the inherited condition of the prompt of a symbol that cannot be m no "s != n" of a tristate is left as an operand |
| MenuModel.CombinedMeans | scripts/config/menu.c:315-317 | the simplified conjunction of two conditions has the value of the two wherever that is y or n, and is a normal form |
| MenuModel.CombinedAt | scripts/config/menu.c:315-317 | and where they are m together as well, if no junction is m there in which the simplification replaces an operand |
| MenuModel.CombinedExact | scripts/config/menu.c:315-317 | in general it has that value at an assignment if and only if no step of the simplification loses an m |
| MenuFinalize.Inherit | scripts/config/menu.c:315-331 | in place, both conditions of a child become those |
| MenuFinalize.Propagate | scripts/config/menu.c:314-338 | the first loop does that for every child and touches nothing below them |
| MenuFinalize.AbsorbLoop | scripts/config/menu.c:342-366 | the siblings taken in are exactly the next ones, in order, up to the first that fails the test; each is finalized and given the new parent |
| MenuModel.NestListReasoned | scripts/config/menu.c:339-366 | whatever stands below an entry after nesting stood there before, or is nested for the reason stated at Nests: with every m read as y it is n whenever the entry and its prompt are |
| MenuModel.NestListOrder | scripts/config/menu.c:339-371 | nesting a whole list, entries that are taken in while they take in others included, keeps the order |
| MenuTree.Adopt | scripts/config/menu.c:367-371 | cutting the chain behind the last sibling taken in gives a list of children and the remaining siblings |
| MenuFinalize.AbsorbSiblings | scripts/config/menu.c:341-371 | the siblings taken in become the list of the entry and leave the list they were in |
| MenuTree.Lift | scripts/config/menu.c:415-424 | the children of an entry become the siblings that follow it, with its parent as theirs |
| MenuFinalize.Flatten | scripts/config/menu.c:375-425 | the last loop: the children moved up are walked through too, and the members are collected from the list it leaves |
| MenuModel.FlatAllFlat | scripts/config/menu.c:415-424 | afterwards no entry without a prompt text has children, also among those moved up |
| MenuModel.FlatAllPlaced | scripts/config/menu.c:339-424 | after flattening each entry is where it is for a reason: the one above, or the one for standing below an entry that keeps no children and is itself there for a reason |
| MenuFinalize.CollectMember | scripts/config/menu.c:376-414 | in place: a symbol below a choice becomes its last member unless it is a member already, and gets the additional condition exactly if the choice can be m and it cannot |
| MenuModel.CollectOk | scripts/config/menu.c:376-414 | a symbol stays a member of at most one choice, once; only members that cannot be m, of choices that can, get the additional condition, and each of them has it |
| MenuModel.CollectExtra | scripts/config/menu.c:400-407 | in each step: a symbol that cannot be m and becomes a member of a choice that can has its entry given the condition, which no other entry loses |
| MenuModel.NoChoiceNoMembers | scripts/config/menu.c:376-414 | below an entry that is no choice nothing is collected |
| MenuModel.OnlyBelow | scripts/config/menu.c:376-414 | below a choice only symbols that are there, and only by that choice |
| MenuModel.CollectEntryTaken | scripts/config/menu.c:375-425 | in the whole tree afterwards every symbol directly below a choice is a member of exactly one choice |
| MenuModel.ExtendedMeans | scripts/config/menu.c:392-407 | with the additional condition an entry is n unless the choice is y, and else as before |
| MenuFinalize.FinalizeList | scripts/config/menu.c:339-340 | the second loop finalizes each child once, although earlier ones take in later ones |
| MenuFinalize.Finalize | scripts/config/menu.c:282-425 | one call gives the entry the children, the remaining siblings and the members of the model, finalizes it, what is below it and what it takes in once each, and leaves the remaining siblings as they were |
| MenuFinalize.FinalizeTree | scripts/config/menu.c:282-425 | from the root: same order, each entry finalized exactly once, every entry in the list of its parent and there for a reason, nothing left to flatten; an entry with a prompt text and without children has the entry that follows it in the Kconfig file as its first child if that passes the test of ExprNesting.Nests; every entry has inherited the condition of the parent it had in the Kconfig file, with the additional one if it got that; the choices have the members of the model |
| MenuNesting.NestedForCertain | scripts/config/menu.c:339-374 | whatever else is nested and flattened around them: in the tree the parser has built, the entry following a childless one with a prompt text becomes its first child if it passes the test |
| MenuNesting.ListTakes | scripts/config/menu.c:339-374 | the same for the children of one entry before anything is flattened |
| MenuNesting.SiblingsStop | scripts/config/menu.c:345-371 | an entry goes on taking in its siblings until one does not pass the test |
| MenuNesting.OutrightNestsHere | scripts/config/menu.c:342-365 | the test is passed by every entry whose condition has the symbol, "s = y", "s = m" or "s != n" among the operands of its AND |
| MenuNesting.MentionNestsHere | scripts/config/menu.c:342-365 | below an entry whose prompt needs nothing, or that has none, by exactly those whose condition mentions the symbol |
| MenuModel.HiddenBelow | scripts/config/menu.c:306-338 | if the condition of a menu is n, so are dependency and prompt of everything below it, down to the choices |
| MenuModel.HidesBelow | scripts/config/menu.c:306-338 | what it is that hides: for a choice the choice at n, for an entry with a prompt the condition of the prompt, else its dependency |
| MenuWalk.Write | scripts/config/confdata.c:784-820 | the walk without a stack ends and visits exactly the recursive pre-order; whatever the flags are at its start, every symbol that is marked by then or gets its mark when calculated is written once, at its first entry, and no symbol of the tree stays marked |
| MenuWalk.WriteDefconfig | scripts/config/confdata.c:675-733 | the same walk for the minimal configuration: its lines are those of the full one less the ones skipped; a symbol skipped at one entry is not looked at again at another; what is skipped is fixed at ConfigSaveWalk.SaveMinimalExact |
| MenuWalk.KeptLines | scripts/config/confdata.c:688-714 | exactly the lines not skipped are kept |
| MenuWalk.KeptAppend | scripts/config/confdata.c:688-714 | and in their order: the kept lines of two runs of lines are those of the first, then those of the second |
| MenuWalk.MarkedStays | scripts/config/symbol.c:311-437 | calculating further symbols, early marks of members by their choice included, does not change what the walk will find marked; that these rules are those of the evaluator is ConfigSaveWalk.EvaluationMarks |
| MenuWalk.StartedMarks | scripts/config/confdata.c:784-785 | clearing all flags first, and calculating the modules symbol, leaves marked what the evaluation marks, which ConfigSaveWalk.EvaluationMarks takes from the evaluator, and members that were marked before |
| MenuWalk.LinesStarted | scripts/config/confdata.c:784-785 | so the lines are those of a walk before which nothing has been calculated |
| ConfigSaveWalk.EvaluationMarks | scripts/config/symbol.c:311-437 | evaluating everything anew leaves SYMBOL_WRITE on exactly the symbols the walk takes to be marked: those due by their own value, the visible members of each choice that is y, and members marked before; which members any other choice marks depends on visibilities computed earlier and is left open |
| MenuWalk.Climb | scripts/config/confdata.c:808-819 | climbing parents reaches the next entry of the pre-order, or the end |
| MenuWalk.LinesOnce | scripts/config/confdata.c:798-805 | the lines are without repetition and are those of exactly the marked symbols that have an entry |
| MenuWalk.LinesInOrder | scripts/config/confdata.c:784-820 | the lines come in the order in which their symbols first occur in the menus |
| SymbolRoundTrip.RoundTripExact | scripts/config/symbol.c:293-440 | a configuration whose user values are values of another one gives every symbol the same value if and only if each symbol, taken alone with everything below it unchanged, is reproduced: within its limits and range, or at its default |
| ConfigSaveLoad.SaveLoadExact | scripts/config/confdata.c:245-400 | from the evaluation through the printed file, heading and menus included, the reader and the evaluation again: all values are the same if and only if each is reproduced |
| ConfigSaveWalk.LinesListed | scripts/config/confdata.c:784-820 | when everything is calculated anew the walk writes each symbol at most once: every symbol with an entry that is due by its own value, every visible member of a choice that is y, and apart from these only members at n |
| ConfigSaveWalk.NotNoIsDue | scripts/config/symbol.c:339-435 | every boolean or tristate that is not n is due to be written, by itself or by its choice |
| ConfigSaveWalk.SaveExact | scripts/config/confdata.c:738-820 | conf_write and loading again gives all symbols their values if and only if each visible symbol that does not follow its choice has a value that could be set, and each choice comes back from the lines of its members |
| ConfigSaveWalk.SavePlain | scripts/config/confdata.c:738-820 | if all members of choices are booleans without defaults, choices at y always come back, from whatever flags the walk starts with; a choice at m does if and only if it is selected to m, and one at n unless it can be m and is selected to m |
| ConfigSaveWalk.SavedFile | scripts/config/confdata.c:245-820 | the whole way in one statement: from the flags conf_write finds, through the walk over the menu tree, the text with heading, menu frames and lines, the reader and the evaluation, all values are the same if and only if the visible ones could be set and the choices come back |
| ConfigSaveLoad.FullFile | scripts/config/confdata.c:784-820 | for one symbol: visible, not following its choice and with a line in the file, it is reproduced if and only if its tristate does not exceed visibility and selects, or its range leaves its text alone; otherwise it always is |
| ConfigSaveLoad.UserFits | scripts/config/symbol.c:339-375 | what the user has set always does, in booleans and tristates outside choices and in members shown at m |
| ConfigSaveChoices.ChoiceLoaded | scripts/config/confdata.c:381-400 | what the written file says of a choice: the most that any of its written members has, and that it counts as set by the user unless a member written as m follows one written as y |
| ConfigSaveChoices.PickLoaded | scripts/config/confdata.c:381-400 | and which member is selected: the last one written as y, if any |
| ConfigSaveChoices.ChoiceExact | scripts/config/confdata.c:381-400 | whatever lines there are, several members at y and a lost user flag included, a choice is reproduced if and only if the tristate that its written members give under its limits, and the pick that the last of them at y or else its defaults give, are its own |
| ConfigSaveChoices.ChoiceAtYes | scripts/config/confdata.c:381-400 | a choice at y is reproduced if and only if what is read gives y under its limits and the last member written as y, or in its absence the defaults, lead to its pick; in particular if its pick is that member and none written as m follows one written as y |
| ConfigSaveChoices.PlainKept | scripts/config/confdata.c:381-400 | for booleans without defaults: at y, if and only if the pick has a line, or being selected makes the choice y and its defaults give the pick |
| ConfigSaveChoices.ChoiceAtMod | scripts/config/confdata.c:381-400 | a choice at m, no member being written as y, is reproduced if and only if a member is written as m or the choice is selected to m: a choice has no line of its own |
| ConfigSaveChoices.ChoiceAtNo | scripts/config/confdata.c:381-400 | a choice at n, no member being written as y or m, is reproduced unless it can be m and is selected to m, which leaves it at n only while it would be y but has no visible member |
| ConfigSaveLoad.DefaultNotReproduced | scripts/config/symbol.c:339-375 | the input that fails: "tristate S if C, default y" with C=m makes S y, above its limit; it is written as y and comes back as m |
| ConfigSaveLoad.DefaultAboveLimitOk | scripts/config/symbol.c:339-375 | that configuration is well formed and has a ranking |
| ConfigSaveWalk.SaveMinimalExact | scripts/config/confdata.c:665-733 | conf_write_defconfig and loading again, with all three rules for skipping: all values are the same if and only if each visible symbol that is written could be set, each that is skipped has its value by default, and each choice comes back from the lines that are left |
| ConfigSaveWalk.SaveMinimal | scripts/config/confdata.c:665-733 | for one boolean or tristate: it has a line if and only if it can be changed and is not at its default; with a line it is reproduced under the same condition as in the full file, at its default it always is, and one that cannot be changed is unless it had a user value and its default gives more than what selects it |
| ConfigSaveLoad.ChangeableExactly | scripts/config/symbol.c:784-787 | outside choices sym_is_changable holds if and only if there are two values the user can set the symbol to |
| ConfigSaveWalk.MinimalChoice | scripts/config/confdata.c:698-716 | for a choice of booleans without defaults at y: its pick has a line unless it is what a choice that is not optional would pick by itself; without the line the choice comes back if and only if being selected is enough to make it y, so not if it is a tristate selected to m |
| ConfigSaveLoad.DefaultReproduced | scripts/config/symbol.c:694-756 | a symbol left out at the value sym_get_string_default gives is reproduced, a text if and only if its range does not change it |
| ConfigSaveLoad.UnchangeableReproduced | scripts/config/symbol.c:784-787 | a symbol left out because it cannot be changed is reproduced if and only if it had no user value or its default gives no more than what selects it |
| ConfigText.UnescapeQuoted | scripts/config/symbol.c:915-956 | removing escapes up to the closing quote undoes sym_escape_string_value, whatever follows |
| ConfigText.UnescapeOutcome | scripts/config/confdata.c:155-170 | the scan succeeds if and only if some quote has no odd number of backslashes before it, and leaves the string if and only if there is none and the string ends in an odd number of backslashes |
| ConfigText.LineRoundTrip | scripts/config/confdata.c:484-505 | the line printed for a bool, tristate, int, hex or string without end of line and NUL is taken apart into its name and a text that stores the value; which texts are numbers is fixed by the rows of ConfigNumerals |
| ConfigNumerals.NumberRoundTrip | scripts/config/confdata.c:171-184 | every number written for an int is stored again when its line is read |
| ConfigNumerals.IntTextExact | scripts/config/symbol.c:559-571 | the texts an int takes are the decimal numerals of the integers, and "-0" |
| ConfigNumerals.DecimalStored | scripts/config/confdata.c:171-184 | so the numeral of every integer is stored as it is, 0 included |
| ConfigNumerals.HexTextExact | scripts/config/symbol.c:572-580 | the texts a hex symbol takes are the numerals to base 16 in either case, zeros in front or not, after 0x, 0X or nothing |
| ConfigNumerals.HexStored | scripts/config/confdata.c:171-184 | so every number to base 16, of any width, is stored as it is, with 0x or without |
| ConfigGrammar.NotSetExact | scripts/config/confdata.c:323-333 | a line unsets a symbol if and only if it is a #, any character, the prefix, the name without a space, a space, and "is not set" with anything behind it |
| ConfigGrammar.AssignedExact | scripts/config/confdata.c:346-362 | a line gives a symbol a value if and only if it is no comment and is the prefix, the name without a =, a =, and the value, cut before the end of the line and a carriage return there |
| ConfigGrammar.FirstLetter | scripts/config/confdata.c:124-154 | of the value of a boolean or tristate only the first letter counts, and what each letter stores |
| ConfigGrammar.NulEnds | scripts/config/confdata.c:320-375 | what is behind a NUL in a line makes no difference |
| ConfigGrammar.EscapedExact | scripts/config/symbol.c:915-956 | escaping adds one character for each quote and backslash and leaves texts without them alone |
| ConfigGrammar.WrittenExample | scripts/config/confdata.c:440-505 | three lines letter by letter: a tristate at m, a boolean that is not set, a string with a quote |
| ConfigText.UnprintableLine | scripts/config/confdata.c:171-184 | a text of an int or hex symbol that is no number is written and taken apart as well, but rejected |
| ConfigText.FileRoundTrip | scripts/config/confdata.c:320-400 | reading a file of symbol lines, comments and blank lines stores exactly what the lines stand for, in the symbols and in their choices; a comment may be anything that is not taken for a line of a symbol, lines of just # included |
| ConfigText.WrittenRoundTrip | scripts/config/confdata.c:647-820 | a file as conf_write writes it, the heading first, gives back what its symbols stand for if the title, cut to the buffer of the heading, and the menus do not look like a line of a symbol |
| ConfigText.HeadingLines | scripts/config/confdata.c:647-659 | the heading has an empty line, the notice, the title cut to the buffer of 256, and an empty line unless the title fills it |
| ConfigGrammar.HeadingCut | scripts/config/confdata.c:647-659 | the heading is the notice and the title, all of it or its first 255 characters |
| ConfigText.FramePrinted | scripts/config/confdata.c:794-797 | the lines around the title of a menu are comments of that kind |
| ConfigText.FrameOk | scripts/config/confdata.c:794-797 | exactly the titles that are skipped as a comment may head a menu |
| ConfigText.CommentExact | scripts/config/confdata.c:323-333 | a comment line changes nothing, whatever the symbols are, if and only if it is skipped |
| ConfigText.TitleUnsets | scripts/config/confdata.c:323-345 | a menu called "CONFIG_FOO is not set" sets FOO to n when the file is read |
| ConfigText.ChoiceRestored | scripts/config/confdata.c:381-400 | reading leaves a choice y if some member is y, else m if some member is m; it loses its user flag if and only if a member is m after the choice was y |
| ConfigText.PickRestored | scripts/config/confdata.c:381-400 | the last member at y is the one selected |
| ConfigText.ChoiceReadBack | scripts/config/confdata.c:245-400 | a choice written as y, its other members unset, is read back into a reset configuration as y with that member selected |
| ConfigText.RestoredOnce | scripts/config/confdata.c:320-400 | in particular the last line of each symbol decides |
| ConfigBuffers.EscapeString | scripts/config/symbol.c:915-956 | the buffer of the computed size is filled by the quoted text and its NUL, exactly |
| ConfigBuffers.EscapedSpace | scripts/config/symbol.c:922-934 | the computed size is that of the quoted text and a NUL |
| ConfigBuffers.UnescapeInPlace | scripts/config/confdata.c:155-170 | the loop with memmove leaves the unescaped string in the buffer, finds a missing quote, or leaves the string behind a final backslash |
| ConfigBuffers.SetSymVal | scripts/config/confdata.c:120-188 | stores, ignores or rejects what the text-level definition says, for each type; what that stores is fixed by ConfigGrammar.FirstLetter and the rows of ConfigNumerals |
| ConfigBuffers.TakeLine | scripts/config/confdata.c:320-375 | cutting the line up with NULs gives the name and leaves the value in the buffer |
| ConfigBuffers.TakeComment | scripts/config/confdata.c:323-333 | takes a line "is not set" apart, and skips other comments |
| ConfigBuffers.LoadLine | scripts/config/confdata.c:320-400 | one line changes the stored values, and the choice of the member it sets, as the text-level definition says |
| ConfigBuffers.TrimLine | scripts/config/confdata.c:357-362 | the end of the line and a carriage return before it are cut off |
| ConfigBuffers.GetLine | scripts/config/confdata.c:190-243 | the growing buffer holds the next line and a NUL |
| ConfigBuffers.ReadConfig | scripts/config/confdata.c:320-400 | reads any file, NULs in it included, as the text-level definition does, and says whether it ends in a line of just # without an end of line; which lines set what is fixed by the rows of ConfigGrammar and ConfigNumerals |
| ConfigBuffers.ReadBack | scripts/config/confdata.c:738-820 | a printed file can be read by the program: no NUL, no such last line, and reading gives back what the items stand for |
| ConfigBuffers.PrintComment | scripts/config/confdata.c:507-526 | the loop over the text prints each of its lines behind a #, an empty one as just # |
| BuffaloCipher.Context.constructor | tools/firmware-utils/src/buffalo-lib.c:87-117 | the state after key setup, for every key and state length |
| BuffaloCipher.Context.Process | tools/firmware-utils/src/buffalo-lib.c:119-146 | encrypts from one place of a buffer to an overlapping earlier one as if they were apart, and leaves the rest alone |
| BuffaloCipher.Mix | tools/firmware-utils/src/buffalo-lib.c:107-114 | the key schedule on the array is the recursive one |
| BuffaloCipher.StateRearranged | tools/firmware-utils/src/buffalo-lib.c:104-146 | at every step the state is a rearrangement of its initial contents |
| BuffaloCipher.CryptBufTwice | tools/firmware-utils/src/buffalo-lib.c:154-178 | the cipher applied twice gives the text back, in both state modes |
| BuffaloCipher.BcryptBuf | tools/firmware-utils/src/buffalo-lib.c:154-178 | the method does what the definition says |
| BuffaloCipher.KnownAnswer | tools/firmware-utils/src/buffalo-lib.c:87-178 | a worked example: the six bytes of the key stream for the seed 3, the key 01 and a state of six bytes |
| BuffaloContainer.BuffaloCsum | tools/firmware-utils/src/buffalo-lib.c:180-193 | the checksum with its signed bytes |
| BuffaloContainer.CsumAppend | tools/firmware-utils/src/buffalo-lib.c:180-193 | the checksum of a text continues that of its first part |
| BuffaloContainer.CsumExamples | tools/firmware-utils/src/buffalo-lib.c:180-193 | its values for single bytes with and without a sign, and the length it starts with |
| BuffaloContainer.DecodeEncode | tools/firmware-utils/src/buffalo-lib.c:261-415 | unpacking what was packed recovers magic, seed, names, data and checksum, whatever padding follows and whatever the buffers held before |
| BuffaloContainer.Layout | tools/firmware-utils/src/buffalo-lib.c:261-321 | where everything is in a packed image, which seed each part is encrypted with, and that numbers have their high byte first |
| BuffaloContainer.FieldsExact | tools/firmware-utils/src/buffalo-lib.c:250-415 | what can be packed and unpacked: the magic "start" or "asar1", names of up to 32 and 8 bytes, the checksum of the data |
| BuffaloContainer.EncodeDecode | tools/firmware-utils/src/buffalo-lib.c:323-415 | only files that start with the packed form of what is unpacked are accepted; for names of length 0, which the packer never writes, with what the buffers held before as the next key |
| BuffaloContainer.HeaderSize | tools/firmware-utils/src/buffalo-lib.c:212-216 | enc_compute_header_len is the length of the header |
| BuffaloContainer.EncryptBuf | tools/firmware-utils/src/buffalo-lib.c:261-321 | the buffer ends up with the packed image and is unchanged behind it |
| BuffaloContainer.EmitCrypted | tools/firmware-utils/src/buffalo-lib.c:280-291 | a name is put with its length and encrypted where it lies; its first byte is the next seed |
| BuffaloContainer.ReadHeader | tools/firmware-utils/src/buffalo-lib.c:347-386 | the checks and the fields of the header, each bound exactly as in the format |
| BuffaloContainer.DecryptData | tools/firmware-utils/src/buffalo-lib.c:387-399 | the data is decrypted to the front of the buffer it is in; the checksum behind it is still the one stored |
| BuffaloContainer.DecryptBuf | tools/firmware-utils/src/buffalo-lib.c:323-415 | returns 0 exactly for the files that can be unpacked, with all fields set and the data at the start of the buffer, and -1 for all others |
| Md5.Context.Update | tools/firmware-utils/src/md5.c:122-155 | adds the bytes to the message, keeping the 64-bit count of bits in two words and the unfinished block |
| Md5.Context.Take | tools/firmware-utils/src/md5.c:140-154 | one more byte: the waiting bytes grow by it, or the full block goes into the state |
| Md5.Context.Final | tools/firmware-utils/src/md5.c:160-199 | the digest of the message under the padding, length and block rules of RFC 1321 |
| Md5.DigestOfPieces | tools/firmware-utils/src/md5.c:105-199 | however a message is cut into pieces, the digest is that of the whole |
| Md5.CountBits | tools/firmware-utils/src/md5.c:134-138 | the carry test adds the length in bits modulo 2^64 |
| Md5.LastBlock | tools/firmware-utils/src/md5.c:169-186 | padding, then what waits with the length as the last block, is the padded message |
| Md5.PaddedExact | tools/firmware-utils/src/md5.c:160-186 | what is hashed: the message, the byte 80, as few zeros as fill whole blocks with the length, and the number of bits modulo 2^64, low byte first |
| Md5.InitialBytes | tools/firmware-utils/src/md5.c:105-116 | the initial state: if blocks changed nothing the digest would be 01 23 45 67 89 ab cd ef fe dc ba 98 76 54 32 10 |
| Md5.BlockBytes | tools/firmware-utils/src/md5.c:181-198 | words are read from a block and written to the digest low byte first and in order: if a block put four words of its own into the state, the digest would be the bytes of the last block |
| Crc.TableStep | tools/firmware-utils/src/mkbrnimg.c:55-62 | one table step does what feeding the eight bits of the byte does, for every polynomial |
| Crc.Table.constructor | tools/firmware-utils/src/mkbrnimg.c:40-53 | the table holds eight shifts of every byte |
| Crc.Table.Crc32Buf | tools/firmware-utils/src/mkbrnimg.c:55-62 | the result is the CRC computed bit by bit, for every polynomial and buffer; what that is, is fixed by the rows below |
| Crc.ReferenceOfNothing | tools/firmware-utils/src/mkbrnimg.c:55-62 | the CRC of nothing is 0, for every polynomial |
| Crc.ReferenceOfOne | tools/firmware-utils/src/mkbrnimg.c:55-62 | the CRC of the byte 7f, for every polynomial: the polynomial with its eight highest bits turned over |
| Crc.Residue | tools/firmware-utils/src/mkbrnimg.c:55-62 | a message followed by its CRC, low byte first, leaves the register at one constant, for every polynomial and message |
| Crc.DetectsExactly | tools/firmware-utils/src/mkbrnimg.c:38-62 | changing up to four consecutive bytes of a message always changes its CRC if and only if the highest bit of the polynomial is set |
| Crc.ReferenceIsWord | tools/firmware-utils/src/mkbrnimg.c:55-62 | the bitwise CRC over unbounded numbers stays within the 32 bits of the program, for every polynomial and buffer |
| Crc.DefaultPolynomial | tools/firmware-utils/src/mkbrnimg.c:38-42 | on a little-endian host the default is the polynomial of section 8 of RFC 1952 |

## Left out

Expressions:

- Expressions of the types E_RANGE, E_LIST and E_NONE, nodes shared between trees, `expr_simplify_unmet_dep`,
  `expr_compare_type` and printing.
- Join, Extract, TransCompare and TransBool: are functions on values, also where the program frees and
  relinks nodes in place; the slots that expr_eliminate_dups passes around are paths into one tree.
- ExprNodes.Node.EliminateYn: freeing of nodes is not modelled; a node dropped from the tree is just no longer
  reachable.
- ExprCompare.TransCompareValue: for comparing with y or n only; a junction compared with m stays as it is, which no
  caller asks for, and TransCompareMod covers the rest.

Symbols:

- SymbolEval.Solver.CalcValue: the value of the modules symbol is a parameter, so it does not change during an
  evaluation; SYMBOL_CHANGED, SYMBOL_AUTO, the choices' SYMBOL_NEED_SET_CHOICE_VALUES and the random modes are not
  part of the state; strtoll and sprintf are parameters; warnings are not modelled. The list of properties is split
  by kind, each part in order, and a member's prompt is taken to mention its choice, which menu_finalize sees to.
- DependencyCheck.Checker.CheckAll: the branch of sym_check_deps for choices and their members, and the printed
  text of a cycle.

Menu tree:

- MenuFinalize.FinalizeTree: reverse dependencies of selects, direct dependencies, the types that choices and
  members take from each other, warnings, and properties other than the prompt, which inherit and are given the
  additional condition in the same way.
- MenuModel.InheritedMeans: the condition of the root is taken to be a normal form; it is empty in the program.
- MenuModel.HiddenBelow: with the same normal form, and about the conditions without the additional one, which
  can only lower them.
- How the parser builds the tree (`menu_add_entry` and the like) is not part of this model; the tree it builds is
  the starting point.
- MenuWalk.Write: what sym_calc_value does is reduced to the two flags the walk looks at, and the symbols a
  calculation reaches are a parameter; ConfigSaveWalk.EvaluationMarks ties the marks to the evaluator.
- ConfigSaveWalk.SaveExact: the configuration has been calculated anew, as it is when nothing has changed since it
  was loaded or saved (scripts/config/confdata.c:784-785).
- ConfigSaveWalk.EvaluationMarks: which members a choice that is not y marks is not determined by the values; the
  theorems hold for each possibility, since such members are n.
- ConfigSaveWalk.SaveMinimal: for booleans and tristates; int, hex and string symbols are covered by SaveMinimalExact
  and DefaultReproduced.

Config files:

- ConfigBuffers.UnescapeInPlace: when a backslash is the last character of the line, the program goes on scanning
  behind the string; the model stops there and says so.
- ConfigBuffers.ReadConfig: at a last line of just # without an end of line the program looks at what the line
  before has left in the buffer; the model reports such a line and stores nothing for it.
- ConfigText.LineRoundTrip: the prefix is a parameter, as it comes from the environment. auto.conf's creation of
  symbols, `conf_read`'s counting of unsaved values, and the header and tristate printers are left out.
- ConfigText.FrameOk: titles have no end of line in them, since the Kconfig parser reads no strings over more than
  one line.

Firmware tools:

- BuffaloCipher.Context.constructor: memory is always available; the program can fail to get it.
- BuffaloContainer.EncryptBuf: the data follows the header in the same buffer, as in the one program that calls it.
- BuffaloContainer.BuffaloCsum: a char is taken to be signed, as on the hosts the tool is used on.
- Md5.Context.Final: the 64 steps on one block are a parameter; proving their constants would say nothing.
- `buffalo_crc` and the tags of the Buffalo formats, file access, options, and the other firmware writers.
- Everything that draws menus on the terminal, regular expressions, and the scripts around the build.
