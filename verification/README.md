# Verified models of the course toolkit

This project models five parts of the repository in Dafny and proves what they are for.

1. **Kconfig** (`nemu/tools/kconfig`): the expression simplifier, the cycle check and the memoised
   evaluation of symbols, the restructuring of menus, and the escaping of string values.
   Modules `Expressions`, `Equality`, `Joins`, `Paths`, `Duplicates`, `Identity`, `Shapes`,
   `Transformation`, `Dependencies`, `SymbolGraph`, `SymbolValues`, `MenuTree`, `MenuLinks`,
   `MenuSteps`, `MenuFinalize`, `StringValues`; laws in `EvaluationLaws`, `SubmenuLaws`, `ValueLaws`,
   `MenuLaws`, `EscapeLaws`.
2. **MiniRV** (`abstract-machine/tools/minirv`): the assembler macros that rebuild RV32I from eight
   base instructions, on a machine with registers, byte memory and a program counter. Modules
   `Words`, `ShiftMath`, `MiniRv`, `MiniRvArith`, `MiniRvBranch`, `MiniRvShift`, `MiniRvProgram`,
   `MiniRvTables`; laws in `MiniRvLaws`.
   The reference is the RISC-V Unprivileged ISA, sections 2.4 to 2.6.
3. **64-bit arithmetic** (`abstract-machine/klib/src/int64.c` and libgcc's `longlong.h` and
   `multi3.c`). Modules `Words64`, `Division64`, `Runtime64`, `BitCounts`, `LongArithmetic`.
4. **x86 page tables** (`abstract-machine/am/src/x86/qemu/vme.c`, the 32-bit configuration; Intel SDM
   volume 3A, section 4.3). Modules `PageState`, `Teardown`, `VirtualMemory`, `VirtualMemoryRuns`;
   laws in `MappingLaws`.
5. **klib text** (`abstract-machine/klib/src/stdio.c`, `stdlib.c`, `ctypes.c`). Modules `Numbers`,
   `FormattedOutput`; laws in `TextLaws`.

`dafny verify dfyconfig.toml` checks everything.

## How the models are built

Loops and methods are proved against specification functions. What these functions mean is said once
more, without them, in the modules called laws and in `Shapes`: which default is the first to apply,
which instruction a link leads back to, which texts a conversion writes, and so on.

*Kconfig.* The shape of an expression is what is left of it without the order and the grouping of
operands; an expression is clean if y and n are not operands in it. `Value` evaluates an expression
under an assignment, which gives bool and tristate symbols values (n < m < y) and all other symbols
texts; the value of such a symbol, an undeclared one among them, is n whatever its text, while
comparisons go by the text. `Stands(a, b)` says that `b` has the value of `a` under every assignment
in which no literal that a tristate symbol is tested for with `=` or `!=` reads as one of the
numbers 0, 1 and 2, and that `b` keeps this condition. In-place simplification is the class
`Simplifier`: `expr_eliminate_dups1` gets two paths into one tree, so that the two arguments can be
the same node, as in the source. A symbol's values are a `Solution` of one equation for each symbol;
acyclicity, which the cycle check certifies, makes the solution unique, and the memo with its valid
flags is proved to hold only values of the solution. Menus are arrays of `next`, `list` and `parent`
pointers, and `Spells` says which forest they spell; the outcome of each dependency test is a
parameter, so the structural results hold for every outcome.

*MiniRV.* The class `Cpu` has registers, byte memory and a program counter, and one method for each
of the eight base instructions of `nemu/src/isa/riscv32/inst.c:65-79`: `Lui`, `Jalr`, `Lw`, `Lbu`,
`Sb`, `Sw`, `Addi` and `Add`; the link of `Jalr` is its own address plus 4. These definitions are
the semantics everything else is proved over. Each macro is a method that issues the macro's
instructions one by one. Ghost fields of `Cpu` keep the seven scratch words below sp and the memory
of the program apart; `_check_same_array` may hold anything at any time. The assumptions at the head
of `inst-replace.h` (tp and gp unused, nothing live below sp) and the separation of tables, scratch
words and data are requirements; `MiniRvTables` shows that the generated tables meet them wherever
they are put.

A program is a sequence of instructions with the addresses at which their translations start.
`Step` is the instruction set's own semantics; its place is an index into the program, so an
instruction for which a macro emits nothing is still executed once. Behind straight-line code the
machine's program counter is set to the next start address. `Related` lets memory differ where the
source program may not look: in the stack below sp, in `_check_same_array`, and in stack words that
were taken up again and not yet written.

*Arithmetic.* Words are bounded naturals; every wrap-around is written out, and every shift has the
range of its amount as a requirement. Bit operators are defined digit by digit.

*Page tables.* The memory maps page numbers to tables of 1024 entries. A ghost map names for each
table page the one pointer or slot that owns it. `pgalloc` may return any page that holds no table,
or fail; a failed allocation, which the ghost field `exhausted` records, and the source's other panics
end a run.

*Text.* `Formatted` is the whole text a format string asks for. The class `Output` emits it
character by character into a bounded buffer.

## What was found

- `expr_join_and` merges `(a = C) && (a != D)` to `a = C` because constants differ as symbols
  (expr.c:539-553). Comparisons with a literal that reads as a number are numeric, so `"2"` is a second
  spelling of `y` (`NumericLiteralBreaksJoin`). A join under `&&` is right for all values of the symbols
  if and only if it does not merge two spellings of one value (`JoinAndExact`, `EqualAndUnequalExact`);
  a join under `||` is always right (`JoinOrSound`).
- The comment at expr.c:569 says that `(a != m) && (a != n)` becomes `a = m`; the code makes it `a = y`,
  which is right, and the model follows the code. The comment over `expr_trans_compare` reads `!A` as
  `A = n`, which is not so for `A = m` (`TransCompareNegatedSymbol`).
- `expr_trans_bool` loses "is n" for `!(FOO!=n)` with `FOO=m` (`NegatedTestBreaksTransBool`). It keeps
  it whenever no rewritten test of a symbol that is m stands below an odd number of negations
  (`TransBoolKeepsNo`), which for a single test is exact (`TransBoolTestExact`). Its only call
  (menu.c:405) comes behind `expr_transform` and `expr_eliminate_dups`, and there it is always right
  (`PropagateCondition`).
- `expr_trans_compare` compares the symbols of an expression and not its value. For every assignment the
  result is the comparison of the value that one gets by taking each symbol for y or n by its text
  (`TransCompareRounds`), and it is right for the value itself exactly where this does not change whether
  the value is the constant (`TransCompareExact`). There are two ways to go wrong: a negated operand
  that is m (`TransCompareNegatedSymbol`), and an operand whose text does not say its value, such as an
  undeclared symbol FOO: it is n, and `FOO!=n` is y (`TransCompareSymbol`,
  `UndeclaredBreaksTransCompare`).
- `expr_depends_symbol` likewise goes by text: a string symbol S with the text "y" is n, and `S=y`,
  which is found to depend on it, is y (`TextBreaksDependsSymbol`). What is found to depend on a symbol
  is n exactly when the symbol's text is "n" (`DependsSymbolExact`); for bool and tristate symbols that
  means that the symbol is n.
- `expr_eq` promises to see through the order and the grouping of operands. On clean expressions it tells
  exactly whether two have the same shape (`ExprEqExact`), and for levels of clean operands it holds that
  those with the same operands are equal (`PermutedLevels`). With y or n among the operands deeper down
  it goes wrong: it is no longer transitive there, and one level is found different from itself in
  another order (`OrderMattersWithConstants`).
- The test of menu.c:472-491 for a condition that implies the prompt's goes by operands of an outermost `&&`
  (`SupersetTestExact`): a condition equal to the prompt's that is no `&&` passes only if it is y. And
  `expr_eliminate_dups` may have joined an operand of the prompt's condition with another one of the
  entry's, which then is not put below the symbol although all of the prompt's condition is among its
  dependencies (`LostCondition`). Where nothing joins, the test is exact (`GoesBelow`).
- `sym_set_tristate_value` skips the range test when the value is the current one; the value
  then stays only under the condition of `SettingSameValue`, and `SettingSameValueCanFail` has a symbol
  that is y, is set to y, and is m afterwards.
- `__divdi3` is right for all operands but INT64_MIN by -1, where the quotient wraps; `__divmoddi4`
  and `__moddi3` have the right remainder even then.
- A string value survives a configuration file exactly when it holds no line feed (`LineRoundTrip`).
- `strtol` accepts no sign. What `%d` writes is read back if and only if the number is not negative
  (`SignedConversionReadsBack`); a negative one is read as 0 (`NegativeReadsZero`).

## Model

| member | source | states |
|---|---|---|
| Equality.EliminateYnKeepsValue | nemu/tools/kconfig/expr.c:316-397 | removing constants keeps the value of every expression under every assignment |
| Equality.EliminateYnRemovesAll | nemu/tools/kconfig/expr.c:316-397 | no y or n remains under and/or; where there was one the tree gets strictly smaller, otherwise nothing changes (this ends the loop of expr_eliminate_dups) |
| Equality.CancelEqualMeaning | nemu/tools/kconfig/expr.c:150-219 | both inputs are their outputs combined with one common value c under the operator |
| Equality.EliminateEqMeaning | nemu/tools/kconfig/expr.c:221-250 | each assignment has one monotone function (a clamp) that takes both outputs to both inputs |
| Equality.ExprEqSound | nemu/tools/kconfig/expr.c:252-303 | expressions found equal have equal values under every assignment, although the comparison cancels operands through expr_eliminate_eq |
| Equality.SupersetTestSound | nemu/tools/kconfig/menu.c:472-491 | if cancelling leaves y of the second expression, the first never exceeds the second |
| Identity.ExprEqReflexive | nemu/tools/kconfig/expr.c:252-303 | every expression is found equal to itself, through the whole cancellation of operands |
| Identity.NoRepeatedOperand | nemu/tools/kconfig/expr.c:664-687 | no two operands of a simplified and/or are the same expression |
| Shapes.ExprEqExact | nemu/tools/kconfig/expr.c:252-303 | on clean expressions two are found equal if and only if they differ in the order and grouping of operands only |
| Shapes.PermutedLevels | nemu/tools/kconfig/expr.c:207-208 | two levels with the same clean operands are found equal in any order and grouping, also with y and n among them |
| Shapes.Commutes | nemu/tools/kconfig/expr.c:207-208 | `a op b` and `b op a` are found equal |
| Shapes.Regroups | nemu/tools/kconfig/expr.c:207-208 | so are both groupings of three operands |
| Shapes.OrderMattersWithConstants | nemu/tools/kconfig/expr.c:178-219 | a concrete level that is not found equal to itself in another order, with y and n deeper down |
| Shapes.CancelLevels | nemu/tools/kconfig/expr.c:178-219 | one pass takes exactly the common operands out of two levels, as multisets |
| Shapes.NoPermutedOperands | nemu/tools/kconfig/expr.c:664-687 | no two clean operands of a simplified level differ in order and grouping only |
| Shapes.SupersetTestExact | nemu/tools/kconfig/menu.c:472-491 | for clean conditions y is left exactly if the second is y, or the first is an && with all operands of the second |
| Joins.JoinOrSound | nemu/tools/kconfig/expr.c:431-493 | a joined pair under or has the value of the pair, under every assignment |
| Joins.JoinAndSound | nemu/tools/kconfig/expr.c:495-587 | a joined pair under and has the value of the pair, unless it merges two spellings of one value |
| Joins.JoinAndExact | nemu/tools/kconfig/expr.c:495-587 | whatever the join returns is right for all values of the symbols if and only if it merges no equality and inequality whose constants are two spellings of one value |
| Joins.EqualAndUnequalExact | nemu/tools/kconfig/expr.c:539-553 | the merge of an equality with an inequality is right for all values of the symbol if and only if the two constants do not read as the same one of n, m and y |
| Joins.NumericLiteralBreaksJoin | nemu/tools/kconfig/expr.c:539-553 | a concrete expression whose value the merge changes |
| Joins.TestsJoin | nemu/tools/kconfig/expr.c:459-570 | of a tristate symbol, two equalities under or become an inequality with the third value, and two inequalities under and an equality with it, in any order |
| Joins.OppositeTestsJoin | nemu/tools/kconfig/expr.c:539-553 | `s=a && s!=b` becomes `s=a`, and n for the same constant |
| Joins.SymbolJoinsTest | nemu/tools/kconfig/expr.c:524-537 | a symbol and a test of itself under && become one of the two |
| Joins.ComplementJoins | nemu/tools/kconfig/expr.c:479-483 | a bool symbol or its negation is y |
| Paths.JoinStands | nemu/tools/kconfig/expr.c:628-647 | replacing two operands anywhere in one tree by the constant and their join keeps the meaning of the tree |
| Duplicates.Simplifier.JoinLeaves | nemu/tools/kconfig/expr.c:596-613 | walking one tree against itself keeps its meaning, leaves a constant behind whenever it changed anything, and changes nothing exactly when no pair joins |
| Duplicates.Simplifier.JoinPair | nemu/tools/kconfig/expr.c:615-651 | one pair of operands, or one operand against itself and its own nested operators; a pair that joins is replaced by the constant and the join, and nothing else changes |
| Duplicates.Simplifier.EliminateDups | nemu/tools/kconfig/expr.c:664-687 | the loop ends, keeps the meaning and the normal form; the result is the same tree if no pair of it joined, and otherwise a smaller one without constants; it has no pair left to join at any depth |
| Transformation.TransformKeepsValue | nemu/tools/kconfig/expr.c:694-849 | the value under every assignment is kept (the definition shows that the rewriting ends, by a weight that grows under not) |
| Transformation.TransformNormal | nemu/tools/kconfig/expr.c:694-849 | not is left only on plain symbols, and comparisons with constants of boolean symbols are gone |
| Transformation.TransformFixedPoint | nemu/tools/kconfig/expr.c:694-849 | an expression is unchanged if and only if it is in that normal form |
| Transformation.TransformIdempotent | nemu/tools/kconfig/expr.c:694-849 | a second pass changes nothing |
| Transformation.JoinNormal | nemu/tools/kconfig/expr.c:431-587 | joining two expressions in normal form gives one in normal form |
| Transformation.TransformStands | nemu/tools/kconfig/expr.c:694-849 | the pass introduces no comparison that reads as numeric |
| Transformation.NormalMeaning | nemu/tools/kconfig/expr.c:694-849 | the normal form is that at no depth there is a negation of anything but a symbol, or a test of a bool symbol for y, m or n |
| Transformation.NotNot | nemu/tools/kconfig/expr.c:760-770 | two negations cancel |
| Transformation.TransBoolKeepsNo | nemu/tools/kconfig/expr.c:402-426 | the result is n exactly when the expression is, and never exceeds it, unless a rewritten test of a symbol that is m stands below an odd number of negations |
| Transformation.TransBoolPolarity | nemu/tools/kconfig/expr.c:402-426 | below an even number of negations the rewriting lowers values and keeps n, below an odd number it raises them and keeps y |
| Transformation.TransBoolTestExact | nemu/tools/kconfig/expr.c:402-426 | for one test below any number of negations "is n" is kept if and only if that number is even or the symbol is not m |
| Transformation.NormalNegatesNoTest | nemu/tools/kconfig/expr.c:402-426 | expressions in normal form meet the condition under every assignment |
| Transformation.NegatedTestBreaksTransBool | nemu/tools/kconfig/expr.c:402-426 | a concrete expression for which "is n" is lost |
| Transformation.TransBoolRemovesTests | nemu/tools/kconfig/expr.c:402-426 | no test against n is left at any depth, and an expression without one is not changed |
| Transformation.TransCompareExact | nemu/tools/kconfig/expr.c:922-985 | for every expression and assignment, the result is the truth of comparing the value with y or n if and only if taking symbols for y or n by their texts makes no difference to that comparison; which is so when texts say what values are and no negated operand is m |
| Transformation.TransCompareRounds | nemu/tools/kconfig/expr.c:922-985 | for every expression and assignment the result is the truth of the comparison for the value with every symbol taken for y or n by its text |
| Transformation.NegatesNoMHolds | nemu/tools/kconfig/expr.c:922-985 | that condition holds of every expression without not, and of every one under an assignment without m |
| Transformation.TransCompareNegatedSymbol | nemu/tools/kconfig/expr.c:953-955 | for a negated symbol the result is right if and only if a bool or tristate symbol is not m, and the text of any other symbol is "n" (against n) or not "y" (against y) |
| Transformation.TransCompareSymbol | nemu/tools/kconfig/expr.c:977-978 | for a symbol alone the result is right if and only if it is bool or tristate, or its text is "n" (against n) or not "y" (against y) |
| Transformation.UndeclaredBreaksTransCompare | nemu/tools/kconfig/symbol.c:358-361 | an undeclared symbol is n and its comparison with n says that it is not |
| Transformation.PreparedAnd | nemu/tools/kconfig/menu.c:456-458 | the prepared form of an && has the prepared forms of its operands as operands |
| Dependencies.ValueWithoutSymbol | nemu/tools/kconfig/expr.c:851-877 | the value does not depend on a symbol that the search does not find |
| Dependencies.ContainsSymbolFinds | nemu/tools/kconfig/expr.c:851-877 | the search finds a symbol exactly if it stands somewhere in the expression, alone or in a test |
| Dependencies.DependsSymbolSound | nemu/tools/kconfig/expr.c:879-911 | an expression found to depend on a symbol is n whenever the symbol's text is "n", which for a bool or tristate symbol is whenever the symbol is n |
| Dependencies.DependsSymbolExact | nemu/tools/kconfig/expr.c:879-911 | for every symbol of any type, all expressions found to depend on it are n if and only if its text is "n" |
| Dependencies.DependsSymbolFinds | nemu/tools/kconfig/expr.c:879-911 | the search accepts exactly if `s`, `s=y`, `s=m` or `s!=n` is an operand of the outermost && |
| Dependencies.TextBreaksDependsSymbol | nemu/tools/kconfig/expr.c:879-911 | a string symbol that is n and an expression found to depend on it that is y |
| Dependencies.RewriteMMeaning | nemu/tools/kconfig/menu.c:82-105 | m means m with modules and n without |
| EvaluationLaws.RewritesEveryM | nemu/tools/kconfig/menu.c:82-105 | no m is left that stands for itself, at any depth |
| Dependencies.PropagateDependency | nemu/tools/kconfig/menu.c:356-360 | a child's dependency becomes the parent's and its own rewritten one, under every assignment, with nothing left to join, and in normal form if the parent's is |
| Dependencies.PropagateCondition | nemu/tools/kconfig/menu.c:400-406 | the condition of a child's property becomes the menu's dependency and its own rewritten one; for a symbol that is not tristate it is n exactly when they are, through expr_trans_bool |
| Dependencies.VisibleTest | nemu/tools/kconfig/menu.c:456-458 | the prepared dependency is y exactly where the original, with every symbol taken for y unless its text is "n", is not n; that is where the original is not n as long as texts say what values are and no negated operand is m |
| Dependencies.GoesBelow | nemu/tools/kconfig/menu.c:462-491 | an entry moved below a symbol of any type is visible only where the symbol's prompt is visible or the symbol's text is not "n"; every entry with a direct test of the symbol among its operands is moved; the test of the two simplified conditions is exact when they are clean |
| SubmenuLaws.LostCondition | nemu/tools/kconfig/menu.c:456-491 | a concrete entry that mentions the symbol, has the whole condition of the prompt among its operands, and is not put below |
| SymbolGraph.OrderHasNoCycle | nemu/tools/kconfig/symbol.c:1250-1279 | a symbol in the order in which the search finished lies on no cycle |
| SymbolGraph.EdgeMeaning | nemu/tools/kconfig/symbol.c:1165-1211 | the edges of the graph are exactly the symbols named in dir_dep, rev_dep, implied, the conditions of properties other than select, imply and choice, and the values of defaults |
| SymbolGraph.IrrelevantParts | nemu/tools/kconfig/symbol.c:1186-1195 | the value of a property that is no default, and all of a select, imply or choice, make no edge |
| SymbolGraph.SameCycles | nemu/tools/kconfig/symbol.c:1165-1211 | declarations with the same edges have the same cycles |
| SymbolGraph.DeclarationIsNoCycle | nemu/tools/kconfig/menu.c:61-62 | the entry that declares a symbol names the symbol and is no cycle |
| SymbolGraph.Checker.CheckExprDeps | nemu/tools/kconfig/symbol.c:1130-1162 | every symbol of an expression is searched; a symbol returned lies on a cycle |
| SymbolGraph.Checker.CheckSymDeps | nemu/tools/kconfig/symbol.c:1165-1211 | all five kinds of dependencies are searched, and no other property value; a symbol returned lies on a cycle |
| SymbolGraph.Checker.CheckDeps | nemu/tools/kconfig/symbol.c:1250-1279 | the flags CHECK and CHECKED drive a depth-first search that ends and restores CHECK |
| SymbolGraph.CheckAll | nemu/tools/kconfig/symbol.c:1250-1279 | checking all symbols reports nothing if and only if no symbol lies on a cycle; every report names a symbol on a cycle; no CHECK flag is left; otherwise a topological order exists |
| SymbolValues.RanksFromOrder | nemu/tools/kconfig/symbol.c:1130-1211 | a graph accepted by the check can be ranked so that every symbol depends on lower ranks only |
| SymbolValues.SolutionUnique | nemu/tools/kconfig/symbol.c:325-467 | an acyclic configuration has at most one assignment of values that obeys every symbol's rule |
| SymbolValues.SolutionExists | nemu/tools/kconfig/symbol.c:325-467 | and it has one |
| SymbolValues.SameRule | nemu/tools/kconfig/symbol.c:1130-1211 | a symbol's value depends only on symbols the cycle check visits |
| SymbolValues.ValueBounds | nemu/tools/kconfig/symbol.c:406-413 | a value is never below what selects demand, and never m for a boolean type |
| ValueLaws.FirstDefault | nemu/tools/kconfig/symbol.c:83-94 | the first default whose condition is not n is taken, limited by its condition |
| ValueLaws.NoDefault | nemu/tools/kconfig/symbol.c:83-94 | without one the default is n |
| ValueLaws.VisibilityMeaning | nemu/tools/kconfig/symbol.c:189-203 | visibility is the greatest condition of a prompt, m counting as y where there is no m |
| ValueLaws.ValueMeaning | nemu/tools/kconfig/symbol.c:373-413 | a visible symbol that was set has its value up to the visibility; any other has its default, raised by implies as far as dependencies allow; selects raise both; m becomes y where there is no m |
| ValueLaws.ValueByDefault | nemu/tools/kconfig/symbol.c:392-399 | an invisible or unset symbol that nothing selects or implies has its first default |
| SymbolValues.SymbolTable.CalcExpr | nemu/tools/kconfig/expr.c:1030-1102 | evaluation through the memo gives the value under the solution |
| EvaluationLaws.OperatorsMeaning | nemu/tools/kconfig/expr.c:1045-1055 | && is the smaller value, or the greater one, and not mirrors y and n |
| EvaluationLaws.ValueComparesWithNumber | nemu/tools/kconfig/expr.c:1056-1101 | a bool or tristate symbol and a literal that reads as a number are compared by number, under all six relations |
| EvaluationLaws.TextsCompare | nemu/tools/kconfig/expr.c:1078-1101 | where one side does not read as a number, texts are compared, in the order of their first difference |
| SymbolValues.SymbolTable.CalcVisibility | nemu/tools/kconfig/symbol.c:177-238 | visibility, direct dependency, select and imply are those of the solution |
| SymbolValues.SymbolTable.CalcValue | nemu/tools/kconfig/symbol.c:325-467 | afterwards the symbol is valid with the solution's value, nothing valid was spoilt, and no symbol of the same or a higher rank was touched |
| SymbolValues.SymbolTable.CalcAll | nemu/tools/kconfig/symbol.c:325-467 | the same for queries in any order, whatever was evaluated before |
| SymbolValues.SettingTakesEffect | nemu/tools/kconfig/symbol.c:480-533 | a value within range is what the next evaluation yields, and symbols of lower rank keep theirs |
| ValueLaws.WithinRangeExact | nemu/tools/kconfig/symbol.c:480-497 | a value is within range if and only if visibility exceeds the selects and setting it makes it the value |
| ValueLaws.NothingToChoose | nemu/tools/kconfig/symbol.c:480-497 | where selects reach the visibility every setting comes to the value of the selects |
| SymbolValues.SettingSameValue | nemu/tools/kconfig/symbol.c:499-506 | setting the current value keeps it if and only if the symbol is invisible or the value is within its visibility or its selects |
| SymbolValues.SettingSameValueCanFail | nemu/tools/kconfig/symbol.c:499-506 | a concrete symbol that is y, is set to y and is m afterwards |
| SymbolValues.SymbolTable.SetTristateValue | nemu/tools/kconfig/symbol.c:499-533 | it succeeds exactly for the current value or one within range, and then the memo is consistent with the new solution |
| MenuTree.FlattenOrder | nemu/tools/kconfig/menu.c:575-584 | splicing the lists of promptless entries keeps the order of all entries |
| MenuTree.Finalize | nemu/tools/kconfig/menu.c:306-585 | for any outcome of the tests the entries below and behind an entry keep their order (the recursion ends) |
| MenuTree.FinalizeFlat | nemu/tools/kconfig/menu.c:575-584 | afterwards no promptless entry has a list, at any depth |
| MenuLaws.ListKept | nemu/tools/kconfig/menu.c:431-433 | an entry with a list of its own keeps all of it and takes nothing from behind it |
| MenuLaws.GatherMeaning | nemu/tools/kconfig/menu.c:461-502 | the entries taken all pass the test, and the first one left does not |
| MenuLaws.TakenFromBehind | nemu/tools/kconfig/menu.c:433-502 | an entry without a list takes entries exactly if it has a symbol and the next one passes the test |
| MenuLaws.FlattenParents | nemu/tools/kconfig/menu.c:575-584 | the entries of promptless ones hang one level higher afterwards, and all others where they were |
| MenuFinalize.MenuConfig.Reparent | nemu/tools/kconfig/menu.c:576-580 | a spliced list gets the right parent throughout, nothing else changes, and its last entry is found |
| MenuFinalize.MenuConfig.FlattenList | nemu/tools/kconfig/menu.c:506-585 | the pointers afterwards spell the flattened list under the right parent |
| MenuFinalize.MenuConfig.FinalizeChildren | nemu/tools/kconfig/menu.c:431-432 | the loop over children that absorb those behind them finalizes each once, in order |
| MenuFinalize.MenuConfig.GatherBelow | nemu/tools/kconfig/menu.c:461-502 | the entries behind a symbol that pass the tests become its list, the rest follows it, and parents are right |
| MenuFinalize.MenuConfig.Finalize | nemu/tools/kconfig/menu.c:306-585 | one call on the pointers does what the function MenuTree.Finalize says and touches no other entry |
| MenuFinalize.MenuConfig.FinalizeAllMenus | nemu/tools/kconfig/menu.c:306-585 | from the root every entry is finalized exactly once in the order of the files, the order is kept, all parent pointers are right and no promptless entry has a list |
| StringValues.Escape | nemu/tools/kconfig/symbol.c:875-916 | the escaped value between quotes, in a buffer exactly long enough |
| StringValues.Unescape | nemu/tools/kconfig/confdata.c:261-276 | the loop in the line buffer succeeds exactly if there is a closing quote, and leaves the text with protected characters bare |
| StringValues.UnescapeUndoesEscape | nemu/tools/kconfig/confdata.c:261-276 | unescaping undoes escaping for every string, whatever follows the quote |
| StringValues.LineRoundTrip | nemu/tools/kconfig/confdata.c:444-455 | the value read from the written line is the value if and only if it has no line feed |
| EscapeLaws.EscapedLength | nemu/tools/kconfig/symbol.c:875-916 | only quotes and backslashes get a backslash |
| EscapeLaws.QuoteCloses | nemu/tools/kconfig/confdata.c:261-276 | a quoted value is complete exactly if some quote stands behind an even number of backslashes |
| ShiftMath.ShiftLeftFromEntries | abstract-machine/tools/minirv/gen-lut.c:22 | the four table entries of sll, moved into place and added, are the shifted word |
| ShiftMath.ShiftRightFromEntries | abstract-machine/tools/minirv/gen-lut.c:23 | the entries of srl recombine without a carry between bytes to the floor of the shift |
| ShiftMath.ShiftRightArithFromEntries | abstract-machine/tools/minirv/gen-lut.c:24 | with the top byte's entry of sra they give the sign-extending shift |
| MiniRv.Cpu.La | abstract-machine/tools/minirv/inst-replace.h:606-609 | lui and addi load any address |
| MiniRvArith.GetByte | abstract-machine/tools/minirv/inst-replace.h:117-120 | one byte of a register, through a scratch word |
| MiniRvArith.Msb | abstract-machine/tools/minirv/inst-replace.h:122-126 | the sign bit |
| MiniRvArith.Not | abstract-machine/tools/minirv/inst-replace.h:630-658 | the bitwise complement of every word, for any registers but sp |
| MiniRvArith.Sub | abstract-machine/tools/minirv/inst-replace.h:110-115 | the difference modulo 2^32, for any target, also sp |
| MiniRvArith.Slli | abstract-machine/tools/minirv/inst-replace.h:527-553 | the left shift by every constant from 0 to 31 |
| MiniRvArith.Slt | abstract-machine/tools/minirv/inst-replace.h:128-163 | signed and unsigned comparison of all pairs through the tables of sign triples |
| MiniRvArith.LogicOp | abstract-machine/tools/minirv/inst-replace.h:165-210 | and, or and xor of all pairs, for the registers for which the macro does not abort |
| MiniRvBranch.Seq | abstract-machine/tools/minirv/inst-replace.h:213-248 | 1 exactly for equal operands, whatever _check_same_array held |
| MiniRvBranch.Seqz | abstract-machine/tools/minirv/inst-replace.h:250-273 | 1 exactly for zero |
| MiniRvBranch.BranchResolve | abstract-machine/tools/minirv/inst-replace.h:276-298 | the computed jump goes to one of two addresses by the bit in tp |
| MiniRvBranch.Blt | abstract-machine/tools/minirv/inst-replace.h:330-352 | signed less, with the forms for a zero operand |
| MiniRvBranch.Bge | abstract-machine/tools/minirv/inst-replace.h:360-377 | signed not less, with the forms for a zero operand |
| MiniRvBranch.Branch | abstract-machine/tools/minirv/inst-replace.h:300-383 | each of the six branches goes to its target exactly when the RV32I condition holds, and changes no other register |
| MiniRvShift.GetShamt | abstract-machine/tools/minirv/inst-replace.h:385-391 | the low five bits |
| MiniRvShift.Sll | abstract-machine/tools/minirv/inst-replace.h:393-431 | the left shift for all words and amounts |
| MiniRvShift.ShiftRightReg | abstract-machine/tools/minirv/inst-replace.h:433-525 | srl and sra for all words and amounts |
| MiniRvShift.ShiftRightImm | abstract-machine/tools/minirv/inst-replace.h:433-562 | srli and srai for all words and amounts |
| MiniRvProgram.Lb | abstract-machine/tools/minirv/inst-replace.h:571-577 | the sign-extended byte |
| MiniRvProgram.Lhu | abstract-machine/tools/minirv/inst-replace.h:579-586 | the half word at any address, also where the target is the base |
| MiniRvProgram.Lh | abstract-machine/tools/minirv/inst-replace.h:588-596 | the sign-extended half word |
| MiniRvProgram.Sh | abstract-machine/tools/minirv/inst-replace.h:598-604 | two bytes stored, nothing else of the program's memory changed |
| MiniRvProgram.RunInstr | abstract-machine/tools/minirv/inst-replace.h:80-658 | the translation of an instruction simulates it: same registers but tp and gp, same memory except the dead stack and _check_same_array, and the machine stands where the translation of the next instruction starts; sp may be written by add, addi, sub, lui and lw |
| MiniRvProgram.LinkReturns | abstract-machine/tools/minirv/inst-replace.h:92-108 | the address of the next translation leads back to the instruction behind a jump, also among instructions whose translation is empty |
| MiniRvLaws.JumpLinks | abstract-machine/tools/minirv/inst-replace.h:92-108 | the link that jal and jalr store leads to the instruction behind them |
| MiniRvLaws.CallReturns | abstract-machine/tools/minirv/inst-replace.h:92-108 | whatever happens in between, a return with the register as the call left it goes to the instruction behind the call |
| MiniRvLaws.JumpPlace | nemu/src/isa/riscv32/inst.c:66-67 | jal goes to its target, and jalr to base plus offset with the last bit cleared |
| MiniRvLaws.BranchPlace | abstract-machine/tools/minirv/inst-replace.h:300-383 | a branch goes to its target if the relation holds, by numbers or by numbers with the sign bits flipped, and to the next instruction otherwise |
| MiniRvLaws.StepFrame | abstract-machine/tools/minirv/inst-replace.h:80-658 | an instruction changes its target register, memory only if it is a store, and goes on to the next one unless it transfers control |
| MiniRvLaws.AluMeaning | abstract-machine/tools/minirv/inst-replace.h:110-163 | add and sub modulo 2^32, and both comparisons |
| MiniRvLaws.LogicMeaning | abstract-machine/tools/minirv/inst-replace.h:165-210 | and, or and xor, bit by bit |
| MiniRvLaws.ShiftMeaning | abstract-machine/tools/minirv/inst-replace.h:393-562 | sll multiplies modulo 2^32, srl and sra divide and round down, by the lower five bits |
| MiniRvLaws.LoadAfterStore | abstract-machine/tools/minirv/inst-replace.h:571-604 | a load of the width of the store gives what was stored, cut and extended |
| MiniRvLaws.LittleEndian | abstract-machine/tools/minirv/inst-replace.h:117-120 | the bytes of a stored word lie with the lowest first |
| MiniRvLaws.PoliteEnough | abstract-machine/tools/minirv/inst-replace.h:7-13 | what Run asks of a program holds of all stores to its data and all loads of written data |
| MiniRvLaws.JunkStep | abstract-machine/tools/minirv/inst-replace.h:7-13 | a store takes bytes out of what may not be read, and only a movement of sp puts stack words in |
| MiniRvProgram.Run | abstract-machine/tools/minirv/inst-replace.h:80-658 | the same for a whole run of any length, over branches, jumps and movements of sp, as long as the program reads nothing it has not written and keeps sp in its stack |
| MiniRvTables.GenLut | abstract-machine/tools/minirv/gen-lut.c:6-30 | the loops of the generator write the six large tables byte for byte |
| MiniRvTables.TablesGood | abstract-machine/tools/minirv/inst-replace.h:39-77 | the small tables and the generated file, wherever the section is put, are the tables the macros rely on |
| MiniRvTables.StackPlaced | abstract-machine/tools/minirv/inst-replace.h:39-90 | any stack apart from them meets the requirements of the macros and of Run |
| MiniRvLaws.Start | abstract-machine/tools/minirv/inst-replace.h:7-13 | a fresh machine is related to the program's start in the same registers and memory, with nothing but the dead stack and _check_same_array unreadable |
| Words64.PowerOfTwoTest | abstract-machine/klib/src/int64.c:534-543 | d & (d - 1) is 0 exactly for powers of two |
| Division64.SignMaskCompares | abstract-machine/klib/src/int64.c:669-671 | the shifted remainder fits 64 bits and the sign of d - r - 1 decides the comparison on every iteration |
| Division64.StepKeepsProgress | abstract-machine/klib/src/int64.c:655-672 | one iteration keeps quotient, remainder and waiting bits together |
| Division64.LoadNear | abstract-machine/klib/src/int64.c:559-563 | halves set up by a shift below 32 |
| Division64.LoadFar | abstract-machine/klib/src/int64.c:607-614 | halves set up by a shift above 32 |
| Division64.ShiftSubtract | abstract-machine/klib/src/int64.c:654-676 | the loop on halves ends with the exact quotient and remainder |
| Division64.DivideByHigh | abstract-machine/klib/src/int64.c:503-564 | all cases of a divisor with an empty low half |
| Division64.DivideByLow | abstract-machine/klib/src/int64.c:567-615 | all cases of a divisor with an empty high half |
| Division64.DivideByBoth | abstract-machine/klib/src/int64.c:616-646 | a divisor with both halves |
| Division64.UdivmodDi4 | abstract-machine/klib/src/int64.c:469-677 | quotient and remainder are exact for every dividend and non-zero divisor |
| Runtime64.UdivXi3 | abstract-machine/klib/src/int64.c:351-379 | the exact quotient |
| Runtime64.UmodXi3 | abstract-machine/klib/src/int64.c:382-409 | the exact remainder |
| Runtime64.TruncatedMeaning | abstract-machine/klib/src/int64.c:414-449 | the quotient meant rounds towards zero and the remainder has the sign of the dividend |
| Runtime64.DivDi3 | abstract-machine/klib/src/int64.c:414-424 | truncating division, exact if and only if it is not INT64_MIN by -1, and modulo 2^64 always |
| Runtime64.DivmodDi4 | abstract-machine/klib/src/int64.c:428-434 | the remainder is exact for all pairs |
| Runtime64.ModDi3 | abstract-machine/klib/src/int64.c:438-449 | the remainder is exact for all pairs |
| BitCounts.ClzSi2 | abstract-machine/klib/src/int64.c:683-712 | the number of leading zeros of every non-zero word |
| BitCounts.CtzSi2 | abstract-machine/klib/src/int64.c:718-752 | the number of trailing zeros of every non-zero word |
| Words64.CtzIsGreatest | abstract-machine/klib/src/int64.c:718-752 | the number of trailing zeros is the exponent of the greatest power of two that divides the word |
| BitCounts.CtzDi2 | abstract-machine/klib/src/int64.c:760-766 | the same for 64 bits, by choosing a half with masks |
| BitCounts.ClzDi2 | abstract-machine/klib/src/int64.c:768-774 | the same for 64 bits, by choosing a half with masks |
| LongArithmetic.UmulPpmm | abstract-machine/am/src/riscv/npc/libgcc/longlong.h:1080-1102 | the exact product in two words |
| LongArithmetic.DivideDigit | abstract-machine/am/src/riscv/npc/libgcc/longlong.h:1688-1699 | one digit of long division is exact after at most two corrections |
| LongArithmetic.UdivQrnndC | abstract-machine/am/src/riscv/npc/libgcc/longlong.h:1681-1716 | the exact quotient and remainder of two words by a normalised divisor above the upper word |
| LongArithmetic.LowProduct | abstract-machine/am/src/riscv/npc/libgcc/multi3.c:58-77 | the shift-and-add loop gives the exact product of the low words |
| LongArithmetic.Multi3 | abstract-machine/am/src/riscv/npc/libgcc/multi3.c:40-86 | the product modulo 2^64 |
| PageState.OneReference | abstract-machine/am/src/x86/qemu/vme.c:57-75 | a table page is referred to by one slot, up to the kernel slots all spaces share, and is no directory |
| PageState.LookupAfterTable | abstract-machine/am/src/x86/qemu/vme.c:66-71 | a new table changes no translation in any space |
| PageState.LookupAfterLeaf | abstract-machine/am/src/x86/qemu/vme.c:141-156 | writing an entry changes the translation of one page in one space |
| PageState.LookupAfterSpace | abstract-machine/am/src/x86/qemu/vme.c:117-135 | a new space translates as the kernel does in the kernel areas and nothing elsewhere |
| PageState.KernelEverywhere | abstract-machine/am/src/x86/qemu/vme.c:117-135 | all spaces agree on the kernel areas |
| Teardown.SpaceTree | abstract-machine/am/src/x86/qemu/vme.c:77-87 | from a space's directory the teardown reaches each table page of the space once, no kernel table and no mapped page |
| VirtualMemory.IndexMeaning | abstract-machine/am/src/x86/qemu/vme.c:49-51 | mask and shift select the directory and table index of an address |
| VirtualMemory.Mmu.PgallocZ | abstract-machine/am/src/x86/qemu/vme.c:40-47 | a fresh page, cleared |
| VirtualMemory.Mmu.Ptwalk | abstract-machine/am/src/x86/qemu/vme.c:57-75 | the entry of an address is found or made without changing any translation; it makes nothing when the table exists |
| VirtualMemory.Mmu.VmeInit | abstract-machine/am/src/x86/qemu/vme.c:89-115 | every page of the kernel areas is mapped to itself, and no other, up to the end of the address space |
| VirtualMemory.Mmu.Protect | abstract-machine/am/src/x86/qemu/vme.c:117-135 | a new space shares the kernel's tables and maps nothing else; no other space changes |
| VirtualMemory.Mmu.Map | abstract-machine/am/src/x86/qemu/vme.c:141-156 | exactly one page of one space changes, as asked; each panic occurs exactly in its case, and memory runs out only where a table was needed |
| VirtualMemory.Mmu.TearDown | abstract-machine/am/src/x86/qemu/vme.c:77-87 | the pages reached are freed, each once, and no others |
| VirtualMemory.Mmu.Unprotect | abstract-machine/am/src/x86/qemu/vme.c:137-139 | all table pages of the space are freed, no others, and no other space's translations change |
| VirtualMemoryRuns.Perform | abstract-machine/am/src/x86/qemu/vme.c:117-156 | one call does to the hardware's view what it does to the plain map, stops only where the plain map does, and otherwise fails only if an allocation did |
| VirtualMemoryRuns.Run | abstract-machine/am/src/x86/qemu/vme.c:117-156 | any run of calls leaves the hardware walk of every space equal to the plain map, or stops where the plain map does, or ends with a failed allocation |
| VirtualMemoryRuns.BootAndRun | abstract-machine/am/src/x86/qemu/vme.c:89-156 | the same from power-on |
| MappingLaws.KernelArea | abstract-machine/am/src/x86/qemu/vme.c:24-33 | the kernel sees its memory under the same addresses, writable, and nothing between the areas |
| MappingLaws.MapGives | abstract-machine/am/src/x86/qemu/vme.c:141-156 | a page of the user area that is not mapped gets the frame, read-only or writable as asked; one that is mapped is never mapped again |
| MappingLaws.MapTakes | abstract-machine/am/src/x86/qemu/vme.c:141-156 | without protection flags a mapped page is taken away, and one that is not mapped cannot be |
| MappingLaws.MapFrame | abstract-machine/am/src/x86/qemu/vme.c:141-156 | no other page and no other space changes |
| MappingLaws.MapThenUnmap | abstract-machine/am/src/x86/qemu/vme.c:141-156 | mapping a page and unmapping it comes to nothing |
| MappingLaws.SpacesComeAndGo | abstract-machine/am/src/x86/qemu/vme.c:117-139 | a new space has nothing mapped, a dropped one is gone, and both leave the others alone |
| MappingLaws.PanicsMeaning | abstract-machine/am/src/x86/qemu/vme.c:141-156 | which panic a call ends in |
| Numbers.DigitsRead | abstract-machine/klib/src/stdlib.c:28-36 | reading the digits of a number in base 8, 10 or 16 gives the number |
| Numbers.WrapsOnce | abstract-machine/klib/src/stdlib.c:33 | wrapping at each digit is wrapping the whole value |
| Numbers.Strtoull | abstract-machine/klib/src/stdlib.c:20-45 | the value, modulo 2^64, of the longest run of digits behind spaces and an optional 0x, and where it ends |
| Numbers.NumberReadsBack | abstract-machine/klib/src/stdio.c:27-46 | strtoull undoes emit_unsigned for every 64-bit value, base 10 or 16, width, padding, alignment and 0x prefix |
| Numbers.SignedReadsBack | abstract-machine/klib/src/stdlib.c:20-45 | the text of a signed 64-bit number is read back, for all widths, paddings and alignments, if and only if it is not negative |
| Numbers.NegativeReadsZero | abstract-machine/klib/src/stdlib.c:20-45 | the text of a negative number, for all widths, paddings and alignments, is read as 0 at its first character |
| TextLaws.GuessedBase | abstract-machine/klib/src/stdlib.c:23-35 | with base 0, behind any white space, 0x starts a hexadecimal number, another 0 an octal one and any other digit a decimal one; every 64-bit value is read back |
| TextLaws.AcceptedMeaning | abstract-machine/klib/src/stdlib.c:28-31 | which characters each base accepts |
| TextLaws.DigitsLook | abstract-machine/klib/src/stdio.c:30-36 | digits and letters of the case asked for, without leading zeros |
| TextLaws.NumberWidth | abstract-machine/klib/src/stdio.c:38-45 | the text is as wide as asked for, and wider only if digits and prefix are |
| TextLaws.NumberLook | abstract-machine/klib/src/stdio.c:38-45 | spaces before, zeros between prefix and digits, or spaces behind |
| FormattedOutput.Output.Emit | abstract-machine/klib/src/stdio.c:14-21 | one more character of the text; the buffer holds what leaves room for the NUL |
| FormattedOutput.Output.ReverseDigits | abstract-machine/klib/src/stdio.c:30-36 | the digit loop stays within its array and finds the digits backwards |
| FormattedOutput.Output.EmitUnsigned | abstract-machine/klib/src/stdio.c:27-46 | the padded number is emitted |
| FormattedOutput.Output.Convert | abstract-machine/klib/src/stdio.c:81-117 | each conversion emits its text, with the argument's width and sign |
| TextLaws.ConversionMeaning | abstract-machine/klib/src/stdio.c:59-80 | percent sign, flags, width, length and letter are read as one conversion, which takes the next argument exactly if its letter needs one |
| TextLaws.BareConversions | abstract-machine/klib/src/stdio.c:81-106 | the bare text of each conversion |
| TextLaws.OtherConversions | abstract-machine/klib/src/stdio.c:88-117 | a pointer has 0x and all its digits, a character is the lowest byte, and other letters stay visible |
| TextLaws.ArgMeaning | abstract-machine/klib/src/stdio.c:91-104 | both readings of an argument are the word modulo its type, from zero on or around zero |
| FormattedOutput.SignedConversionReadsBack | abstract-machine/klib/src/stdio.c:88-99 | what %d or %i writes is read back if and only if the argument is not negative |
| FormattedOutput.UnsignedConversionReadsBack | abstract-machine/klib/src/stdio.c:100-109 | what %u, %x, %X and %p write is always read back |
| FormattedOutput.Output.Format | abstract-machine/klib/src/stdio.c:47-125 | the text asked for is emitted and terminated |
| FormattedOutput.Vsnprintf | abstract-machine/klib/src/stdio.c:140-143 | the buffer holds the first n - 1 characters of the text and a NUL, the result is the length of the whole text for every n, and nothing behind the buffer is written |

## Left out

- Choice groups (`sym_calc_choice`, choice values), and int, hex and string symbols with their defaults and ranges (their texts are parameters, and so are their comparisons with anything but y, m and n); `E_LIST` and `E_RANGE` nodes inside expressions.
- Freeing of expression nodes, change counters, the WRITE and CHANGED flags, and the recalculation of `modules_sym` within `sym_calc_value`; the value of MODULES is a parameter.
- Joins.JoinAndSound: not stated for the merge of two spellings of one value, for which it is false; Joins.JoinAndExact says exactly when. Results built on the joins (Duplicates.Simplifier.EliminateDups, Dependencies.PropagateDependency) carry through `Stands` the condition that no tristate symbol is tested for a literal that reads as 0, 1 or 2.
- Equality.CancelEqual: the cancellation of operands, and with it `expr_eq`, works on values and returns both new trees instead of overwriting nodes; the same holds for `expr_eliminate_yn`, `expr_transform` and `expr_trans_bool`. What is lost is aliasing between the trees, which callers exclude by copying. Only `expr_eliminate_dups`, which aliases its arguments, is modelled in place.
- Transformation.TransBoolKeepsNo: the condition is exact for single tests; in a larger expression other operands may absorb a wrong one, and no exact condition is given for that.
- Transformation.TransCompare: the branches for a comparison with m, which return the operand itself; no caller uses them.
- Dependencies.GoesBelow: it is known exactly which entries are accepted when the two simplified conditions are clean, as they are whenever something was joined in them; for conditions with y or n left as operands, only what acceptance means and that direct dependencies are accepted.
- Shapes.ExprEqExact: for clean expressions; with y and n as operands deeper down the answer depends on the order in which operands are compared (Shapes.OrderMattersWithConstants), and no exact condition is given for that.
- MenuFinalize.MenuConfig.Finalize: without the rewriting of expressions, the warnings, and the parts for choices; the dependency tests are modelled apart in Dependencies.GoesBelow.
- StringValues.ReadValue: the lines of a configuration file before the `=` sign, comments, and the file operations.
- Printing of expressions and menus, the terminal interfaces, and the search by regular expressions.
- MiniRvProgram.Run: sp as the target of instructions other than add, addi, sub, lui and lw; auipc, fence, ecall and ebreak; call, tail and the pseudo-instructions at the end of the file. Loads of stack words that were never written, and accesses to the scratch words and to `_check_same_array`, are outside.
- MiniRv.Cpu: instruction fetch and encoding; a macro's instructions are issued by the method that models it, and labels are given. A word access may not cross the end of the address space.
- Runtime64.DivDi3: signed overflow on INT64_MIN wraps, as compiled code does; C leaves it undefined.
- Division64.UdivmodDi4: division by zero, which C leaves undefined; a null `rem` pointer.
- LongArithmetic.Times: `__mulsi3`, the word product, is taken as the product modulo 2^32.
- PageState.Entry: the packing of flags into the low bits of an entry is modelled as fields of a record; the 64-bit configuration with four levels is not part of this model, and neither are CR0, CR3 and the TLB.
- VirtualMemory.Mmu.Unprotect: the source leaves `as->ptr` dangling; the model removes the space, so that later use of it counts as a mistake of the caller.
- VirtualMemoryRuns.Run: says nothing of the memory after a failed allocation, where the source panics.
- FormattedOutput.Vsnprintf: a variable argument list is a sequence of slots that can be read as a string or as a word, and missing arguments read as null; `int` overflow of widths and of the result is not modelled, and `sprintf` with its unlimited size is not either.
- Devices, interrupts, context switching, the simulators and their wrappers.
