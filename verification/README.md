# Verified model of the Kconfig engine, the quicksort and two drivers

The repository is a diagnostic program for ARM boards. Its configuration is built with a Kconfig engine
(`scripts/config`), and its library and drivers are plain C. This project models its most intricate algorithms and
proves what they are for.

**The constraint engine.** Expressions over symbols have one of the values n < m < y; AND is the minimum, OR the
maximum and NOT is 2 - x (`Tristate`, `Expressions`). An expression is a value of the datatype `Expr`, a valuation gives
every symbol a value and a text, and the pointers into a tree that the C code rewrites through are paths (`Slots`).
- `Equality`, `Canonical`, `Reflexive`: the elimination of common terms and the syntactic equality that calls it and is
  called by it, what that equality decides, and which expressions it takes to be equal to themselves.
- `Joins`, `Duplicates`, `Rewriter`, `Reduced`: the optimiser. `Duplicates` gives its passes as functions; the class in
  `Rewriter` performs them with the counter of replacements and is proved to compute these functions; `Reduced` says
  what they leave.
- `NormalForm`, `Comparisons`, `Extraction`: negation normal form, the comparison of an expression with y or n, the
  rewriting of prompt conditions, the test for menu nesting, and the extraction of common terms.
- `Printing`, `PrintedText`: the printer, a reference parser of its tokens, and a reference lexer of its text.
- `Configuration`, `Values`, `Evaluator`, `CycleCheck`, `Pipeline`: definitions of symbols, what values they call for, the
  memoising evaluator, the search for recursive dependencies, and the two in sequence.
- `MenuLinks`, `MenuTrees`, `MenuInfo`, `MenuConditions`, `NestingTest`, `MenuNesting`, `MenuFinalize`, `MenuWalk`: the
  pass that hands conditions down the menu and rearranges its linked entries, and the walk over the entries.
- `ConfStrings`, `Spelling`: writing and reading of string values.

**The sort** (`Elements`, `Orders`, `QuickSort`): the BSD quicksort on an array of bytes, with elements of any size.

**The drivers** (`Gpio`, `Registers`, `ClockDivisor`): the interrupt registry and dispatcher of the GPIO pins, and the
search for the divisor of the I2C clock.

## What turned out to hold only in part

Each of these is stated as an exact condition, or with a concrete input.
- Removing contradictions (`expr_eliminate_dups2`) uses the excluded middle. A single replacement changes the value
  exactly where that value is m (`ContradictionExact`). The elimination as a whole never changes a y or an n
  (`EliminateDupsSettles`); it may change an m (`ExcludedMiddleWitness`), but does not unless it finds a contradiction
  (`EliminateDupsSame`). Without m everything is exact (`EliminateDupsExact`).
- Comparing an expression with y or n (`expr_trans_compare`) reads a bare operand by its text: as the value compared with
  if the texts are the same, and as the opposite one otherwise, so also where it is m. The result is that of comparing
  the expression read in this way (`TransCompareExact`), which is right exactly where reading does not change whether
  the value is the one compared with (`TransCompareCorrect`). As the nesting test compares with n, an entry may be
  nested although it is visible where it should not be (`NestsMisread`).
- Rewriting `FOO!=n` to `FOO` lowers a condition in normal form exactly where it was y only by such comparisons of
  symbols that are m, and then to m (`TransBoolExact`). A select, whose condition is rewritten as well, then selects m
  where it said y (`SelectRewritten`, `SelectLowered`). Visibility is not affected (`TransBoolVisible`,
  `TransBoolVisibility`).
- Equality of expressions with quoted constants as operands is not reflexive (`QuotedNotReflexive`; `ReflexiveExact` says
  when it is), and with y or n as operands it is reflexive but not transitive (`NoQuotedReflexive`, `NotTransitive`).
- A string value is not read back if its symbol's name does not begin with a capital letter, if it contains a newline, or
  if its line is too long for the buffer (`RoundTrip`).
- The GPIO dispatcher leaves out pins that are pending and registered exactly if, before the last of them, it has called
  as many handlers as there are pins registered by then (`CompleteExact`). That takes a handler that frees its own pin
  or one in front of it (`NothingSkipped`, `FreeingSkips`).
- The I2C search ends in a division by zero for the targets `Hopeless` describes, and gives a value that does not meet
  the target whenever the largest divisor of the register does not (`Answers`).
- The manual of the configuration language (`scripts/config/Kconfig-language.txt`, lines 126 and 127) gives min for `||`
  and max for `&&`; the model follows the code, where it is the other way round.

## Model

| member | source | states |
|---|---|---|
| Expressions.TwoValuedEval | scripts/config/expr.c:942-981 | where no symbol and no operand is m, no expression is |
| Expressions.ConstTextsDistinct | scripts/config/symbol.c:597-603 | distinct constants have distinct texts, so comparing texts compares constants |
| Expressions.BuiltinCompare | scripts/config/expr.c:965-976 | comparing a boolean or tristate with y, m or n by text compares its value |
| Equality.EliminateYnExact | scripts/config/expr.c:235-316 | dropping y and n operands keeps the value in every valuation |
| Equality.EliminateYnShrinks | scripts/config/expr.c:235-316 | no y or n operand is left; expressions that had one shrink, all others are returned as they are |
| Equality.ExprEqSound | scripts/config/expr.c:193-233 | expressions recognised as equal have equal values in every three-valued valuation |
| Equality.EliminateTermsFactor | scripts/config/expr.c:135-166 | a pass takes one common factor out of both sides, whatever the symbols' values |
| Equality.EliminateEqFactors | scripts/config/expr.c:168-188 | the two passes take out a factor for each of at most two connectives |
| Equality.EliminateEqImplies | scripts/config/expr.c:168-188 | if only y is left of the second expression, the first implies the second |
| Equality.EliminateEqEquivalent | scripts/config/expr.c:168-188 | if what is left of both is equal, both are |
| Canonical.ExprEqExact | scripts/config/expr.c:193-233 | unless y, n or a quoted constant is an operand of an AND or OR, equality is recognised if and only if the two are the same up to association and order |
| Canonical.NormalisedEqExact | scripts/config/expr.c:193-316 | so it is for normalised expressions without quoted constants once y and n are dropped from them |
| Canonical.EliminateTermsDifference | scripts/config/expr.c:135-166 | what is left on each side is the multiset difference of the terms |
| Canonical.CanonReorders | scripts/config/expr.c:193-233 | neither order nor grouping of operands matters to what equality decides |
| Canonical.ExprEqReorders | scripts/config/expr.c:193-233 | so expressions without constants as operands are recognised as equal to their reorderings |
| Canonical.EliminateEqExact | scripts/config/expr.c:168-188 | of two trees of one connective, or of a tree and one of its operands, cancelling leaves what they have beyond each other; two that have no connective at the root stay as they are |
| Canonical.YesLeftExact | scripts/config/expr.c:168-188 | only y is left of the second if and only if it is y or the first is a conjunction that has all its operands |
| Reflexive.TermsTraced | scripts/config/expr.c:135-166 | how a pass affects whether dropping y and n decides either side or makes it vanish |
| Reflexive.EqualYn | scripts/config/expr.c:193-233 | if one of two expressions recognised as equal comes down to y or n, the other comes down to the same |
| Reflexive.SelfCompared | scripts/config/expr.c:135-233 | compared with itself, a tree of which no operand that fails to be equal to itself is equal to another keeps its residue, so it is equal to itself if and only if that comes down to a symbol |
| Reflexive.ResidueSymbol | scripts/config/expr.c:193-233 | every AND or OR whose residue comes down to a symbol is recognised as equal to itself |
| Reflexive.NoQuotedReflexive | scripts/config/expr.c:193-233 | every expression without quoted constants, with y, m and n anywhere, is recognised as equal to itself |
| Reflexive.EqualSomething | scripts/config/expr.c:193-233 | whatever is recognised as equal to anything is so to itself, unless dropping y and n decides it |
| Reflexive.ReflexiveExact | scripts/config/expr.c:193-233 | if what is negated in it is equal to itself, as in normal form, an AND or OR is recognised as equal to itself if and only if its residue comes down to a symbol |
| Reflexive.NnfPlain | scripts/config/expr.c:193-233 | that assumption holds of every expression in negation normal form |
| Reflexive.QuotedNotReflexive | scripts/config/expr.c:147-149 | no conjunction of two quoted constants is recognised as equal to itself |
| Reflexive.NotTransitive | scripts/config/expr.c:193-233 | with n as an operand two expressions equal to a third need not be equal to each other |
| Reflexive.NoCanonicalForm | scripts/config/expr.c:193-233 | so with y or n as operands no function of expressions agrees exactly where they are recognised as equal |
| Reflexive.NegationWitness | scripts/config/expr.c:193-233 | the assumption on negations is needed for one direction of the exact condition |
| Joins.JoinOrExact | scripts/config/expr.c:350-412 | a joined pair of OR operands has the value of the pair in every valuation |
| Joins.JoinAndExact | scripts/config/expr.c:414-506 | a joined pair of AND operands has the value of the pair in every valuation |
| Joins.JoinExact | scripts/config/expr.c:350-506 | both cases, for either connective |
| Joins.JoinSmall | scripts/config/expr.c:350-506 | a join is no larger than the first operand, and is that operand or no AND or OR, so that rounds end |
| Joins.JoinTristateComplete | scripts/config/expr.c:350-506 | any two comparisons of one tristate with y, m or n are joined, in an OR if both are equalities, in an AND unless both are |
| Joins.JoinEqual | scripts/config/expr.c:355-356 | operands recognised as equal are joined, and the first is what becomes of both |
| Joins.JoinSymbolComplete | scripts/config/expr.c:443-456 | in an AND a boolean or tristate is joined with its comparisons =y, !=m and !=n, in either order, and what becomes of them |
| Joins.JoinExcludedMiddle | scripts/config/expr.c:398-402 | of booleans and tristates exactly those are joined with their negation, in either order, for which the two together are y in every valuation |
| NormalForm.TransformExact | scripts/config/expr.c:640-775 | normalisation keeps the value in every three-valued valuation |
| NormalForm.TransformNnf | scripts/config/expr.c:640-775 | negations are left only in front of symbols, and no boolean is compared with y, m or n |
| NormalForm.TransformFixpoint | scripts/config/expr.c:640-775 | exactly the expressions in normal form are left as they are |
| NormalForm.TransformIdempotent | scripts/config/expr.c:640-775 | normalising twice is normalising once |
| NormalForm.TransformPushed | scripts/config/expr.c:640-775 | normalisation computes the form in which, in a single descent, negations are pushed down to the operands, operands staying in order |
| NormalForm.TransformNoBareMod | scripts/config/expr.c:640-775 | normalisation introduces no bare m |
| Extraction.ExtractTermsFactor | scripts/config/expr.c:852-879 | what is extracted is a common factor added to what was extracted before |
| Extraction.ExtractEqFactors | scripts/config/expr.c:830-850 | each side is the extracted part joined with what is left of it |
| Extraction.ExtractEqCovers | scripts/config/expr.c:830-850 | if nothing is left of the first, joining it with the second gives the second: all its operands are among those of the second |
| Slots.EvalPut | scripts/config/expr.c:508-558 | replacing one operand of a tree changes the tree's value as it changes the operand joined with the same rest |
| Slots.EvalPutTwo | scripts/config/expr.c:508-558 | replacing two operands by two whose join has the same value keeps the tree's value |
| Duplicates.Dups1Exact | scripts/config/expr.c:508-558 | joining pairs of operands, with both pointers into one tree, keeps the value in every three-valued valuation |
| Duplicates.Dups1Counted | scripts/config/expr.c:508-558 | without a counted replacement nothing changed, and with one a y or n operand is left |
| Duplicates.ContradictionSettles | scripts/config/expr.c:560-614 | an operand together with all of its negation makes the tree constant or m |
| Duplicates.ContradictionExact | scripts/config/expr.c:581-606 | replacing the operand keeps the value if and only if it was not m |
| Duplicates.Dups2Settles | scripts/config/expr.c:560-614 | removing contradictions never changes a y or an n |
| Duplicates.Dups2Counted | scripts/config/expr.c:560-614 | the count of replacements is right as for the other pass |
| Duplicates.AtomsConsistent | scripts/config/expr.c:560-614 | trees of atoms only are left alone |
| Duplicates.ExcludedMiddleWitness | scripts/config/expr.c:560-638 | eliminating duplicates of (F or B) and not F and not B turns its value from m into n with F = m and B = n |
| Duplicates.RoundShrinks | scripts/config/expr.c:616-638 | a round that replaced something and the following removal of constants shrink the expression, so the loop ends |
| Duplicates.EliminateDupsSettles | scripts/config/expr.c:616-638 | a value other than m survives the whole elimination in every valuation |
| Duplicates.EliminateDupsSame | scripts/config/expr.c:616-638 | if no contradiction is found, every value survives, m included |
| Duplicates.EliminateDupsExact | scripts/config/expr.c:616-638 | without m the value is kept |
| Duplicates.EliminateDupsFixpoint | scripts/config/expr.c:616-638 | the result is a fixpoint and no larger |
| Duplicates.Dups1Complete | scripts/config/expr.c:508-558 | a pass that replaced nothing left no pair of operands that could be joined |
| Duplicates.Dups2Complete | scripts/config/expr.c:560-614 | a pass that replaced nothing left no contradicted operand |
| Duplicates.EliminateDupsJoined | scripts/config/expr.c:616-638 | no two operands of the result can be joined |
| Duplicates.EliminateDupsConsistent | scripts/config/expr.c:616-638 | no operand of the result is contradicted by another part of it |
| Reduced.ExtractEqExact | scripts/config/expr.c:830-879 | without constants as operands, nothing is left of the first expression if and only if all its operands are operands of the second |
| Reduced.ContradictsExact | scripts/config/expr.c:581-606 | of normalised expressions without constants as operands a contradiction is found if and only if all operands of the negation of one are operands of the other |
| Reduced.EliminateDupsIrredundant | scripts/config/expr.c:616-638 | what elimination leaves of a normalised expression without quoted constants is y, n, or an expression of which, at every depth, no two operands are the same up to order and grouping or can be joined, and no operand is contradicted; unless y or n is an operand and nothing is replaced |
| Reduced.LastStays | scripts/config/expr.c:540-555 | (F and B) and F becomes B and F, and so for or: of the same operands the last one stays |
| Duplicates.EliminateDupsKeeps | scripts/config/expr.c:616-638 | every property that depends on operands only and that joins keep is kept |
| Duplicates.EliminateDupsNnf | scripts/config/expr.c:616-638 | negation normal form is kept |
| Duplicates.EliminateDupsNoBareMod | scripts/config/expr.c:616-638 | no bare m appears |
| Rewriter.ExprRewriter.EliminateDups1 | scripts/config/expr.c:508-558 | the in-place pass computes the joining pass and counts its replacements |
| Rewriter.ExprRewriter.EliminatePair | scripts/config/expr.c:522-555 | the step for two operands |
| Rewriter.ExprRewriter.EliminateDups2 | scripts/config/expr.c:560-614 | the in-place pass computes the contradiction pass and counts its replacements |
| Rewriter.ExprRewriter.EliminateContradiction | scripts/config/expr.c:574-606 | the step for one operand, on a copy and its negation |
| Rewriter.ExprRewriter.EliminateDupsLoop | scripts/config/expr.c:616-638 | the loop computes the elimination whose properties are proved, restores the counter, and ends |
| Comparisons.TransBoolVisible | scripts/config/expr.c:321-345 | on normal form exactly the expressions that are n stay n, and values only go down |
| Comparisons.TransBoolUnderNot | scripts/config/expr.c:321-345 | under a negation that holds if and only if the symbol is not m |
| Comparisons.TransBoolVisibility | scripts/config/symbol.c:137-153 | a symbol that is never m is as visible with rewritten prompt conditions as with the original ones |
| Comparisons.TransBoolExact | scripts/config/expr.c:321-345 | the value of an expression in normal form is kept exactly where it is not y or is y by an operand that does not change; otherwise it becomes m |
| Comparisons.TransCompareExact | scripts/config/expr.c:881-940 | the expression for a comparison with y or n has, in every valuation, the value of comparing the expression as it is read |
| Comparisons.TransCompareCorrect | scripts/config/expr.c:881-940 | it is the comparison's value if and only if reading does not change whether the expression has the value compared with |
| Comparisons.LogicalRead | scripts/config/expr.c:932-933 | with logical operands, reading means taking m for the value not compared with |
| Comparisons.TransCompareLogical | scripts/config/expr.c:881-940 | with logical operands the comparison is exactly that of the expression with every bare m taken for the value not compared with |
| Comparisons.LogicalSettled | scripts/config/expr.c:881-940 | so it changes nothing that matters if no negated operand is m |
| Comparisons.TwoValuedRead | scripts/config/expr.c:881-940 | and nothing at all without m |
| Comparisons.TransCompareNotExact | scripts/config/expr.c:912-933 | a boolean or tristate is always compared right, its negation if and only if it is not m |
| Comparisons.TransCompareTextExact | scripts/config/expr.c:932-933 | a bare symbol of any other type is compared right with y if and only if its text is not y, and with n if and only if it is n |
| Comparisons.TransCompareModExact | scripts/config/expr.c:892-911 | comparing AND or OR with m is right if and only if it is n |
| Comparisons.TransCompareSettled | scripts/config/expr.c:881-940 | a comparison is never m |
| Comparisons.DependsSymbolSound | scripts/config/expr.c:801-828 | whatever depends on a symbol is n, evaluated or read, while the symbol's text is n |
| Comparisons.DependsContains | scripts/config/expr.c:777-828 | dependence on a symbol includes containing it |
| NestingTest.ContainsExact | scripts/config/expr.c:777-799 | a condition contains exactly the symbols that occur in it |
| NestingTest.DependsExact | scripts/config/expr.c:801-828 | a condition depends on a symbol FOO if and only if one of its conjuncts is FOO, FOO=y, FOO=m or FOO!=n |
| Comparisons.VisibleFormExact | scripts/config/menu.c:264-268 | the form compared by the nesting test is n or y as the condition, as it is read, is n or not, for every condition |
| Comparisons.NestsSound | scripts/config/menu.c:251-276 | an entry that passes the nesting test is visible only while the symbol is not n or its prompt's condition is not n, conditions being read as comparisons read them |
| Comparisons.NestsVisible | scripts/config/menu.c:251-276 | the same of the conditions' values where reading does not change whether they are n |
| Comparisons.NestsMisread | scripts/config/menu.c:251-276 | and not of their values in general: an entry is nested whose condition is m while the symbol and the prompt's condition are n |
| NestingTest.NestsMentions | scripts/config/menu.c:256-259 | only an entry whose condition mentions the symbol passes the nesting test |
| NestingTest.NestsDemanded | scripts/config/menu.c:256-261 | every entry passes it of whose conjuncts one is FOO, FOO=y, FOO=m or FOO!=n for the symbol FOO |
| NestingTest.NestsUnconditional | scripts/config/menu.c:251-276 | if the prompt of the symbol has no condition, an entry passes if and only if its condition mentions the symbol |
| NestingTest.VisibleFormReduced | scripts/config/menu.c:253-263 | the forms that are compared are normalised, and elimination leaves them as they are |
| NestingTest.NestsExact | scripts/config/menu.c:251-276 | an entry passes if and only if its condition mentions the symbol and has such a conjunct, or in normal form is a conjunction that has all operands of the normal form of the prompt's condition, or that is y |
| Printing.ReadPrinted | scripts/config/expr.c:1015-1079 | the reference parser reads the tokens of printed expressions back, up to association to the right |
| Printing.RegroupExact | scripts/config/expr.c:1015-1079 | which keeps the value |
| Printing.TextsInjective | scripts/config/expr.c:1015-1079 | texts determine tokens if no symbol is named like an operator |
| Printing.PrintUnambiguous | scripts/config/expr.c:1015-1079 | expressions that print the same texts differ in association and null for y only, and have the same value everywhere |
| Printing.PrintRegrouped | scripts/config/expr.c:983-1079 | conversely, the printed text does not depend on association |
| PrintedText.LexTexts | scripts/config/zconf.l:130-148 | a reference lexer over the characters, with the operators of the configuration language, reads tokens back from their texts written one after another, if no text continues the one in front |
| PrintedText.ReadWritten | scripts/config/expr.c:1015-1100 | the reference lexer and parser read the text written for an expression back, up to association, for names that are words and no keywords |
| PrintedText.ReadWrittenNone | scripts/config/expr.c:1017-1020 | null is written as y and read back as y |
| PrintedText.WrittenUnambiguous | scripts/config/expr.c:1015-1100 | so expressions with the same text have the same value everywhere |
| PrintedText.WrittenExact | scripts/config/expr.c:983-1079 | the text of an expression in terms of the texts of its operands: && and || with spaces around, = and !=, and parentheses around exactly the operands of ! that are AND or OR and the operands of AND that are OR |
| Configuration.LocalAgree | scripts/config/symbol.c:206-312 | a symbol's value depends on nothing but the symbols its definition mentions |
| Configuration.RecursiveSolves | scripts/config/symbol.c:206-312 | without cycles the unmemoised recursion solves all definitions |
| Configuration.SolutionUnique | scripts/config/symbol.c:206-312 | without cycles any two solutions agree on every symbol |
| Configuration.SolutionBounds | scripts/config/symbol.c:244-269 | a select is a lower bound, the value exceeds neither visibility nor select unless both are n, and booleans are not m |
| Values.BestPromptExact | scripts/config/symbol.c:143-147 | the best condition of a symbol's texts is at least every condition of a text, and one of them unless it is n |
| Values.VisibleExact | scripts/config/symbol.c:137-153 | the same of the visibility, m counting as y for symbols that cannot be m |
| Values.RevExact | scripts/config/symbol.c:156-165 | what a symbol is selected to |
| Values.ActiveDefaultExact | scripts/config/symbol.c:113-123 | the default that counts is the first one, by index, whose condition is not n |
| Values.UserValue | scripts/config/symbol.c:250-259 | in every solution, where a boolean or tristate is visible or selected and the user gave a value, that is its value, cut to the visibility and raised to the select; in particular it is its value if it lies between the two |
| Values.DefaultValue | scripts/config/symbol.c:254-266 | otherwise it has the value of the first default whose condition is not n, bounded in the same way where it is visible or selected |
| Values.NoValue | scripts/config/symbol.c:254-266 | and without such a default what it is selected to |
| Values.UserText | scripts/config/symbol.c:270-279 | any other symbol has the user's text while it is visible |
| Values.DefaultTextValue | scripts/config/symbol.c:280-288 | otherwise that of the symbol its first default names whose condition is not n |
| Values.NoText | scripts/config/symbol.c:222-225 | and without such a default the empty text |
| Configuration.TransformConfigExact | scripts/config/symbol.c:206-312 | normalising all expressions of a configuration changes no logical symbol's equation |
| Evaluator.ReferenceApplies | scripts/config/symbol.c:206-312 | any solution without cycles can serve as what the evaluator is compared with |
| Evaluator.SymbolTable.CalcValue | scripts/config/symbol.c:206-312 | evaluation ends even with cycles, keeps valid symbols, and without cycles gives the value of the solution |
| Evaluator.SymbolTable.CalcVisibility | scripts/config/symbol.c:137-165 | visibility and select value are those of the solution |
| Evaluator.SymbolTable.CalcNewValue | scripts/config/symbol.c:244-292 | the new value is that of the solution |
| Evaluator.SymbolTable.CalcActiveDefault | scripts/config/symbol.c:113-123 | the first default whose condition is not n |
| Evaluator.SymbolTable.CalcExpr | scripts/config/expr.c:942-981 | an expression evaluated with memoisation has its value in the solution |
| Evaluator.SymbolTable.ClearAllValid | scripts/config/symbol.c:314-324 | clearing leaves a table that is good for evaluating afresh |
| Evaluator.SymbolTable.CalcAll | scripts/config/symbol.c:206-312 | every symbol evaluated, in any order, has the value of the solution |
| CycleCheck.ReachesCycleStep | scripts/config/symbol.c:722-756 | a symbol depends on a cycle if and only if one of its direct dependencies does |
| Configuration.EdgesExact | scripts/config/symbol.c:734-750 | a symbol depends on exactly the symbols of its reverse dependency, of the conditions of its properties other than selects, and of its defaults |
| Configuration.SelectNoEdge | scripts/config/symbol.c:739-741 | adding a select to the properties of a symbol changes no symbol's dependencies |
| CycleCheck.SelectNoCycle | scripts/config/symbol.c:739-741 | so it makes no cycle |
| CycleCheck.DepChecker.CheckDeps | scripts/config/symbol.c:722-756 | returns a symbol on a cycle that is reached, and nothing only if none is reached; the flags of the search are as before |
| CycleCheck.DepChecker.CheckExprDeps | scripts/config/symbol.c:692-720 | the same for the symbols of an expression |
| CycleCheck.DepChecker.CheckAll | scripts/config/zconf.y:497-503 | something is reported if and only if some symbol depends on a cycle |
| CycleCheck.NoCyclesLayered | scripts/config/symbol.c:722-756 | without cycles counting the dependencies is a layering, as the evaluator's theorem needs |
| CycleCheck.LayeredNoCycles | scripts/config/symbol.c:722-756 | and only then is there one |
| CycleCheck.NoCyclesSolvable | scripts/config/symbol.c:722-756 | a configuration nothing is reported for has a solution |
| Pipeline.AcyclicReference | scripts/config/zconf.y:497-503 | without cycles every solution can be compared with |
| Pipeline.CheckAndEvaluate | scripts/config/zconf.y:486-506 | for every configuration: if the check reports nothing, evaluation in any order gives every symbol the value that every solution gives it |
| MenuLinks.NextIsSuccessor | scripts/config/confdata.c:257-268 | the next entry of the i-th entry is the one after it, and after the last one the walk goes on behind the tree |
| MenuLinks.LinkedSetEnd | scripts/config/menu.c:278-282 | redirecting the last next pointer of a list moves only its end |
| MenuInfo.InheritSettles | scripts/config/menu.c:225-228 | a condition joined with the inherited one is the conjunction wherever that is not m |
| MenuInfo.InheritExact | scripts/config/menu.c:225-228 | and without m always |
| MenuInfo.PropagatedExact | scripts/config/menu.c:224-241 | without m an entry's condition and those of its properties become the conjunctions with what is inherited |
| MenuInfo.PropagatedNnf | scripts/config/menu.c:224-241 | whatever conditions were written like, those that are rewritten are in normal form, and so are all conditions afterwards |
| MenuInfo.PropagatedVisible | scripts/config/menu.c:236-241 | rewriting makes no property's condition n, nor one that is n anything else, in three-valued logic |
| MenuConditions.InheritIrredundant | scripts/config/menu.c:225-228 | an inherited condition is y or n or has, at every depth, no operands that are the same, can be joined or are contradicted, unless y or n is an operand |
| MenuConditions.PropagatedConditions | scripts/config/menu.c:236-241 | in three-valued logic the condition of a property is what it inherits, except that at symbols other than tristates a y becomes m where it is y only by FOO!=n with FOO = m |
| MenuInfo.AddSelectsExact | scripts/config/menu.c:242-246 | a symbol's reverse dependency is what it was or the best of the selecting symbol with the conditions of its selects |
| MenuInfo.SelectRewritten | scripts/config/menu.c:239-246 | a select with a rewritten condition selects what the original one does except exactly where it selects m instead of y |
| MenuInfo.SelectLowered | scripts/config/menu.c:236-246 | which a select of a tristate under FOO!=n by a boolean that is y does with FOO = m |
| MenuInfo.InheritedImplies | scripts/config/menu.c:224-250 | without m every entry is visible only while all entries it was written below are |
| MenuInfo.ChildInherits | scripts/config/menu.c:219-228 | without m a child's condition is the conjunction of its own with its parent's prompt's condition, or the parent's own if it has no prompt |
| MenuInfo.InheritedNnf | scripts/config/menu.c:224-250 | below an entry whose condition is in normal form all conditions of all entries are |
| MenuFinalize.FinalizedCompose | scripts/config/menu.c:249-250 | finalizing some trees and then others finalizes all of them: inheritance, records of nesting and unrelated entries survive |
| MenuFinalize.FinalizedNode | scripts/config/menu.c:224-250 | inheriting and then finalizing the children finalizes the parent |
| MenuFinalize.MenuTable.PropagateDeps | scripts/config/menu.c:224-248 | exactly the direct children inherit, each once |
| MenuFinalize.MenuTable.Reparent | scripts/config/menu.c:306-310 | exactly the children change their parent |
| MenuFinalize.MenuTable.MoveUp | scripts/config/menu.c:305-314 | the children follow their former parent in its list; order and everything else are kept |
| MenuFinalize.MenuTable.Flatten | scripts/config/menu.c:284-315 | the children of exactly the children without a prompt follow them one level up, and the order of all entries is kept |
| MenuNesting.GreedyFrame | scripts/config/menu.c:251-277 | that every entry took in what it could is not disturbed by finalizing others |
| MenuFinalize.MenuTable.FinalizeKids | scripts/config/menu.c:249-250 | all children are finalized, with the order of all entries kept, every entry where its logical parent puts it, and none that could take in what follows it |
| MenuFinalize.MenuTable.NestSiblings | scripts/config/menu.c:251-277 | siblings are nested one after another up to one that fails the test |
| MenuFinalize.MenuTable.TakeIn | scripts/config/menu.c:278-282 | the nested siblings become the children and leave the list, order kept |
| MenuTrees.FlatKidsIds | scripts/config/menu.c:305-314 | moving children up changes the order of no entries |
| MenuTrees.FlatKidsDeep | scripts/config/menu.c:305-314 | afterwards no entry without a prompt, at any depth, has children |
| MenuTrees.RaiseFlat | scripts/config/menu.c:284-315 | doing so one level at a time from the leaves up flattens the whole tree |
| MenuTrees.FlatParent | scripts/config/menu.c:305-314 | an entry's parent is then the nearest entry around it that has a prompt, or the root |
| MenuFinalize.MenuTable.Finalize | scripts/config/menu.c:198-317 | no entry is lost, repeated or reordered; the tree is that of the logical parents, which are those entries were nested below or else written below, with the children of every entry without a prompt moved up; what was nested passes the test, and at any depth what follows what was taken in fails it; every entry inherits once |
| MenuWalk.NextMenu | scripts/config/confdata.c:257-268 | the climbing loop finds the nearest following entry |
| MenuWalk.Visit | scripts/config/confdata.c:348-349 | the walk visits every entry once, parents before children before siblings, and stops |
| MenuWalk.NestedMeaning | scripts/config/menu.c:251-277 | a nested entry is visible only while its new parent's symbol is not n or its prompt can be visible, as comparisons read the conditions |
| MenuWalk.NestedMentions | scripts/config/menu.c:256-259 | the condition of a nested entry mentions its new parent's symbol |
| MenuWalk.DemandedNested | scripts/config/menu.c:256-276 | what follows an entry that takes in nothing more is no entry of whose conjuncts one is FOO, FOO=y, FOO=m or FOO!=n for its symbol FOO: those are always taken in |
| MenuWalk.NestedVisible | scripts/config/menu.c:251-277 | without m, and with logical operands, that is so of the conditions' values |
| MenuWalk.FinalizedNnf | scripts/config/menu.c:198-250 | in a finalized menu all conditions below a root in normal form are in normal form |
| MenuWalk.FinalizeMenu | scripts/config/zconf.y:496 | the walk visits the same entries in the same order before and after finalizing; every parent pointer leads to the nearest entry around that has a prompt; every entry written without children and with a symbol has taken in all that followed it in its list up to one that fails the test; the condition of every nested entry mentions its new parent's symbol |
| ConfStrings.WriteString | scripts/config/confdata.c:413-437 | the writer's loops escape exactly the quotes and backslashes |
| ConfStrings.UnescapeInPlace | scripts/config/confdata.c:176-186 | the reader's loop removes the escapes within the buffer and cuts at the closing quote, or finds that there is none |
| ConfStrings.ReadValue | scripts/config/confdata.c:144-196 | the outcome of what follows the equals sign |
| ConfStrings.ReadLine | scripts/config/confdata.c:141-196 | the outcome of a line for a string symbol |
| ConfStrings.UnescapeEscape | scripts/config/confdata.c:173-186 | reading undoes writing whatever follows the closing quote |
| Spelling.EscapeSpells | scripts/config/confdata.c:419-433 | what is written for a value is its characters in order, with a backslash in front of exactly the quotes and backslashes |
| Spelling.UnescapeExact | scripts/config/confdata.c:173-186 | the value read is v if and only if the text up to its first quote without a backslash spells v, where a backslash may stand in front of any character |
| Spelling.LineExact | scripts/config/confdata.c:413-437 | the line written for a value, and in numbers when it can be read back |
| ConfStrings.EscapeOpen | scripts/config/confdata.c:173-186 | no part of an escaped value looks closed |
| ConfStrings.RoundTrip | scripts/config/confdata.c:112-196 | the outcome for every name and value; the value is read back if and only if the name begins with a capital letter, the value has no newline and the line fits |
| ConfStrings.ReadChunk | scripts/config/confdata.c:112 | the buffer holds the line, or as much of it as fits, and an end |
| ConfStrings.WriteAndRead | scripts/config/confdata.c:112-437 | the writer's loop, the buffer and the reader's loops in sequence have that outcome, whatever follows in the file |
| ConfStrings.FileRoundTrip | scripts/config/confdata.c:112-196 | a whole file of values is read back in order if they all fit, and otherwise reading it fails |
| ConfStrings.ReadAll | scripts/config/confdata.c:112-196 | the loop over the lines of a file, with one buffer, reads what the file says |
| ConfStrings.SaveAndLoad | scripts/config/confdata.c:112-437 | writing values and reading the file gives the same values in the same order if they all fit, and fails otherwise |
| Elements.RowExact | lib/c_lib/qsort.c:151-152 | element k starts k times the element size behind the base |
| Elements.RowApart | lib/c_lib/qsort.c:118 | elements do not overlap |
| Elements.SwapExact | lib/c_lib/qsort.c:65-72 | exchanging two areas byte by byte exchanges two elements and touches nothing around the elements |
| Elements.RotateExact | lib/c_lib/qsort.c:121-128 | rotating every column of bytes rotates the elements |
| Orders.InsertSorted | lib/c_lib/qsort.c:119-131 | moving an element to its place keeps the part in front sorted |
| Orders.ExchangeKeeps | lib/c_lib/qsort.c:181-208 | each of the three exchanges keeps the partition invariant although the pivot moves |
| Orders.MedianCases | lib/c_lib/qsort.c:159-167 | the tests find the median of three for every total preorder |
| Orders.RemainingLower | lib/c_lib/qsort.c:241-251 | once the upper side is sorted, only the lower side remains to be sorted |
| Orders.RemainingUpper | lib/c_lib/qsort.c:252-265 | the same for the other side |
| QuickSort.SwapAreas | lib/c_lib/qsort.c:65-72 | the macro exchanges the areas and moves both pointers behind them |
| QuickSort.RotateColumn | lib/c_lib/qsort.c:123-128 | the inner loop rotates one column |
| QuickSort.Sorter.Swap | lib/c_lib/qsort.c:65-72 | on elements: exchanged, and both pointers at the next element |
| QuickSort.Sorter.BubbleUp | lib/c_lib/qsort.c:121-128 | on elements: moved in front |
| QuickSort.Sorter.FindPlace | lib/c_lib/qsort.c:120-121 | the place of an element among those in front of it |
| QuickSort.Sorter.InsertionSort | lib/c_lib/qsort.c:102-132 | a sorted permutation of the range; nothing else changes |
| QuickSort.Sorter.Median | lib/c_lib/qsort.c:159-167 | the median of three |
| QuickSort.Sorter.SelectPivot | lib/c_lib/qsort.c:150-174 | the median is brought to the middle in partitions of six or more |
| QuickSort.Sorter.Partition | lib/c_lib/qsort.c:176-208 | the range is permuted and partitioned by the pivot, and unchanged if nothing was exchanged |
| QuickSort.Sorter.SortPair | lib/c_lib/qsort.c:89-93 | two neighbours are put in order |
| QuickSort.Sorter.Round | lib/c_lib/qsort.c:150-268 | a pass of the loop sorts the range or leaves a smaller part of it to be sorted |
| QuickSort.Sorter.SortSmall | lib/c_lib/qsort.c:88-97 | the SORT macro sorts |
| QuickSort.Sorter.Quick | lib/c_lib/qsort.c:135-268 | a sorted permutation of the range; two to the depth of the recursion is at most the number of elements |
| QuickSort.Sorter.Sort | lib/c_lib/qsort.c:272-285 | a sorted permutation for every total preorder and element size; bytes around the array are untouched |
| QuickSort.Qsort | lib/c_lib/qsort.c:272-285 | the same for any array that holds the elements: of any two the one in front compares as at most the other |
| Gpio.MergedBits | src/GPIO/gpio.c:25-28 | bits under the mask are written, the others kept |
| Gpio.IsSetDigit | src/GPIO/gpio.c:25-28 | bit k of a byte is the digit of two to the k in its number |
| Gpio.BitNumber | src/GPIO/gpio.c:647 | the mask of pin k of a port is two to the k |
| Gpio.OneBitExact | src/GPIO/gpio.c:25-28 | changing one bit is adding or taking out its mask |
| Registers.OneBitDigits | src/GPIO/gpio.c:25-28 | and in numbers changes exactly that digit |
| Gpio.ChangeKeeps | src/GPIO/gpio.c:644-775 | what keeps the registry consistent |
| Gpio.Driver.SetEnableWithMask | src/GPIO/gpio.c:512-516 | exactly the bits under the mask of one register of one port are written |
| Gpio.Driver.Configure | src/GPIO/gpio.c:665-702 | the pin becomes an enabled input with the requested trigger; no other pin's bits change |
| Gpio.Driver.Request | src/GPIO/gpio.c:644-710 | succeeds if and only if the pin exists, is free and a handler is given; whole new state; nothing changes on failure |
| Registers.ConfiguredBytes | src/GPIO/gpio.c:665-702 | all five registers of the port after a request, as bytes, for every flags argument |
| Registers.FirstRequest | src/GPIO/gpio.c:644-710 | for instance, after requesting pin 0 with a rising edge from the cleared registers |
| Registers.EnabledBytes | src/GPIO/gpio.c:700-775 | the registers of a port after freeing, enabling or disabling, as bytes |
| Registers.ConsistentMeaning | src/GPIO/gpio.c:644-813 | what the consistency kept by all calls means for each pin, its enable bit as a digit of a number, and the count of its group |
| Gpio.Driver.Free | src/GPIO/gpio.c:712-735 | undoes a request, and does nothing to a free pin |
| Gpio.Driver.Enable | src/GPIO/gpio.c:737-755 | only the enable bit and the activity of a registered pin change |
| Gpio.Driver.Disable | src/GPIO/gpio.c:757-775 | the same, and the handler is kept |
| Gpio.Driver.Perform | src/GPIO/gpio.c:644-775 | each call of the registry changes the pins as stated and keeps the registry consistent |
| Gpio.Driver.Dispatch | src/GPIO/gpio.c:778-813 | handlers may make any calls of the registry, for any pins; those called are the first ones of the pins that are pending and registered when their turn comes, up to the first number of calls, if any, for which no more pins of the group are registered by then |
| Gpio.CompleteExact | src/GPIO/gpio.c:809-810 | such a pin is left out if and only if that happens before the last of them |
| Gpio.CalledCount | src/GPIO/gpio.c:778-813 | so the state before the interrupt and what the handlers do determine the calls |
| Registers.TodoAscending | src/GPIO/gpio.c:789-790 | pins are called in ascending order |
| Registers.TodoExact | src/GPIO/gpio.c:789-807 | with k pins to call before it, a pin is the next to call if and only if its line is pending and it has a handler once the handlers of those have been called |
| Gpio.Run | src/GPIO/gpio.c:644-813 | after every run of calls and interrupts from the cleared state, the pins are what the events make them, pins have handlers exactly while locked, are active only then, are enabled exactly while active, and every group counts its locked pins |
| Gpio.NothingSkipped | src/GPIO/gpio.c:809-810 | nothing is left out if no handler frees its own pin or one of the group before it, whatever else handlers do |
| Gpio.FreeingSkips | src/GPIO/gpio.c:809-810 | of three registered pending pins the third is left out if the handler of the second frees the first or itself |
| Gpio.FreeingSkipped | src/GPIO/gpio.c:644-813 | which happens in a state reached by three requests |
| Gpio.NothingTodo | src/GPIO/gpio.c:783-784 | the early return for a group without registered pins leaves nothing out |
| ClockDivisor.Power | src/I2C/i2c.c:498-511 | the power, modulo 2 to the 32 |
| ClockDivisor.EncodeExact | src/I2C/i2c.c:536 | fields of three bits are read back from the register value |
| ClockDivisor.Calculate | src/I2C/i2c.c:513-539 | ends for all inputs: in a division by zero exactly for hopeless targets, and otherwise with a value that meets the target if and only if the largest divisor does |
| ClockDivisor.FoundSmallest | src/I2C/i2c.c:525-534 | no fields give a smaller divisor that meets the target, so no slower-than-target clock is faster |
| ClockDivisor.FailsHopeless | src/I2C/i2c.c:525-534 | the division by zero is reached only with target 0, or target 1 and a peripheral clock of at least 4026531840 |

## Left out

- Choices (`E_CHOICE`, choice values and their defaults) and ranges (`E_RANGE`): choice members read the choice's value without recomputing it.
- The collection of select expressions (`scripts/config/menu.c:242-246`) is modelled for one entry; the pass over the menu does not carry the collected expressions along.
- The flags for changed and written symbols, warnings and all output.
- Allocation and release of expression nodes, and the reuse of their storage: expressions are values. Where two pointers lead into one tree the model has two paths into one tree, so aliasing within a tree is kept, sharing between trees is not.
- `trans_count` inside `__expr_eliminate_eq`, which `expr_eq` restores.
- ExprEqExact: excludes y, n and quoted constants as operands of an AND or OR, because with y or n there equality is not transitive, so that it is equality of no form of expressions whatever (`NoCanonicalForm`), and with two quoted constants it is not reflexive; soundness, `ExprEqSound`, includes them.
- ReflexiveExact: for negations of expressions that are not recognised as equal to themselves only one direction holds (`ResidueSymbol`, `NegationWitness`).
- The text printed for a choice symbol without a name.
- Evaluator.SymbolTable.CalcAll: the value of the modules symbol is the one the reference was made for; a modules symbol whose value changes between evaluations is not modelled.
- CycleCheck.DepChecker.CheckAll: after a first report later symbols may go unreported, as in the code; only whether anything is reported is stated.
- Lines of the configuration file for symbols that are not strings.
- ConfStrings.FileRoundTrip: only for names that begin with a capital letter and fit the buffer, because the rest of a line that is ignored may be read as another line.
- NestingTest.NestsExact: excludes y, n and quoted constants as operands of the normal forms, as `ExprEqExact` does; the other statements on the test include them.
- PrintedText.ReadWritten: names that the language cannot spell without quotes, since the printer writes none.
- Sorting more elements than an `int` counts, and comparison functions that are not total preorders.
- Pointers to elements are element numbers in the upper layers of the sort; the byte addresses behind them are in `Elements` and in the loops over bytes.
- GPIO data values, the test mode register, clearing of interrupts and the registration of the group interrupts; registers are assumed to be clear at the start.
- Gpio.Driver.Request: pins are natural numbers; negative ones pass the only range test of the source, which then indexes in front of its array.
- Gpio.Driver.Free: the same holds of negative pins.
- Gpio.Driver.Enable: the same holds of negative pins.
- Gpio.Driver.Disable: the same holds of negative pins.
- Concurrency of the GPIO functions with the interrupt service routine.
- The I2C, I2S, DMA, LCD and other drivers, `vsprintf`, `scanf`, the menus, and the dialogs of the configuration tools.
