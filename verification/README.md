# Kconfig expressions, symbols and menus, an auto-negotiation machine, and a packet driver

This project models the parts of HomeBox6441 with the most involved logic and proves what they promise:

- the rewriting engine for dependency expressions over three-valued logic (`scripts/config/expr.c`);
- memoised symbol evaluation, choices, user settings and the search for recursive dependencies
  (`scripts/config/symbol.c`);
- the re-parenting of menu entries and the stackless walk that writes the configuration
  (`scripts/config/menu.c`, `scripts/config/confdata.c`), and the escaping of string values in the file;
- the 1000BASE-X auto-negotiation state machine (`package/broadcom-57xx/src/autoneg.c`, section 37.3.1.5 of
  IEEE 802.3z);
- sub-packet segmentation, checksum, reassembly and retransmission in the CVoIP driver
  (`cosic/dect_ifx_cosic_driver/drv_dect_cosic_drv_cvoip.c`, full-duplex build).

`dafny verify dfyconfig.toml` checks everything.

## How to read it

| files | content |
|---|---|
| `Tristates`, `Exprs` | the logic n = 0, m = 1, y = 2, expressions, environments, evaluation |
| `ExprEqs`, `ExprEqComplete`, `ExprKeys` | folding of constants, equality by cancellation, common factors; exactly what they find |
| `Transforms`, `Polarity` | negation push-down, the bool rewrite, comparison lowering, and each as one pass down the tree |
| `Joins`, `JoinRules`, `Spines`, `Dups` | the list of pairs that are joined, duplicate and complement removal and its loop |
| `DupsFixpoints`, `DupsNormalForm`, `DupsFound`, `DupsOrder` | what results look like, what they cannot contain, and which operands stay |
| `ExprNodes`, `ExtractNodes`, `DupSlots` | the same passes on nodes and operand slots that are overwritten |
| `Symbols` | the definition of all symbol values, by recursion on the dependency rank |
| `SymbolMemo`, `SymbolCalc` | the memoising calculator over mutable state, proved against that definition |
| `SymbolFacts`, `SymbolRules`, `SymbolSet` | choices, values and picks rule by rule, user settings |
| `SymbolCheck`, `SymbolOrder` | the search for recursive dependencies, and when an order of calculation exists |
| `SubmenuTest`, `SubmenuFound`, `ChoiceBound` | dependency propagation, and which entries are taken into a submenu |
| `Menus`, `MenuFacts`, `MenuTaken` | the run of menu_finalize, what holds of all entries afterwards, what is taken and handed down |
| `MenuLinks`, `MenuTree`, `MenuWalk` | linked entries, and the walk over them |
| `ConfStrings`, `ConfReader` | escaping, and unescaping inside the line buffer |
| `Autoneg`, `AutonegRuns` | one call of the machine, and whole runs |
| `Cvoip`, `CvoipFields`, `CvoipDriver`, `CvoipRuns` | packet format and steps, field by field, the driver with its buffers, whole commands |
| `CvoipLink`, `CvoipLoss` | two drivers on one link, without and with corrupt packets |

Code that updates state is a class or a method over arrays whose `ensures` tie the new state to a function of the old
one; the lemmas are about those functions. Environments assign every symbol a tristate and a string; `TwoValued` says
that boolean symbols are never m, which calculation guarantees (`SymbolFacts.EnvIsTwoValued`).

## Findings

Promises that hold only under a condition, each with the condition and an input that breaks it:

- Duplicate removal may sharpen m: `(F || G) && (!F && !G)` is m at F = m, G = n and becomes the constant n
  (`DupsFixpoints.ComplementSharpensMod`); y and n are never changed (`Dups.EliminateDupsRefines`), and nothing at
  all in expressions over comparisons and symbols that are not tristate (`Dups.EliminateDupsExact`).
- Comparing an expression with y or n is right throughout if and only if no negated part is m and every operand's string
  agrees with its value as far as the constant is concerned (`Transforms.CompareExactThroughoutIff`).
- The bool rewrite is wrong below a negation (`Transforms.TransBoolNeedsNormalForm`); it is only applied to normal forms
  (`DupsNormalForm.HandDownKeepsNnf`).
- Equality by cancellation does not recognise `"foo" && "bar"` as equal to itself, because constants made by name carry
  the flags of y and n (`ExprEqComplete.NamedConstantsDefeatExprEq`). A folded expression is recognised if and only if
  no row of operands has two such constants or an operand that is not recognised (`ExprEqComplete.ExprEqSelfIff`).
- Two values of a choice can be y while the choice itself is n, when they carry defaults from outside the choice
  (`SymbolFacts.DefaultsBreakChoice`).
- Setting a choice value to y can succeed as a call without effect. A value without defaults becomes y if and only if
  the stored user value of its choice leads to y and the choice, counted as y, sees the value as fully visible
  (`SymbolSet.SetPickIff`). For a choice that is y and a visible value that is so (`SymbolSet.SetPickOfYes`), but the
  choice need not be y before: a user value left by a file counts again (`SymbolSet.StaleChoiceTurnsYes`).
- A choice accepts y although it has no value to pick, and stays n; one that is selected to m accepts n while it is n
  for that reason, and becomes m (`SymbolSet.SetChoice`).
- A quiet search for recursive dependencies does not mean that there is an order in which values can be calculated. The
  numbering it leaves is one if and only if it also falls along what the search does not follow: deselection, what the
  values of a choice depend on, and the choice of a value (`SymbolOrder.QuietIsOrderIff`). There is an order at all if
  and only if no symbol needs itself through these and the followed dependencies (`SymbolOrder.OrderExistsIff`). Two
  graphs without an order pass quietly: a symbol that deselects itself (`SymbolOrder.DeselectCycleUnnoticed`), and a
  choice whose first value depends on its second (`SymbolOrder.ChoiceCycleUnnoticed`), where no values at all agree with
  the pick made from them (`SymbolOrder.NoValuesFit`).
- A string is read back unchanged if and only if it has no newline and its line fits the buffer
  (`ConfStrings.RoundTrip`).
- The consistency check for the acknowledged word compares the word with itself, so any nonzero word followed by any
  acknowledged one with clear reserved bits brings the link up (`AutonegRuns.ConsistencyNeverFails`,
  `AutonegRuns.AnyAcknowledgeAccepted`).
- The CVoIP receiver recognises an awaited retransmission if and only if bit 2 of its number is clear, because it is
  computed from a signed byte (`CvoipRuns.RetransmissionRecognisedIff`). Otherwise it keeps waiting although it has
  stored the whole command (`CvoipRuns.CorruptionRecoveredIff`, for a peer that repeats without being asked).
- Nobody asks: unless told to refuse a transfer the driver never sends a NACK, whatever it receives
  (`CvoipLoss.NeverNacks`). On a link of two such drivers a packet that is corrupt on arrival is lost, and the sender
  takes the command for delivered; the receiver ends as if complete if and only if the packet was the last one, or the
  first one after a cleared header (`CvoipLoss.CorruptPacketIsLost`).
- A packet is appended whatever its number (`CvoipRuns.AppendsPiece`), so a corrupt answer, after which the sender goes
  back, makes the receiver store a packet twice (`CvoipLoss.CorruptAnswerDuplicates`).
- While the last packet waits for its acknowledgement, a packet that only acknowledges the peer overwrites the number
  that is waited for with 0; the acknowledgement that then arrives does not end the transmission
  (`CvoipFields.AnswerForgetsLastPacket`).
- A NACK ends a transmission, as if it were an acknowledgement, if and only if it names the last packet, that packet is
  out and the packet heard before was a NACK as well (`CvoipRuns.NackEndsIff`,
  `CvoipRuns.SecondNackOfLastEndsTransmission`).

Where comments and code disagree the model follows the code: expr.c:488 announces `a='m'` for `(a!='m') && (a!='n')`
while line 489 builds `a='y'`; expr.c:319 speaks of bool symbols while line 334 tests for tristate; autoneg.h:24 calls
the 12000 us interval 10 ms.

## Model

| member | source | states |
|---|---|---|
| `Exprs.DependsOnSymbolSound` | scripts/config/expr.c:801-828 | if the syntactic dependency test succeeds, the expression is n whenever the logical symbol is n |
| `Exprs.DependsImpliesContains` | scripts/config/expr.c:777-828 | the dependency test finds only symbols that the containment test finds |
| `Exprs.EvalReadsContained` | scripts/config/expr.c:777-799 | two environments that agree on the contained symbols give the same value, so containment is complete |
| `Polarity.ContainsIffRenamed` | scripts/config/expr.c:777-799 | a symbol is contained in an expression if and only if putting another symbol in its place changes the expression |
| `SubmenuFound.DependsIff` | scripts/config/expr.c:801-828 | the dependency test succeeds if and only if some operand of the outermost AND is the symbol, the symbol compared as equal with y or m, or as unequal with n |
| `ExprEqs.EliminateYnPreservesValue` | scripts/config/expr.c:235-316 | folding y and n away keeps the value in every environment |
| `ExprEqs.EliminateYnNormalForm` | scripts/config/expr.c:235-316 | afterwards no AND/OR node has y or n as an operand |
| `ExprEqs.EliminateYnShrinks` | scripts/config/expr.c:235-316 | the tree gets strictly smaller if there was anything to fold and stays identical otherwise |
| `ExprEqs.ExprEqSound` | scripts/config/expr.c:193-233 | expressions found equal by cancelling operands on copies have the same value in every environment |
| `ExprEqs.CancelPairsSound` | scripts/config/expr.c:135-166 | the pair walk takes one and the same factor out of both sides |
| `ExprEqs.EliminateEqImplication` | scripts/config/expr.c:168-188 | if cancellation leaves y on the right, the left value is at most the right value, for all four combinations of roots and both walks |
| `ExprEqs.LoneLeafWalkIsIdentity` | scripts/config/expr.c:172-185 | when the second walk is needed, the first one has changed nothing |
| `ExprEqs.ExtractPairsExact` | scripts/config/expr.c:852-879 | the walk adds to the collected factor exactly what it takes out of both operands |
| `ExprEqs.ExtractEqExact` | scripts/config/expr.c:830-879 | old operand = factor combined with new operand, for both operands and both connectives; without a factor nothing changes |
| `ExprEqComplete.ExprEqSelfIff` | scripts/config/expr.c:135-233 | a folded expression is recognised as equal to itself if and only if, at every depth, a row of operands has at most one named constant and otherwise only operands that are recognised themselves |
| `ExprEqComplete.SelfEqSuffices` | scripts/config/expr.c:193-233 | that condition suffices for unfolded expressions too, through the cancelling walk on the two copies |
| `ExprEqComplete.NotSelfEqMatchesNothing` | scripts/config/expr.c:135-233 | a folded expression that misses the condition is not recognised as equal to any expression at all |
| `ExprEqComplete.ResidueStays` | scripts/config/expr.c:135-166 | named constants and operands that are not recognised stay in their row, whatever it is cancelled against |
| `ExprEqComplete.FoldedNormalForm` | scripts/config/expr.c:235-316 | normal forms without y and n operands are folded at every depth |
| `ExprEqComplete.ExprEqReflexive` | scripts/config/expr.c:193-233 | every expression without named constants as operands is recognised as equal to itself |
| `ExprEqComplete.NamedConstantsDefeatExprEq` | scripts/config/expr.c:147-149 | a conjunction of two named constants is not recognised as equal to itself |
| `ExprEqComplete.ExtractPairsComplete` | scripts/config/expr.c:852-879 | after factoring no operand of one side equals an operand of the other, and the sides changed only by planting the neutral constant |
| `ExprKeys.KeysDecide` | scripts/config/expr.c:135-233 | two folded expressions are found equal if and only if both are recognised as themselves and differ at most in the order and grouping of the operands of AND and OR, at any depth |
| `ExprKeys.CancelPairsOperands` | scripts/config/expr.c:135-166 | cancelling leaves each side every operand as often as it exceeds the other side, and all named constants and operands that are not recognised |
| `ExprKeys.ExprEqEquivalence` | scripts/config/expr.c:193-233 | being found equal is symmetric and transitive on folded expressions |
| `ExprKeys.OperandOrderDoesNotMatter` | scripts/config/expr.c:193-233 | three operands are found equal to equal ones in the opposite order and grouping |
| `ExprKeys.EliminateEqOperands` | scripts/config/expr.c:168-188 | what is left of two rows of one connective, or of a row and a single operand, operand by operand |
| `ExprKeys.EliminateEqDifferent` | scripts/config/expr.c:168-188 | of two rows of different connectives: each counts as one operand of the other, and without a match both stay as they are |
| `ExprKeys.EliminateEqIff` | scripts/config/expr.c:168-188 | y is left on the right if and only if it was there from the start or the left side is an AND that has every AND operand of the right side, each as often and none of them a constant |
| `ExprKeys.ExtractPairsOperands` | scripts/config/expr.c:852-879 | factoring leaves each side every operand as often as it exceeds the other side, named constants included |
| `ExprKeys.FactorGains` | scripts/config/expr.c:852-879 | what the left side loses the factor gains, operand by operand |
| `ExprKeys.ExtractEmptiesIff` | scripts/config/expr.c:830-879 | nothing is left of the left side if and only if all its operands are recognised and occur on the right |
| `Transforms.TransformPreservesValue` | scripts/config/expr.c:640-775 | the transformation keeps the value in every environment where booleans are two-valued |
| `Transforms.TransformNormalises` | scripts/config/expr.c:640-775 | the result has negations only over symbols other than y, m, n and no boolean compared with y, m or n |
| `Transforms.TransformFixpoints` | scripts/config/expr.c:640-775 | the expressions left alone are exactly those normal forms |
| `Transforms.TransformIdempotent` | scripts/config/expr.c:640-775 | transforming twice is transforming once |
| `Polarity.TransformIsPush` | scripts/config/expr.c:640-775 | transforming rewritten trees again is one pass down the tree that counts the negations above an operand; operands stay in their order |
| `Polarity.NegatedPush` | scripts/config/expr.c:716-770 | negating a normal form is the normal form of the negation |
| `Transforms.TransBoolKeepsNonZero` | scripts/config/expr.c:321-345 | on normal forms the rewrite never raises a value and moves nothing between n and the rest |
| `Transforms.TransBoolNeedsNormalForm` | scripts/config/expr.c:326-331 | below a negation an n becomes m |
| `Polarity.TransBoolRemovesAll` | scripts/config/expr.c:321-345 | no tristate symbol is compared as unequal with n afterwards at any depth, and exactly the expressions without such a comparison are left alone; operands stay in their order |
| `Polarity.TransBoolKeepsDefinite` | scripts/config/expr.c:321-345 | where no tristate symbol is m the rewrite keeps every value, below negations too |
| `Transforms.CompareIsTwoValued` | scripts/config/expr.c:881-940 | the lowered comparison is never m, for any expression |
| `Transforms.CompareDecidesSharp` | scripts/config/expr.c:881-940 | over logical operands the comparison decides on the value in which every negated m has become definite |
| `Transforms.CompareExact` | scripts/config/expr.c:881-940 | it equals comparing the value when no negated part is m |
| `Transforms.CompareNegationExactIff` | scripts/config/expr.c:912-913 | at a negation it is right if and only if the negated operand is not m |
| `Transforms.CompareExactThroughoutIff` | scripts/config/expr.c:881-940 | it is right at every subexpression if and only if operands spell their value and nothing negated is m |
| `Polarity.NotZeroIsSought` | scripts/config/expr.c:881-940 | comparing with n and transforming is one pass down the tree: an AND differs from n if all operands do, an OR if one does, and the dual below a negation |
| `Polarity.CompareKeepsSubjects` | scripts/config/expr.c:881-940 | the comparison looks at the same symbols in the same order |
| `Transforms.SharpBelowOnNormalForms` | scripts/config/expr.c:881-940 | on normal forms the comparison with n errs only towards n, and never on y |
| `Joins.JoinOrExact` | scripts/config/expr.c:350-412 | a joined pair has the value of the disjunction, for every rule and either order |
| `Joins.JoinAndExact` | scripts/config/expr.c:414-506 | a joined pair has the value of the conjunction |
| `JoinRules.JoinIff` | scripts/config/expr.c:350-506 | two operands are joined into an expression if and only if they are found equal and it is the first of them, or they are two tests of one symbol on the list for the connective and it is the result listed there, in either order |
| `Dups.Dups1Exact` | scripts/config/expr.c:508-558 | the joining walk keeps the value exactly |
| `Dups.Dups1Counts` | scripts/config/expr.c:508-558 | a walk that counts nothing changed nothing and met no joinable pair; any other leaves a constant to be folded |
| `Dups.ComplementaryBound` | scripts/config/expr.c:581-604 | a detected complement lies on the absorbing side of the negated operand |
| `Dups.Dups2Refines` | scripts/config/expr.c:560-614 | the complement walk keeps y and n and may only make an m definite |
| `Dups.Dups2Counts` | scripts/config/expr.c:560-614 | a walk that counts nothing changed nothing and met no complement, at leaves or at inner nodes |
| `Dups.Dups2Plants` | scripts/config/expr.c:560-614 | a walk that counts something leaves a constant to be folded |
| `Dups.OneRoundProgress` | scripts/config/expr.c:623-635 | a round that counts makes the folded tree strictly smaller; the last round changes nothing |
| `Dups.EliminateDupsRefines` | scripts/config/expr.c:616-638 | wherever the input is y or n the result is the same |
| `Dups.EliminateDupsExact` | scripts/config/expr.c:616-638 | an expression over comparisons and symbols that are never m keeps its value exactly |
| `Dups.EliminateDupsNormalForm` | scripts/config/expr.c:616-638 | the result has nothing to join and nothing complementary at any depth, and the pass is idempotent |
| `DupsFixpoints.Dups1Idle` | scripts/config/expr.c:508-558 | the joining walk does and counts nothing on a tree without joinable operands |
| `DupsFixpoints.Dups2Idle` | scripts/config/expr.c:560-614 | the complement walk does and counts nothing on a tree without complements |
| `DupsFixpoints.EliminateDupsFixpoints` | scripts/config/expr.c:616-638 | the expressions left alone are exactly those with nothing to join and nothing complementary |
| `DupsFound.EliminateDupsSettles` | scripts/config/expr.c:508-638 | in no row of the result, at any depth, are two slots the same recognised operand or two tests of one symbol on the list of pairs that are joined |
| `DupsFound.ComplementaryIff` | scripts/config/expr.c:581-604 | for folded normal forms an operand is found complementary to a row if and only if the operands of its negation all occur in the row |
| `DupsFound.SimplifiedIff` | scripts/config/expr.c:616-638 | folded normal forms are left alone if and only if no row has two equal operands, a listed pair, or an operand whose negation it contains, at any depth; and no result has any of these |
| `DupsOrder.LastOnesStay` | scripts/config/expr.c:508-558 | a row of symbols, negated symbols and comparisons without listed pairs keeps every operand where it occurs last, and in that order |
| `DupsFixpoints.ComplementSharpensMod` | scripts/config/expr.c:581-592 | a conjunction that is m becomes the constant n |
| `DupSlots.JoinSlots` | scripts/config/expr.c:524-555 | one pair of slots: the first becomes neutral and the second the join, after the first has been cleaned by the same loops |
| `DupSlots.JoinAllSlots` | scripts/config/expr.c:508-558 | the nested loops over all ordered pairs leave the slots and the count of the specified walk |
| `DupSlots.JoinTree` | scripts/config/expr.c:508-558 | the loops give the specified tree and count at every depth, and end |
| `DupSlots.CheckSlot` | scripts/config/expr.c:575-611 | one slot, cleaned first, against one node of the tree as it stands |
| `DupSlots.WalkSlot` | scripts/config/expr.c:571-611 | one slot against the operands of a node first and then against the node itself |
| `DupSlots.ComplementAllSlots` | scripts/config/expr.c:560-614 | every slot in turn against the whole tree |
| `DupSlots.ComplementTree` | scripts/config/expr.c:560-614 | the loops give the specified tree and count at every depth, and end |
| `DupSlots.EliminateDupsLoop` | scripts/config/expr.c:616-638 | the loop over the transformation count terminates with the fixpoint |
| `DupsNormalForm.EliminateDupsKeepsNnf` | scripts/config/expr.c:616-638 | duplicate removal stays within negation normal form |
| `DupsNormalForm.HandDownKeepsNnf` | scripts/config/menu.c:223-241 | what is handed down once from a normal form is a normal form, whatever the entry's own condition was |
| `DupsNormalForm.HandDownVisibleKeepsNonZero` | scripts/config/menu.c:236-241 | the bool rewrite of a handed-down condition does not change whether it is n |
| `DupsNormalForm.TransBoolKeepsVisibility` | scripts/config/symbol.c:202-209 | the promoted prompt level of a symbol that is not tristate is the same before and after the rewrite |
| `ExprNodes.Node.OfSymbol` | scripts/config/expr.c:15-22 | a fresh node for a symbol |
| `ExprNodes.Node.OfNot` | scripts/config/expr.c:24-31 | a fresh negation that owns its operand |
| `ExprNodes.Node.OfBinary` | scripts/config/expr.c:33-41 | a fresh AND/OR node that owns two separate operands |
| `ExprNodes.FoldNode` | scripts/config/expr.c:243-274 | the eight ways a node gives way to one of its operands or to a constant, with the node itself overwritten |
| `ExprNodes.EliminateYnInPlace` | scripts/config/expr.c:235-316 | overwriting nodes in place yields the folded tree and allocates nothing |
| `ExprNodes.TransBoolInPlace` | scripts/config/expr.c:321-345 | overwriting nodes in place yields the rewritten tree |
| `ExprNodes.LowerInPlace` | scripts/config/expr.c:657-701 | boolean comparisons become symbols or negations in place |
| `ExprNodes.TransformInPlace` | scripts/config/expr.c:640-775 | the recursive in-place pass yields the transformed tree and terminates although it runs again on rewritten trees |
| `ExprNodes.TransformNegation` | scripts/config/expr.c:702-770 | the six cases of a negation above a transformed operand |
| `ExprNodes.PushNegation` | scripts/config/expr.c:720-737 | De Morgan with the operand's node reused for the first negation |
| `ExprNodes.Copy` | scripts/config/expr.c:67-102 | a copy that shares no node and represents the same expression |
| `ExprNodes.NodesEqual` | scripts/config/expr.c:193-233 | decides equality on copies and changes neither argument |
| `ExprNodes.CancelPairsInPlace` | scripts/config/expr.c:135-166 | the walk over both trees writes exactly the cancelled operands and keeps the trees separate |
| `ExprNodes.EliminateEqInPlace` | scripts/config/expr.c:168-188 | one or two walks and the folding, on both trees |
| `ExtractNodes.ExtractPairsInPlace` | scripts/config/expr.c:852-879 | equal operands move from the first tree into the factor, and factor and trees stay separate |
| `ExtractNodes.ExtractEqInPlace` | scripts/config/expr.c:830-850 | the whole extraction with folding only when a factor was found |
| `SubmenuTest.NotZeroKeepsComparison` | scripts/config/menu.c:267-268 | transforming and removing duplicates loses nothing after a comparison |
| `SubmenuTest.NotZeroExact` | scripts/config/menu.c:256-259 | the expression compared with n is y exactly when the dependency is not n, if no negated part is m |
| `SubmenuTest.NotZeroOnNormalForms` | scripts/config/menu.c:256-259 | on normal forms it never claims a non-n value wrongly and never misses a y |
| `SubmenuTest.CapturedImpliesParent` | scripts/config/menu.c:261-281 | an entry captured into a submenu can only be visible when the symbol above or its prompt is, if no negated part is m |
| `SubmenuTest.CapturedYesImpliesParent` | scripts/config/menu.c:261-281 | for normal forms the same holds for full visibility, without a condition on m |
| `SubmenuFound.DependentIsCaptured` | scripts/config/menu.c:265-266 | an entry that depends on the symbol is taken, whatever the prompt above requires |
| `SubmenuFound.UnconditionalCaptures` | scripts/config/menu.c:256-281 | above an unconditional prompt, or without a prompt, exactly the entries that mention the symbol are taken |
| `SubmenuFound.CapturesIff` | scripts/config/menu.c:261-281 | an entry is taken if and only if it mentions the symbol and depends on it, or its "not n" expression is an AND with all the operands of that of the prompt above, or that one is y |
| `SubmenuFound.NotZeroFolds` | scripts/config/menu.c:256-259 | these expressions have no y or n operands unless a boolean symbol is compared with m |
| `SubmenuTest.HandDownRefines` | scripts/config/menu.c:223-227 | handing a dependency down is conjunction, up to making an m definite |
| `SymbolMemo.MembersOpenAtStart` | scripts/config/symbol.c:231-268 | when a choice is calculated none of its values with a prompt is finished yet |
| `SymbolMemo.PromptsMentionChoice` | scripts/config/symbol.c:202-207 | evaluating the prompts of a choice value finishes its choice first, as long as one of them can be shown at all |
| `SymbolMemo.WorkDone` | scripts/config/symbol.c:270-380 | seen from outside, a finished calculation added right values and disturbed no finished one |
| `SymbolCalc.Calculator.EvalExpr` | scripts/config/expr.c:942-981 | memoised evaluation gives the defined value on acyclic systems and terminates on all |
| `SymbolCalc.Calculator.EvalString` | scripts/config/expr.c:965-970 | the string compared is the one of the calculated symbol |
| `SymbolCalc.Calculator.CalcPrompts` | scripts/config/symbol.c:202-207 | the loop over the prompts finds the highest one |
| `SymbolCalc.Calculator.CalcVisibility` | scripts/config/symbol.c:196-229 | visibility and selection level become the defined ones, except for values of choices and deselected symbols |
| `SymbolCalc.Calculator.LookSelected` | scripts/config/symbol.c:220-228 | the selection level becomes the defined one and the visibility found before is kept |
| `SymbolCalc.Calculator.TryMember` | scripts/config/symbol.c:240-242 | looking at a choice value while its choice counts as y decides whether it can be picked and disturbs no finished symbol |
| `SymbolCalc.Calculator.TryUser` | scripts/config/symbol.c:237-243 | the user's pick is taken exactly if it is visible |
| `SymbolCalc.Calculator.CalcPickDefault` | scripts/config/symbol.c:245-254 | the loop finds the first default whose condition is not n and whose value is visible |
| `SymbolCalc.Calculator.CalcPickFirst` | scripts/config/symbol.c:256-263 | the loop finds the first visible value |
| `SymbolCalc.Calculator.CalcChoice` | scripts/config/symbol.c:231-268 | the pick is the user's, else a default, else the first visible value; without one the choice is reset to n |
| `SymbolCalc.Calculator.CalcDefault` | scripts/config/symbol.c:123-133 | the value of the first default whose condition is not n |
| `SymbolCalc.Calculator.Mark` | scripts/config/symbol.c:279-281 | marking first keeps all finished symbols right and leaves fewer to do, which ends every recursion |
| `SymbolCalc.Calculator.BeginWork` | scripts/config/symbol.c:303-306 | visibility and selection level are right before the value is worked out, and the symbol counts as n meanwhile |
| `SymbolCalc.Calculator.CalcOwn` | scripts/config/symbol.c:314-334 | the value of a symbol that no choice decides |
| `SymbolCalc.Calculator.CalcLogical` | scripts/config/symbol.c:308-335 | a fully visible choice value is y exactly if it is the pick |
| `SymbolCalc.Calculator.CalcValue` | scripts/config/symbol.c:270-380 | the symbol is valid and right afterwards, finished symbols are not disturbed, and the recursion ends on cyclic graphs too |
| `SymbolCalc.Calculator.FinishValue` | scripts/config/symbol.c:360-362 | the stored value and, for a choice that is y, its pick are right |
| `SymbolCalc.Calculator.LookVisible` | scripts/config/symbol.c:202-217 | the stored visibility is the defined one, also when a choice looks at an unfinished value |
| `SymbolCalc.Calculator.ClearAllValid` | scripts/config/symbol.c:382-392 | nothing is valid but what calculating the modules symbol made so |
| `SymbolCalc.Calculator.Recalculate` | scripts/config/symbol.c:382-392 | after clearing, calculating in any order leaves every calculated symbol at its defined value |
| `SymbolCalc.Calculator.MakePick` | scripts/config/symbol.c:448-460 | the choice gets the pick, and it and its visible values count as set by the user |
| `SymbolCalc.Calculator.SetTristate` | scripts/config/symbol.c:433-470 | an accepted call makes the recalculated value exactly the one asked for if and only if the setting takes effect as SymbolSet states it, for plain symbols, choices and choice values; a refused call changes nothing |
| `SymbolFacts.EnvIsTwoValued` | scripts/config/symbol.c:333-334 | calculated booleans are never m, as the expression passes assume |
| `SymbolFacts.ValueOfIsEval` | scripts/config/expr.c:942-981 | symbol-by-symbol calculation is evaluation in one environment |
| `SymbolFacts.VisibleIsPromptLevel` | scripts/config/symbol.c:196-217 | visibility is the promoted highest prompt in that environment, or n when deselected |
| `SymbolFacts.TransBoolKeepsVisible` | scripts/config/menu.c:239-240 | rewriting all prompts of a symbol that is not tristate leaves its visibility as it is |
| `SymbolFacts.MemberIsYes` | scripts/config/symbol.c:308-335 | a choice value is y if and only if it is the pick, or it is invisible, not deselected and defaults to y |
| `SymbolFacts.AtMostOneMember` | scripts/config/symbol.c:231-268 | whatever the user has set, no two values of a choice without defaults are y |
| `SymbolFacts.DefaultsBreakChoice` | scripts/config/symbol.c:326-332 | with defaults on the values both are y while the choice, with a prompt, is set to n |
| `SymbolFacts.PickDecides` | scripts/config/symbol.c:311-313 | a choice that is y has picked one of its values, which is y if fully visible, while all other fully visible ones are n |
| `SymbolFacts.PickIsMember` | scripts/config/symbol.c:231-268 | the pick is a visible value of the choice, and there is none only if no value is visible |
| `SymbolRules.PickOrder` | scripts/config/symbol.c:231-268 | the pick is the value the user picked if it can be picked; else the value named by the first default whose condition is not n and that can be; else the first value that can be; and none if and only if no value can |
| `SymbolRules.PickableSeen` | scripts/config/symbol.c:238-262 | a value can be picked if and only if it is not deselected and has a prompt that is not n, with the choice counting as y |
| `SymbolRules.VisibilitySeen` | scripts/config/symbol.c:202-217 | visibility is y if some prompt is y, else m (y unless the symbol is tristate) if some prompt is m, else n; and n when the deselection is y |
| `SymbolRules.SelectedSeen` | scripts/config/symbol.c:218-228 | the selection level is the value of rev_dep with m counted as y for booleans, and n for choice values |
| `SymbolRules.ValueFollowsRules` | scripts/config/symbol.c:314-334 | a symbol no choice decides: n when deselected; within reach of prompts or selection the user value, else the first default that applies, else n, bounded by both; out of reach the first default that applies, else n |
| `SymbolRules.DefaultDecides` | scripts/config/symbol.c:314-334 | without a user value the first default whose condition is not n decides, at the level of the prompts and of the selection |
| `SymbolRules.ChoiceFollowsRules` | scripts/config/symbol.c:314-362 | a choice has its bounded user value, n if there is none, and n instead of y when no value can be picked |
| `SymbolRules.FullMemberFollowsPick` | scripts/config/symbol.c:311-313 | a fully visible choice value is y if its choice is y and picks it, and n otherwise |
| `SymbolSet.SameValue` | scripts/config/symbol.c:270-380 | a value does not depend on settings of symbols that do not rank below it |
| `SymbolSet.SettingsChange` | scripts/config/symbol.c:433-470 | what a setting changes, symbol by symbol: the value and the new flag of the symbol; for a choice value set to y also the pick of its choice and the new flags of the choice and its visible values; nothing else |
| `SymbolSet.InRange` | scripts/config/symbol.c:414-431 | the tests accept exactly the values between selection level and visibility of a logical symbol that is not selected up to its visibility, without m for booleans and nothing but y for a fully visible choice value |
| `SymbolSet.SetPlain` | scripts/config/symbol.c:433-470 | outside choices every accepted value comes out, also without a range check when it is the old one |
| `SymbolSet.SetMember` | scripts/config/symbol.c:433-470 | so does every accepted value of a choice value other than y |
| `SymbolSet.SetPick` | scripts/config/symbol.c:448-460 | a choice value set to y becomes the fully visible pick of its choice if and only if the stored user value of the choice leads to y and the choice sees the value as fully visible |
| `SymbolSet.SetPickIff` | scripts/config/symbol.c:448-460 | under exactly that condition a value without defaults becomes y; a value with defaults at least then |
| `SymbolSet.SetPickOfYes` | scripts/config/symbol.c:448-460 | a fully visible value of a choice that is y becomes y |
| `SymbolSet.StaleChoiceTurnsYes` | scripts/config/confdata.c:369-371 | a choice that is m and new, with the user value y from a file, turns y when one of its values is set to y |
| `SymbolSet.SetChoice` | scripts/config/symbol.c:433-470 | the value of a choice after any accepted setting: y only with a value to pick, n unless it is selected to m, otherwise what was asked for |
| `SymbolSet.SetAccepted` | scripts/config/symbol.c:433-470 | all kinds of symbols together, from the calculated fields of the caller |
| `SymbolCheck.RankedIsAcyclic` | scripts/config/symbol.c:771-840 | a graph with a numbering that falls along every dependency has no cycle |
| `SymbolCheck.SortedIsRanking` | scripts/config/symbol.c:813-838 | the order in which a quiet search leaves the symbols is such a numbering |
| `SymbolCheck.SearchedKinds` | scripts/config/symbol.c:818-829 | conditions are searched for all kinds of properties but choice, select and deselect, and values only for defaults outside choices |
| `SymbolCheck.Checker.CheckExpr` | scripts/config/symbol.c:771-799 | a non-null result is a symbol on the stack, with a path that closes a cycle through it; the check flags are restored |
| `SymbolCheck.Checker.CheckDeps` | scripts/config/symbol.c:801-840 | the same for a symbol; it is marked as checked, and a quiet search has settled it |
| `SymbolCheck.Checker.CheckBody` | scripts/config/symbol.c:814-829 | unless something is reported, all dependencies of the symbol have been settled |
| `SymbolCheck.Checker.CheckProperty` | scripts/config/symbol.c:818-829 | conditions are searched for all properties but choice, select and deselect, values only for defaults outside choices |
| `SymbolCheck.Checker.Descend` | scripts/config/symbol.c:813-839 | the flag is set only during the descent, and a cycle that closes at the symbol itself is not passed on |
| `SymbolCheck.Checker.Report` | scripts/config/symbol.c:806-809 | a symbol met on the stack closes a real cycle |
| `SymbolCheck.Checker.CheckAll` | scripts/config/zconf.y:485-487 | checking every symbol stays quiet only on acyclic graphs and warns only about graphs with a cycle |
| `SymbolOrder.RankedIff` | scripts/config/symbol.c:196-380 | the calculator has an order to work by if and only if the numbering falls along everything a calculation looks at |
| `SymbolOrder.NeedIsSeenOrUnseen` | scripts/config/symbol.c:801-840 | the search follows all of that but deselection, what the values of a choice depend on, and the choice of a value |
| `SymbolOrder.QuietIsOrderIff` | scripts/config/symbol.c:801-840 | what a quiet search leaves is such an order if and only if it falls along the rest too |
| `SymbolOrder.OrderExistsIff` | scripts/config/symbol.c:196-380 | some order exists if and only if no symbol, step by step, needs itself |
| `SymbolOrder.DeselectCycleUnnoticed` | scripts/config/symbol.c:814-829 | a symbol that deselects itself passes the search although no order exists |
| `SymbolOrder.ChoiceCycleUnnoticed` | scripts/config/symbol.c:814-829 | so does a choice whose first value depends on its second, without any deselect |
| `SymbolOrder.NoValuesFit` | scripts/config/symbol.c:231-263 | in that choice the first visible value is never the one whose being picked made it so |
| `Menus.Splice` | scripts/config/menu.c:309-318 | moving submenus of promptless entries up keeps the order of all entries |
| `MenuFacts.SplicePrompts` | scripts/config/menu.c:309-318 | if nothing below the entries of a list hides a submenu behind a missing prompt, nothing in the list does afterwards, at any depth |
| `MenuFacts.FinalizePrompts` | scripts/config/menu.c:197-319 | after menu_finalize no entry at any depth has a submenu but no prompt |
| `MenuFacts.FinalizeMeets` | scripts/config/menu.c:197-319 | for normal forms, and for conditions that require a choice: all conditions in the submenu are of that kind at every depth afterwards, and those of the entries left stay so |
| `MenuFacts.TakenNeedsParent` | scripts/config/menu.c:261-281 | an entry with normal conditions that is taken into a submenu is fully visible only where the symbol above or its prompt is not n |
| `MenuFacts.FinalizeMenu` | scripts/config/menu.c:197-319 | from a root with normal conditions all conditions of the menu become normal forms, and every entry taken into a submenu on the way needs the entry above it in that sense |
| `MenuFacts.FinalizeChoiceBinds` | scripts/config/menu.c:206-241 | after menu_finalize every prompt inside a choice mentions the choice, or is n and never shown |
| `MenuTaken.TakesIff` | scripts/config/menu.c:255-281 | exactly when an entry is taken, from the condition of its prompt, or its dependency without one, and the prompt above |
| `MenuTaken.CaptureTakes` | scripts/config/menu.c:261-286 | the entries taken are an unbroken run that starts with the next entry, each passes the test as it stood before, and the first entry left does not |
| `MenuTaken.FinalizeTakesDependents` | scripts/config/menu.c:255-292 | for a symbol without submenu: the submenu starts with the next entry if that depends on the symbol, the first entry left does not depend on it, and none is left if all do |
| `MenuTaken.FinalizeChanges` | scripts/config/menu.c:197-319 | only entries inside submenus get new conditions; the entry itself and its followers stay as they are |
| `MenuTaken.SubmenuInherits` | scripts/config/menu.c:216-241 | every entry of a submenu joins its dependency with what the entry above hands down (a choice itself, else the condition of its prompt, else its dependency), and its prompt and other conditions with that; nothing later in the run changes it |
| `MenuTaken.HandDownOrder` | scripts/config/menu.c:223-227 | the conditions of the parent come first, and of a repeated condition the last one stays |
| `MenuTaken.SpliceKeepsSubmenus` | scripts/config/menu.c:309-318 | an entry with a prompt keeps exactly its submenu, one without keeps none, in the old order |
| `ChoiceBound.EliminateDupsKeepsBound` | scripts/config/expr.c:508-638 | removing duplicates keeps the choice, a comparison of it, or n among the operands of the outermost ANDs |
| `ChoiceBound.HandDownKeepsBound` | scripts/config/menu.c:223-241 | a condition handed down from one that requires the choice requires it too |
| `Menus.Capture` | scripts/config/menu.c:261-286 | the entries taken over and those left make up the list, in order |
| `Menus.Finalize` | scripts/config/menu.c:197-319 | nothing is lost, duplicated or reordered for an entry with what follows it |
| `Menus.FinalizeAll` | scripts/config/menu.c:254-255 | nor for a whole list, while entries in front take over entries behind |
| `MenuTree.Tree.Finalize` | scripts/config/menu.c:197-319 | the linked entries end up as the specified tree with right next, list and parent links, and links outside are untouched |
| `MenuTree.Tree.InheritLoop` | scripts/config/menu.c:223-253 | every child has inherited the dependency, the links are untouched |
| `MenuTree.Tree.FinalizeLoop` | scripts/config/menu.c:254-255 | every child in turn, although the list behind it changes meanwhile |
| `MenuTree.Tree.CaptureLoop` | scripts/config/menu.c:256-287 | the entries up to the first that does not imply the symbol become its submenu |
| `MenuTree.Tree.Relink` | scripts/config/menu.c:282-286 | three pointer writes cut the list in two |
| `MenuTree.Tree.Rehang` | scripts/config/menu.c:310-314 | the entries of a list get a new parent, and the last one is found |
| `MenuTree.Tree.Lift` | scripts/config/menu.c:309-318 | a submenu moves up behind its entry |
| `MenuTree.Tree.SpliceLoop` | scripts/config/menu.c:288-319 | all submenus of promptless entries, also those that have just moved up |
| `MenuWalk.Climb` | scripts/config/confdata.c:512-519 | the inner loop finds the first ancestor that something follows |
| `MenuWalk.Walk` | scripts/config/confdata.c:437-520 | the walk over next, list and parent links ends and visits every entry exactly once, in menu order |
| `MenuWalk.FinalizeAndWalk` | scripts/config/confdata.c:437-520 | after menu_finalize it still visits the entries in the order they were written down |
| `ConfStrings.WriteString` | scripts/config/confdata.c:477-493 | the loop writes name, quotes and the escaped value |
| `ConfStrings.WriteSpecials` | scripts/config/confdata.c:487-490 | a run of special characters goes out with a backslash each |
| `ConfStrings.UnescapeEscape` | scripts/config/confdata.c:190-196 | unescaping undoes escaping, whatever follows the closing quote |
| `ConfStrings.UnescapeCut` | scripts/config/confdata.c:190-200 | escaped text cut off before the closing quote is never read as a value |
| `ConfStrings.RoundTrip` | scripts/config/confdata.c:113-200 | a written value is read back unchanged if and only if it has no newline and its line fits the buffer |
| `ConfReader.UnescapeInPlace` | scripts/config/confdata.c:190-200 | the loop over the buffer leaves the decoded string in place, or reports a missing quote, and touches nothing before it |
| `ConfReader.Remove` | scripts/config/confdata.c:195 | the overlapping move drops one character |
| `ConfReader.ReadValue` | scripts/config/confdata.c:156-200 | newline, opening quote and backslashes are dealt with in place |
| `ConfReader.ReadLine` | scripts/config/confdata.c:147-200 | the in-place reader computes the specified result for every buffered line |
| `ConfReader.GetLine` | scripts/config/confdata.c:113-116 | the buffer holds the text up to the first newline or as far as it reaches |
| `ConfReader.WriteThenRead` | scripts/config/confdata.c:477-493 | writing and reading back through the 1024-byte buffer returns the string exactly under that condition |
| `Autoneg.AbilityRoundTrip` | package/broadcom-57xx/src/autoneg.c:329-335 | an advertised ability is what the partner reads from the word, acknowledged or not, with reserved bits clear |
| `Autoneg.WordRoundTrip` | package/broadcom-57xx/src/autoneg.c:318-335 | a word has no reserved bits if and only if it is the advertisement, maybe acknowledged, of the ability read from it |
| `Autoneg.BasePage` | package/broadcom-57xx/src/autoneg.h:79-126 | where the bits of a base page stand |
| `Autoneg.InitialAdvertisement` | package/broadcom-57xx/src/autoneg.c:97-112 | out of reset the machine negotiates and advertises full duplex and both kinds of pause |
| `Autoneg.Machine.AutonegInit` | package/broadcom-57xx/src/autoneg.c:97-112 | the initial state |
| `Autoneg.Machine.MatchReceived` | package/broadcom-57xx/src/autoneg.c:147-189 | ability, acknowledge and idle matching |
| `Autoneg.Machine.EnterEnable` | package/broadcom-57xx/src/autoneg.c:206-225 | matches and the link time are forgotten and negotiation starts, or it is disabled |
| `Autoneg.Machine.EnterAckDetect` | package/broadcom-57xx/src/autoneg.c:296-315 | where the machine goes on an acknowledged word, on an all-zero ability, and otherwise |
| `Autoneg.Machine.Autoneg8023z` | package/broadcom-57xx/src/autoneg.c:122-436 | one call of the machine, as the step function about which runs are proved |
| `AutonegRuns.TimerMeansWaited` | package/broadcom-57xx/src/autoneg.c:243-244 | without wrap-around the timer test means that more than the interval has passed |
| `AutonegRuns.OneMoreCall` | package/broadcom-57xx/src/autoneg.c:195-433 | every call extends the evidence that the steps of the current negotiation happened in order |
| `AutonegRuns.LinkOkMeansNegotiated` | package/broadcom-57xx/src/autoneg.c:122-436 | a run that reports the link up has, since its last restart, seen one nonzero word three times in a row, then an acknowledged word, then one without reserved bits, and waited three times, over 36000 us in all; the partner on record is the ability of that last word, and the word sent is the acknowledged advertisement |
| `AutonegRuns.PartnerIsAdvertised` | package/broadcom-57xx/src/autoneg.c:329-335 | if the accepted word is the acknowledged advertisement of an ability, exactly that ability is on record when the link is up |
| `AutonegRuns.RunRegisters` | package/broadcom-57xx/src/autoneg.c:206-436 | at every stage of a run: the word that is sent (none, the advertisement, or the acknowledged one) and the management bits of a stage |
| `AutonegRuns.RegistersKept` | package/broadcom-57xx/src/autoneg.c:195-433 | one call keeps the word that is sent, the management bits and the partner on record as the stage requires, and never touches what is advertised |
| `AutonegRuns.MatchStep` | package/broadcom-57xx/src/autoneg.c:147-189 | one received word extends or restarts the count of equal words; idle and acknowledge are those of this word |
| `AutonegRuns.BreakLinkRestarts` | package/broadcom-57xx/src/autoneg.c:288-399 | three all-zero words in a row restart the negotiation in every state that listens for them |
| `AutonegRuns.RestartIff` | package/broadcom-57xx/src/autoneg.c:288-399 | in these states it restarts if and only if the zero word has been matched |
| `AutonegRuns.StatusMeans` | package/broadcom-57xx/src/autoneg.c:191-433 | when the caller is told done, failed (reserved bits, or next pages on both sides) and timer enabled |
| `AutonegRuns.DisabledStays` | package/broadcom-57xx/src/autoneg.c:197-256 | with negotiation switched off the machine is done at once and stays so |
| `AutonegRuns.LinkOkIsFinal` | package/broadcom-57xx/src/autoneg.c:417-422 | once up, the link stays up whatever is received |
| `AutonegRuns.ConsistencyNeverFails` | package/broadcom-57xx/src/autoneg.c:297-307 | an acknowledged word never sends the machine back |
| `AutonegRuns.AnyAcknowledgeAccepted` | package/broadcom-57xx/src/autoneg.c:297-307 | any nonzero word followed by any acknowledged one with clear reserved bits, however different, brings the link up in a run of twelve calls with fixed times, with the ability of the second word on record |
| `AutonegRuns.Poll` | package/broadcom-57xx/src/tigon3.c:6931-6956 | the polling loop makes calls until one is done or failed or 75000 us or calls are over, and leaves the machine in the state after them; if that is link-up, the negotiation has taken place in the course of them and the partner on record is that of the accepted word |
| `Cvoip.ComputeCrc` | cosic/dect_ifx_cosic_driver/drv_dect_cosic_drv_cvoip.c:1156-1170 | the loop stores the negated byte sum behind the first fifteen bytes |
| `Cvoip.IsCrcValid` | cosic/dect_ifx_cosic_driver/drv_dect_cosic_drv_cvoip.c:1179-1196 | the loop decides whether all sixteen bytes add up to zero |
| `Cvoip.CrcCloses` | cosic/dect_ifx_cosic_driver/drv_dect_cosic_drv_cvoip.c:1156-1196 | what is sealed is valid |
| `Cvoip.CrcDetectsOneByte` | cosic/dect_ifx_cosic_driver/drv_dect_cosic_drv_cvoip.c:1179-1196 | a valid packet is invalid after any change of any one byte |
| `CvoipDriver.Driver.StartCycle` | cosic/dect_ifx_cosic_driver/drv_dect_cosic_drv_cvoip.c:774-785 | a cycle forgets an earlier dummy, clears the packet buffer and prepares the packet of the specified step |
| `CvoipDriver.Driver.PrepareTxBuffer` | cosic/dect_ifx_cosic_driver/drv_dect_cosic_drv_cvoip.c:232-329 | driver state and packet are those of the specified step |
| `CvoipDriver.Driver.SendPiece` | cosic/dect_ifx_cosic_driver/drv_dect_cosic_drv_cvoip.c:241-277 | the next piece of the command with its header, and the position after it |
| `CvoipDriver.Driver.FinishPacket` | cosic/dect_ifx_cosic_driver/drv_dect_cosic_drv_cvoip.c:295-318 | acknowledgement, NACK flag, checksum and the stored header |
| `CvoipDriver.Driver.HandleRxData` | cosic/dect_ifx_cosic_driver/drv_dect_cosic_drv_cvoip.c:345-496 | driver state and receive buffer are those of the specified step |
| `CvoipDriver.Driver.CorruptReceived` | cosic/dect_ifx_cosic_driver/drv_dect_cosic_drv_cvoip.c:351-380 | stepping back and noting the packet to be repeated |
| `CvoipDriver.Driver.DummyReceived` | cosic/dect_ifx_cosic_driver/drv_dect_cosic_drv_cvoip.c:396-407 | a packet without payload and acknowledgement |
| `CvoipDriver.Driver.ActOnAck` | cosic/dect_ifx_cosic_driver/drv_dect_cosic_drv_cvoip.c:410-435 | obeying a NACK that does not follow another, or ending the transmission |
| `CvoipDriver.Driver.StorePayload` | cosic/dect_ifx_cosic_driver/drv_dect_cosic_drv_cvoip.c:452-461 | the payload is appended in the receive buffer |
| `CvoipDriver.Driver.NoteIndex` | cosic/dect_ifx_cosic_driver/drv_dect_cosic_drv_cvoip.c:394-409 | the awaited retransmission is noted by a number computed from signed bytes |
| `CvoipDriver.Driver.CloseReceive` | cosic/dect_ifx_cosic_driver/drv_dect_cosic_drv_cvoip.c:462-481 | the stored header, the acknowledgement to be sent next, and the end of the reception |
| `CvoipRuns.HeaderFields` | cosic/dect_ifx_cosic_driver/drv_dect_cosic_drv_cvoip.c:113-140 | number, length, last flag, acknowledge flag and index are read back from the two header bytes |
| `CvoipRuns.FinishKeepsFields` | cosic/dect_ifx_cosic_driver/drv_dect_cosic_drv_cvoip.c:295-318 | acknowledging and passing on a NACK leave the other header fields alone |
| `CvoipFields.HeaderBytes` | cosic/dect_ifx_cosic_driver/drv_dect_cosic_drv_cvoip.c:113-140 | header bytes of the protocol: length, NACK and more flags, packet number and acknowledged number |
| `CvoipFields.IdleCall` | cosic/dect_ifx_cosic_driver/drv_dect_cosic_drv_cvoip.c:278-285 | without a piece, an acknowledgement or a refusal the packet is all zero and flagged as a dummy |
| `CvoipFields.PieceCall` | cosic/dect_ifx_cosic_driver/drv_dect_cosic_drv_cvoip.c:241-275 | with a piece: its number, length, last flag and payload, the next position, and when the last one is out |
| `CvoipFields.AnswerCall` | cosic/dect_ifx_cosic_driver/drv_dect_cosic_drv_cvoip.c:286-318 | otherwise: the acknowledged or refused number, and which transmissions and receptions end with it |
| `CvoipFields.FinishBytes` | cosic/dect_ifx_cosic_driver/drv_dect_cosic_drv_cvoip.c:294-318 | the common end of a packet: acknowledgement, NACK flag and the stored header |
| `CvoipFields.CorruptPacket` | cosic/dect_ifx_cosic_driver/drv_dect_cosic_drv_cvoip.c:351-380 | what a corrupt packet changes on both sides, field by field |
| `CvoipFields.DummyPacket` | cosic/dect_ifx_cosic_driver/drv_dect_cosic_drv_cvoip.c:396-407 | what a dummy changes: no refusal is due, no number is held, and two dummies end both directions |
| `CvoipFields.PacketAtSender` | cosic/dect_ifx_cosic_driver/drv_dect_cosic_drv_cvoip.c:410-432 | what any other packet changes on the sending side: a first NACK is obeyed, the acknowledged last packet ends the transmission |
| `CvoipFields.PacketAtReceiver` | cosic/dect_ifx_cosic_driver/drv_dect_cosic_drv_cvoip.c:408-481 | and on the receiving side: the payload, the awaited number, the stored header and the end of the reception |
| `CvoipFields.AnswerForgetsLastPacket` | cosic/dect_ifx_cosic_driver/drv_dect_cosic_drv_cvoip.c:316-318 | while the last packet waits for its acknowledgement, a call that only acknowledges forgets its number, and the acknowledgement no longer ends the transmission |
| `CvoipRuns.SendsPacket` | cosic/dect_ifx_cosic_driver/drv_dect_cosic_drv_cvoip.c:241-277 | a call sends exactly packet k of the command and moves on to k + 1, or awaits the last acknowledgement |
| `CvoipRuns.CommandSegmented` | cosic/dect_ifx_cosic_driver/drv_dect_cosic_drv_cvoip.c:232-329 | repeated calls send packets k to the last once each, in order, with the last flag on the final one only |
| `CvoipRuns.CommandReassembled` | cosic/dect_ifx_cosic_driver/drv_dect_cosic_drv_cvoip.c:436-461 | packets fed in order complete the command from any packet boundary |
| `CvoipRuns.AppendsPiece` | cosic/dect_ifx_cosic_driver/drv_dect_cosic_drv_cvoip.c:452-461 | a packet of whatever number is appended to whatever has been received |
| `CvoipRuns.RepeatIsAppended` | cosic/dect_ifx_cosic_driver/drv_dect_cosic_drv_cvoip.c:452-461 | a packet received again is stored again |
| `CvoipRuns.SentCommandIsRebuilt` | cosic/dect_ifx_cosic_driver/drv_dect_cosic_drv_cvoip.c:232-496 | what one driver sends another one rebuilds, for every command of 1 to 255 bytes |
| `CvoipRuns.NackRewinds` | cosic/dect_ifx_cosic_driver/drv_dect_cosic_drv_cvoip.c:411-420 | a NACK that does not follow another takes the transmission back to the packet it names |
| `CvoipRuns.NackRepeats` | cosic/dect_ifx_cosic_driver/drv_dect_cosic_drv_cvoip.c:411-420 | after it packets k to the last are sent again |
| `CvoipRuns.SameNumberSamePacket` | cosic/dect_ifx_cosic_driver/drv_dect_cosic_drv_cvoip.c:241-277 | a repeated packet has the same length, last flag, number and payload as the first |
| `CvoipRuns.NackEndsIff` | cosic/dect_ifx_cosic_driver/drv_dect_cosic_drv_cvoip.c:410-430 | a NACK ends a transmission if and only if it names the last packet, which is out, and follows another NACK |
| `CvoipRuns.SecondNackOfLastEndsTransmission` | cosic/dect_ifx_cosic_driver/drv_dect_cosic_drv_cvoip.c:421-427 | a second NACK in a row for the last packet is taken for its acknowledgement |
| `CvoipRuns.CorruptStepsBack` | cosic/dect_ifx_cosic_driver/drv_dect_cosic_drv_cvoip.c:351-360 | a corrupt packet makes the sender repeat from the packet before the last one sent |
| `CvoipRuns.ReceivesAwaiting` | cosic/dect_ifx_cosic_driver/drv_dect_cosic_drv_cvoip.c:394-461 | while a retransmission is awaited every packet in turn is stored, and only the awaited one, correctly numbered, ends the waiting |
| `CvoipRuns.CorruptionRecoveredIff` | cosic/dect_ifx_cosic_driver/drv_dect_cosic_drv_cvoip.c:351-461 | if a peer repeats the packets from a corrupt one on, although it was not asked to, they complete the stored command in any case, but the receiver notices if and only if bit 2 of the first repeated number is clear |
| `CvoipRuns.RetransmissionRecognisedIff` | cosic/dect_ifx_cosic_driver/drv_dect_cosic_drv_cvoip.c:394-409 | an awaited retransmission is recognised if and only if bit 2 of its number is clear |
| `CvoipLink.SenderSends` | cosic/dect_ifx_cosic_driver/drv_dect_cosic_drv_cvoip.c:232-329 | the sender's part of a cycle: the next packet of the command, acknowledging nothing |
| `CvoipLink.SenderHears` | cosic/dect_ifx_cosic_driver/drv_dect_cosic_drv_cvoip.c:345-496 | the acknowledgement of the packet before, or a dummy, leaves the transmission where it is |
| `CvoipLink.ReceiverSends` | cosic/dect_ifx_cosic_driver/drv_dect_cosic_drv_cvoip.c:232-329 | the receiver acknowledges the number received last, and sends a dummy before the first |
| `CvoipLink.ReceiverTakes` | cosic/dect_ifx_cosic_driver/drv_dect_cosic_drv_cvoip.c:345-496 | the receiver stores the packet and will acknowledge it |
| `CvoipLink.CycleMovesOn` | cosic/dect_ifx_cosic_driver/drv_dect_cosic_drv_cvoip.c:232-496 | every cycle in which both drivers send and receive moves the command one packet on, and one more cycle ends it on both sides with the command stored |
| `CvoipLink.SendCommand` | cosic/dect_ifx_cosic_driver/drv_dect_cosic_drv_cvoip.c:232-496 | two drivers run such cycles until the transaction is over; the receive buffer of one then holds the command of the other, for every length from 1 to 255 |
| `CvoipLink.Answers` | cosic/dect_ifx_cosic_driver/drv_dect_cosic_drv_cvoip.c:278-318 | a driver with nothing to send acknowledges the number received last, and sends a dummy if there is none |
| `CvoipLoss.NeverNacks` | cosic/dect_ifx_cosic_driver/drv_dect_cosic_drv_cvoip.c:232-496 | without a pending refusal no sequence of calls, whatever is received, makes the driver send a NACK |
| `CvoipLoss.LossStays` | cosic/dect_ifx_cosic_driver/drv_dect_cosic_drv_cvoip.c:232-496 | once a packet is missing every further cycle goes on to the next one, up to the end |
| `CvoipLoss.CorruptPacketIsLost` | cosic/dect_ifx_cosic_driver/drv_dect_cosic_drv_cvoip.c:351-380 | after one corrupt packet the sender ends as if all had been delivered and the receiver holds the command without that packet; it ends too if and only if the packet was the last one or nothing had come before it |
| `CvoipLoss.CorruptAnswerDuplicates` | cosic/dect_ifx_cosic_driver/drv_dect_cosic_drv_cvoip.c:351-360 | after one corrupt answer the packet before the last one sent is sent and stored a second time |

## Left out

- ExprEqComplete.ExprEqSelfIff: for expressions that still have y or n as operands only the sufficient half is proved
  (SelfEqSuffices).
- ExprKeys.KeysDecide: likewise about expressions without y or n operands; for others soundness (ExprEqs.ExprEqSound)
  and the sufficient half are proved.
- SubmenuFound.CapturesIff: asks for such expressions too; they arise unless a boolean symbol is compared with m
  (SubmenuFound.NotZeroFolds).
- DupsOrder.LastOnesStay: says which operands stay only for rows without nested rows and without pairs to join.
- SymbolCalc.Calculator.EvalString: int, hex and string symbols have a fixed string; their own calculation, ranges and
  number conversion are not modelled.
- SymbolCalc.Calculator.CalcValue: the write and changed flags and the notification of menus are not modelled, nor is
  the calculation of int, hex and string symbols.
- SymbolSet.SetPickIff: for a choice value with defaults the condition is only sufficient, as the value may also be y by
  default (SymbolFacts.MemberIsYes).
- Symbols.Ranked: also asks for what menu_finalize settles about choices and their values (SymbolOrder.Static); a prompt
  of a choice value must mention the choice or be n, as MenuFacts.FinalizeChoiceBinds proves.
- SymbolCalc.Calculator.Recalculate: states no values when there is no order of calculation (SymbolOrder.OrderExistsIff
  says when there is), since they then depend on the order of the calls.
- SymbolFacts.PickDecides: likewise says nothing about choices whose values depend on one another in a circle; for those
  no values need to agree with the pick (SymbolOrder.NoValuesFit).
- MenuFacts.FinalizeChoiceBinds: assumes that no choice stands inside the choice, since an inner choice hands down
  itself alone.
- Menus.Finalize: collecting select and deselect conditions into rev_dep, inheriting the type of a choice, registering
  choice values and printing warnings are not modelled; symbol types are taken as they are in the end.
- MenuTree.Tree.Finalize: entries are indices into arrays of fields instead of pointers, and conditions are values, so
  the sharing of one expression between an entry and rev_dep is not captured.
- MenuWalk.Walk: what is written for an entry other than a string symbol is not modelled.
- ConfReader.ReadLine: only lines that set a string symbol; other symbol types and comment lines are not modelled.
- DupSlots.JoinSlots: a nested tree is worked on in slots of its own and put back whole, instead of node by node.
- DupSlots.JoinAllSlots: likewise.
- DupSlots.JoinTree: takes and returns trees as values; the slots of every row are overwritten, the nodes above are not.
- DupSlots.CheckSlot: like JoinSlots, and the test for a complement works on values.
- DupSlots.ComplementTree: like JoinTree.
- Transforms.Compare: builds new expressions and is a function.
- Releasing memory, and nodes that are given up but still reachable, are not modelled.
- Choice and range nodes inside the rewriting passes, comparison with m for AND and OR, printing of expressions.
- AutonegRuns.LinkOkMeansNegotiated: assumes that the clock only advances and does not wrap within the run.
- Register access of the auto-negotiation machine: the received word is an arbitrary input, transmitted words are not
  looked at.
- CvoipDriver.Driver.HandleRxData: excludes a payload length of 15, which reads beyond the packet, and a copy beyond the
  receive buffer, as the driver tests neither; locking, interrupts, the half-duplex build and buffer rotation are not
  modelled.
- CvoipDriver.Driver.StorePayload: excludes the same two accesses.
- CvoipLink.SendCommand: one command in one direction over a link that loses nothing; for corrupt packets see CvoipLoss.
- CvoipRuns.CorruptionRecoveredIff: about a peer that repeats unasked, as the module at the other end may; a second
  driver of this kind does not (CvoipLoss.CorruptPacketIsLost).
- CvoipLoss.NeverNacks: leaves out the NACK set outside the two functions when no receive buffer is free at the start of
  a reception.
- CvoipLoss.CorruptAnswerDuplicates: assumes room for the repeated packet in the receive buffer, behind which the copy
  would go on.
- The user interfaces, symbol lookup by hash, regular expressions, file names and environment variables.
