# Contiki 2.6 applications: verified models

Dafny models of five components of Contiki 2.6 and its applications, with proofs about them.

* **Antelope** (`Lvm*.dfy`, `Aql*.dfy`, `IndexInline.dfy`, `Relation*.dfy`, `SelectionRun.dfy`, `MaxHeap*.dfy`): a
  WHERE clause is compiled in place into prefix bytecode, the bytecode is executed on rows, value ranges are derived
  from the same bytecode, and the ranges drive an index. The compiler preserves meaning, the ranges are sound, and the
  index plan returns the rows of the scan. The max-heap index is a range tree with buckets that agrees with a multimap.
* **CoAP-07** (`Coap*.dfy`): the option format of draft-ietf-core-coap-07 (section 3.2) with block options (RFC 7959,
  section 2.2), written and parsed in the packet buffer; the resource listing of RFC 6690, section 2, generated block by
  block; and the retransmission layer with its buffer pool.
* **Deluge** (`Deluge*.dfy`): dissemination of a file over a lossy broadcast network of N nodes: what every run keeps,
  which updates can reach a node at all, and that updates do not mix.
* **JSON** (`Json*.dfy`): the explicit-stack printer and the pull parser (RFC 4627, section 2), and when they undo each
  other.
* **tunslip** (`Checksum.dfy`, `Slip.dfy`, `Tunslip*.dfy`): internet checksums (RFC 1071, section 2; RFC 1624, section 3)
  and SLIP framing (RFC 1055).

Each component has functions on values that say what the code computes, and classes or methods over arrays that carry it
out the way the source does: the bytecode engine with its instruction pointer, the recursive-descent parser on a mutable
lexer, the packet buffer in which options are merged while it is being read, the printer's and the parser's stacks, the
node table and bucket cache of the index. A method's `ensures` ties the new state to the function, and the lemmas state
what the functions have to satisfy. `LvmArithmetic`, `CoapFields`, `JsonGrammar` and `TunslipFormat` say it once more in
plain numbers, characters and positions. Modules named `*Limits`, and a few lemmas elsewhere, hold the inputs on which
the code does not do what is promised, with the exact condition under which it does; so do `AqlMisread`, `AqlRefusals`,
`AqlCapacity`, `RelationOpenRange`, `DelugeProfiles`, `DelugeVersions` and `CoapCallbacks`.

Antelope is modelled on a target with 16-bit `int` and 32-bit `long`. `dafny verify dfyconfig.toml` checks everything.

Where the code and what is said of it differ, the model follows the code:

* `select_index` never lowers the smallest range, so the last indexed attribute with a range wins.
* The compiler puts every operator after the first one of a level in front of its right argument alone, rejects
  parentheses around comparisons, and accepts a clause that breaks off after a connective.
* Removals go through the index with the range of the rows that are not wanted.
* Ranges are cut to 16 bits on the way to the index, and a comparison of two constants derives a range for a variable.
* The max-heap index does not tell its cache of insertions.
* CoAP counts one option too many after a step of 14 or 15, and a transaction keeps the callback of the buffer's last
  user. The timer check takes a transaction that has not been sent yet for one whose timer has expired.
* Deluge drops every profile with a first entry above 1, so that only updates from version 0 to version 1 spread. It
  never adopts an update that leaves a complete page behind an incomplete one, serves incomplete pages to a node that
  asks with the server's version, copies a payload before its checksum is compared, and cannot pass on files of more
  than 128 pages.
* The JSON parser refuses arrays at the root, negative integers, and pairs whose value ends with an empty container.
* tunslip tests the don't-fragment flag in host byte order.

## Model

| member | source | states |
|---|---|---|
| `LvmCode.ExecutionIsMeaning` | contiki-2.6/apps/antelope/lvm.c:165-404 | running code that begins with the prefix form of a condition gives its truth value, MATH_ERROR if a division anywhere in it is by zero, and consumes exactly the prefix form |
| `LvmArithmetic.QuotientIsUnique` | contiki-2.6/apps/antelope/lvm.c:205-210 | division is that of C: there is one number that leaves a rest smaller than the divisor, 0 or with the sign of the dividend, and the quotient is that number |
| `LvmArithmetic.ComputeIsArithmetic` | contiki-2.6/apps/antelope/lvm.c:195-213 | a sum, difference or product is right modulo 2^32 and within 32 bits, and a quotient is that of C; the only error is a division by zero |
| `LvmArithmetic.QuotientFits` | contiki-2.6/apps/antelope/lvm.c:205-210 | a quotient fits 32 bits but for one pair of numbers |
| `LvmArithmetic.OperatorsByCode` | contiki-2.6/apps/antelope/lvm.c:195-213 | the same for the operators by their codes 17 to 20 in the bytecode, with the two error codes |
| `LvmArithmetic.ComparisonsAreOrder` | contiki-2.6/apps/antelope/lvm.c:277-295 | the six relations are the order of the integers: exactly one of less, equal and greater, and the negations |
| `LvmArithmetic.RelationsByCode` | contiki-2.6/apps/antelope/lvm.c:277-295 | the six relations by their codes 65 to 70 in the bytecode, and the error for any other |
| `LvmArithmetic.ArgumentsByCode` | contiki-2.6/apps/antelope/lvm.c:119-193 | what the arguments are worth by their bytes: constant, variable, other operand, arithmetic node, or a semantic error |
| `LvmArithmetic.ConnectivesByCode` | contiki-2.6/apps/antelope/lvm.c:235-262 | NOT, AND and OR by their codes 129 to 131 are complement, minimum and maximum of the truth values, and pass errors on |
| `LvmArithmetic.BytesOfComparison` | contiki-2.6/apps/antelope/lvm.h:75-105 | a comparison of a variable with a constant as its twenty bytes, little-endian |
| `LvmArithmetic.BytesOfOperator` | contiki-2.6/apps/antelope/lvm.h:75-98 | an operator as its four bytes in front of its arguments |
| `LvmArithmetic.BytesOfConnective` | contiki-2.6/apps/antelope/lvm.h:75-98 | a connective as its four bytes in front of its conditions |
| `LvmArithmetic.OverflowsCancel` | contiki-2.6/apps/antelope/lvm.c:195-213 | whatever overflows on the way, an expression without divisions has the last 32 bits of its exact value, and is exact if that fits |
| `LvmDerive.BytecodeDerives` | contiki-2.6/apps/antelope/lvm.c:582-687 | deriving over the bytecode of a condition gives the ranges defined by recursion on the condition, or refuses exactly where those are undefined |
| `LvmDerive.DerivedExactly` | contiki-2.6/apps/antelope/lvm.c:496-687 | for derivable conditions exactly the variables of the condition get a range |
| `LvmDerive.DerivationSound` | contiki-2.6/apps/antelope/lvm.c:496-687 | for arbitrarily nested AND and OR with the variable left of a constant and the same variables on both sides of every OR: a row that satisfies the condition has all its values inside the derived ranges |
| `LvmDerive.MergeIsExact` | contiki-2.6/apps/antelope/lvm.c:496-580 | an AND of two ranges holds exactly the values that both hold, an OR is the least interval with both; what one side derives alone is kept |
| `LvmDerive.ComparisonExact` | contiki-2.6/apps/antelope/lvm.c:638-682 | the range of a comparison holds exactly the values that satisfy it, unless it is an inequality or nothing satisfies it; then the range is everything |
| `LvmDerive.ConjunctionIsExact` | contiki-2.6/apps/antelope/lvm.c:496-687 | for comparisons that can be true joined by AND in any way: the derived range of a variable holds exactly the values that satisfy every comparison on it |
| `LvmDerive.ConjunctionIsItsRanges` | contiki-2.6/apps/antelope/lvm.c:496-687 | so a row satisfies such a condition exactly if all its values lie in the derived ranges |
| `LvmDerive.OrIsHull` | contiki-2.6/apps/antelope/lvm.c:539-580 | the range of an OR of two such conditions reaches from the least to the greatest value that one of them allows |
| `LvmDerive.ConstantLeftDerives` | contiki-2.6/apps/antelope/lvm.c:638-682 | a comparison with the constant on the left is derived with the operator as it stands |
| `LvmDerive.TwoConstantsDerive` | contiki-2.6/apps/antelope/lvm.c:611-682 | of a comparison of two constants the second is taken for a variable number, in its lowest byte |
| `LvmDerive.TwoConstants` | contiki-2.6/apps/antelope/lvm.c:611-682 | that is sound exactly if the comparison is false or the range excludes nothing |
| `LvmDerive.ConstantOnTheLeft` | contiki-2.6/apps/antelope/lvm.c:638-682 | with the constant on the left the range is that of the mirrored operator; it is sound exactly for equality and at the listed ends of the number range |
| `LvmDerive.OrMeaning` | contiki-2.6/apps/antelope/lvm.c:539-687 | what an OR of two comparisons over any two variables means, and which ranges the code derives from it |
| `LvmDerive.OrOverDifferentVariables` | contiki-2.6/apps/antelope/lvm.c:539-580 | an OR over different variables derives sound ranges exactly when each side constrains nothing or the other side is never true |
| `LvmEngine.Lvm.constructor` | contiki-2.6/apps/antelope/lvm.c:300-312 | a reset engine: empty code, no variables, no derived range |
| `LvmEngine.Lvm.SetType` | contiki-2.6/apps/antelope/lvm.c:372-377 | the two bytes of a node type are appended |
| `LvmEngine.Lvm.SetOp` | contiki-2.6/apps/antelope/lvm.c:406-412 | an arithmetic node is appended |
| `LvmEngine.Lvm.SetRelation` | contiki-2.6/apps/antelope/lvm.c:414-420 | a comparison node is appended |
| `LvmEngine.Lvm.SetOperand` | contiki-2.6/apps/antelope/lvm.c:422-428 | an operand node with its type and value is appended |
| `LvmEngine.Lvm.SetLong` | contiki-2.6/apps/antelope/lvm.c:430-439 | a constant operand is appended |
| `LvmEngine.Lvm.Lookup` | contiki-2.6/apps/antelope/lvm.c:105-117 | the first position of a name in the variable table, or the first free one |
| `LvmEngine.Lvm.RegisterVariable` | contiki-2.6/apps/antelope/lvm.c:441-460 | a name that is not registered yet gets the next entry |
| `LvmEngine.Lvm.SetVariable` | contiki-2.6/apps/antelope/lvm.c:475-488 | an operand with the number of the variable is appended; a name that is not registered gives that of the first free entry |
| `LvmEngine.Lvm.SetVariableValue` | contiki-2.6/apps/antelope/lvm.c:462-473 | the entry of the name gets the value, and no other entry changes |
| `LvmEngine.Lvm.JumpToOperand` | contiki-2.6/apps/antelope/lvm.c:314-327 | room for an operator is left; too little room sets the error flag and moves nothing |
| `LvmEngine.Lvm.SetEnd` | contiki-2.6/apps/antelope/lvm.c:356-370 | the end of the code moves, or the error flag is set |
| `LvmEngine.Lvm.ShiftForOperator` | contiki-2.6/apps/antelope/lvm.c:329-348 | the bytes from a position on move up by one operator, with the error case; the loop moves the highest byte first |
| `LvmEngine.Lvm.EvalExpr` | contiki-2.6/apps/antelope/lvm.c:165-219 | the recursive evaluator computes the value and the final instruction pointer that the bytecode semantics gives, on the real instruction pointer; what the operators compute is `LvmArithmetic.OperatorsByCode` |
| `LvmEngine.Lvm.EvalLogic` | contiki-2.6/apps/antelope/lvm.c:221-298 | the same for comparisons and connectives, with both arguments evaluated and errors passed on |
| `LvmEngine.Lvm.Execute` | contiki-2.6/apps/antelope/lvm.c:379-404 | one execution from the start of the code, as the bytecode semantics says |
| `LvmEngine.Lvm.MergeRanges` | contiki-2.6/apps/antelope/lvm.c:496-580 | the loops of create_intersection and create_union merge the two tables entry by entry; what an entry gets is `LvmDerive.MergeIsExact` |
| `LvmEngine.Lvm.DeriveRelation` | contiki-2.6/apps/antelope/lvm.c:582-687 | the recursive derivation fills the table as the semantics of derivation says, which `LvmDerive.ConjunctionIsExact` and `LvmDerive.OrIsHull` pin down; when it fails no entry has become derived |
| `LvmEngine.Lvm.DeriveProgram` | contiki-2.6/apps/antelope/lvm.c:689-693 | derivation of the whole program into the engine's table |
| `LvmEngine.Lvm.GetDerivedRange` | contiki-2.6/apps/antelope/lvm.c:695-712 | the derived range of a name, if it is registered and has one |
| `AqlMeaning.InsertAppends` | contiki-2.6/apps/antelope/lvm.c:329-370 | shifting the code and writing an operator into the gap puts the operator in front of everything emitted since a position, and changes nothing before it |
| `AqlMeaning.SideParses` | contiki-2.6/apps/antelope/aql-parser.c:290-348 | one side of a comparison, an operand or an operation whose right argument may be nested in parentheses, compiles to its prefix form and consumes its tokens |
| `AqlMeaning.ComparisonParses` | contiki-2.6/apps/antelope/aql-parser.c:350-400 | a comparison compiles to its prefix form, the operator going into the gap left in front |
| `AqlMeaning.WhereParses` | contiki-2.6/apps/antelope/aql-parser.c:402-447 | a clause c1 k1 c2 ... cn compiles to the prefix form of c1 k1 (c2 k2 (...)) |
| `AqlMeaning.CompilationPreservesMeaning` | contiki-2.6/apps/antelope/aql-parser.c:290-447 | compiler correctness: the compiled clause, executed on any row, gives the truth value of the right-nested condition or MATH_ERROR, and consumes exactly the emitted bytes |
| `AqlCapacity.ClauseFits` | contiki-2.6/apps/antelope/aql-parser.c:290-447 | a clause compiles without an error and without a write past buffer or table exactly if it names at most seven variables and is shorter than the buffer, or as long and ends with an operand |
| `AqlCapacity.SideEmits` | contiki-2.6/apps/antelope/aql-parser.c:290-348 | the same for one side anywhere in the buffer |
| `AqlCapacity.ShiftOverruns` | contiki-2.6/apps/antelope/lvm.c:329-348 | the shift for an operator writes past the buffer exactly with two or three bytes left, and reports an error exactly with fewer |
| `AqlChains.TermEmits` | contiki-2.6/apps/antelope/aql-parser.c:290-348 | a side with any number of operators on each level and any nesting is read as far as it goes, and emitted with every operator after the first of its level in front of its right argument alone |
| `AqlMisread.ClauseCompiles` | contiki-2.6/apps/antelope/aql-parser.c:290-447 | a clause of such sides compiles without an error, to those bytes |
| `AqlMisread.ClauseExact` | contiki-2.6/apps/antelope/aql-parser.c:311-345 | the code is the prefix form of what was written, the operators read from the left, exactly if no level has two operators |
| `AqlMisread.LeftOver` | contiki-2.6/apps/antelope/aql-parser.c:311-345 | nothing is left over behind the first expression of a side exactly if none of its levels has two operators |
| `AqlMisread.ClauseRuns` | contiki-2.6/apps/antelope/lvm.c:165-298 | executing the code of any such clause gives the truth value of its comparisons as they are regrouped, or MATH_ERROR; it fails if a comparison before the last one leaves operators over |
| `AqlMisread.OperatorChains` | contiki-2.6/apps/antelope/aql-parser.c:290-447 | all of this for a clause compiled into an empty buffer and executed on any row |
| `AqlMisread.SideOf` | contiki-2.6/apps/antelope/aql-parser.c:311-345 | a side without two operators on a level is one of the grammar that CompilationPreservesMeaning is about, with the same tokens and expression |
| `AqlMisread.TermOf` | contiki-2.6/apps/antelope/aql-parser.c:311-345 | and the other way round |
| `AqlMisread.RegroupingChangesMeaning` | contiki-2.6/apps/antelope/aql-parser.c:311-345 | 5 - 2 - 1 > 2 and 2 < 5 - 2 - 1 are false and executed as true |
| `AqlTokens.WhereAgrees` | contiki-2.6/apps/antelope/aql-parser.c:267-447 | for all token sequences, the status of a clause and the tokens it leaves are those of a recogniser on tokens alone, whatever the engine does |
| `AqlTokens.WhereReads` | contiki-2.6/apps/antelope/aql-parser.c:402-447 | after any chain of comparisons the parser goes on behind it, less one closing parenthesis |
| `AqlRefusals.BreaksOff` | contiki-2.6/apps/antelope/aql-parser.c:402-447 | for all token sequences, a clause ends with status 0 exactly if its first comparison can be read and what follows breaks off, and with OK exactly if it can be read and the rest is done |
| `AqlRefusals.BrokenComparisonIsAccepted` | contiki-2.6/apps/antelope/aql-parser.c:435-441 | after a whole chain and a connective: status 0, which no caller takes for an error, exactly if no comparison can be read there or the clause breaks off later; OK exactly if one can be read and the rest is done |
| `AqlRefusals.ComparisonNeeds` | contiki-2.6/apps/antelope/aql-parser.c:350-400 | a comparison that can be read has a relation with an operand before it and one behind it |
| `AqlRefusals.BrokenFamilies` | contiki-2.6/apps/antelope/aql-parser.c:435-441 | so every clause breaks off that lacks one of the three after a connective |
| `AqlRefusals.GroupIsSyntaxError` | contiki-2.6/apps/antelope/aql-parser.c:311-319 | for clauses with parentheses around any of the later comparisons and anything after them: a syntax error exactly if there is such a group, since the last expression in it consumes the closing parenthesis |
| `AqlRefusals.LeadingGroupIsSyntaxError` | contiki-2.6/apps/antelope/aql-parser.c:296-309 | a clause that begins with parentheses around a comparison is a syntax error, whatever follows |
| `AqlParser.Parser.ParseOperand` | contiki-2.6/apps/antelope/aql-parser.c:267-288 | the operand parser, on the mutable lexer and engine |
| `AqlParser.Parser.ParseExpr` | contiki-2.6/apps/antelope/aql-parser.c:290-348 | the expression parser, on the mutable lexer and engine |
| `AqlParser.Parser.ParseOperators` | contiki-2.6/apps/antelope/aql-parser.c:311-345 | its loop over the operators |
| `AqlParser.Parser.ParseComparison` | contiki-2.6/apps/antelope/aql-parser.c:350-400 | the comparison parser, on the mutable lexer and engine |
| `AqlParser.Parser.ParseWhere` | contiki-2.6/apps/antelope/aql-parser.c:402-447 | the clause parser, on the mutable lexer and engine |
| `AqlParser.Parser.ParseConnectives` | contiki-2.6/apps/antelope/aql-parser.c:415-442 | its loop over the connectives |
| `IndexInline.LocateStops` | contiki-2.6/apps/antelope/index-inline.c:103-151 | on a strictly increasing column the binary search runs below row 0 exactly for targets below the first value; otherwise it ends at the target or beside its place |
| `IndexInline.RangeIsCovered` | contiki-2.6/apps/antelope/index-inline.c:103-227 | the interval of rows holds every row with a value in the range and at most one more at either end; no rows exactly for a single value that is not in the column |
| `IndexInline.StopsByChance` | contiki-2.6/apps/antelope/index-inline.c:85-151 | below the first value the search, with bounds that wrap around at 32 bits, never stops unless a row that is not there happens to read as a value not above the target |
| `IndexInline.InlineIndex.BinarySearch` | contiki-2.6/apps/antelope/index-inline.c:103-151 | the do-while loop with 32-bit bounds ends where the specification does |
| `IndexInline.InlineIndex.RangeSearch` | contiki-2.6/apps/antelope/index-inline.c:153-181 | both ends of the range are located, or the absence of a single value is reported |
| `IndexInline.InlineIndex.GetNext` | contiki-2.6/apps/antelope/index-inline.c:201-227 | one more row of the interval, INVALID_TUPLE at its end, and the cached bounds and the item number that go with it |
| `IndexInline.InlineIndex.Drain` | contiki-2.6/apps/antelope/index-inline.c:201-227 | repeated calls yield each row of the interval once, in ascending order |
| `RelationSelect.OutsideRange` | contiki-2.6/apps/antelope/relation.c:630-672 | a row that satisfies the condition has its indexed value in the derived range |
| `RelationSelect.StoredNumberIsRead` | contiki-2.6/apps/antelope/result.c:84-148 | a row holds a number exactly if the bytes in which it is stored, the high byte first and negative ones in two's complement, are at the place of the attribute; for every 16-bit and every 32-bit number |
| `RelationSelect.RowHoldsItsValues` | contiki-2.6/apps/antelope/relation.c:786-801 | so the valuation of a row is the one whose values it stores |
| `RelationSelect.WantedByStoredValues` | contiki-2.6/apps/antelope/relation.c:786-845 | a row that stores given values is wanted exactly if the condition is true of those values |
| `RelationSelect.PlaceInScan` | contiki-2.6/apps/antelope/relation.c:734-845 | a wanted row has its place in the result behind the wanted rows before it, and an unwanted one has none |
| `RelationSelect.ProjectedAttribute` | contiki-2.6/apps/antelope/relation.c:806-814 | each attribute that was asked for has the bytes of the row at its place in the result |
| `RelationSelect.TrimmedScan` | contiki-2.6/apps/antelope/relation.c:734-845 | leaving out rows at both ends of a scan changes its result exactly when one of them was wanted |
| `RelationSelect.IndexPlanEqualsScan` | contiki-2.6/apps/antelope/relation.c:630-845 | the index plan returns the same rows in the same order as the scan; only for a single value that no row has it reports an error where the scan returns nothing |
| `RelationSelect.InverseIndexPlan` | contiki-2.6/apps/antelope/relation.c:712-845 | a removal, which keeps the rows for which the condition is false, through the index: right exactly if the interval is the whole relation |
| `RelationOpenRange.OpenRangeIsCut` | contiki-2.6/apps/antelope/relation.c:657-670 | an open upper end becomes -1 and an open lower end 0 on the way to the index; the search then runs away exactly for columns that begin from 0 on, or above 0 |
| `RelationOpenRange.CutRangePlan` | contiki-2.6/apps/antelope/relation.c:630-845 | for any range, open or closed, as it is cut to 16 bits: the plan equals the scan exactly if no row outside is wanted but the ones where the two searches end; if the cut leaves it empty, exactly if no row but one is wanted at all; and when it reports an error |
| `RelationOpenRange.OpenBelow` | contiki-2.6/apps/antelope/relation.c:630-845 | for a derived range without a lower end: exactly if no wanted row has a negative value, but for the row where the search for 0 ends; with a negative upper end exactly if no other row is wanted at all |
| `RelationOpenRange.OpenAbove` | contiki-2.6/apps/antelope/relation.c:630-845 | for a derived range without an upper end: exactly if no wanted row has a value from 0 on, but for the row where the search for -1 ends; from a lower end of 0 on, exactly if no other row is wanted at all |
| `RelationOpenRange.OpenBoth` | contiki-2.6/apps/antelope/relation.c:630-845 | a range that is open at both ends gives the row where the search for 0 ends and no other |
| `SelectionRun.SelectIndex` | contiki-2.6/apps/antelope/relation.c:642-663 | the last indexed attribute with a derived range is chosen, because the smallest range so far is never recorded |
| `SelectionRun.ChoiceIsLast` | contiki-2.6/apps/antelope/relation.c:642-663 | the choice is a position with an index and a range, and no later one has both; there is none exactly if no position has |
| `SelectionRun.LoadRow` | contiki-2.6/apps/antelope/relation.c:786-814 | a row gives the engine's variables the values whose stored bytes it holds, and the result row holds the attributes that were asked for, one after the other |
| `SelectionRun.Selection.ProcessRow` | contiki-2.6/apps/antelope/relation.c:786-845 | the row is returned, and counted, exactly if the condition has the wanted truth value on the values it stores |
| `SelectionRun.Selection.FetchFromIndex` | contiki-2.6/apps/antelope/relation.c:756-770 | the next row of the index, its end, or the error for an empty index result |
| `SelectionRun.Selection.ProcessSelect` | contiki-2.6/apps/antelope/relation.c:734-845 | one call handles the next row of whichever plan was chosen |
| `SelectionRun.Selection.Drain` | contiki-2.6/apps/antelope/relation.c:734-845 | calls until the end return the wanted rows of the positions still to come, in order |
| `SelectionRun.Selection.GenerateSelectionResult` | contiki-2.6/apps/antelope/relation.c:674-709 | the index is used exactly if derivation succeeds and gives the indexed attribute a range, with that range; the plan's rows are those of the scan |
| `SelectionRun.Selection.Run` | contiki-2.6/apps/antelope/relation.c:674-845 | fast plan equals slow plan on the running objects: whatever plan is chosen, the result is that of the scan; an index error is reported exactly if the derived range is a single value that no row has |
| `AqlQuery.CompileWhere` | contiki-2.6/apps/antelope/aql-parser.c:402-447 | a clause compiled into a fresh engine leaves the prefix form at the start of its code |
| `AqlQuery.SelectWhere` | contiki-2.6/apps/antelope/relation.c:674-845 | from the tokens of a clause to its rows: exactly the rows on which the right-nested clause is true, in order, with or without the index; status -9 exactly for a single derived value that no row has, and 3 otherwise |
| `MaxHeapTree.RangeWidth` | contiki-2.6/apps/antelope/index-maxheap.c:69-85 | a node d levels deep has exactly 2^(16-d) keys, for every position of the tree |
| `MaxHeapTree.ChildRanges` | contiki-2.6/apps/antelope/index-maxheap.c:415-444 | the two children of a position split its range at the mean |
| `MaxHeapTree.CreationIsWellFormed` | contiki-2.6/apps/antelope/index-maxheap.c:493-584 | the tree after creation: the root holds all keys |
| `MaxHeapTree.SplitSucceeds` | contiki-2.6/apps/antelope/index-maxheap.c:415-444 | splitting a node without children inserts exactly its two halves as its children, although each insertion searches from the root |
| `MaxHeapTree.SplitFails` | contiki-2.6/apps/antelope/index-maxheap.c:415-444 | a node whose children could not have children cannot be split again, and nothing changes |
| `MaxHeapTree.ChildrenKeepWellFormed` | contiki-2.6/apps/antelope/index-maxheap.c:415-444 | the tree invariant is kept: ranges by position, siblings together, parents present, no live node equal to the empty mark |
| `MaxHeapTree.FindBelow` | contiki-2.6/apps/antelope/index-maxheap.c:261-291 | searching below a node finds the one child that contains the key |
| `MaxHeapTree.DeepestIsFrontier` | contiki-2.6/apps/antelope/index-maxheap.c:446-491 | the repeated search of an insertion ends at the frontier of the key's path |
| `MaxHeapTree.PathIsComplete` | contiki-2.6/apps/antelope/index-maxheap.c:261-291 | every present node that contains a key and can hold a bucket is on the key's path, so there is one path |
| `MaxHeapTree.PathIsSound` | contiki-2.6/apps/antelope/index-maxheap.c:261-291 | every node on the path contains the key |
| `MaxHeapIndex.InsertionConserves` | contiki-2.6/apps/antelope/index-maxheap.c:393-491 | an insertion keeps the invariant whether it succeeds or not, adds exactly the pair if it succeeds and loses none; it succeeds exactly if there is room on the path |
| `MaxHeapIndex.RunConserves` | contiki-2.6/apps/antelope/index-maxheap.c:393-491 | after any run of insertions the tree is well formed and the index holds exactly the accepted items |
| `MaxHeapIndex.LookupIsExact` | contiki-2.6/apps/antelope/index-maxheap.c:667-747 | the first lookup of a key returns a value stored under it, and none exactly if there is none, for any coherent cache |
| `MaxHeapIndex.LookupAfterRun` | contiki-2.6/apps/antelope/index-maxheap.c:667-747 | lookup agrees with a multimap after any run of insertions with an empty cache |
| `MaxHeapIndex.InsertionAndCache` | contiki-2.6/apps/antelope/index-maxheap.c:350-413 | the cache stays coherent after an append exactly if the pair goes elsewhere or is already in the cached slot |
| `MaxHeapIndex.StaleLookup` | contiki-2.6/apps/antelope/index-maxheap.c:350-413 | a concrete run: a miss, an insertion, and a second miss from the cached bucket |
| `MaxHeapDuplicates.DeepestIsFound` | contiki-2.6/apps/antelope/index-maxheap.c:667-747 | of several values under a key the one in the first slot of the deepest bucket on the path that has the key is found |
| `MaxHeapDuplicates.BucketTakes` | contiki-2.6/apps/antelope/index-maxheap.c:393-413 | a bucket takes 128 pairs and refuses more unchanged |
| `MaxHeapDuplicates.AtMostStored` | contiki-2.6/apps/antelope/index-maxheap.c:393-491 | the index never holds more than 32640 pairs |
| `MaxHeapStore.HeapIndex.constructor` | contiki-2.6/apps/antelope/index-maxheap.c:493-584 | creation |
| `MaxHeapStore.HeapIndex.InsertNode` | contiki-2.6/apps/antelope/index-maxheap.c:224-259 | heap_insert on the stored nodes |
| `MaxHeapStore.HeapIndex.FindNode` | contiki-2.6/apps/antelope/index-maxheap.c:261-291 | heap_find, with the place to continue |
| `MaxHeapStore.HeapIndex.SplitBucket` | contiki-2.6/apps/antelope/index-maxheap.c:415-444 | bucket_split |
| `MaxHeapStore.HeapIndex.AppendPair` | contiki-2.6/apps/antelope/index-maxheap.c:393-413 | bucket_append |
| `MaxHeapStore.HeapIndex.FindDeepest` | contiki-2.6/apps/antelope/index-maxheap.c:446-491 | the descent of insert_item |
| `MaxHeapStore.HeapIndex.InsertPair` | contiki-2.6/apps/antelope/index-maxheap.c:446-491 | insert_item |
| `MaxHeapStore.HeapIndex.Insert` | contiki-2.6/apps/antelope/index-maxheap.c:643-659 | insert: key and tuple id cut to 16 bits; a valid index stays valid and conserves its content |
| `MaxHeapStore.HeapIndex.ReadBucket` | contiki-2.6/apps/antelope/index-maxheap.c:329-348 | bucket_read: the part in use, or all of it |
| `MaxHeapStore.HeapIndex.LoadBucket` | contiki-2.6/apps/antelope/index-maxheap.c:350-391 | bucket_load into the one cache entry |
| `MaxHeapStore.HeapIndex.FindInBucket` | contiki-2.6/apps/antelope/index-maxheap.c:667-747 | the search of the cached bucket |
| `MaxHeapStore.HeapIndex.VisitPath` | contiki-2.6/apps/antelope/index-maxheap.c:667-747 | the nodes visited on the way down |
| `MaxHeapStore.HeapIndex.SearchBuckets` | contiki-2.6/apps/antelope/index-maxheap.c:667-747 | the search of their buckets from the bottom up |
| `MaxHeapStore.HeapIndex.GetNext` | contiki-2.6/apps/antelope/index-maxheap.c:667-747 | the first call on a fresh iterator: exact on a valid index with a coherent cache, and both are kept |
| `DelugeNetwork.ReactFollows` | contiki-2.6/apps/deluge/deluge.c:226-580 | every handler and timer of a node keeps the update invariant, and whatever it sends is legal |
| `DelugeNetwork.StepFollows` | contiki-2.6/apps/deluge/deluge.c:226-580 | every step of the network keeps the invariant |
| `DelugeNetwork.ContentIntegrity` | contiki-2.6/apps/deluge/deluge.c:347-612 | in every run of N nodes over a network that loses, repeats and reorders: a page complete at the new version is the source's, an adopted version has the source's file, and packets of that version carry source content |
| `DelugeAdoption.AdvanceSound` | contiki-2.6/apps/deluge/deluge.c:226-580 | one event of one node: pages before the receive position stay complete, versions do not decrease, and the version changes only when all pages are there at versions the last accepted profile asks for |
| `DelugeAdoption.AdoptionSafety` | contiki-2.6/apps/deluge/deluge.c:226-580 | the same for every state and step of every run, with any sender and any damage |
| `DelugeProfiles.NothingToReceive` | contiki-2.6/apps/deluge/deluge.c:524-580 | a newer profile leaves nothing to receive exactly if every page is complete and no entry is above its page's version |
| `DelugeProfiles.NeverAdopted` | contiki-2.6/apps/deluge/deluge.c:431-498 | in every run, a node that has nothing to receive, or a complete page behind the receive position, keeps its version in every state up to the next profile it accepts |
| `DelugeProfiles.AdoptionPossible` | contiki-2.6/apps/deluge/deluge.c:431-498 | some run without another accepted profile makes a node adopt the update it knows of exactly if there is a page to receive and no page from there on is complete |
| `DelugeProfiles.ProfileCanBeAdopted` | contiki-2.6/apps/deluge/deluge.c:524-612 | a version that a profile announces can be adopted before the next accepted profile exactly if the first entry of the profile is at most 1 and the pages it asks for are the last ones of the object, and at least one |
| `DelugeVersions.StaysIdle` | contiki-2.6/apps/deluge/deluge.c:226-612 | a node with all of its pages keeps its object and sends only summaries and its own profile, as long as it hears no request for its version and no profile of a later one that is passed on |
| `DelugeVersions.OldStays` | contiki-2.6/apps/deluge/deluge.c:226-612 | in every run, an update to version 2 or a later one leaves every node with the old version as it is |
| `DelugeVersions.UpdatesDoNotMix` | contiki-2.6/apps/deluge/deluge.c:226-612 | in every run of nodes that start with any versions, those from version 1 on keep version and file, those with version 0 keep it or take the file of version 1, and every packet sent is one of that file |
| `DelugeLimits.IncompletePageServed` | contiki-2.6/apps/deluge/deluge.c:398-429 | an idle node answers a request with packets of an incomplete page exactly if the first page that is not available is asked for with the node's own version |
| `DelugeLimits.FarPagesNotServed` | contiki-2.6/apps/deluge/deluge.c:347-429 | pages from 128 on are never sent, as the page to transmit is a signed byte |
| `DelugeLimits.DamagedPacket` | contiki-2.6/apps/deluge/deluge.c:454-463 | a packet whose checksum fails leaves the received slots intact exactly if its slot was empty or it repeats it |
| `DelugeRequests.NoRequestIsLost` | contiki-2.6/apps/deluge/deluge.c:347-429 | after any requests and other events that leave the node in its mode, the transmission carries exactly the packets that some request asked for since the page last changed, and those queued before for it: each once, in ascending order, with the bytes of the file and the version of the page |
| `DelugeRequests.TransmissionIsSet` | contiki-2.6/apps/deluge/deluge.c:347-396 | a transmission carries the packets in the set, and leaves nothing queued and the node in the maintain mode |
| `DelugeRounds.AdvertisementsInRound` | contiki-2.6/apps/deluge/deluge.c:269-345 | in a round the summary is sent exactly if no neighbour advertised just the same, the profile exactly if besides some neighbour was older; the round is inconsistent exactly if some neighbour differed |
| `DelugeRounds.SummaryStartsReception` | contiki-2.6/apps/deluge/deluge.c:291-345 | a summary starts the reception exactly if it is of the node's update, offers a page that is not complete, and nothing was heard recently; which timers it stops |
| `DelugeRounds.LastPacket` | contiki-2.6/apps/deluge/deluge.c:464-491 | the last packet of a page: the next request stays scheduled exactly if the packet was overheard outside of the mode of reception |
| `DelugeRounds.OtherPacket` | contiki-2.6/apps/deluge/deluge.c:431-498 | a packet of another page or version changes nothing but what is noted of the round |
| `DelugeRounds.NewerProfile` | contiki-2.6/apps/deluge/deluge.c:524-580 | a newer profile takes back what is queued even without memory, and otherwise starts the reception of the first page that is outdated or not complete |
| `DelugeRounds.TwoRequests` | contiki-2.6/apps/deluge/deluge.c:240-267 | a receiving node asks for exactly the missing packets twice and then gives up |
| `DelugeProgress.PagePasses` | contiki-2.6/apps/deluge/deluge.c:240-498 | summary, request, transmission and packets bring one more page from a node that has the file to one that is reading it |
| `DelugeProgress.StuckForever` | contiki-2.6/apps/deluge/deluge.c:347-429 | in every run of a network with an update of no page or more than 128, a node with the old version keeps it |
| `DelugeProgress.UpdateCanComplete` | contiki-2.6/apps/deluge/deluge.c:226-612 | a node with the old version can adopt the new one, and then has its file, exactly if the new version is 1 and the file has 1 to 128 pages |
| `DelugeObject.Deluge.constructor` | contiki-2.6/apps/deluge/deluge.c:191-224 | init_object: every page present, on the fields, the page table and the receive buffer of the node |
| `DelugeObject.Deluge.HighestAvailable` | contiki-2.6/apps/deluge/deluge.c:226-238 | the first page that is not complete, on the fields, the page table and the receive buffer of the node |
| `DelugeObject.Deluge.SetMode` | contiki-2.6/apps/deluge/deluge.c:104-122 | transition stops the timers of the mode left, on the fields, the page table and the receive buffer of the node |
| `DelugeObject.Deluge.OnRxTimer` | contiki-2.6/apps/deluge/deluge.c:240-267 | the request for the page being received, on the fields, the page table and the receive buffer of the node |
| `DelugeObject.Deluge.OnSummaryTimer` | contiki-2.6/apps/deluge/deluge.c:269-289 | the summary, on the fields, the page table and the receive buffer of the node |
| `DelugeObject.Deluge.SendPage` | contiki-2.6/apps/deluge/deluge.c:347-374 | the packets of the transmission set, in order, and the set emptied, on the fields, the page table and the receive buffer of the node |
| `DelugeObject.Deluge.OnTxTimer` | contiki-2.6/apps/deluge/deluge.c:376-396 | the transmission of a page, on the fields, the page table and the receive buffer of the node |
| `DelugeObject.Deluge.OnProfileTimer` | contiki-2.6/apps/deluge/deluge.c:500-522 | the profile, on the fields, the page table and the receive buffer of the node |
| `DelugeObject.Deluge.OnRound` | contiki-2.6/apps/deluge/deluge.c:663-700 | the start of a round, on the fields, the page table and the receive buffer of the node |
| `DelugeObject.Deluge.OnSummary` | contiki-2.6/apps/deluge/deluge.c:291-345 | handle_summary, on the fields, the page table and the receive buffer of the node |
| `DelugeObject.Deluge.OnRequest` | contiki-2.6/apps/deluge/deluge.c:398-429 | handle_request, on the fields, the page table and the receive buffer of the node |
| `DelugeObject.Deluge.CompletePage` | contiki-2.6/apps/deluge/deluge.c:466-491 | the last packet of a page, on the fields, the page table and the receive buffer of the node |
| `DelugeObject.Deluge.OnPacket` | contiki-2.6/apps/deluge/deluge.c:431-498 | handle_packet, on the fields, the page table and the receive buffer of the node |
| `DelugeObject.Deluge.MarkOutdated` | contiki-2.6/apps/deluge/deluge.c:524-580 | the page table loop of handle_profile, on the fields, the page table and the receive buffer of the node |
| `DelugeObject.Deluge.OnProfile` | contiki-2.6/apps/deluge/deluge.c:524-580 | handle_profile, on the fields, the page table and the receive buffer of the node |
| `DelugeObject.Deluge.OnMessage` | contiki-2.6/apps/deluge/deluge.c:582-616 | command_dispatcher, with its test of the length of profiles, on the fields, the page table and the receive buffer of the node |
| `CoapOption.FourBytesAreIntBytes` | contiki-2.6/apps/er-coap-07/er-coap-07.c:132-150 | the byte-by-byte tests write exactly the shortest form of a 32-bit integer |
| `CoapOption.IntRoundTrip` | contiki-2.6/apps/er-coap-07/er-coap-07.c:85-150 | a 32-bit integer is read back from its shortest form |
| `CoapOption.CountIsRight` | contiki-2.6/apps/er-coap-07/er-coap-07.c:302-490 | the counted options are those written, plus one exactly if some option from 15 on follows at a distance of 14 or 15 |
| `CoapOption.ScanItems` | contiki-2.6/apps/er-coap-07/er-coap-07.c:99-203 | reading options that were written, with their fence posts and long lengths, gives the same numbers and values |
| `CoapText.MergeUndoesSplit` | contiki-2.6/apps/er-coap-07/er-coap-07.c:157-227 | splitting a string and merging the parts gives it back exactly if it does not begin with the separator and no part after a split is missing or begins with a slash |
| `CoapText.PathsThatSurvive` | contiki-2.6/apps/er-coap-07/er-coap-07.c:157-227 | a path survives exactly if it is empty or none of its components is |
| `CoapText.QueriesThatSurvive` | contiki-2.6/apps/er-coap-07/er-coap-07.c:157-227 | a query survives exactly if it does not begin with an ampersand and no odd number of ampersands stands right before a slash or at the end |
| `CoapMessage.BlockReread` | contiki-2.6/apps/er-coap-07/er-coap-07.c:457-459 | a block option is read back with its number and more flag, and its size rounded down |
| `CoapMessage.SizesKept` | contiki-2.6/apps/er-coap-07/er-coap-07.c:72-82 | the size is kept exactly for the eight sizes the option can express |
| `CoapRoundTrip.RereadIsSame` | contiki-2.6/apps/er-coap-07/er-coap-07.c:534-739 | a field is read back as it was exactly if it survives the format |
| `CoapRoundTrip.MessageReread` | contiki-2.6/apps/er-coap-07/er-coap-07.c:302-739 | with a right count, type, code, message id, payload and the fields as the format keeps them are recovered |
| `CoapRoundTrip.PayloadIsFound` | contiki-2.6/apps/er-coap-07/er-coap-07.c:302-739 | the payload is found where the header ended exactly if the count fits four bits and is right |
| `CoapRoundTrip.RoundTrip` | contiki-2.6/apps/er-coap-07/er-coap-07.c:302-739 | parsing recovers the packet and its payload exactly if every field survives and the count fits and is right |
| `CoapFields.PathsAreWritten` | contiki-2.6/apps/er-coap-07/er-coap-07.c:366-402 | a path is written as one option for each component, in order and without slashes: Location-Path with number 6, Uri-Path with number 9 |
| `CoapFields.QueriesAreWritten` | contiki-2.6/apps/er-coap-07/er-coap-07.c:384-452 | a query is written as one option for each part between ampersands: Location-Query with number 8, Uri-Query with number 15 |
| `CoapFields.PartsAreRead` | contiki-2.6/apps/er-coap-07/er-coap-07.c:623-690 | options 6 or 9 set the text of their values with slashes between them, options 8 or 15 with ampersands, whatever options are between them |
| `CoapFields.PathAndQuery` | contiki-2.6/apps/er-coap-07/er-coap-07.c:302-739 | both directions for the path and the query of any message |
| `CoapFields.ValuesByNumber` | contiki-2.6/apps/er-coap-07/er-coap-07.h:153-172 | which values each option number takes |
| `CoapFields.WrittenByNumber` | contiki-2.6/apps/er-coap-07/er-coap-07.c:302-490 | how the fields that are not split are written, by number |
| `CoapFields.BlockByNumber` | contiki-2.6/apps/er-coap-07/er-coap-07.c:457-478 | a block option is written as its number, one bit for more and three for the size |
| `CoapFields.ReadByNumber` | contiki-2.6/apps/er-coap-07/er-coap-07.c:585-716 | what an option sets when it is read, by number |
| `CoapFields.BlockIsRead` | contiki-2.6/apps/er-coap-07/er-coap-07.c:691-706 | a block option is read as number, one bit for more and three for the size |
| `CoapFields.RefusedByNumber` | contiki-2.6/apps/er-coap-07/er-coap-07.c:595-722 | an option is refused exactly if it is Proxy-Uri, with 165, or an unknown one with an odd number, with 130; other unknown ones are passed over |
| `CoapFields.FieldsAreIndependent` | contiki-2.6/apps/er-coap-07/er-coap-07.c:562-724 | the options of one number determine its field, whatever other options are between them |
| `CoapFields.OptionsOfMessage` | contiki-2.6/apps/er-coap-07/er-coap-07.c:302-490 | the options of a message with one number are those of its field |
| `CoapFields.PathOnTheWire` | contiki-2.6/apps/er-coap-07/er-coap-07.c:99-203 | a request with a path byte by byte, from its components; it is read back |
| `CoapFields.BlockOnTheWire` | contiki-2.6/apps/er-coap-07/er-coap-07.c:99-150 | a message with a Block1 option byte by byte, with its fence post; it is read back |
| `CoapFields.BytesOfInt` | contiki-2.6/apps/er-coap-07/er-coap-07.c:85-96 | integers are read with the high byte first |
| `CoapFields.MessageLimits` | contiki-2.6/apps/er-coap-07/er-coap-07.c:534-760 | a version other than 1 is refused with 128, and no more than 128 bytes of payload are read |
| `CoapLimits.WrongCounts` | contiki-2.6/apps/er-coap-07/er-coap-07.c:444-490 | the count is one too high exactly if a set option from 15 on follows the option before it, or the start, at a distance of 14 or 15 |
| `CoapLimits.LoneQuery` | contiki-2.6/apps/er-coap-07/er-coap-07.c:444-452 | a concrete family: a request with only a query, whose payload is not found |
| `CoapWriter.SetHeader` | contiki-2.6/apps/er-coap-07/er-coap-07.c:99-112 | the option header at a position of the buffer |
| `CoapWriter.InsertFencePosts` | contiki-2.6/apps/er-coap-07/er-coap-07.c:116-128 | the fence posts before an option, and the number after them |
| `CoapWriter.SerializeInt` | contiki-2.6/apps/er-coap-07/er-coap-07.c:132-150 | an integer option |
| `CoapWriter.SerializeArray` | contiki-2.6/apps/er-coap-07/er-coap-07.c:157-203 | an option with its value |
| `CoapWriter.SplitLoop` | contiki-2.6/apps/er-coap-07/er-coap-07.c:157-203 | the loop that writes one option for each part of a text |
| `CoapWriter.SerializeSplit` | contiki-2.6/apps/er-coap-07/er-coap-07.c:157-203 | a text split into options at its separators, and the number of options |
| `CoapWriter.SerializeField` | contiki-2.6/apps/er-coap-07/er-coap-07.c:302-490 | the options of one field |
| `CoapWriter.SerializeOptions` | contiki-2.6/apps/er-coap-07/er-coap-07.c:302-490 | all options, in the order of their numbers, and their count |
| `CoapWriter.SerializeMessage` | contiki-2.6/apps/er-coap-07/er-coap-07.c:302-517 | the whole message, or 0 if its header is too long; nothing outside the message changes |
| `CoapReader.CoapPacket.ParseInt` | contiki-2.6/apps/er-coap-07/er-coap-07.c:85-96 | an integer of at most 32 bits |
| `CoapReader.CoapPacket.ReadOption` | contiki-2.6/apps/er-coap-07/er-coap-07.c:570-586 | the number, place and end of the next option |
| `CoapReader.CoapPacket.Move` | contiki-2.6/apps/er-coap-07/er-coap-07.c:206-227 | memmove to a lower address |
| `CoapReader.CoapPacket.MergeText` | contiki-2.6/apps/er-coap-07/er-coap-07.c:206-227 | a value is pointed to or moved behind a separator to the end of the text; nothing before the text and no unread byte changes |
| `CoapReader.CoapPacket.ParseOne` | contiki-2.6/apps/er-coap-07/er-coap-07.c:570-722 | one option: the field it sets, with all bytes behind it as they came |
| `CoapReader.CoapPacket.ParseLoop` | contiki-2.6/apps/er-coap-07/er-coap-07.c:562-724 | the loop over the options |
| `CoapReader.CoapPacket.ParseOptions` | contiki-2.6/apps/er-coap-07/er-coap-07.c:562-724 | the fields are those of the specification although merging happened in the buffer being read; no byte from the end of the options on has changed |
| `CoapReader.CoapPacket.ParseMessage` | contiki-2.6/apps/er-coap-07/er-coap-07.c:534-739 | the packet is that of the specification, or the error code |
| `CoapDiscovery.BlocksAreRest` | contiki-2.6/apps/er-coap-07/er-coap-07-engine.c:306-421 | following the announced offsets from any offset yields the rest of the text |
| `CoapDiscovery.BlocksConcatenate` | contiki-2.6/apps/er-coap-07/er-coap-07-engine.c:306-421 | the blocks from the start concatenate to the complete listing |
| `CoapDiscovery.ListingIsRead` | contiki-2.6/apps/er-coap-07/er-coap-07-engine.c:317-395 | a reader of the link format gets the resources with their targets and attributes back from the listing, in order |
| `CoapDiscovery.PutChar` | contiki-2.6/apps/er-coap-07/er-coap-07-engine.c:317-395 | one character, dropped before the offset and when the block is full |
| `CoapDiscovery.PutString` | contiki-2.6/apps/er-coap-07/er-coap-07-engine.c:317-395 | a string, cut at the offset and at the end of the block |
| `CoapDiscovery.PutResource` | contiki-2.6/apps/er-coap-07/er-coap-07-engine.c:330-395 | one entry, and whether the block is complete |
| `CoapDiscovery.Generate` | contiki-2.6/apps/er-coap-07/er-coap-07-engine.c:317-395 | the loop over the resources stops exactly when another block is announced |
| `CoapDiscovery.Handle` | contiki-2.6/apps/er-coap-07/er-coap-07-engine.c:306-421 | the block of the listing at the offset and the exact next offset, or the refusal of an offset beyond the listing |
| `CoapDiscovery.FetchBlock` | contiki-2.6/apps/er-coap-07/er-coap-07-engine.c:144-188 | one request: the payload cut to the block size, and whether it is refused |
| `CoapDiscovery.FetchAll` | contiki-2.6/apps/er-coap-07/er-coap-07-engine.c:455-522 | a client that follows the announcements gets the whole listing; the last answer is a refusal exactly if the listing ends with attributes and fills its blocks |
| `CoapTransactions.RunIsListed` | contiki-2.6/apps/er-coap-07/er-coap-07-transactions.c:77-199 | over every interleaving of creations, transmissions, discards, answers and timer checks: the buffers in use are exactly the listed ones, each once, and no two hold the same transaction |
| `CoapOrder.RunByAge` | contiki-2.6/apps/er-coap-07/er-coap-07-transactions.c:77-199 | in every run the transactions are listed in the order of their creation |
| `CoapOrder.OldestIsAnswered` | contiki-2.6/apps/er-coap-07/er-coap-07-engine.c:236-248 | in every run a reply is taken for the oldest open transaction with its message id, if there is one |
| `CoapOrder.FirstFree` | contiki-2.6/apps/er-coap-07/er-coap-07-transactions.c:77-95 | a new transaction gets the first free buffer |
| `CoapOrder.FourBuffers` | contiki-2.6/apps/er-coap-07/er-coap-07-transactions.c:77-95 | in every run there are four buffers and at most four transactions |
| `CoapOrder.CheckHandles` | contiki-2.6/apps/er-coap-07/er-coap-07-transactions.c:185-199 | a check sends again exactly the listed transactions whose timer has expired, from the oldest up to the first for which it is the last transmission; the others stay as they are |
| `CoapOrder.FiveTransmissions` | contiki-2.6/apps/er-coap-07/er-coap-07-transactions.c:97-154 | an unanswered transaction event by event: five transmissions, and waits of one, two, four and eight times the first |
| `CoapHistories.SendKeeps` | contiki-2.6/apps/er-coap-07/er-coap-07-transactions.c:97-154 | sending keeps the invariant: another doubled wait, or the end of the transaction |
| `CoapHistories.TransmitKeeps` | contiki-2.6/apps/er-coap-07/er-coap-07-transactions.c:97-154 | so does the first transmission, by the owner |
| `CoapHistories.ReplyKeeps` | contiki-2.6/apps/er-coap-07/er-coap-07-engine.c:236-248 | a reply frees the transaction, sent or not, before its callback and keeps the invariant |
| `CoapHistories.UnsentExpires` | contiki-2.6/apps/er-coap-07/er-coap-07-transactions.c:185-199 | what the timer check does to a transaction that has not been sent, whose stopped timer reads as expired: the old message in its buffer goes out; it then waits as if retransmitted if that message is confirmable, and is freed otherwise |
| `CoapHistories.CheckKeeps` | contiki-2.6/apps/er-coap-07/er-coap-07-transactions.c:185-199 | the walk over the list, which a removal ends, keeps the invariant exactly if it does not come to an unsent transaction with a confirmable old message |
| `CoapHistories.StepKeeps` | contiki-2.6/apps/er-coap-07/er-coap-07-transactions.c:77-199 | an event keeps the invariant exactly if it is not such a check |
| `CoapHistories.RunIsValid` | contiki-2.6/apps/er-coap-07/er-coap-07-transactions.c:77-199 | for every run: every history is a legal one at all times, with each wait twice the one before, exactly if no check of the run wakes an unsent transaction |
| `CoapHistories.BetweenEvents` | contiki-2.6/apps/er-coap-07/er-coap-07-engine.c:423-446 | a check that takes place while no transaction is unsent, as the receiver process makes them, is never such a check |
| `CoapHistories.EarlyCheck` | contiki-2.6/apps/er-coap-07/er-coap-07-transactions.c:185-199 | a check between a creation and the transmission wakes the new transaction, without any expired timer, exactly if the old message in its buffer is confirmable |
| `CoapCallbacks.OverBounds` | contiki-2.6/apps/er-coap-07/er-coap-07-transactions.c:97-154 | a transaction that is over was sent at most five times and freed exactly once; unless discarded or not confirmable it has called just the callback its buffer held, with NULL exactly after the fifth transmission |
| `CoapCallbacks.RunBounds` | contiki-2.6/apps/er-coap-07/er-coap-07-transactions.c:77-199 | the same bounds for every transaction of every undisturbed run, and no call before its end |
| `CoapCallbacks.CreationHolds` | contiki-2.6/apps/er-coap-07/er-coap-07-transactions.c:77-95 | what callback a transaction has is decided when it is created: its own, or the one left in the buffer |
| `CoapCallbacks.StepForeign` | contiki-2.6/apps/er-coap-07/er-coap-07-transactions.c:77-95 | an event gives a transaction the callback of another one exactly if it is a creation without a callback in a buffer where one is left |
| `CoapCallbacks.RunForeign` | contiki-2.6/apps/er-coap-07/er-coap-07-transactions.c:77-95 | the same for whole runs: no transaction holds the callback of another one exactly if there is no such creation |
| `CoapCallbacks.ForeignCalls` | contiki-2.6/apps/er-coap-07/er-coap-07-transactions.c:97-154 | a transaction calls the callback of another one exactly if its buffer held it at the creation and it has ended by a reply or by giving up |
| `CoapCallbacks.CallbacksAreOwn` | contiki-2.6/apps/er-coap-07/er-coap-07-transactions.c:77-199 | in runs without such creations and checks a callback is called only for the transaction that registered it, and at most once |
| `CoapTimeout.GivenUpInTheEnd` | contiki-2.6/apps/er-coap-07/er-coap-07-transactions.c:97-154 | an unanswered transaction stays open until its last expiry and not longer; it has then been sent five times at doubled waits, is freed, and its callback is called with NULL |
| `CoapTimeout.AnsweredAtOnce` | contiki-2.6/apps/er-coap-07/er-coap-07-engine.c:236-248 | an answer frees the first listed transaction with its message id and calls its callback; without one nothing happens |
| `CoapTransactionPool.TransactionPool.NewTransaction` | contiki-2.6/apps/er-coap-07/er-coap-07-transactions.c:77-95 | the first free buffer goes to the end of the list, or -1 |
| `CoapTransactionPool.TransactionPool.SetCallback` | contiki-2.6/apps/er-coap-07/er-coap-07-engine.c:476-480 | the callback of a transaction |
| `CoapTransactionPool.TransactionPool.ClearTransaction` | contiki-2.6/apps/er-coap-07/er-coap-07-transactions.c:156-167 | the buffer is freed and leaves the list |
| `CoapTransactionPool.TransactionPool.RemoveListed` | contiki-2.6/core/lib/list.c:239-263 | removal from the list |
| `CoapTransactionPool.TransactionPool.SendTransaction` | contiki-2.6/apps/er-coap-07/er-coap-07-transactions.c:97-154 | transmission, backoff and giving up |
| `CoapTransactionPool.TransactionPool.GetByMid` | contiki-2.6/apps/er-coap-07/er-coap-07-transactions.c:169-183 | the first listed transaction with a message id |
| `CoapTransactionPool.TransactionPool.HandleReply` | contiki-2.6/apps/er-coap-07/er-coap-07-engine.c:236-248 | the handling of a reply, which keeps the invariant |
| `CoapTransactionPool.TransactionPool.CheckTransactions` | contiki-2.6/apps/er-coap-07/er-coap-07-transactions.c:185-199 | the expiry walk, which keeps the list right and the invariant exactly if it wakes no unsent transaction |
| `JsonTree.StepPrints` | contiki-2.6/apps/json/jsontree.c:130-213 | one step writes the beginning of what remains to be printed and uses up one of the remaining steps |
| `JsonTree.PrinterRefinesRendering` | contiki-2.6/apps/json/jsontree.c:130-213 | the explicit-stack printer stops and has written the recursive rendering of the tree |
| `JsonTree.Printer.WriteString` | contiki-2.6/apps/json/jsontree.c:66-79 | a quoted string |
| `JsonTree.Printer.WriteInt` | contiki-2.6/apps/json/jsontree.c:81-101 | a number, through the ten-character buffer that is filled from its end; of longer numbers the last ten digits |
| `JsonTree.Printer.Next` | contiki-2.6/apps/json/jsontree.c:130-213 | one step of the printer on its stacks |
| `JsonTree.PrintTree` | contiki-2.6/apps/json/jsontree.c:103-213 | printing a tree that fits the stacks until nothing is left gives its rendering |
| `JsonGrammar.RenderingIsGrammar` | contiki-2.6/apps/json/jsontree.c:66-213 | the rendering of a tree is its text by the grammar: brackets around the texts of its parts with commas between them |
| `JsonGrammar.NoLeadingZero` | contiki-2.6/apps/json/jsontree.c:81-101 | no integer begins with a zero but 0 |
| `JsonGrammar.Skipped` | contiki-2.6/apps/json/jsonparse.c:89-98 | blanks and line feeds are passed over, and nothing else |
| `JsonGrammar.NumberScanned` | contiki-2.6/apps/json/jsonparse.c:59-87 | a number goes on as long as there are digits and points |
| `JsonGrammar.Errors` | contiki-2.6/apps/json/jsonparse.c:111-186 | which characters are refused depending on what is open, and with which error; no other token changes the error |
| `JsonGrammar.Accepts` | contiki-2.6/apps/json/jsonparse.c:111-186 | the kinds of the tokens that are accepted and what is open behind them |
| `JsonParse.Parser.PushType` | contiki-2.6/apps/json/jsonparse.c:37-44 | push |
| `JsonParse.Parser.PopType` | contiki-2.6/apps/json/jsonparse.c:46-54 | pop |
| `JsonParse.Parser.SkipSpace` | contiki-2.6/apps/json/jsonparse.c:89-98 | blanks and line feeds |
| `JsonParse.Parser.AtomicString` | contiki-2.6/apps/json/jsonparse.c:59-87 | a string or a name, up to its closing mark |
| `JsonParse.Parser.AtomicNumber` | contiki-2.6/apps/json/jsonparse.c:59-87 | a number |
| `JsonParse.Parser.EndObject` | contiki-2.6/apps/json/jsonparse.c:126-138 | the end of an object, which first ends its last pair |
| `JsonParse.Parser.EndArray` | contiki-2.6/apps/json/jsonparse.c:139-146 | the end of an array |
| `JsonParse.Parser.OnComma` | contiki-2.6/apps/json/jsonparse.c:150-160 | a comma |
| `JsonParse.Parser.NextToken` | contiki-2.6/apps/json/jsonparse.c:111-186 | one token, the text it has and the state after it |
| `JsonRoundTrip.StringScan` | contiki-2.6/apps/json/jsonparse.c:68-74 | the scan of a printed string ends at its closing mark exactly if every backslash in it is followed by a character other than a quotation mark |
| `JsonValues.UnescapeEscape` | contiki-2.6/apps/json/jsontree.c:66-79 | unescaping gives the printed string back |
| `JsonValues.EscapeUnescape` | contiki-2.6/apps/json/jsonparse.c:68-74 | escaping gives a scanned text back: within it every quotation mark comes right after a backslash |
| `JsonValues.NumberOfInteger` | contiki-2.6/apps/json/jsonparse.c:207-224 | converting the text of an integer gives the integer |
| `JsonValues.TokensStandFor` | contiki-2.6/apps/json/jsonparse.c:111-186 | the tokens of a tree, decoded, are its names, strings and integers in order |
| `JsonRoundTrip.Parses` | contiki-2.6/apps/json/jsonparse.c:111-186 | the rest of any readable value inside any tree yields its tokens in order and leaves the stack as it was |
| `JsonLimits.IntIsRead` | contiki-2.6/apps/json/jsonparse.c:177-185 | a printed integer is read as a number exactly if it is not negative |
| `JsonLimits.EndOfPair` | contiki-2.6/apps/json/jsonparse.c:126-160 | after the value of a pair, comma and end are accepted exactly if the value did not end with an empty container |
| `JsonLimits.NotReadBack` | contiki-2.6/apps/json/jsonparse.c:111-186 | a value that is not readable yields an error or tokens that stand for something else, wherever it stands |
| `JsonLimits.RoundTrip` | contiki-2.6/apps/json/jsonparse.c:111-186 | the JSON round trip: what is read of a printed tree, decoded, is the names, strings and integers of the tree in order, without an error, exactly if its root is an object and it is readable |
| `Tunslip.Ip4Sum` | contiki-2.6/tools/tunslip.c:343-362 | the checksum loop returns the one's complement form of seed plus big-endian words, for any length |
| `Checksum.PlusSwaps` | contiki-2.6/tools/tunslip.c:343-362 | swapping the bytes of both arguments swaps the bytes of an end-around-carry sum |
| `Tunslip.CheckIp` | contiki-2.6/tools/tunslip.c:364-413 | the code of the packet check, as the sums modulo 65535 decide it |
| `Checksum.ChangeIsDetected` | contiki-2.6/tools/tunslip.c:364-413 | a change of any one word of the header or segment of an accepted TCP packet, or UDP packet with a checksum, goes unnoticed exactly between the two zeros of the arithmetic |
| `Checksum.StampInNetworkOrder` | contiki-2.6/tools/tunslip.c:643-650 | filling in the identification and adjusting the checksum in host order gives the same packet on either byte order |
| `Checksum.FlagTested` | contiki-2.6/tools/tunslip.c:643-643 | the flag is tested in host order: it is the don't-fragment bit exactly on a big-endian host or if both bytes agree in that bit |
| `Checksum.StampIsAccepted` | contiki-2.6/tools/tunslip.c:637-656 | the update is invisible to verification: an accepted packet stays accepted exactly if its header length is not 8 or the identification is 0 modulo 65535 |
| `Checksum.SealedIsAccepted` | contiki-2.6/tools/tunslip.c:298-328 | every packet of the relay is accepted, for any addresses and payload, and its UDP checksum never reads as absent |
| `TunslipFormat.SumOfWords` | contiki-2.6/tools/tunslip.c:343-362 | the summed words have their high byte first |
| `TunslipFormat.CheckOfHeader` | contiki-2.6/tools/tunslip.c:364-382 | the codes -1 to -4 of the packet check, by the bytes of the header |
| `TunslipFormat.CheckOfSegment` | contiki-2.6/tools/tunslip.c:384-413 | the codes -5 to -7, by protocol and bytes of the segment |
| `TunslipFormat.FillsInByBytes` | contiki-2.6/tools/tunslip.c:643-643 | an identification is filled in exactly if the bytes 4 and 5 are zero and bit 6 of byte 6, or of byte 7 on a little-endian host, is set |
| `TunslipFormat.StampedBytes` | contiki-2.6/tools/tunslip.c:643-650 | filling it in changes the bytes 4, 5, 10 and 11 only, and how |
| `TunslipFormat.PlusIsSum` | contiki-2.6/tools/tunslip.c:343-362 | an addition with end-around carry is the sum, less 65535 if it does not fit 16 bits |
| `TunslipFormat.SealedBytes` | contiki-2.6/tools/tunslip.c:319-328 | the relay changes the bytes 10, 11, 26 and 27 only, and header and segment then sum to zero |
| `Tunslip.Seal` | contiki-2.6/tools/tunslip.c:319-328 | the two checksums as the relay writes them in place, with the special case |
| `Tunslip.AcceptedGoesOut` | contiki-2.6/tools/tunslip.c:637-656 | an accepted packet is sent, with or without a new identification, unless its header length is 8 |
| `Tunslip.RelayGoesOut` | contiki-2.6/tools/tunslip.c:298-330 | a finished relay packet is sent unchanged |
| `Tunslip.SerialWriter.Stamp` | contiki-2.6/tools/tunslip.c:643-650 | the in-place update of identification, counter and checksum |
| `Tunslip.SerialWriter.Send` | contiki-2.6/tools/tunslip.c:590-597 | one byte behind what is pending, or the end of the program |
| `Tunslip.SerialWriter.FlushBuf` | contiki-2.6/tools/tunslip.c:605-625 | what is written and what stays pending is what was pending, in order; the buffer reads as empty exactly if nothing is pending |
| `Tunslip.SerialWriter.SendPacket` | contiki-2.6/tools/tunslip.c:663-679 | a packet is appended as one frame; if the buffer fills up the program ends, with as much of the frame as there was room for |
| `Tunslip.SerialWriter.WriteToSerial` | contiki-2.6/tools/tunslip.c:627-681 | check, update, second check and framing of a packet, or the end of the program in the middle of it |
| `Tunslip.SerialReader.SerialToTun` | contiki-2.6/tools/tunslip.c:454-585 | one call on whatever has arrived: the frames that ended, the unfinished one, and an escape that is put back |
| `Slip.ReceiveResumes` | contiki-2.6/tools/tunslip.c:454-585 | the input can be cut anywhere, even within an escape: a second call goes on where the first stopped |
| `Slip.ChunksDoNotMatter` | contiki-2.6/tools/tunslip.c:454-585 | the frames do not depend on how the line is cut into calls |
| `Slip.FrameRoundTrip` | contiki-2.6/tools/tunslip.c:454-681 | a packet arrives as it was sent exactly if it is not empty and shorter than the receive buffer |
| `Slip.PacketsArrive` | contiki-2.6/tools/tunslip.c:454-681 | packets that fit arrive unchanged and in order, however the line is cut |
| `TunslipFormat.FrameCodes` | contiki-2.6/tools/tunslip.c:663-679 | a frame ends with 192 and holds no other; 192 becomes 219 220 and 219 becomes 219 221 |
| `TunslipFormat.ReceivesEnd` | contiki-2.6/tools/tunslip.c:454-585 | 192 ends a frame that is not empty |
| `TunslipFormat.ReceivesEscape` | contiki-2.6/tools/tunslip.c:454-585 | 219 takes the next byte for another, or is put back at the end of the input |
| `TunslipFormat.ReceivesOther` | contiki-2.6/tools/tunslip.c:454-585 | any other byte is stored, and a buffer of 2000 bytes starts again |

## Left out

Antelope:

- The lexer's characters: the parser works on a token sequence with one token of rewind. Names are not cut to the length of the table entries.
- The unused bytes of an operand's union are 0 in the model; the source leaves them as they were.
- `lvm_derive` declares its global table with one entry fewer than its loops use; the model has the entries the loops use.
- LvmArithmetic.ComputeIsArithmetic: dividing the least number by -1, which C leaves undefined, gives the least number.
- LvmEngine.Lvm.EvalExpr: the build option that converts floating-point operands to integers is off.
- RelationSelect.IndexPlanEqualsScan: the range has to be closed, fit 16 bits and begin at or above the column's first value; for other ranges see `RelationOpenRange`, and for searches below the first value `IndexInline.LocateStops` and `IndexInline.StopsByChance`.
- IndexInline.InlineIndex.BinarySearch: the target is not below the first value; below it the source compares memory that was never written and may not stop, as `IndexInline.StopsByChance` says.
- IndexInline.InlineIndex.RangeSearch: the same, for both ends of the range.
- IndexInline.InlineIndex.GetNext: the same.
- IndexInline.InlineIndex.Drain: the same.
- LvmEngine.Lvm.RegisterVariable: a name is known or the table of seven entries has room; the eighth entry that the source uses before it returns VARIABLE_LIMIT_REACHED lies behind the table.
- LvmEngine.Lvm.SetVariableValue: the same; a name that is not known, with a full table, writes behind it.
- LvmEngine.Lvm.ShiftForOperator: with two or three spare bytes the source passes its own test and writes behind the buffer; the function sets a mark then, and the method is not called.
- SelectionRun.Selection.GenerateSelectionResult: one indexed attribute; the choice among several is `SelectionRun.SelectIndex`.
- SelectionRun.Selection.Run: the same.
- RelationOpenRange.CutRangePlan: both ends of the cut range lie within the column or above it; otherwise the search runs away.
- RelationOpenRange.OpenBelow: the same, and the upper end fits 16 bits.
- RelationOpenRange.OpenAbove: the same, and the lower end fits 16 bits.
- RelationOpenRange.OpenBoth: both ends of the cut range lie within the column or above it.
- Searches of an index over an empty relation.
- RelationSelect.IndexPlanEqualsScan: a column of LONG values is covered as far as its derived bounds fit 16 bits.
- Aggregation, joins, assignment of results to relations, the memory-hash index, the storage of rows and of index files.
- MaxHeapIndex.LookupIsExact: further calls on the same iterator, which give the other values under a key, and ranges of keys are not modelled; `transform_key` is an arbitrary function.
- Loading a stored max-heap index, which never succeeds, as a status is compared with a length.
- MaxHeapStore.HeapIndex.Insert: the node and bucket files are arrays that cannot fail.

Deluge:

- Clocks and random delays: a timer may fire at any moment while it is armed, and the test on recent messages is an input.
- DelugeNetwork.ContentIntegrity: all nodes begin complete with equal page counts, one source has the newer version, and messages are not altered; `DelugeLimits.DamagedPacket` shows what a damaged packet does, and `DelugeVersions.UpdatesDoNotMix` covers other versions.
- Messages of another length than the nodes give them.
- Profiles that change the number of pages, packets of pages beyond the object, object identifiers, and unicast addresses (a message may arrive anywhere).
- DelugeObject.Deluge.OnRxTimer: what a node reads behind its page table when nothing is left to receive is an arbitrary value.

CoAP:

- The option fields of the packet structure are a map by option number, and the straight-line blocks of the serialiser one loop in the same order.
- CoapWriter.SerializeMessage: Proxy-Uri is not serialised, and the buffer has to hold the message.
- CoapWriter.SerializeOptions: Proxy-Uri is not serialised.
- The setters and getters, the block offsets computed from number and size, the bit set of unknown options, and the header version other than its test.
- CoapDiscovery.Handle: filtered listings and the arithmetic of offsets beyond the integer width.
- CoapTransactions.RunIsListed: addresses, observers and time; what a callback does is a later event. An owner whose unsent transaction an answer or a check has freed, and who then goes on with the freed buffer, is not modelled. The labels `id`, `created` and `held` are not in the source.

JSON:

- Callbacks, paths and `jsontree_find_next`, copying and comparing values, and the width of integers.
- JsonTree.PrintTree: integers have at most ten digits; `JsonTree.Printer.WriteInt` says what becomes of longer ones.
- JsonLimits.RoundTrip: trees need no more entries than the parser's stack has, and strings hold no zero, as in C.
- JsonParse.Parser.PushType: a push onto a full stack, which the source carries out behind the array, is excluded; in the function it sets a mark.
- JsonParse.Parser.NextToken: a push onto a full stack, which the source carries out, is excluded; in the function it sets a mark.

tunslip:

- Devices, sockets, the DHCP options that are copied, and what is done with a received frame after it is complete.
- Tunslip.CheckIp: the buffer holds the header and, once the length field is right, the segment.
- Checksum.StampIsAccepted: the packet has at least 12 bytes, so that identification and checksum lie in it.
- Tunslip.SerialReader.SerialToTun: what is done with a frame once it is complete.
