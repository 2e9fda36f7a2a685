# TXR algorithms, modelled and proved in Dafny

This project models the algorithmic core of TXR Lisp and proves what it does, for all
inputs. `dafny verify dfyconfig.toml` checks everything. It covers five parts:

- **Combinatorial generators** (`combi.c`): the state machines behind `perm`, `rperm`,
  `comb` and `rcomb`, which advance a vector of counters or list tails in place. Each step
  is proved to be the successor in a ranking, each ranking to be order-preserving and onto,
  and so each whole run to be the strictly increasing list of every object, once. The lazy
  iterators (`permi` and the others) are proved for any sequence of gets, peeks and clones,
  of clones too, with what they do after their end.
- **Source transformations** (`eval.c`): the quasiquote compiler and its optimizer against
  an evaluator and direct instantiation; the case macros' cond chain, hash dispatch and
  jump table against each other; the product operators' odometer against nested loops.
- **C struct layout and bitfields** (`ffi.c`): the layout loop against a specification in
  bits, masked put and get on words of bits, and the round trip of whole structs.
- **Integer algorithms** (`arith.c`): sums and products of fixnums and bignums, binary gcd,
  the division flavours, square root by bits, digits and polynomials, binomials by rising products, bit sets and the folding
  population count, width, truncation and sign extension.
- **Byte buffers** (`buf.c`): growth and shrinking, splice, replace and delete by index
  list, and integers as two's complement bytes.

Code that changes state is modelled by classes and arrays with loops, proved against
functions on values; pure code is modelled by functions. Integers are unbounded; where the
machine word matters (unsigned wrap-around, masks, tagged pointers, fixnum and bignum
branches) it is written out for 64 bits. Errors are `Result` or `Option` values.

The constants are those of a 64-bit build without NaN boxing, with 62-bit fixnums and
bignum digits of 64 bits (`lib.h:84-91`, `mpi/mpi-types.h:16-25`). A 64-bit configuration
uses NaN boxing unless told otherwise (`configure:1590-1600`); its fixnums have 50 bits
(`lib.h:66-82`) and its unsigned reading of one keeps as many (`lib.h:653-660`), so that it
is not part of this model.

Where the code does not do what its documentation or its evident intent says, the model
follows the code, and a lemma says exactly when the two agree:

- The quasiquote compiler miscompiles a template list that ends in an object with parts (a
  range, a tree node, or a vector, hash, struct or tree literal) instead of nil, and, among
  templates without nested quasiquotes and meta forms, only that
  (`Quasi.QuasiquoteMeaning`, `Quasi.DottedObjectExamples`).
- The hash and table forms of a case differ from the cond chain for a key in several
  clauses (the documentation allows any of them) and for a lone `(t)` clause, where the chain
  gives t and the others nil (`CaseCompile.AgreesExactly`). The table also loses keys,
  because the loop that fills it compares machine words: it comes out empty for fixnum keys
  of both signs, and too short, in practice empty, for keys from a fixnum to a bignum. With
  -1, the greatest fixnum or the last character as the greatest key the loop does not end.
  Where a bignum is the least key, addresses decide the length, and around the least fixnum
  the range comes out too wide for a table (`CaseCompile.CaseMeaning`,
  `CaseCompile.FixnumTable`, `CaseCompile.BignumAbove`, `CaseCompile.BignumBelow` and four
  examples).
- A negative fixnum that multiplies a bignum on its right loses its sign, and one from
  which a bignum is taken is taken as positive (`Arith.MulExact`, `Arith.MinusExact`,
  `Arith.LostSigns`). So
  `poly` is wrong exactly for a bignum argument and a leading part that is a negative
  fixnum (`Digits.HornerExact`), the list form of `rpoly` exactly when the terms whose sign
  is lost do not add up to nothing (`Digits.RunningExact`), and `round` is wrong, or breaks
  a tie toward zero, where its remainder goes through those branches
  (`Division.RoundLaw`, `Division.FixnumRound`, `Division.RoundExamples`).
- `mod` ignores the sign of a bignum whose divisor is a fixnum of the other sign
  (`Division.FloorModLaw`, `Division.ModExample`), and `trunc` gives 0 for the least fixnum
  over its negative (`Division.TruncLaw`).
- `gcd` and `divides` take a negative fixnum as the unsigned word it is stored in, and gcd
  of zero and a negative number is negative (`Gcd.NegativeGcd`, `Gcd.OneNegative`,
  `Gcd.BothNegative`, `Gcd.ZeroOperand`, `Gcd.NegativeDividend`). `lcm` is right exactly
  when gcd is (`Gcd.Lcm`).
- A bitfield's shift is kept in its type, which a member declared with the type of another
  struct's member shares: placing one moves the other (`StructIO.HeldAsPlaced`,
  `StructIO.ReturnsExactly`, `StructIO.SharedTypeExample`).
- Replacing by index list stops its writes at an index beyond the buffer, as documented, but
  goes on to delete at the indices after it (`Buf.StopsExactly`, `Buf.GoesOnExample`). That
  takes a list that is not increasing, for which the documentation leaves deletions
  unspecified; on increasing lists there is no deviation (`Buf.OrderedReplaced`). On others
  the code can move bytes to below the buffer (`Buf.Buffer.ReplaceIndices`,
  `Buf.BelowExample`).
- `sub` never returns the buffer itself (`Buf.Buffer.Sub`).
- `n-choose-k` gives 1 for (0, 1), and `n-perm-k` gives n! for k greater than n
  (`Counting.NChooseK`, `Counting.NPermK`).
- A `perm` generator asked again after its end goes once more over the selections that start
  with the last item, but for the first of them; there is another only if k is above 1 and
  there are more than two items (`Perm.EndCounterIsLast`, `Perm.AfterEndIs`,
  `SeqIter.StartsOver`).

The files follow the source: `Lex`, `MixedRadix`, `Selection`, `Binomial`, `Perm`, `Rperm`,
`Comb`, `Rcomb`, `SeqIter` and `Counting` for the generators and their counts; `Prod`,
`Forms`, `Optimize`, `Quasi` and `CaseCompile` for the evaluator; `Bits`, `BitField`,
`Layout` and `StructIO` for structs; `Arith`, `Gcd`, `Division`, `Digits` and `LogCount` for
integers; `Buf` and `BufInt` for buffers; `Wrappers`, `Nonlinear` and `Fixnum` are shared.

## Model

| member | source | states |
|---|---|---|
| Perm.PermIndex | combi.c:76-89 | finds the unused slot that has exactly m unused slots before it |
| Perm.DecodeThenEncode | combi.c:91-109 | decoding counter digits to slots yields distinct unused positions, and those positions lead back to the counter |
| Perm.EncodeThenDecode | combi.c:91-109 | every tuple of distinct unused positions is decoded from a valid counter, so decoding is a bijection |
| Perm.EncodeKeepsOrder | combi.c:91-109 | lexicographic order of position tuples is the order of their counters |
| Perm.State.constructor | combi.c:111-133 | the initial counter stands one step before the first |
| Perm.State.WhileFun | combi.c:51-74 | one step adds one to the counter's value in falling radix; it reports the end exactly from the last value, and leaves the leading digit at its maximum and the rest zero |
| Perm.State.GenFun | combi.c:91-109 | yields the items at the positions that the counter decodes to |
| Perm.PermutationsEnumerate | combi.c:51-133 | counting through all counters yields every tuple of k distinct positions exactly once, in strictly increasing lexicographic order |
| Perm.Run | combi.c:175-180 | the generator run from its initial state to its first nil produces exactly that list of selections |
| Perm.PermList | combi.c:182-198 | perm on a list: an error for negative k, and otherwise one result for each tuple of k distinct positions, in lexicographic order, holding the items at them; nothing for k beyond the length |
| Perm.EndCounterIsLast | combi.c:60-71 | the counter left behind at the end counts as ended if and only if k is 1 or there are two items |
| Perm.AskAfterEnd | combi.c:51-74 | asking again after the end starts over exactly when k is above 1 and there are more than two items |
| Perm.AfterEndIs | combi.c:51-74 | what comes after the end is what starts with the last item, without the first of those; nothing if and only if k is 1 or there are two items |
| Lex.RankedRunEnumerates | combi.c:51-109 | a run whose i-th item has rank i, for an order-preserving rank, lists every valid tuple once, in order |
| Lex.EnumerationUnique | combi.c:51-109 | two ordered complete lists of the same tuples are the same list |
| MixedRadix.AllEnumerates | combi.c:385-406 | counting in mixed radix enumerates all counters within their bounds |
| Rperm.State.WhileFun | combi.c:379-383 | the run goes on exactly while the odometer is below its total |
| Rperm.State.GenFun | combi.c:385-406 | yields the heads of the tails as they were, and adds one to the odometer |
| Rperm.State.Step | combi.c:390-403 | stepping tails from the right, with wrap-around to the whole list, is adding one |
| Rperm.TuplesEnumerate | combi.c:368-406 | the odometer passes through all n^k tuples, in order |
| Rperm.RpermList | combi.c:408-413 | rperm on a list: an error for negative k, otherwise one result for each of the n^k tuples of positions, in lexicographic order, holding the items at them |
| Comb.State.constructor | combi.c:579-595 | the first k tails are the subset of rank zero |
| Comb.State.Step | combi.c:606-634 | the scan from the right with its cascading resets yields the subset whose rank is one higher, and clears the first tail only after the last subset |
| Comb.State.GenFun | combi.c:636-641 | yields the heads of the tails and steps |
| Comb.Successor | combi.c:606-634 | raising entry i and resetting the maximal entries after it raises the lexicographic rank by exactly one |
| Comb.CombinationsEnumerate | combi.c:597-634 | all k-subsets are enumerated exactly once, C(n, k) of them, in increasing order |
| Comb.CombList | combi.c:643-649 | comb on a list: an error for negative k, otherwise one result for each increasing tuple of k positions, in lexicographic order, holding the items at them |
| Rcomb.State.Step | combi.c:867-892 | yields the nondecreasing tuple whose rank is one higher; the early write of a tail is always overwritten |
| Rcomb.State.GenFun | combi.c:894-899 | yields the heads of the cells, last cell first, and steps |
| Rcomb.Successor | combi.c:867-892 | raising entry i and dropping the maximal entries after it to the same value raises the rank by exactly one |
| Rcomb.MultisetsEnumerate | combi.c:862-892 | all k-multisets are enumerated exactly once, in increasing order |
| Rcomb.RcombList | combi.c:901-906 | rcomb on a list: an error for negative k, otherwise one result for each nondecreasing tuple of k positions, in lexicographic order, holding the items at them |
| SeqIter.Source.Next | combi.c:270-286 | asking a generator yields the first of what is still to come and leaves the rest; at the end it yields nothing, and what is to come then is exactly known: nothing, except for perm |
| SeqIter.Iter.Get | combi.c:270-286 | hands out the first remaining item and leaves the rest; at the end nothing, and what comes after the end remains |
| SeqIter.Iter.Peek | combi.c:288-303 | shows the first remaining item and changes nothing of what remains; at the end it does what get does |
| SeqIter.Iter.Clone | combi.c:311-320 | a clone has the same items to come, and its own state |
| SeqIter.Permi | combi.c:347-366 | permi iterates over exactly the permutations that perm lists; lists for k of zero or beyond the length, errors for negative k and for no items with k left out |
| SeqIter.Rpermi | combi.c:552-575 | rpermi gives exactly the tuples that rperm lists; an error for negative k |
| SeqIter.Combi | combi.c:834-860 | combi gives exactly the subsets that comb lists; an error for negative k |
| SeqIter.Rcombi | combi.c:1053-1081 | rcombi gives the multisets that rcomb lists, but nothing for k above the length, where rcomb lists some unless there are no items; an error for negative k |
| SeqIter.Calls | combi.c:270-320 | after any sequence of gets, peeks and clones, of clones too, what each iterator has answered and has to come is that of a list of its own |
| SeqIter.Independent | combi.c:311-320 | each iterator hears and keeps what it would if it were alone, whatever is done to the others, and a clone from the moment it is made |
| SeqIter.AnsweredInOrder | combi.c:270-303 | a call answers the item whose number is that of the gets before it, then nothing unless more comes after the end |
| SeqIter.StartsOver | combi.c:270-303 | one get or peek at the end answers nothing, and the answers after it go over what comes after the end |
| Counting.RisingProduct | arith.c:4328-4351 | the loop computes the product of the range, from 1 if the range starts lower |
| Counting.ChooseTimesFactorial | arith.c:4353-4358 | the Pascal binomial times k! is the falling product, so the division is exact |
| Counting.FormulaIsChoose | arith.c:4353-4358 | the quotient is the binomial for all n and k except (0, 1), where it is 1 |
| Counting.NChooseK | arith.c:4353-4358 | n_choose_k is the binomial if and only if the arguments are not (0, 1); 1 or 0 for negative ones |
| Counting.NPermK | arith.c:4360-4363 | n_perm_k is the falling product for k up to n, n! above, and 1 for negative arguments |
| Counting.RunLengths | combi.c:597-641 | lengths of the complete comb, perm and rcomb runs in closed form |
| Counting.CountRuns | arith.c:4353-4363 | the formulas give the lengths of the complete comb and perm runs |
| Binomial.MultichooseIsChoose | combi.c:862-892 | there are C(n + k - 1, k) multisets |
| Prod.StepIterators | eval.c:6020-6029 | stepping the rightmost iterator that has more, and rewinding those after it, counts up by one; it stops exactly after the last tuple |
| Prod.NestedLoopsAt | eval.c:6006-6030 | the v-th tuple of nested loops is the one that counter value v selects |
| Prod.NestedLoopsLength | eval.c:6006-6030 | there are as many tuples as the product of the lengths |
| Prod.NestedCovers | eval.c:6006-6030 | nested loops go through every tuple of positions exactly once, in lexicographic order, and take item i from list i |
| Prod.EmptyListNoTuples | eval.c:6002-6004 | one empty list means no tuples |
| Prod.ProdCommon | eval.c:5988-6033 | the function is called once on each tuple of one item from every list, item i being that of list i at the tuple's position i, in lexicographic order of positions, with its results collected in that order; not at all for no lists |
| Forms.EvalCounts | eval.c:3816-3915 | evaluating a form evaluates exactly as many forms from outside the quasiquote vocabulary as it contains in evaluated positions |
| Forms.EvalBasics | eval.c:3744-3784 | the value of each operator in compiled code on two quoted arguments; append refuses an improper list in front |
| Optimize.AppendToList | eval.c:3752-3756 | an append of list forms is one list form |
| Optimize.AppendToListStar | eval.c:3757-3762 | an append of list forms and one more argument is a list* form |
| Optimize.OptimizeListKeeps | eval.c:3766-3769 | a list of quoted items is a quoted list |
| Optimize.OptimizeFormKeeps | eval.c:3744-3784 | the append, list and rcons rewrites keep the value and the evaluations |
| Optimize.XformKeeps | eval.c:3730-3741 | rewriting a one-item list of a quote keeps the value |
| Optimize.Folded | eval.c:3773-3779 | an rcons of two quotes is folded into the range and a list of a quote into a quoted list |
| Optimize.OptimizeKeeps | eval.c:3801-3804 | the optimizer changes neither the value of a form that has one, nor what is evaluated, nor in which order |
| Optimize.OptimizeCounts | eval.c:3801-3804 | the optimizer neither drops nor duplicates an evaluation, with no condition |
| Quasi.ExpandFails | eval.c:3834-3840 | the compiler raises its error exactly for a splice at the top, in dotted position or as a part of an object, and such a template has no instance |
| Quasi.ExpandNodes | eval.c:3820-3830 | a range is compiled to rcons of the expansions of its ends, a tree node to tnode of those of its key, left and right |
| Quasi.ExpandLiterals | eval.c:3848-3863 | a hash, struct or tree literal is compiled to its own maker of the expansions of the second item and of what follows, a vector literal to vec-list of that of the second item |
| Quasi.ExpandBare | eval.c:3848-3863 | a literal with nothing after its symbol gets nil for its arguments |
| Quasi.InstantiateLiterals | eval.c:3848-3863 | the instance of a literal is its maker's object of the instances of those parts |
| Quasi.ConstantItself | eval.c:3816-3921 | a template without marks and literals is its own instance |
| Quasi.InstantiateItems | eval.c:3885-3901 | an unquoted form's value is one item of the instance, and a spliced list's items take its place |
| Quasi.QuotedTemplate | eval.c:3744-3921 | a list template with nothing to evaluate is compiled to a single quote |
| Quasi.DottedUnquote | eval.c:3744-3921 | a quoted item in front of an unquoted tail is compiled to one list* form, or to one list form if the tail is one |
| Quasi.ExpandMeans | eval.c:3816-3921 | evaluating the compiled code of a template without dotted objects gives its direct instance and the same evaluations |
| Quasi.QuasiquoteMeaning | eval.c:3816-3921 | the compiled code means the instance if and only if no list of the template ends in a range, tree node or literal |
| Quasi.DottedObjectExamples | eval.c:3896-3911 | two-item templates that end in a range and in a vector literal are compiled wrongly |
| Quasi.ExpandCounts | eval.c:3896-3911 | compiled code makes one evaluation too many for every dotted object |
| Quasi.EvaluatedOnceInOrder | eval.c:3816-3921 | the compiled code does what evaluating each unquoted or spliced form once, left to right, does |
| Quasi.OpaqueSeq | eval.c:3816-3921 | for variables and calls these evaluations are the forms themselves, in order |
| CaseCompile.MakeTable | eval.c:4407-4412 | the table has the entry of the hash for every number from the least key on, and ends exactly after those whose machine words, or addresses for bignums, are no greater than the greatest key's; it fails exactly if that is never, within memory and the characters |
| CaseCompile.FixnumStop | eval.c:4407-4412 | between fixnums the loop ends after the last number, but at once for ends of different sign and never with -1, the greatest fixnum or the last character at the end |
| CaseCompile.BignumStop | eval.c:4407-4412 | from a fixnum to a bignum it ends before the fixnums do, and at once if and only if the first number is negative or its word above the address |
| CaseCompile.HashMinMax | eval.c:4262-4273 | the least and the greatest key, whatever order the hash is visited in |
| CaseCompile.HashOfAt | eval.c:4342-4353 | a key is filed under the last clause that has it |
| CaseCompile.Expand | eval.c:4275-4459 | t as a key is an error except as the final clause; otherwise the form is a table, a hash dispatch or a cond chain by the number, range and kind of the keys, for bignums at the ends too |
| CaseCompile.Choose | eval.c:4389-4458 | which of the three forms is chosen, with the range as the arithmetic library subtracts it, and its exact table or hash; it fails exactly if the table loop does not end |
| CaseCompile.FormsByKeys | eval.c:4399-4442 | the counts of keys that lead to each form: up to five the chain, six for a table if they are integers or characters and dense, eleven for a hash |
| CaseCompile.EqKeysAre | eval.c:4257-4260 | keys that compare with eq are fixnums, characters and symbols |
| CaseCompile.ChainIs | eval.c:4374-4381 | the cond chain runs the first clause with a matching key, else the fallback |
| CaseCompile.WrittenChain | eval.c:4275-4459 | in terms of the written clauses, the cond chain runs the first with a matching key, else a final t clause, which returns t if it has no forms, else nothing |
| CaseCompile.WrittenDispatch | eval.c:4275-4459 | in terms of the written clauses, a dispatch runs the last with a matching key, else the forms of a final t clause, else nothing |
| CaseCompile.ExpansionDispatches | eval.c:4389-4459 | every expansion is the cond chain, or dispatches so, but for the jumps out of a table |
| CaseCompile.CanonMatches | eval.c:4304-4316 | hash lookup agrees with eql and equal, and with eq for fixnums, characters and symbols |
| CaseCompile.EqualityExamples | eval.c:4300-4316 | what eq, eql and equal tell apart |
| CaseCompile.HashDispatches | eval.c:4441-4455 | the hash dispatch runs the last clause with a matching key, else the fallback |
| CaseCompile.TableDispatches | eval.c:4405-4438 | for every test value of any type, the table jumps out if the value is in range beyond the table's end, and otherwise runs the last clause with a key that matches what the subtraction takes the value for, else the fallback |
| CaseCompile.AgreesExactly | eval.c:4275-4459 | dispatch and cond chain agree on a value if and only if its first and last matching clauses have the same forms or, with no match, the fallback is not a lone (t) |
| CaseCompile.CaseMeaning | eval.c:4275-4459 | with distinct keys and no lone (t), whichever form is chosen does what the cond chain does for exactly the values that do not jump out of a table and that the chain treats like what the subtraction takes them for |
| CaseCompile.FixnumTable | eval.c:4407-4412 | with fixnums or characters at the ends nothing is taken for anything else, values jump out if and only if the ends differ in sign, and the expansion fails exactly where the loop does not end |
| CaseCompile.MixedSigns | eval.c:4407-4412 | with fixnum keys of both signs the table is empty and exactly the integers within their range jump out of it |
| CaseCompile.BignumAbove | eval.c:4396-4412 | from a fixnum to a bignum the table is always too short, exactly the integers in range beyond it jump out, and it is empty if and only if the least key is negative or its word above the greatest key's address |
| CaseCompile.BignumEmpty | eval.c:4396-4412 | with fewer than 2^60 keys that table is always empty |
| CaseCompile.BignumBelow | eval.c:4396-4402 | from a negative bignum to a greater kind of key there is no table with fewer than 2^60 keys, however close they are |
| CaseCompile.TableSize | eval.c:4399-4402 | a full table has room for every key and fewer entries than four thirds of the keys plus one |
| CaseCompile.NegativeExample | eval.c:4407-4412 | keys -1 to 4 lose their clause |
| CaseCompile.BignumExample | eval.c:4396-4412 | six keys from the greatest fixnum less 2 on are all lost in an empty table, where the cond chain finds them |
| CaseCompile.BelowExample | eval.c:4396-4402 | six keys around the least fixnum get the cond chain |
| CaseCompile.DuplicateExample | eval.c:4342-4353 | a duplicate key and a lone (t) give different results in table and chain |
| BitField.MaskMasks | ffi.c:3866-3879 | the layout's mask has ones exactly in the field |
| BitField.EncodeOutcome | ffi.c:1392-1411 | a put accepts exactly the numbers that fit the field, except that the machine's own minimum negates out of range |
| BitField.MachineMinimumIs | ffi.c:1429-1443 | the minimum is that of 32 bits in types up to 4 bytes and of 64 in others |
| BitField.ReadSignedMeans | ffi.c:1429-1443 | complement, shift, add one and negate read two's complement |
| BitField.DecodeMeans | ffi.c:1429-1486 | a get returns the number that the field's own bits stand for |
| BitField.PutBits | ffi.c:1572-1596 | a put changes exactly the field's bits in memory, or nothing when it raises |
| BitField.GetBits | ffi.c:1581-1604 | a get depends on the field's bits alone |
| BitField.PutInt | ffi.c:655-660 | an integer put stores exactly the numbers of its type, in exactly its bytes |
| BitField.GetInt | ffi.c:662-670 | an integer get returns the one number of its type that a put would store as these bytes |
| Layout.ClearLowBits | ffi.c:3827-3834 | masking with the complement of align - 1 rounds down to a multiple |
| Layout.PlaceIsLeast | ffi.c:3822-3857 | every member goes to the first bit position from the cursor on that is in a storage unit and, for plain and aligned members and after a change of byte order, a multiple of its alignment |
| Layout.ZeroWidthCloses | ffi.c:3838-3848 | a zero-width bitfield moves the cursor to the first multiple of its type's size, and of its alignment where that counts |
| Layout.PlacedNext | ffi.c:3822-3905 | each member goes to the first such position after the end of the one before it, from bit 0 on |
| Layout.OrderBefore | ffi.c:3822-3904 | the byte order compared with is that of the last member of nonzero width, and little-endian at first |
| Layout.BigEndianShift | ffi.c:3857-3864 | a big-endian shift selects, in the swapped machine word, the field's bits in the order in which they are allocated |
| Layout.LayoutSound | ffi.c:3804-3905 | members are aligned, inside their storage unit, in order, without overlap and before the cursor |
| Layout.MostAlignSound | ffi.c:3885-3897 | the struct's alignment is a power of two that every named or plain member's divides |
| Layout.MostAlignIs | ffi.c:3885-3897 | the struct's alignment is the greatest of those of plain members and named bitfields of nonzero width and of those asked for such bitfields, and 1 if there are none |
| Layout.SizeCovers | ffi.c:3907-3925 | the size is the least multiple of the alignment that covers every member |
| Layout.PlaceMember | ffi.c:3822-3897 | the loop body's byte and bit offsets compute the specified place, shift and next cursor, and neither of its two internal checks can fail |
| Layout.MakeStruct | ffi.c:3804-3925 | the whole loop computes the specified layout, size and alignment, for any members, and the shift that each member type ends up with |
| Layout.LayoutExample | ffi.c:3804-3925 | the layout of a char, three bits of an unsigned int and a short |
| Layout.CharExample | ffi.c:3804-3925 | a struct of one char has size and alignment 1 |
| StructIO.LastShift | ffi.c:3857-3864 | a type holds the shift at which the last of its bitfields was placed |
| StructIO.HeldAsPlaced | ffi.c:3857-3864 | every member keeps the shift it was placed at if and only if bitfields of one type were all placed at the same one |
| StructIO.LayoutUsable | ffi.c:3804-3925 | whatever the shifts in the types have become, every member of every struct can be put and got in memory that reaches one storage unit past the struct |
| StructIO.LayoutApart | ffi.c:3804-3925 | members that keep their shifts have no bit in common and lie inside the struct |
| StructIO.StorableIs | ffi.c:1392-1411 | which numbers a member of each kind holds |
| StructIO.PutLeavesOthers | ffi.c:2764-2772 | putting one member, successfully or not, does not change what any member that has no bit in common with it reads |
| StructIO.PutStruct | ffi.c:2758-2773 | slots are stored in member order, one over the other, up to the first that is missing or does not fit |
| StructIO.PutAllOutside | ffi.c:2758-2773 | no bit outside the named members changes |
| StructIO.GetStruct | ffi.c:2797-2822 | the object holds, for every named slot, what its member's bits stand for |
| StructIO.ReadWritten | ffi.c:2797-2822 | what a put stored, a get finds, slot by slot |
| StructIO.NamedSlotsAre | ffi.c:2797-2822 | the object that comes back has exactly the members' names as slots, each with its value |
| StructIO.ReturnsExactly | ffi.c:2758-2822 | a put and a get return every object in every memory if and only if no two named members have a bit in common |
| StructIO.RoundTrip | ffi.c:2758-2822 | for every list of members whose bitfields of one type have one shift, a put and then a get give back every named slot, if and only if each has a value that fits, and memory outside the struct is unchanged; for any other list this takes members that end up apart |
| StructIO.SharedTypeLayout | ffi.c:4705-4725 | two members with the type of another struct's bitfield end up at the same shift, and so does that struct's own |
| StructIO.SharedTypeExample | ffi.c:2758-2822 | then the slots 1 and 2 come back as 2 and 2 |
| StructIO.GetThenPut | ffi.c:2758-2822 | getting an object and putting it back changes no bit of memory, even where members overlap |
| Gcd.GcdIsGcd | arith.c:2682-2731 | Euclid's definition is a common divisor that every common divisor divides |
| Gcd.BinaryGcd | arith.c:2706-2731 | the loop terminates on all positive words and returns the greatest common divisor; the final shift fits the word |
| Gcd.FixnumGcd | arith.c:2699-2731 | gcd of fixnums: a greatest common divisor for positive operands, and the specified result for zero and negative ones |
| Gcd.NegativeGcd | arith.c:2704-2705 | with a negative operand gcd is right if and only if no odd number above 1 divides both magnitudes and none divides both words |
| Gcd.OneNegative | arith.c:2704-2705 | with b positive it is right for every negative a if and only if b divides 2^64, and otherwise wrong for -b |
| Gcd.BothNegative | arith.c:2704-2705 | with two negative operands it is wrong for every number and itself |
| Gcd.ZeroOperand | arith.c:2699-2703 | with a zero operand it is right if and only if the other is not negative |
| Gcd.NegativeGcdExamples | arith.c:2699-2705 | -4 and 6 give 6, -12 and -9 give 1, 0 and -4 give -4 |
| Gcd.Lcm | arith.c:2766-2775 | for all fixnums the least positive common multiple if and only if gcd is right; for positive ones, lcm times gcd is the product |
| Gcd.DividesP | arith.c:2777-2797 | divides agrees with a zero remainder for every n of at least zero, and what it says for negative n |
| Gcd.NegativeDividend | arith.c:2777-2797 | for negative n it is right for every n exactly for the divisors of 2^64, of either sign |
| Arith.PlusExact | arith.c:565-693 | addition of fixnums and bignums is exact on all branches |
| Arith.MinusExact | arith.c:732-848 | subtraction is exact if and only if no bignum is taken from a negative fixnum |
| Arith.MulExact | arith.c:977-1098 | multiplication is exact if and only if no negative fixnum is on the left of a bignum other than zero, and has the wrong sign otherwise |
| Arith.LostSigns | arith.c:1024-1028 | -1 times 2^61 comes out as 2^61, and -1 less 2^61 as 1 - 2^61 |
| Division.FloorLaw | arith.c:1449-1560 | every branch of floor, on fixnums and bignums, gives the floor |
| Division.TruncLaw | arith.c:1158-1215 | trunc leaves a remainder smaller than the divisor with the dividend's sign, if and only if the operands are not the least fixnum and its negative |
| Division.FloorModLaw | arith.c:1292-1476 | floor times divisor plus mod is the dividend unless a bignum is taken modulo a fixnum of the other sign and leaves neither nothing nor half; mod is from zero up to the divisor on the divisor's side |
| Division.ModExample | mpi/mpi.c:1356-1383 | -2^62 modulo 3 comes out as 1 instead of 2 |
| Division.ZeroDivisor | arith.c:1158-1703 | the five division functions raise an error if and only if the divisor is zero |
| Division.ModIs | arith.c:1292-1439 | the value of mod in every case: the remainder of floor, or that of the magnitudes where the sign is ignored |
| Division.CeilingLaw | arith.c:1620-1629 | ceil is the least integer that is at least the quotient |
| Division.RoundLaw | arith.c:1660-1703 | round gives a nearest integer if and only if no sign lost in its remainder sends it the wrong way, and a tie goes away from zero under an exact condition: not where the difference loses its sign, nor with a negative quotient of bignums |
| Division.RoundPicks | arith.c:1660-1703 | round gives the floor or one more in every case, also where a sign is lost |
| Division.FixnumRound | arith.c:1660-1703 | on fixnums a sign is lost if and only if the quotient is negative and the divisor is the least fixnum, or the floor times the divisor leaves the fixnums |
| Division.RoundExamples | arith.c:1660-1703 | 1 over the least fixnum gives -1, -2^61 over 3 an integer that is not nearest, and 2^60 over -2^61 gives -1 |
| Division.OrSetsBit | arith.c:2588-2592 | setting a clear bit with or is adding it |
| Division.IsqrtFixnum | arith.c:2583-2595 | the root squared is at most a and the next square is above it; no guess and no square overflows |
| Digits.Poly | arith.c:4565-4602 | the loop is Horner's rule in the library's addition and multiplication |
| Digits.HornerExact | arith.c:4565-4641 | it computes the polynomial if and only if the argument is not a bignum or no leading part, short of the whole, is a negative fixnum |
| Digits.RpolyVector | arith.c:4631-4641 | rpoly on a vector is Horner's rule on the reversed coefficients |
| Digits.RpolyList | arith.c:4618-4630 | rpoly on a list is the sum of coefficients times running powers, in the library's addition and multiplication |
| Digits.PowersExact | arith.c:4618-4630 | the running powers are exact for every argument |
| Digits.RunningExact | arith.c:4618-4630 | rpoly on a list computes the reversed polynomial if and only if the terms that lose their sign add up to zero |
| Digits.NothingLost | arith.c:4618-4630 | no term does if the argument is not negative, or a bignum, or all coefficients are fixnums; a single one always shows |
| Digits.PathsAgree | arith.c:4604-4641 | for fixnum arguments the vector path is right and for bignums the list path; the two agree if and only if no terms are lost in the one case and no leading part is a negative fixnum in the other |
| Digits.PolyExamples | arith.c:4565-4641 | poly of -x at 2^62 and list rpoly of 2^62 x at -1 give 2^62 |
| Digits.DigCommon | arith.c:4516-4553 | digits end, lie in the base's range, start with a nonzero one for positive n, and have value n; with the power flag, each is multiplied by its own power; errors for negative n or small bases |
| Digits.Digpow | arith.c:4555-4558 | the digits times their powers add up to n |
| Digits.WeightedSum | arith.c:4555-4563 | the sum of the weighted digits is the value of the digits |
| Digits.PolyOfDigits | arith.c:4560-4602 | poly undoes digits |
| LogCount.BitSet | arith.c:4129-4149 | strictly increasing positions of exactly the bits of n that are one, or zero when n is negative, with powers of two that add up to n or its complement |
| LogCount.Maskv | arith.c:4115-4127 | a one at exactly the given positions |
| LogCount.MaskOfBitSet | arith.c:4115-4149 | maskv undoes bitset on nonnegative numbers |
| LogCount.StageFields | arith.c:4215-4220 | one folding line adds neighbouring fields, keeps the total and overflows no field |
| LogCount.LogCount | arith.c:4203-4232 | the six folding lines count the one bits |
| LogCount.LogCountIsBitSetLength | arith.c:4203-4232 | logcount is the length of bitset's list |
| Buf.Buffer.Realloc | buf.c:212-215 | the leading bytes survive a reallocation |
| Buf.Buffer.Shrink | buf.c:161-173 | slack is given back, contents stay, and the allocation is never reduced to nothing |
| Buf.Buffer.SetLength | buf.c:187-221 | old bytes stay, new ones are the filler; the exact new allocated size; errors change nothing |
| Buf.Grown | buf.c:203-211 | the allocation never shrinks and grows by a quarter, to the new length or to the maximum |
| Buf.PositionsAre | buf.c:268-284 | where left out, t, negative and too large positions are |
| Buf.SameRange | buf.c:268-284 | a position counted from the end is the one counted from the start, but for a range that ends at zero |
| Buf.RangeExamples | buf.c:268-284 | a negative start and no end, or an end of zero, are the last bytes; nothing given is all; from t is an insertion at the end |
| Buf.Buffer.MakeRoom | buf.c:366-392 | the bytes before and after the replaced range survive in place, even for a range given backwards |
| Buf.Buffer.ReplaceRange | buf.c:352-412 | replace yields the bytes before, the items and the bytes after, for any clamped range; what a fixed buffer is left with when the length would change |
| Buf.Buffer.ReplaceIndices | buf.c:305-351 | for every index list: the leading indices in range receive items in turn, and the later ones up to the first out of range are deleted in turn; it raises for an index below the buffer, with the writes before it, and for a fixed buffer that would shrink, and is undefined if and only if an index to be deleted is less than the number of those before it |
| Buf.OrderedReplaced | buf.c:305-351 | for an increasing list, what is deleted is exactly the indices in range that received no item, and no index raises an error |
| Buf.NothingDeleted | buf.c:318-322 | with an item for each index and all in range, in any order, the writes take effect in turn and nothing is deleted |
| Buf.SameReplacement | buf.c:305-351 | indices counted from the end have the same effect in an index list |
| Buf.LastByte | buf.c:318-322 | index -1 writes the last byte |
| Buf.StopsExactly | buf.c:318-345 | replacement stops at an index out of range, as documented, if and only if there is no next index or it is out of range too |
| Buf.GoesOnExample | buf.c:318-345 | items (1 2) at indices (3 0) of three bytes delete the first byte |
| Buf.BelowExample | buf.c:325-345 | deleting bytes 1 and 0 in that order leads below the buffer, and 2 and 1 deletes bytes 2 and 0 |
| Buf.LastWriteStays | buf.c:318-322 | a place named more than once keeps the last item written |
| Buf.WrittenPlaces | buf.c:318-322 | with no place named twice, each named place holds its item and every other place is as before |
| Buf.WithoutKeeps | buf.c:325-345 | every item whose index is not deleted survives, moved down by the number of deletions below it |
| Buf.PutItems | buf.c:318-322 | what the first loop writes, which indices it leaves, and when it raises |
| Buf.DeleteItems | buf.c:325-345 | deleting one index after another with a running offset deletes exactly the indices up to the first out of range, and leads below the buffer if and only if one is less than the number before it |
| Buf.Buffer.Sub | buf.c:263-296 | a copy of the bytes in any clamped range, of the whole range too |
| BufInt.Width | arith.c:4466-4502 | width is the bit length of the magnitude, on both representations |
| BufInt.BitsNeeded | arith.c:4466-4502 | a number fits in k bits and a sign if and only if its width is at most k |
| BufInt.SignExtend | arith.c:3920-3957 | the low bits as a two's complement number, by mask for fixnums and by two complements for bignums; an error for no bits |
| BufInt.WrapSignedMeans | arith.c:3920-3957 | the low bits as a signed number: the one in range that agrees with n in them |
| BufInt.OrWithOnes | arith.c:3934-3938 | or with the shifted mask subtracts the power of two |
| BufInt.NegateTruncated | arith.c:3940-3949 | complement, truncate and negate subtracts the power of two |
| BufInt.NumSize | buf.c:1236-1245 | the minimal bytes of the truncated value leave at most the first byte to the leading zero |
| BufInt.BufInt | buf.c:1221-1251 | every byte of the buffer is determined: the shortest two's complement form |
| BufInt.ByteAt | buf.c:1221-1251 | byte i of the buffer is n divided by 256 to the number of bytes after it, modulo 256 |
| BufInt.BytesExample | buf.c:1221-1251 | 258, 128 and -129 as bytes |
| BufInt.StoreBig | mpi/mpi.c:2585-2634 | a magnitude is written big-endian in exactly its own bytes |
| BufInt.IntBuf | buf.c:1281-1292 | reads the bytes as a big-endian two's complement number; an error for an empty buffer |
| BufInt.RoundTrip | buf.c:1221-1292 | every integer comes back from its buffer, and no shorter buffer stands for it |
| BufInt.DecodeThenEncode | buf.c:1221-1292 | a buffer comes back from its integer if and only if its first byte does not merely repeat the sign of the second |

## Left out

- Buf.Buffer.ReplaceIndices: where the code moves bytes to below the buffer, the model only says so.
- Buf.Buffer.ReplaceRange: the items are a value, so items that alias the buffer are not modelled; a first argument of nil is not a left out one here but an empty index list.
- Gcd.FixnumGcd: fixnums only; the bignum branches, including a word-sized bignum with 0, are not modelled.
- Perm.State.GenFun: the fill functions for vectors, strings and general sequences, and comb over hashes, differ only in what they store into; lazy lists are modelled by running the generator to its first nil.
- Comb.State.Step: list tails are modelled by positions in the list, so sharing of list structure is not captured.
- Prod.ProdCommon: items are given as sequences; the iterator protocol for other kinds of objects and the conversion of the result to the type of the first argument are not modelled.
- Quasi.ExpandMeans: templates without nested quasiquotes and meta forms, and with literals that are lists; second items of an improper list are nil where the code raises an error. An object that a literal stands for is the maker's name with its parts, and makers accept any; operands that are not lists (empty strings or vectors that append and list* turn into nil) are not values of the model.
- Optimize.OptimizeKeeps: code is a value, so the destructive joining of argument lists, which can share structure with a form the user wrote, is not captured; nor are source locations.
- CaseCompile.Expand: the old compatibility branch, and starred clauses whose single key expression evaluates to a list (the chain takes its items as keys, the hash the list itself) are not modelled; keys are evaluated already, floats and objects with their own equality are ordinary objects, and the density test is exact where the code uses a double.
- CaseCompile.MakeTable: addresses are arbitrary values below 2^56, and memory is a number of entries.
- StructIO.RoundTrip: integers and bitfields of the machine's own (little-endian) byte order; floats, pointers, strings, arrays, nested structs, unions and flexible arrays are not modelled, and big-endian bitfields only as far as layout. Shifts are those after the struct itself was made; later structs change them in the same way.
- StructIO.GetThenPut, StructIO.ReturnsExactly: slot names are distinct, as in a struct type.
- StructIO.GetStruct: zero-width bitfields are dropped from the member list as in the layout loop; the member count that the code keeps is one too high when such a field comes last, which the model does not have.
- BitField.EncodeOutcome: a field as wide as the machine word and its minimum negate a value that C leaves undefined; the model has an outcome of its own for that.
- LogCount.LogCount: the 64 bit lines for fixnums; the 32 bit lines and bignums are not modelled.
- Division.RoundLaw: floats, and two bignums that are the same object, which cannot come up where the code compares a result with eq.
- Arith.MulExact: digits narrower than a word, for which the code takes other branches; the multi-precision library is exact, except for the one function of it that is modelled (`Division.ModDigit`).
- BufInt.BufInt: characters are their codes; the multi-precision library's digits are exact integers here, except where width and sign extension complement them.
- buf-uint and uint-buf, and the puts and gets of machine types in buffers, would add only easier cases of the same.
- The mp library, floating point, random numbers, quantiles, and elementwise comparison of sequences in arithmetic.
- Garbage collection, marking of iterators, error messages, printing, streams, parsing, symbol registration, foreign calls, closures, memory maps and the virtual machine.
