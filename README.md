# CPP09 in Dafny

A verified model of the three C++ exercises in CPP09:

- **PmergeMe** (ex02) sorts non-negative integers given on the command line with the Ford-Johnson merge-insertion sort. It has two versions:
  - a recursive template, `fordJohnson`, with its binary search `findInsertPosition` (which counts comparisons) and `isSorted`;
  - a non-recursive vector version, which `sort` runs. Its steps are `parseInput`, `makePairsVector`, `sortBigVector` and `insertSmallsVector`. Both versions insert the smaller elements of the pairs in the order computed by `buildJacobsthalOrder`.
- **RPN** (ex01) evaluates reverse Polish expressions. Operands are single digits, the operators are `+ - * /`, and the values are kept on the member stack `st`.
- **BitcoinExchange** (ex00) keeps a table from dates to exchange rates, filled one `date,rate` line at a time by `fillLine`. `processFile` answers `date | value` queries with the rate of the greatest date in the table that is not after the queried one. Dates are checked by `checkDate`, in the calendar form YYYY-MM-DD of section 4.1.2.2 of ISO 8601:2004; rates are checked by `checkRate`.

Layout:

| file | module | contents |
|---|---|---|
| `wrappers.dfy` | `Wrappers` | `Option`, `Result` and `Outcome` |
| `sequences.dfy` | `Sequences` | sortedness, distinctness, `vector::insert` and `std::lower_bound` on sequences |
| `c_numbers.dfy` | `CNumbers` | `std::isdigit`, `std::isspace`, `std::stoi` and decimal digit strings |
| `jacobsthal.dfy` | `Jacobsthal` | `buildJacobsthalOrder` and the probe order it computes |
| `pairs.dfy` | `Pairs` | the pairs of both versions, and the proof that no element is lost |
| `insertion.dfy` | `Insertion` | why bounded insertion keeps the main chain sorted, and the `b_pos` map |
| `pmerge_me.dfy` | `FordJohnsonSort` | class `PmergeMe` |
| `rpn.dfy` | `ReversePolish` | class `RPN`, and the evaluator against expression trees |
| `bitcoin_exchange.dfy` | `Exchange` | class `BitcoinExchange`: checks, line splitting, the floor lookup |

The classes keep the source's mutable state as fields:

- `PmergeMe`: `inputVector`, `inputDeque`, `pairsVector`, `mainVector`, `elementsAmount` and `compareCount`.
- `RPN`: the stack `st`.
- `BitcoinExchange`: the map `data`.

Their methods change these fields and nothing else. The template `fordJohnson` sorts its container in place and ends by copying `main` back into it. It is modelled as a method that takes the container as a sequence and returns the new one; it changes only `compareCount`.

Thrown exceptions are modelled as values:

- `Outcome`/`Result` failures in RPN and `fillLine`;
- a `false` return from `ParseInput` and `Sort`;
- `Failure(OutOfRange)` for the `substr` that throws in `processFile`.

`std::sort` is stood for by `Sequences.Sort`, a function specified only by its result: sorted, and a permutation of its input.

## Model

| member | source | states |
|---|---|---|
| FordJohnsonSort.PmergeMe.FordJohnson | ex02/PmergeMe.hpp:144-297 | the result is a permutation of the input; it is sorted when the input elements are distinct; inputs of at most one element are returned unchanged; at least half the length of c comparisons are counted |
| FordJohnsonSort.PmergeMe.Merge | ex02/PmergeMe.hpp:176-285 | after the larger elements are sorted, merging the smaller ones and then the straggler gives a permutation of the input, sorted for distinct input |
| FordJohnsonSort.PmergeMe.MergeSmalls | ex02/PmergeMe.hpp:176-260 | seeding with a0, locating the larger elements and inserting the rest in Jacobsthal order gives the input minus the straggler, sorted for distinct input |
| FordJohnsonSort.PmergeMe.FindInsertPosition | ex02/PmergeMe.hpp:92-142 | the position is at most `limit` and is the lower bound of `value` when `c[..limit]` is sorted; empty ranges count no comparison, ranges of 1 or 2 count exactly one, longer ones between 1 and the bit length of `limit` |
| FordJohnsonSort.PmergeMe.IsSorted | ex02/PmergeMe.hpp:299-315 | true exactly when the sequence is in non-decreasing order |
| FordJohnsonSort.PmergeMe.MakePairs | ex02/PmergeMe.hpp:150-163 | builds `Pairing(c)` (pair k orders elements 2k and 2k+1) and counts exactly half the length of c comparisons |
| FordJohnsonSort.PmergeMe.BigsOf | ex02/PmergeMe.hpp:168-171 | the main chain is the larger element of every pair, in pair order |
| FordJohnsonSort.PmergeMe.Seed | ex02/PmergeMe.hpp:176-186 | the partner of the first pair whose larger element heads the chain is put in front, and that pair is erased; with no such pair nothing changes |
| FordJohnsonSort.PmergeMe.LocateBigs | ex02/PmergeMe.hpp:188-202 | entry j is the last chain index whose element pair j matches first, or 0 when none does |
| FordJohnsonSort.PmergeMe.ShiftPositions | ex02/PmergeMe.hpp:245-250 | every position at or beyond the insertion index moves up by one, and the others stay |
| FordJohnsonSort.PmergeMe.InsertSmalls | ex02/PmergeMe.hpp:235-260 | every smaller element is added to the chain exactly once; a sorted chain stays sorted when `b_pos` locates each pair's larger element |
| FordJohnsonSort.SeedFound | ex02/PmergeMe.hpp:178-186 | the head of a chain that holds the larger elements is always found among the pairs |
| FordJohnsonSort.SeedMultiset | ex02/PmergeMe.hpp:182-183 | moving a0 from the pairs to the chain loses no element |
| FordJohnsonSort.SeedLocatable | ex02/PmergeMe.hpp:190-202 | after seeding, every remaining pair's larger element is in the chain |
| FordJohnsonSort.FordJohnsonMultiset | ex02/PmergeMe.hpp:144-285 | the elements after the insertions, together with the straggler, are exactly the input elements |
| FordJohnsonSort.FirstRejected | ex02/PmergeMe.cpp:54-83 | the index of the first argument `parseInput` rejects: every earlier one is a digit string of value at most INT_MAX, and that one is not |
| FordJohnsonSort.PmergeMe.ValidateNumber | ex02/PmergeMe.cpp:73-83 | accepts exactly the non-empty strings of decimal digits |
| FordJohnsonSort.PmergeMe.ParseInput | ex02/PmergeMe.cpp:54-71 | succeeds exactly when every argument is accepted; the values of the accepted prefix are appended to both containers, which stay equal and within 0..INT_MAX; the element count is set only on success |
| FordJohnsonSort.PmergeMe.MakePairsVector | ex02/PmergeMe.cpp:119-140 | the pairs are those of the template, plus (x, -1) for an odd last element x |
| FordJohnsonSort.PmergeMe.SortBigVector | ex02/PmergeMe.cpp:168-179 | the main chain is sorted and holds exactly the non-sentinel larger elements |
| FordJohnsonSort.PmergeMe.FindBigPositionVector | ex02/PmergeMe.cpp:233-237 | the lower bound of `big` in the whole main chain |
| FordJohnsonSort.PmergeMe.InsertPendingVector | ex02/PmergeMe.cpp:245-263 | one insertion adds exactly the pair's smaller element and keeps a sorted chain sorted |
| FordJohnsonSort.PmergeMe.InsertSmallsVector | ex02/PmergeMe.cpp:239-265 | every smaller element is added exactly once, and a sorted chain stays sorted |
| FordJohnsonSort.PmergeMe.FordJohnsonVector | ex02/PmergeMe.cpp:89-100 | the chain ends sorted, and for non-negative input it is a permutation of the input |
| FordJohnsonSort.PmergeMe.Sort | ex02/PmergeMe.cpp:42-48 | on success the chain is the sorted permutation of the parsed input; on failure the chain and the pairs are untouched |
| FordJohnsonSort.PmergeMe.constructor | ex02/PmergeMe.cpp:15 | the containers start empty |
| Jacobsthal.JacobsthalTerms | ex02/PmergeMe.cpp:203-211 | the list holds J(0) .. J(s), with J(s) the first term not below n |
| Jacobsthal.EmitBlock | ex02/PmergeMe.cpp:220-221 | appends the indices hi-1 down to lo |
| Jacobsthal.BuildJacobsthalOrder | ex02/PmergeMe.cpp:198-227 | the order is the probe order: block by block, each block descending |
| Jacobsthal.IndexOrder | ex02/PmergeMe.cpp:198-227 | the order lists each pair index below n exactly once |
| Jacobsthal.ProbeOrderIsPermutation | ex02/PmergeMe.cpp:198-227 | the probe order for n has length n and holds each index 0..n-1 exactly once |
| Jacobsthal.BlocksCount | ex02/PmergeMe.cpp:213-224 | the first k blocks hold each index below min(J(k), n) exactly once |
| Jacobsthal.BlocksLength | ex02/PmergeMe.cpp:213-224 | the first k blocks have length min(J(k), n) |
| Jacobsthal.DescCount | ex02/PmergeMe.cpp:220-221 | one block holds each index of its range exactly once |
| Jacobsthal.JacGrowth | ex02/PmergeMe.cpp:207-211 | the terms are positive from J(1) on and at least k-1, so the loop ends |
| Jacobsthal.JacMonotone | ex02/PmergeMe.cpp:207-211 | the terms never decrease, so each block range is well formed |
| Jacobsthal.ProbeOrderFive | ex02/PmergeMe.cpp:198-227 | five pairs are probed as 0, 2, 1, 4, 3 |
| Jacobsthal.ProbeOrderEmpty | ex02/PmergeMe.cpp:198-227 | no pairs give an empty order |
| Pairs.OrderPair | ex02/PmergeMe.hpp:159-162 | the pair holds its two elements, smaller first |
| Pairs.PairingShape | ex02/PmergeMe.hpp:155-163 | there are half the length of c pairs, and pair k orders elements 2k and 2k+1 |
| Pairs.PairingAt | ex02/PmergeMe.hpp:155-163 | pair k orders elements 2k and 2k+1 |
| Pairs.PairingLength | ex02/PmergeMe.hpp:155-163 | pairing gives half the length of c pairs |
| Pairs.LeftoverShape | ex02/PmergeMe.hpp:152-166 | the straggler is the last element exactly when the length of c is odd |
| Pairs.PairingMultiset | ex02/PmergeMe.hpp:150-171 | the smaller elements, the larger elements and the straggler are together exactly the input |
| Pairs.PairingDistinct | ex02/PmergeMe.hpp:168-171 | distinct input gives distinct larger elements |
| Pairs.RemoveAtMultiset | ex02/PmergeMe.hpp:183 | erasing a pair removes exactly its two elements |
| Pairs.FirstsAtPermutation | ex02/PmergeMe.hpp:236-243 | an order listing each index once picks every smaller element exactly once |
| Pairs.SentinelPairingShape | ex02/PmergeMe.cpp:119-140 | there are ceil(n/2) pairs; pair k < n/2 orders elements 2k and 2k+1; an odd last x becomes (x, -1) |
| Pairs.SentinelPairingOrdered | ex02/PmergeMe.cpp:129-132 | every pair except the sentinel pair holds its smaller element first |
| Pairs.PairingNoSentinel | ex02/PmergeMe.cpp:174 | for non-negative input no real pair has -1 as its larger element |
| Pairs.SentinelPairingMultiset | ex02/PmergeMe.cpp:119-179 | for non-negative input, the smaller elements and the non-sentinel larger elements are exactly the input |
| Insertion.PairingOrdered | ex02/PmergeMe.hpp:159-162 | every pair the template builds is ordered |
| Insertion.InsertBelowKeepsSorted | ex02/PmergeMe.cpp:257-263 | inserting at the lower bound within a prefix whose next element is not smaller keeps a sorted chain sorted |
| Insertion.ShiftKeepsLocated | ex02/PmergeMe.hpp:243-250 | after an insertion, the shifted `b_pos` still points at each pair's larger element |
| Insertion.ShiftKeepsBounded | ex02/PmergeMe.hpp:243-250 | after an insertion, the shifted `b_pos` stays within the chain |
| Insertion.FirstMatch | ex02/PmergeMe.hpp:194-200 | the first pair whose larger element is v, or none |
| Insertion.FirstMatchOfDistinct | ex02/PmergeMe.hpp:194-200 | with distinct larger elements, each pair is the first match of its own larger element |
| Insertion.FirstMatchFinds | ex02/PmergeMe.hpp:178-186 | a larger element that some pair holds is found |
| Insertion.LastHitFinds | ex02/PmergeMe.hpp:190-202 | a pair that is first to match an element in the chain gets an index of that element |
| Insertion.LastHitMisses | ex02/PmergeMe.hpp:190 | a pair that matches nothing keeps the initial 0 |
| Insertion.LocatedByLastHit | ex02/PmergeMe.hpp:190-202 | with distinct larger elements all present in the chain, `b_pos` locates every pair |
| Insertion.BitsMonotone | ex02/PmergeMe.hpp:124-137 | the bit-length bound on the binary search's comparisons never decreases |
| Sequences.InsertAt | ex02/PmergeMe.hpp:243 | `insert` puts v at p, shifts the rest by one and adds exactly v |
| Sequences.LowerBound | ex02/PmergeMe.cpp:235 | everything before the result is less than v; the element at the result, if any, is not |
| Sequences.LowerBoundUnique | ex02/PmergeMe.cpp:235 | those two conditions determine the lower bound |
| Sequences.BracketsStep | ex02/PmergeMe.hpp:126-137 | one halving step of the binary search keeps the lower bound inside the range |
| Sequences.BracketsLowerBound | ex02/PmergeMe.hpp:141 | the binary search ends at the lower bound |
| Sequences.InsertKeepsSorted | ex02/PmergeMe.hpp:243 | inserting between a not-greater and a not-smaller element keeps a sequence sorted |
| Sequences.Sort | ex02/PmergeMe.cpp:178 | `std::sort`'s result is sorted and a permutation of its input |
| ReversePolish.OperatorIsNotNumber | ex01/RPN.cpp:20-36 | no operator token is taken for a number, though `isNumber` is checked first |
| ReversePolish.IsNumberOfDigit | ex01/RPN.cpp:20-31 | each single digit is a number token with its own value |
| ReversePolish.IsNumber | ex01/RPN.cpp:20-31 | a token is a number when `std::stoi` reads it without throwing and the value is 0..9 (partners: IsNumberOfDigit, OperatorIsNotNumber, InvalidTokenExample) |
| ReversePolish.IsOperator | ex01/RPN.cpp:33-36 | exactly the four one-character tokens `+`, `-`, `*`, `/` |
| ReversePolish.TruncDiv | ex01/RPN.cpp:53 | C++ division: the remainder is smaller than the divisor and has the dividend's sign |
| ReversePolish.Apply | ex01/RPN.cpp:38-55 | fewer than two values throws and changes nothing; otherwise two values are popped and one result pushed; division by zero throws exactly when the top is 0 under `/`; the rest of the stack is kept |
| ReversePolish.RPN.ApplyOperator | ex01/RPN.cpp:38-55 | the member stack and the thrown error are as `Apply` says |
| ReversePolish.RPN.Evaluate | ex01/RPN.cpp:57-78 | the result is `Evaluation(expression)`, which depends on the expression alone, since the stack is emptied first |
| ReversePolish.RPN.constructor | ex01/RPN.cpp:7 | the stack starts empty |
| ReversePolish.Run | ex01/RPN.cpp:64-72 | the token loop: numbers are pushed, operators applied, any other token throws, and the first error ends the run (partners: RunPostfix, RunInvalidToken, RunOperatorShort) |
| ReversePolish.Evaluation | ex01/RPN.cpp:57-78 | an error of the run propagates; otherwise exactly one value must be left, and it is the result (partners: EvaluatePostfix and the error lemmas below) |
| ReversePolish.Tokens | ex01/RPN.cpp:59-64 | `ss >> token` gives non-empty tokens without white space |
| ReversePolish.WordLength | ex01/RPN.cpp:64 | a token runs up to the first white space |
| ReversePolish.TokensOfJoin | ex01/RPN.cpp:59-64 | the tokens of words joined by spaces are those words |
| ReversePolish.RunPostfix | ex01/RPN.cpp:57-72 | running the postfix form of an expression pushes its value, or throws division by zero |
| ReversePolish.EvaluatePostfix | ex01/RPN.cpp:57-78 | evaluating the postfix form of any expression gives its value under C++ arithmetic, or the division-by-zero error |
| ReversePolish.TruncatingExample | ex01/RPN.cpp:53 | "0 7 - 2 /" is -3, because division truncates toward zero |
| ReversePolish.EvaluationEmpty | ex01/RPN.cpp:74-75 | an expression without tokens is an invalid expression |
| ReversePolish.EvaluationTwoValues | ex01/RPN.cpp:74-75 | two complete expressions in a row leave two values: an invalid expression |
| ReversePolish.RunInvalidToken | ex01/RPN.cpp:70-71 | a token that is neither a number nor an operator throws at once with that token, leaving the stack as it was |
| ReversePolish.EvaluationInvalidFirst | ex01/RPN.cpp:66-71 | an expression starting with such a token fails with that token |
| ReversePolish.EvaluationInvalidAfter | ex01/RPN.cpp:66-71 | such a token after a complete expression fails with that token, whatever follows |
| ReversePolish.RunOperatorShort | ex01/RPN.cpp:40-41 | an operator with fewer than two values on the stack throws "insufficient values" and leaves the stack as it was |
| ReversePolish.EvaluationOperatorFirst | ex01/RPN.cpp:40-41 | an expression starting with an operator has too few operands |
| ReversePolish.EvaluationOperatorAfterOne | ex01/RPN.cpp:40-41 | an operator right after one complete expression has too few operands |
| ReversePolish.InsufficientExample | ex01/RPN.cpp:40-41 | "+" fails with insufficient values |
| ReversePolish.TwoValuesExample | ex01/RPN.cpp:74-75 | "1 2" is an invalid expression |
| ReversePolish.InvalidTokenExample | ex01/RPN.cpp:70-71 | "1 x" fails with the invalid token "x" |
| CNumbers.Stoi | ex01/RPN.cpp:24 | a result of `std::stoi` always fits in an int |
| CNumbers.StoiOfDigits | ex00/BitcoinExchange.cpp:114-116 | a digit run that fits an int reads as its value, whatever non-digit text follows |
| CNumbers.StoiOfPad | ex00/BitcoinExchange.cpp:114-116 | a zero-padded field reads back as its number |
| CNumbers.PadValue | ex00/BitcoinExchange.cpp:114-116 | zero-padded digits have the value they were written from |
| Exchange.CheckDate | ex00/BitcoinExchange.cpp:107-141 | an accepted date has ten characters with '-' at indices 4 and 7 |
| Exchange.CheckDateOfIso | ex00/BitcoinExchange.cpp:107-141 | a date written as YYYY-MM-DD is accepted exactly when that day exists |
| Exchange.LeapDay | ex00/BitcoinExchange.cpp:122-129 | February 29th is accepted exactly in leap years |
| Exchange.ThirtyFirst | ex00/BitcoinExchange.cpp:121-133 | the 31st is accepted exactly in the seven months of 31 days |
| Exchange.CheckRate | ex00/BitcoinExchange.cpp:143-161 | the rate must parse completely, must not be negative, and an input value must not exceed 1000; a parse failure rejects it (partners: ProcessQuery, FilledStores, FilledRejects) |
| Exchange.StrLessIsStrictTotalOrder | ex00/BitcoinExchange.cpp:70 | string comparison is a strict total order, as `std::map` needs of its keys |
| Exchange.Floor | ex00/BitcoinExchange.cpp:70-79 | the greatest key not after the date, or none when every key is after it: the result the lookup steps are proved to compute (LookupIsFloor) |
| Exchange.FloorUnique | ex00/BitcoinExchange.cpp:70-79 | any key with the floor property is the one the lookup finds |
| Exchange.FloorExact | ex00/BitcoinExchange.cpp:70-71 | a date that is a key finds itself |
| Exchange.KeyLowerBound | ex00/BitcoinExchange.cpp:70 | `map::lower_bound`: every key before the index is before the date, and the key at it (if any) is not |
| Exchange.LookupSteps | ex00/BitcoinExchange.cpp:70-79 | the lookup steps (`lower_bound`, the end-or-other-key test, `begin()` or `--it`) pick a key of the table or none |
| Exchange.LookupIsFloor | ex00/BitcoinExchange.cpp:70-79 | on keys in ascending map order, the lookup steps give exactly the greatest key not after the date, or none |
| Exchange.BitcoinExchange.RateForIsLookup | ex00/BitcoinExchange.cpp:70-80 | the rate of the key the lookup steps find is the rate RateFor gives |
| Exchange.BitcoinExchange.RateFor | ex00/BitcoinExchange.cpp:70-80 | a rate exists exactly when some key is not after the date; a key date gives its own rate; any rate is the floor key's |
| Exchange.BitcoinExchange.ProcessLine | ex00/BitcoinExchange.cpp:46-83 | empty lines and the header are skipped; a priced line has a valid date, the floor rate and an amount in 0..1000 |
| Exchange.BitcoinExchange.ProcessNoDelimiter | ex00/BitcoinExchange.cpp:50-55 | a non-empty line without the pipe delimiter is reported as an invalid delimiter |
| Exchange.BitcoinExchange.ProcessQuery | ex00/BitcoinExchange.cpp:57-82 | on a line of a date, a spaced pipe and a value nothing is thrown; it is an invalid date exactly when the date check fails, an invalid value exactly when then the value check fails, no rate exactly when then the lookup finds nothing, and otherwise it is priced with the floor rate |
| Exchange.SplitQuery | ex00/BitcoinExchange.cpp:50-58 | a line without the pipe delimiter is reported; a pipe too close to the end throws out_of_range |
| Exchange.SplitQueryOfLine | ex00/BitcoinExchange.cpp:50-58 | a line written as the date, a spaced pipe and the value splits back into its date and value |
| Exchange.Find | ex00/BitcoinExchange.cpp:50 | the first index holding the character, or the length for npos |
| Exchange.SplitRecord | ex00/BitcoinExchange.cpp:88-98 | a line without ',' is rejected; otherwise the line is the date, ',' and the rate, with no ',' in the date |
| Exchange.SplitRecordOfLine | ex00/BitcoinExchange.cpp:88-98 | a line written as "date,rate" splits back into its date and rate |
| Exchange.BitcoinExchange.FillLine | ex00/BitcoinExchange.cpp:86-105 | fails exactly when there is no ','; the table becomes `Filled(old table, line)` |
| Exchange.FilledStores | ex00/BitcoinExchange.cpp:86-105 | a valid line stores its rate under its date, replacing any earlier rate, and a later query of that date finds it |
| Exchange.FilledRejects | ex00/BitcoinExchange.cpp:92-103 | a line whose date or rate is rejected leaves the table unchanged |
| Exchange.BitcoinExchange.constructor | ex00/BitcoinExchange.cpp:6-9 | the table starts empty, before any data line is read |

## Left out

- All output (`std::cout`, `std::cerr`, `print`) and the debug traces in `findInsertPosition` and `fordJohnson`.
- The `std::chrono` timings of `fordJohnsonVector` and `fordJohnsonDeque`.
- `main`'s argument-count check.
- The copy constructors, assignment operators and destructors.
- The deque functions (`makePairsDeque`, `sortBigDeque`, `findBigPositionDeque`, `insertSmallsDeque`, `fordJohnsonDeque`) repeat the vector functions step for step on `inputDeque`, which `ParseInput` keeps equal to `inputVector`. They are not modelled separately.
- File I/O: `fillData` (opening and reading the data file, skipping the header) and the file loop of `processFile`. `FillLine` and `ProcessLine` model one line each.
- The product `value * rate` that `processFile` prints is not computed. A priced line carries the amount and the rate.
- `std::stod` and its floating-point arithmetic: rates are reals, and the parse (with its end-position check) is a parameter `stod`.
- ReversePolish.Apply: values are unbounded integers. The source's 32-bit `int` overflow in `+`, `-`, `*` and in `INT_MIN / -1` is not modelled.
- FordJohnsonSort.PmergeMe.FordJohnson: sortedness is proved only for inputs whose elements are distinct. `b_pos` is built by matching values, and with equal larger elements an entry can stay 0. That entry then bounds the search too tightly. On [1, 5, 2, 5, 3, 5], worked by hand, the result is [3, 1, 2, 5, 5, 5]. The template is reached only through its own recursion; `sort` runs the vector version.
- FordJohnsonSort.PmergeMe.FordJohnson: the comparison count is bounded only from below (at least half the length of c). The exact count of the whole sort is not stated.
- FordJohnsonSort.PmergeMe.Merge, FordJohnsonSort.PmergeMe.MergeSmalls and FordJohnsonSort.PmergeMe.InsertSmalls: the comparison count is only stated not to decrease.
- FordJohnsonSort.PmergeMe.FordJohnsonVector: the permutation is stated only for non-negative input, which `ParseInput` guarantees. A negative element equal to the sentinel -1 would be dropped from the chain.
- FordJohnsonSort.PmergeMe.constructor: the source leaves `_compare_count` uninitialised, so the model makes no claim about its first value.
- The `isStraggler` argument of `findInsertPosition` is unused in the source and has no effect in the model.
- Exchange.CheckDate: `std::stoi` skips leading white space, takes a sign and ignores trailing characters. Forms such as "2024-1x-05" are therefore accepted, and the model keeps that. Its own contract states only the format of accepted dates; the calendar rule is stated by CheckDateOfIso, LeapDay and ThirtyFirst for dates written with digits.
- Exchange.BitcoinExchange.ProcessLine: the `out_of_range` thrown by `substr` is returned as `Failure(OutOfRange)`. Its propagation out of `processFile` is not modelled.
- Strings are sequences of characters, not bytes. Input that is not ASCII has different lengths and positions in the source: for example "2024-1é-05" has 10 characters but 11 UTF-8 bytes, so `checkDate` rejects it at `date.length() != 10` while Exchange.CheckDate does not. The same applies to the '|' and ',' offsets, to RPN token lengths and to ValidateNumber.
- ParseInput reads each argument with `ss >> value` into a `long`. For a string of digits, an overflow gives LONG_MAX, which the range check rejects just like the exact value. The model compares the exact decimal value with INT_MAX.
