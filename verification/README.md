# big_integer and fast_vector in Dafny

A model of the signed arbitrary-precision integer `big_integer` and of the
copy-on-write word buffer `fast_vector` that stores its words. Every
operator is proved against a plain mathematical reading.

A `big_integer` is a sign flag plus a sequence of 32-bit words. It reads as
infinite sign-extended two's complement: word `i` for `i` below the length,
then `0xFFFFFFFF` for a negative number and `0` for a non-negative one
(`get_digit`). So its value is `Σ w[i]·2^(32i) − (sign ? 2^(32·len) : 0)`.
The canonical form, which `delete_zero` restores, has no top word equal to
that fill word.

| file | module | contents |
|---|---|---|
| `results.dfy` | `Results` | `Result` for operations that can fail |
| `words.dfy` | `Words` | 32-bit words, `Nat` (little-endian value of a word sequence), powers, arithmetic and bit-level lemmas |
| `bigint.dfy` | `BigInts` | representation, `Value`, canonical form, constructors, negation, `~`, `+`, `-`, the bitwise operators, comparisons |
| `shifts.dfy` | `Shifts` | `<<` and `>>` |
| `multiply.dfy` | `Multiply` | `mul_big_small`, `mul_vector`, `correct`, `*` |
| `division.dfy` | `Division` | `get_trial`, `sub_equal_vectors`, `compare_equal_vectors`, normalised long division, `/`, `%` |
| `fastvector.dfy` | `FastVectors` | `fast_vector`: inline and shared heap storage with reference counts |

The integer operators are pure functions on `BigInt(sign, words)`. Two
exceptions are the division loop and the operators built on it, which are
methods. Word loops with carries are recursive functions. Each operator is
proved to produce a canonical result whose `Value` is the exact
mathematical result. Where the code goes wrong, an `…AsWritten` member
models the code as it is, next to a corrected member (see Findings).

The buffer model keeps all vectors in a `Pool`:

- vectors are named by index;
- heap allocations live in a map, each with its words and its owner count (the `shared_ptr` use count);
- the pool invariant `Valid` says every count equals the number of vectors holding that allocation.

Each buffer operation is a function from pool to pool. Its contract covers
three things:

- the vector's `Contents` (its first `size` words);
- its storage mode and whether it is shared;
- that every other vector keeps its contents (`OthersUnchanged`).

## Model

| member | source | states |
|---|---|---|
| BigInts.DeleteZero | big_integer.cpp:75-79 | the result is canonical, keeps the sign, keeps a prefix of the words, and has the same value and the same `get_digit` at every index |
| BigInts.DigitValue | big_integer.cpp:68-72 | `get_digit(i)` is word i of the value's infinite two's-complement expansion, ⌊value / 2^(32i)⌋ mod 2^32, at every index, past the stored length included |
| BigInts.Make | big_integer.cpp:81-89 | `big_integer(sign, words)` and the copy constructor give a canonical number with that sign, the value the stored words had, and a prefix of those words |
| BigInts.ValueExtended | big_integer.cpp:68-72 | reading n ≥ len words through `get_digit` gives the value plus 2^(32n) for a negative number |
| BigInts.CanonicalUnique | big_integer.cpp:75-79 | two canonical numbers with equal values are the same representation |
| BigInts.Zero | big_integer.cpp:85 | the default constructor is the canonical zero |
| BigInts.FromInt | big_integer.cpp:91-94 | the `int` constructor yields a canonical number whose value is its argument |
| BigInts.FromUint32 | big_integer.cpp:96-99 | the `uint32_t` constructor yields exactly its argument |
| BigInts.FromUint64 | big_integer.cpp:101-105 | the `uint64_t` constructor (low word, high word, trimmed) yields exactly its argument |
| BigInts.AddWords | big_integer.cpp:259-268 | the carry chain over two equal-length word lists computes their sum, with the final carry as the word past the end |
| BigInts.Negate | big_integer.cpp:20-38 | `negate` and unary minus give a canonical number whose value is minus the argument, for every input including 0 and the empty negative (-1) |
| BigInts.NegateValue | big_integer.cpp:23-37 | complementing size+2 extended words, adding 1 and taking the sign from the top bit gives minus the value |
| BigInts.Not | big_integer.cpp:123-127 | `~x` has value -x - 1 |
| BigInts.NotDigits | big_integer.cpp:123-127 | `~x` flips the sign and complements `get_digit` at every index |
| BigInts.Abs | big_integer.cpp:54-57 | `abs` is canonical, non-negative, with the magnitude of the value |
| BigInts.Add | big_integer.cpp:255-270 | `+` gives a canonical number whose value is the sum |
| BigInts.AddValue | big_integer.cpp:256-269 | adding over max+2 extended words and taking the sign from the top bit of the last guard word gives the exact sum, with no overflow |
| BigInts.Sub | big_integer.cpp:272-303 | `-` gives a canonical number whose value is the difference |
| BigInts.SubValue | big_integer.cpp:273-301 | a + ~b + 1 over max+3 extended words, signed by the top bit, gives the exact difference |
| BigInts.Bitwise | big_integer.cpp:151-185 | for AND, OR and XOR: the result is canonical, its sign is the operator on the signs, and its `get_digit` at every index is the operator on the operands' `get_digit` |
| BigInts.DeMorgan | big_integer.cpp:151-173 | NOT (a OR b) = NOT a AND NOT b, and NOT (a AND b) = NOT a OR NOT b |
| BigInts.BitwiseSelf | big_integer.cpp:151-185 | a AND a = a, a OR a = a, a XOR a = 0 |
| BigInts.BitwiseCommutes | big_integer.cpp:151-185 | each bitwise operator is symmetric |
| BigInts.TopDownLess | big_integer.cpp:236-239 | scanning equal-length word lists from the top decides which one has the smaller value |
| BigInts.EqAsWritten | big_integer.cpp:224-226 | `==` as written holds exactly for equal values and for the pair 0 and -1 |
| BigInts.Eq | big_integer.cpp:224-226 | corrected `==` holds exactly for equal values |
| BigInts.EqValue | big_integer.cpp:224-226 | canonical numbers are equal exactly when their values are, and the only numbers with no stored words are 0 and -1 |
| BigInts.GreaterAsWritten | big_integer.cpp:232-241 | `>` as written: false for 0 against -1, reversed for two negatives of different length, and the true order otherwise |
| BigInts.Greater | big_integer.cpp:232-241 | corrected `>` holds exactly when the first value is larger |
| BigInts.OrderValue | big_integer.cpp:232-241 | the sign decides between different signs; for equal signs a longer canonical number is farther from zero; for equal lengths the magnitudes decide |
| BigInts.Less | big_integer.cpp:243-245 | `<` is `b > a`; built on the corrected `>`, it holds exactly when the first value is smaller |
| BigInts.LessEq | big_integer.cpp:247-249 | `<=` is not `a > b`; built on the corrected `>`, it holds exactly when the first value is not larger |
| BigInts.GreaterEq | big_integer.cpp:251-253 | `>=` is not `a < b`; built on the corrected `>`, it holds exactly when the first value is not smaller |
| BigInts.NotEq | big_integer.cpp:228-230 | `!=` is not `a == b`; built on the corrected `==`, it holds exactly when the values differ |
| BigInts.EqAsWrittenZeroMinusOne | big_integer.cpp:225 | `0 == -1` holds as written and fails when corrected |
| BigInts.GreaterAsWrittenMinusOneMinusTwo | big_integer.cpp:235 | `-1 > -2` is false as written and true when corrected |
| BigInts.GreaterAsWrittenZeroMinusOne | big_integer.cpp:233 | `0 > -1` is false as written and true when corrected |
| Shifts.ShiftLeft | big_integer.cpp:187-200 | `a << k` is canonical with value a·2^k |
| Shifts.ShiftRight | big_integer.cpp:202-215 | `a >> k` is canonical with value ⌊a / 2^k⌋, rounding toward minus infinity |
| Shifts.ShiftLeftValue | big_integer.cpp:189-199 | k/32 zero words followed by the extended words shifted by k mod 32 have value a·2^k |
| Shifts.ShiftRightValue | big_integer.cpp:204-214 | the extended words from k/32 up, shifted down by k mod 32, have value ⌊a / 2^k⌋ |
| Shifts.ShiftRightOut | big_integer.cpp:206-208 | when k/32 is at least the length, the exact result is 0 or -1 by sign alone |
| Shifts.ShiftRoundTrip | big_integer.cpp:187-215 | shifting left by k then right by k gives back the same number |
| Shifts.ShiftLeftTwice | big_integer.cpp:187-200 | two left shifts compose into one by the summed amount |
| Shifts.ShiftRightTwice | big_integer.cpp:202-215 | two right shifts compose into one by the summed amount |
| Multiply.MulRow | big_integer.cpp:309-315 | one row of `mul_vector` adds x times b into the result words, with the carry out past the end |
| Multiply.MulRows | big_integer.cpp:307-317 | the rows of `mul_vector` add the full product a·b into a zeroed result |
| Multiply.MulVector | big_integer.cpp:305-319 | `mul_vector` returns len(a)+len(b)+1 words holding the product |
| Multiply.MulVectorTop | big_integer.cpp:306 | the last word of `mul_vector` is always zero |
| Multiply.MulSmall | big_integer.cpp:321-332 | `mul_big_small` returns len(a)+1 words holding a times the word |
| Multiply.MulSmallTop | big_integer.cpp:330 | the top word of `mul_big_small` is below the multiplier and below 0xFFFFFFFF |
| Multiply.Correct | big_integer.cpp:334-351 | `correct()` leaves a non-negative number alone, maps the empty negative to 0, and otherwise reads the words as a magnitude M: -M, or -2^(32(len+1)) when M is 0 |
| Multiply.FromMagnitudeAsWritten | big_integer.cpp:361-362 | building `big_integer(sign, magnitude)` and calling `correct()` negates the magnitude, unless the magnitude is 0 or its top word is 0xFFFFFFFF; an all-ones magnitude gives 0 |
| Multiply.FromMagnitude | big_integer.cpp:361-362 | corrected: a sign and a magnitude give the canonical signed value |
| Multiply.MulZero | big_integer.cpp:354 | justifies the early `return big_integer(0)` of `*`: a zero first operand makes the product zero, so that branch agrees with the general product |
| Multiply.Mul | big_integer.cpp:353-364 | `*` gives a canonical number whose value is the product |
| Division.GetTrial | big_integer.cpp:389-394 | the trial digit is ⌊(a·2^32+b)/c⌋ clamped to 0xFFFFFFFF |
| Division.SubEqual | big_integer.cpp:396-404 | `sub_equal_vectors` subtracts in place, modulo 2^(32·len) |
| Division.CompareEqual | big_integer.cpp:406-411 | `compare_equal_vectors` holds exactly when the first list has the smaller value |
| Division.Correction | big_integer.cpp:446-451 | the correction loop stops at the largest digit not above the trial whose multiple fits the remainder; it terminates because the digit decreases |
| Division.QuotientDigit | big_integer.cpp:444-451 | the corrected trial digit is the exact quotient digit when the remainder is below BASE times the divisor |
| Division.TrialNear | big_integer.cpp:445 | with the divisor's top word at least 2^31, the trial digit exceeds the true quotient digit by at most 2 |
| Division.CorrectionSteps | big_integer.cpp:445-451 | with a normalised divisor, the correction loop decrements the trial digit at most twice |
| Division.DivPass | big_integer.cpp:443-457 | one pass of the main loop produces the next quotient digit and a remainder below the divisor |
| Division.DivLoop | big_integer.cpp:443-457 | the main loop computes the quotient of the normalised dividend by the normalised divisor |
| Division.ScaledRange | big_integer.cpp:424 | multiplying the divisor by f = 2^32/(top+1) keeps its word count and makes the scaled value at least half of 2^(32m), so its top word is at least 2^31 |
| Division.NormalisedDivisor | big_integer.cpp:424-432 | after `mul_big_small` and `delete_zero` the divisor keeps m words, with its value scaled by f and its top word at least 2^31 |
| Division.Normalised | big_integer.cpp:424-441 | after normalisation the starting remainder is below the divisor, the divisor's top word is at least 2^31, and the normalised quotient equals the quotient of the magnitudes |
| Division.QuotientWords | big_integer.cpp:421-457 | the long division returns n-m+1 words holding ⌊abs(a) / abs(b)⌋ |
| Division.TruncDivSpec | big_integer.cpp:415-461 | the remainder of division truncating toward zero is smaller than the divisor and has the dividend's sign |
| Division.TruncDivUnique | big_integer.cpp:415-461 | truncating division is the only quotient with that remainder property |
| Division.DivAsWritten | big_integer.cpp:415-461 | `/` as written: 0 for a zero divisor; an out-of-bounds read when abs(a) has one word fewer than abs(b); an allocation failure when it has two or more fewer; the truncated quotient for equal signs; for different signs, a write past capacity exactly when the quotient has more than 4 words and trims to one word, otherwise the truncated quotient only while the magnitude quotient is non-zero and its top word is not 0xFFFFFFFF |
| Division.QuotientAsWritten | big_integer.cpp:421-460 | the written division on inputs it can read: fails with a write past capacity exactly for different signs and a quotient of more than 4 words whose negation trims to one word; otherwise the values stated for `/` |
| Division.TrimmedToOne | big_integer.cpp:458-459 | the constructor trims a magnitude read as negative down to one word exactly when it lies in [2^(32len) - 2^32, 2^(32len) - 1) |
| Division.QuotientBufferAsWritten | big_integer.cpp:458-459 | building `res` from a heap `temp` and calling `correct()` fails in `push_back` exactly for those magnitudes with more than 4 words |
| FastVectors.PopTo | big_integer.cpp:75-79 | `delete_zero`'s `pop_back` loop cuts the contents to a prefix and keeps the storage, so the capacity is unchanged |
| FastVectors.CopyTrimPush | big_integer.cpp:334-350 | copying a vector, trimming it to s words, `prepare_to_new` and `push_back` fails exactly when the vector is on the heap and s is 1; otherwise the copy holds the prefix plus the word and the original is unchanged |
| Division.Div | big_integer.cpp:415-461 | corrected `/`: an error exactly for a zero divisor, otherwise the quotient truncated toward zero |
| Division.ModAsWritten | big_integer.cpp:463-465 | `%` as written: a itself for a zero divisor; the same out-of-bounds read, allocation failure and write past capacity; the true remainder for equal signs; for different signs with abs(a) < abs(b), a + 2^(32(len+1))·b |
| Division.Mod | big_integer.cpp:463-465 | corrected `%`: an error exactly for a zero divisor, otherwise a - (a/b)·b, smaller than b and signed like a |
| Division.DivMod | big_integer.cpp:463-465 | (a/b)·b + a%b == a whenever b is non-zero |
| Division.DivByZeroAsWritten | big_integer.cpp:416-420 | 7 / 0 returns 0 |
| Division.ZeroByFiveAsWritten | big_integer.cpp:435-441 | 0 / 5 reads outside the dividend |
| Division.ZeroByWordAsWritten | big_integer.cpp:435 | 0 / 2^32 fails to allocate `temp` |
| Division.TempSize | big_integer.cpp:435 | `n - m + 1` in `size_t` is the true difference when m ≤ n + 1 and wraps to 2^64 - (m - n - 1) otherwise |
| Division.TempBytes | optimized_vector.cpp:28 | `cap * sizeof(uint32_t)` is 4·cap for a plausible cap and 4·cap - 3·2^64 for a wrapped one |
| Division.WrappedTemp | big_integer.cpp:435 | for word counts below 2^61, `temp` is empty when n = m - 1, and its allocation fails exactly when n ≤ m - 2, where its size is above 4 so `make_big` runs |
| Division.NegativeHalfAsWritten | big_integer.cpp:458-459 | (-1) / 2 returns -2^64 where truncation gives 0 |
| Division.MaxWordAsWritten | big_integer.cpp:458-459 | (-4294967295) / 1 returns 0 |
| Division.OverrunAsWritten | big_integer.cpp:458-459 | (-(2^160 - 2^32 + 5)) / 1 writes past capacity as written; corrected, it returns the dividend |
| Division.NegativeHalfModAsWritten | big_integer.cpp:463-465 | (-1) % 2 returns 2^65 - 1 |
| FastVectors.IsBig | optimized_vector.cpp:9-11 | a big vector holds a live allocation; an inline one has at most 4 words |
| FastVectors.Size | optimized_vector.cpp:13-15 | the size never exceeds the words the vector can address |
| FastVectors.Capacity | optimized_vector.cpp:34-37 | `get_capacity` is 4 for an inline vector and the allocation's length for a big one, and never below the size |
| FastVectors.Rebind | optimized_vector.cpp:54-66 | the vector gets a new allocation of its own with the given words and size; its old allocation loses an owner; no other vector changes |
| FastVectors.Store | optimized_vector.cpp:78-81 | writing a vector's words changes its inline array, or its allocation as every holder sees it; an unshared vector changes no other vector |
| FastVectors.Resize | optimized_vector.cpp:95-99 | setting the size keeps the words and changes no other vector |
| FastVectors.NewCapacity | optimized_vector.cpp:4-7 | the growth capacity is 4 for 0, otherwise ⌊3n/2⌋ |
| FastVectors.NewCapacityGrows | optimized_vector.cpp:4-7 | the growth capacity exceeds the size for every size except 1 |
| FastVectors.CopyData | optimized_vector.cpp:27-32 | `copy_data` gives cap words: the first cnt copied, the rest zero |
| FastVectors.NewVector | optimized_vector.cpp:17-19 | the default constructor makes an empty inline vector of capacity 4 and changes no other vector |
| FastVectors.ZeroFill | optimized_vector.cpp:23-24 | zeroing n words and setting the size gives n zeros |
| FastVectors.NewSized | optimized_vector.cpp:21-25 | `fast_vector(n)` holds n zeros, is inline exactly when n ≤ 4, and is not shared |
| FastVectors.SetCapacity | optimized_vector.cpp:59-68 | `set_capacity` keeps the contents; heap storage, or a request above 4, moves to an unshared allocation of exactly cap words, zero beyond the size; otherwise nothing changes |
| FastVectors.Reserve | optimized_vector.cpp:70-72 | `reserve` keeps the contents and raises the capacity to the request, never lowering it |
| FastVectors.PrepareToNew | optimized_vector.cpp:39-45 | afterwards the vector is unshared with the same contents; a shared vector gets capacity equal to its size; any other vector is left as it was |
| FastVectors.Get | optimized_vector.cpp:74-76 | `operator[] const` reads element i of the contents |
| FastVectors.Set | optimized_vector.cpp:78-81 | a write through `operator[]` on an unshared vector changes only element i of that vector |
| FastVectors.WordsEqual | optimized_vector.cpp:85 | the word comparison holds exactly when the first n words agree |
| FastVectors.Equal | optimized_vector.cpp:83-86 | `==` holds exactly when the contents are equal, whatever the storage or sharing |
| FastVectors.IsEmpty | optimized_vector.cpp:88-90 | `is_empty` holds exactly for empty contents |
| FastVectors.GrowAsWritten | optimized_vector.cpp:93 | the growth step of `push_back` keeps the contents and gives a full vector capacity `get_new_capacity(size)`, which leaves room for one more word except for a full vector of capacity 1; a vector with room is left alone |
| FastVectors.Append | optimized_vector.cpp:94-95 | writing element `size` and counting it appends the word; a sharing vector writes into the shared words |
| FastVectors.PushBackAsWritten | optimized_vector.cpp:92-96 | `push_back` as written fails exactly on a full vector of capacity 1; otherwise it appends the word, a full vector grows to `get_new_capacity(size)`, and a shared vector with room overwrites that slot for every co-holder |
| FastVectors.PushBack | optimized_vector.cpp:92-96 | corrected `push_back` appends the word, leaves the vector unshared, and changes no other vector |
| FastVectors.PushBackAgrees | optimized_vector.cpp:92-96 | on an unshared vector that is not full at capacity 1, the written and corrected `push_back` do the same thing |
| FastVectors.PopBack | optimized_vector.cpp:98-100 | `pop_back` drops the last word and keeps the storage |
| FastVectors.Back | optimized_vector.cpp:102-104 | `back` is the last word |
| FastVectors.PushPop | optimized_vector.cpp:92-104 | after `push_back(w)`, `back()` is w and `pop_back` restores the contents |
| FastVectors.Copy | optimized_vector.cpp:106-114 | the copy constructor gives equal contents; a heap vector shares its allocation, which becomes shared |
| FastVectors.CopyThenDrop | optimized_vector.cpp:47-49 | copying a vector and destroying the copy restores the pool, reference counts included |
| FastVectors.Swap | optimized_vector.cpp:116-152 | `swap` exchanges the two vectors' contents and storage in all four inline and heap combinations, and changes no other vector |
| FastVectors.SwapTwice | optimized_vector.cpp:132-152 | swapping twice restores the pool |
| FastVectors.DropLast | optimized_vector.cpp:47-49 | the destructor releases the vector's allocation, and every other vector keeps its contents |
| FastVectors.Assign | optimized_vector.cpp:154-158 | `operator=` makes the target equal to the source, sharing a heap allocation, and changes no other vector, the source included |
| FastVectors.SharedWriteAsWritten | optimized_vector.cpp:92-96 | B = A, B.pop_back(), B.push_back(w) overwrites A's last word with w |
| FastVectors.SharedWriteFixed | optimized_vector.cpp:92-96 | the same sequence with corrected `push_back` leaves A unchanged |
| FastVectors.PastCapacityAsWritten | optimized_vector.cpp:92-96 | a one-word copy after `prepare_to_new` makes `push_back` write past capacity |
| FastVectors.PastCapacityFixed | optimized_vector.cpp:92-96 | the same sequence with corrected `push_back` appends the word |

## Left out

- The decimal layer (`dec_pow`, `string_to_int`, `string_to_number`, the string constructor, `to_string`, stream output): string handling outside the arithmetic core.
- The message printed on division by zero: it is output only. The model keeps the returned value.
- BigInts.Less, BigInts.LessEq, BigInts.GreaterEq, BigInts.NotEq: `<`, `<=`, `>=` and `!=` are modelled only on the corrected `>` and `==`. As written they inherit the defects listed under Findings, through the same two functions.
- Compound assignments, `++`/`--`, unary `+`, `big_integer::swap` and `operator=`: one-line wrappers over the modelled operators, or value copies.
- The integer engine works on the observable word sequence of its `fast_vector`. The buffer is modelled separately, and the engine's uses of it are not routed through the pool.
- 64-bit intermediates (`uint64_t sum`, `carry`, `mul`) are unbounded integers. The proofs bound them where a truncation matters. `toUint32` is `Lo` (mod 2^32), `>> 32` is division by 2^32, and the `|` of disjoint bit fields in the shifts is `+`.
- Raw memory: the union, placement new, explicit `~_big()`, the `shared_ptr` deleter, `operator new`/`delete`, `memcpy`/`memset`. An allocation is a map entry with an explicit owner count. Thread safety of the count and allocation failure are out of scope, except for the wrapped `temp` of `/`.
- Destruction is modelled only for the most recently made vector (`DropLast`), as for the temporaries in `operator=`. Vectors are named by pool index, so destroying an arbitrary vector would renumber the rest.
- `pop_back` and `back` on an empty vector, and `operator[]` past the size, have no defined meaning in the code. `PopBack`, `Back`, `Get` and `Set` require the index or size to be in range. `Set` also requires an unshared vector, as the assertion in `operator[]` demands.
- Multiply.FromMagnitudeAsWritten: states the value only when the magnitude's top word is not 0xFFFFFFFF, plus the all-ones case. Other magnitudes with a 0xFFFFFFFF top word are trimmed by the constructor before `correct()` and give values with no short closed form.
- Division.WrappedTemp: the allocator is modelled by `AllocationFails`: `operator new` throws `bad_alloc` for 2^63 bytes or more and succeeds below that. The real limit depends on the platform. Word counts are assumed below 2^61.
- Division.DivAsWritten, Division.QuotientAsWritten: for operands of different signs, the value is stated only for a zero magnitude quotient, for quotients below 0xFFFFFFFF·2^(32(len-1)), and for an all-ones quotient. The other quotients are trimmed the same way.
- Division.ModAsWritten: for operands of different signs, the value is stated only when abs(a) < abs(b), the case where the written quotient is -2^(32(len+1)).
- FastVectors.GrowAsWritten: states "unshared" only when the growth step actually reallocated. A shared vector of capacity 1 stays shared, and the write that follows fails.

## Findings

| source | as written | input that shows it | evidently intended | confidence | as-written member | corrected member |
|---|---|---|---|---|---|---|
| big_integer.cpp:225 | two numbers with no stored words compare equal whatever their signs | `0 == -1` is true | equal exactly when the values are equal | high, not executed | BigInts.EqAsWrittenZeroMinusOne | BigInts.Eq |
| big_integer.cpp:235 | for equal signs, the longer number is the larger, negatives included | `-1 > -2` is false | a longer negative number is the smaller | high, not executed | BigInts.GreaterAsWrittenMinusOneMinusTwo | BigInts.Greater |
| big_integer.cpp:416-420 | division by zero prints a message and returns 0 | `7 / 0` is 0 | report an error (the commented-out throw) | high, not executed | Division.DivByZeroAsWritten | Division.Div |
| big_integer.cpp:435-441 | with fewer words in abs(a) than in abs(b), `n - m + 1` and `n + i - m` wrap around `size_t` | `0 / 5` reads the dividend out of bounds; `0 / 2^32` asks `operator new` for 2^64 - 4 bytes and throws `bad_alloc` | the quotient is 0 | high, not executed | Division.ZeroByFiveAsWritten, Division.ZeroByWordAsWritten | Division.Div |
| big_integer.cpp:458-459 | for different signs, the magnitude goes through the constructor, which trims 0xFFFFFFFF top words as if it were negative, and `correct()`, which turns a zero magnitude into -2^(32(len+1)) | `(-1) / 2` is -2^64; `(-4294967295) / 1` is 0 | the quotient truncated toward zero | high, not executed | Division.NegativeHalfAsWritten | Division.Div |
| big_integer.cpp:463-465 | `%` inherits the wrong quotient | `(-1) % 2` is 2^65 - 1 | the remainder of truncating division, -1 | high, not executed | Division.NegativeHalfModAsWritten | Division.Mod |
| optimized_vector.cpp:4-7 | a full vector of size 1 grows to `get_new_capacity(1) == 1`, so `push_back` writes one word past its allocation | any one-word vector A with heap storage (five zeros after four `pop_back`s, say): B = A, B.prepare_to_new(), B.push_back(9) | grow to at least size + 1 | medium, not executed | FastVectors.PastCapacityAsWritten | FastVectors.PushBack |
| big_integer.cpp:458-459 | for different signs, `res` shares the heap `temp`; `delete_zero` trims it, `correct()` calls `prepare_to_new` (capacity = size) and `push_back`, which cannot grow a one-word vector | `(-(2^160 - 2^32 + 5)) / 1`: the five-word quotient trims to one word, and the push writes past it | the quotient truncated toward zero | medium, not executed | Division.OverrunAsWritten | Division.Div |
| optimized_vector.cpp:92-96 | `push_back` writes without `prepare_to_new`, into an allocation other copies share | any non-empty vector A with heap storage: B = A, B.pop_back(), B.push_back(w) makes A's last word w (A = five zeros, w = 9: A[4] becomes 9) | copy-on-write before the write | medium, not executed | FastVectors.SharedWriteAsWritten | FastVectors.PushBack |
