# BitArray in Dafny

A model of the `BitArray` class of `BitArray/bitarray.h`: a growable sequence of
bits packed into a vector of words. The class keeps the storage vector
(`bits_`) as a sequence of 32-bit words plus the logical bit count that
`size()` reports. Its abstract value is `Bits()`, a `seq<bool>` with bit 0
first. Bit position `p` lives in word `p / 32` at offset `p % 32`, and offset 0
is the least significant bit of the word. The class invariant `Valid()` says
that the storage holds `len` bits and that every padding bit is zero. That
holds in the last occupied word and in any trailing unused word, so `count()`,
`any()`, `to_string()` and the comparisons never see stray bits.

Files:

- `results.dfy` (module `Results`): the failure signals. `OutOfRange` stands for
  the `logic_error` the header requires for every out-of-range index.
  `BadChar(c)` stands for the `runtime_error` of the string constructor.
- `bitseq.dfy` (module `BitSeq`): the abstract value and every `const` query as
  a function of it. These are count, complement, insertion and erasure, slice,
  the shifts, the three-way comparison and the six operators derived from it,
  `to_string`, string parsing and stream extraction. The lemmas state what the
  header promises about them.
- `words.dfy` (module `Words`): the packed storage and its addressing. It has
  single-bit read and write, appending one bit at a time (a zero word is added
  only when the last word is full), the complement
  with the padding cleared again afterwards, and resizing the word vector.
- `bitarray.dfy` (module `BitArrays`): the class. Each mutator is a method with
  `modifies this`. Its postcondition gives the new `Bits()` as a function of
  the old one. Each query is a method or function whose result is tied to
  `BitSeq`. Out-of-range requests return `Failed(OutOfRange)` or
  `Err(OutOfRange)` and change nothing.
- `findings.dfy` (module `AsWritten`): the header's own word-width arithmetic.
- `scenarios.dfy` (module `Scenarios`): concrete cases and small client
  methods.

Conventions chosen where the header leaves them open:

- Shifts: `<<` moves every bit toward index 0 and fills the high end with
  zeros. `>>` moves every bit toward the high end and fills the low end with
  zeros. The length never changes, and shifting by the length or more gives all
  zeros. The header declares `operator<<=` and `operator>>=` as `const`, yet
  they return `BitArray&` (lines 92-93). They are modelled as the mutators they
  are evidently meant to be.
- `insert`, `erase` and the shifts rebuild the bits into a fresh storage
  sequence. `erase` and the in-place shifts then keep the old number of words.
  The header's comment on `shrink_to_fit` (lines 67-74) says that unused words
  may pile up after `erase` until `shrink_to_fit` discards them.
- `capacity()` counts bits, as its comment at line 59 says.
- `erase(1, 2)` on `10110` removes bits 1 and 2 and leaves `110`
  (`Scenarios.EraseExample`).
- Stream extraction skips the whitespace characters space, tab, newline,
  carriage return, vertical tab and form feed. On failure the skipped
  whitespace counts as consumed, and the array keeps its old contents.

## Model

| member | source | states |
|---|---|---|
| `Words.AddressingIsUnique` | BitArray/bitarray.h:79-80 | position p equals i * W + o with o < W exactly when i = p / W and o = p % W; each position has one (word, offset) pair |
| `Words.SetBitAt` | BitArray/bitarray.h:32-35 | setting or clearing bit o of a word gives that bit the new value and leaves the other bits of the word unchanged |
| `Words.NonzeroWordHasBit` | BitArray/bitarray.h:111 | a nonzero word has some set bit among its W offsets |
| `Words.WordsFor` | BitArray/bitarray.h:67-74 | the word count for n bits holds them and is the least that does |
| `Words.ZeroStorage` | BitArray/bitarray.h:40-42 | WordsFor(n) zero words are well formed for n bits and hold n zero bits |
| `Words.ResizePreserves` | BitArray/bitarray.h:67-74 | cutting or zero-padding the word vector, while it still covers the bits, changes no bit and keeps the padding clean |
| `Words.WriteBit` | BitArray/bitarray.h:32-35 | the storage holds the old bits with position p replaced by v; the word count and the clean padding are kept |
| `Words.PushBit` | BitArray/bitarray.h:62 | the storage holds the old bits followed by v; one zero word is added only when the last word was full |
| `Words.AppendRange` | BitArray/bitarray.h:63 | the storage holds the destination's bits followed by the source's bits [from, to), padding clean |
| `Words.ComplementWords` | BitArray/bitarray.h:86 | every word is flipped and the padding cleared again; the bits in use are exactly the complement of the old ones |
| `Words.InsertRange` | BitArray/bitarray.h:65-66 | the rebuilt storage holds the old bits with src's bits spliced in at pos, padding clean |
| `Words.EraseRange` | BitArray/bitarray.h:64 | the rebuilt storage holds the old bits with [pos, pos + cnt) removed, in the same number of words |
| `Words.ShiftLeftRange` | BitArray/bitarray.h:92 | the storage holds ShiftedLeft(old bits, k) in the same number of words |
| `Words.ShiftRightRange` | BitArray/bitarray.h:93 | the storage holds ShiftedRight(old bits, k) in the same number of words |
| `Words.NonzeroWordHoldsBit` | BitArray/bitarray.h:111 | with clean padding, a nonzero word means some bit in use is set |
| `Words.ZeroWordsHoldNoBit` | BitArray/bitarray.h:111 | when every word is zero, no bit in use is set |
| `BitArrays.BitArray.constructor` | BitArray/bitarray.h:40-42 | a new array of nbits zero bits (nbits defaults to 0) in WordsFor(nbits) words |
| `BitArrays.BitArray.Copy` | BitArray/bitarray.h:47 | an independent array with the same bits and the same number of words |
| `BitArrays.BitArray.Capacity` | BitArray/bitarray.h:59 | the bits the allocation can hold: a multiple of W, never less than size() |
| `BitArrays.BitArray.ShrinkToFit` | BitArray/bitarray.h:67-74 | the bits are unchanged and the word vector is cut to exactly WordsFor(size()) words |
| `BitArrays.BitArray.ReadBit` | BitArray/bitarray.h:84 | Ok(bit pos) when pos < size(), otherwise Err(OutOfRange) |
| `BitArrays.BitArray.AssignBit` | BitArray/bitarray.h:32-35 | in range: Done and only bit pos becomes val; out of range: Failed(OutOfRange) and nothing changes |
| `BitArrays.BitArray.Toggle` | BitArray/bitarray.h:85 | in range: Done and only bit pos is flipped; out of range: Failed(OutOfRange) and nothing changes |
| `BitArrays.BitArray.ToggleAll` | BitArray/bitarray.h:86 | the bits become their complement; size and word count are kept |
| `BitArrays.BitArray.Complemented` | BitArray/bitarray.h:87 | a fresh array holding the complement of this one, which is unchanged |
| `BitArrays.BitArray.Append` | BitArray/bitarray.h:62 | the bits become the old bits followed by val, so size() grows by one; one zero word is added exactly when the last word was full |
| `BitArrays.BitArray.AppendArray` | BitArray/bitarray.h:63 | the bits become the old bits followed by b's old bits, also when b is this array |
| `BitArrays.BitArray.Insert` | BitArray/bitarray.h:65 | pos <= size(): val at pos and the later bits one place up; pos > size(): Failed(OutOfRange) and nothing changes |
| `BitArrays.BitArray.InsertArray` | BitArray/bitarray.h:66 | pos <= size(): b's bits spliced in at pos; pos > size(): Failed(OutOfRange) and nothing changes |
| `BitArrays.BitArray.Erase` | BitArray/bitarray.h:64 | pos + nbits <= size(): bits [pos, pos + nbits) removed and the gap closed, word count kept; otherwise Failed(OutOfRange) and nothing changes |
| `BitArrays.BitArray.ShiftLeftAssign` | BitArray/bitarray.h:92 | the bits become ShiftedLeft(old bits, k) |
| `BitArrays.BitArray.ShiftRightAssign` | BitArray/bitarray.h:93 | the bits become ShiftedRight(old bits, k) |
| `BitArrays.BitArray.ShiftLeft` | BitArray/bitarray.h:90 | a fresh array holding ShiftedLeft(bits, k); this one is unchanged |
| `BitArrays.BitArray.ShiftRight` | BitArray/bitarray.h:91 | a fresh array holding ShiftedRight(bits, k); this one is unchanged |
| `BitArrays.BitArray.Slice` | BitArray/bitarray.h:96 | pos + count <= size(): a fresh array with bits [pos, pos + count); otherwise Err(OutOfRange) |
| `BitArrays.BitArray.Size` | BitArray/bitarray.h:109 | the number of bits in use, the length of Bits() |
| `BitArrays.BitArray.Count` | BitArray/bitarray.h:110 | the number of 1-bits among the bits in use, whatever the padding |
| `BitArrays.BitArray.Any` | BitArray/bitarray.h:111 | decided by scanning words for a nonzero one, and equal to count() > 0 |
| `BitArrays.BitArray.CompareTo` | BitArray/bitarray.h:99-100 | the three-way dictionary comparison of the two bit sequences |
| `BitArrays.BitArray.Equals` | BitArray/bitarray.h:101 | operator== is Compare == 0 |
| `BitArrays.BitArray.NotEquals` | BitArray/bitarray.h:102 | operator!= is Compare != 0 |
| `BitArrays.BitArray.LessThan` | BitArray/bitarray.h:103 | operator< is Compare < 0 |
| `BitArrays.BitArray.AtMost` | BitArray/bitarray.h:104 | operator<= is Compare <= 0 |
| `BitArrays.BitArray.GreaterThan` | BitArray/bitarray.h:105 | operator> is Compare > 0 |
| `BitArrays.BitArray.AtLeast` | BitArray/bitarray.h:106 | operator>= is Compare >= 0 |
| `BitArrays.BitArray.ToString` | BitArray/bitarray.h:125 | one '0'/'1' per bit in use, bit 0 first, never a padding bit |
| `BitArrays.BitArray.ReadFrom` | BitArray/bitarray.h:118-122 | success exactly when Extract finds bits; then the contents are replaced by them; the unconsumed rest is Extract's; on failure nothing changes |
| `BitArrays.FromString` | BitArray/bitarray.h:43-46 | succeeds exactly when every character is '0' or '1', with those bits; otherwise fails with the first other character and stores nothing |
| `BitSeq.Count` | BitArray/bitarray.h:110 | the number of 1-bits never exceeds the length |
| `BitSeq.CountAppend` | BitArray/bitarray.h:63 | the count of a concatenation is the sum of the counts |
| `BitSeq.AnyIffCountPositive` | BitArray/bitarray.h:111 | count > 0 exactly when some bit is set |
| `BitSeq.Zeros` | BitArray/bitarray.h:40-42 | n zero bits: length n, count 0 |
| `BitSeq.ZerosAt` | BitArray/bitarray.h:40-42 | every bit of Zeros(n) is 0 |
| `BitSeq.Complement` | BitArray/bitarray.h:87 | the reference definition of operator~: every bit flipped, length kept; ComplementInvolution and CountComplement give its properties |
| `BitSeq.ComplementInvolution` | BitArray/bitarray.h:87 | complementing twice gives the original |
| `BitSeq.CountComplement` | BitArray/bitarray.h:87 | the complement has size - count 1-bits |
| `BitSeq.Inserted` | BitArray/bitarray.h:65-66 | the reference definition of insert: t spliced in at pos, so the length grows by len t; InsertedAt gives every bit |
| `BitSeq.Erased` | BitArray/bitarray.h:64 | the reference definition of erase: bits [pos, pos + n) removed, so the length drops by n; ErasedAt gives every bit |
| `BitSeq.InsertedAt` | BitArray/bitarray.h:65-66 | after inserting t at pos: bits below pos kept, then t, then the old bits from pos moved up by len t |
| `BitSeq.ErasedAt` | BitArray/bitarray.h:64 | after erasing n at pos: bits below pos kept, the rest taken from n places higher; length drops by n |
| `BitSeq.EraseUndoesInsert` | BitArray/bitarray.h:64-66 | erasing at pos what was inserted at pos restores the original |
| `BitSeq.Slice` | BitArray/bitarray.h:96 | Ok exactly when pos + n <= size, then n bits equal to bits pos.. pos + n - 1 |
| `BitSeq.ShiftedLeft` | BitArray/bitarray.h:90 | the shift keeps the length |
| `BitSeq.ShiftedRight` | BitArray/bitarray.h:91 | the shift keeps the length |
| `BitSeq.ShiftedLeftAt` | BitArray/bitarray.h:90 | bit i of s << k is bit i + k of s, or 0 past the end |
| `BitSeq.ShiftedRightAt` | BitArray/bitarray.h:91 | bit i of s >> k is bit i - k of s, or 0 below k |
| `BitSeq.ShiftByZero` | BitArray/bitarray.h:90-91 | shifting either way by 0 is the identity |
| `BitSeq.ShiftSaturates` | BitArray/bitarray.h:90-91 | shifting by size or more gives size zero bits |
| `BitSeq.ShiftLeftTwice` | BitArray/bitarray.h:90 | a shift by a then by b is a shift by a + b |
| `BitSeq.ShiftRightTwice` | BitArray/bitarray.h:91 | a shift by a then by b is a shift by a + b |
| `BitSeq.Compare` | BitArray/bitarray.h:99-100 | the three-way comparison is -1, 0 or 1 |
| `BitSeq.CompareIsLexOrder` | BitArray/bitarray.h:99-100 | Compare is 0 exactly on equal sequences, negative exactly when a precedes b in dictionary order (a proper prefix, or 0 against 1 at the first difference), positive exactly when b precedes a |
| `BitSeq.StrCompare` | BitArray/bitarray.h:99-100 | the character order "as if they were strings" that the comparisons imitate, a three-way result in {-1, 0, 1} |
| `BitSeq.CompareAsStrings` | BitArray/bitarray.h:99-100 | comparing two arrays equals comparing their to_string images character by character |
| `BitSeq.CompareAntisymmetric` | BitArray/bitarray.h:99-106 | swapping the operands negates the comparison |
| `BitSeq.LessTransitive` | BitArray/bitarray.h:103 | operator< is transitive |
| `BitSeq.OperatorsConsistent` | BitArray/bitarray.h:101-106 | the six operators agree with each other (== is equality, != its negation, <= is < or ==, > is < swapped, >= is not <) and order any two arrays totally |
| `BitSeq.ToString` | BitArray/bitarray.h:125 | one character per bit |
| `BitSeq.Parse` | BitArray/bitarray.h:43-46 | the string constructor's acceptance rule: on success one bit per character; on failure a BadChar naming a character of the string that is not '0'/'1' |
| `BitSeq.ParseAccepts` | BitArray/bitarray.h:45 | a string of only '0'/'1' parses to its bits |
| `BitSeq.ParseRejects` | BitArray/bitarray.h:45 | any other character, whitespace included, is an error naming the first such character |
| `BitSeq.ParseToString` | BitArray/bitarray.h:125 | parsing to_string's output gives back the bits |
| `BitSeq.ToStringParse` | BitArray/bitarray.h:43-46 | to_string of a successfully parsed string is that string |
| `BitSeq.CountIsOnesInString` | BitArray/bitarray.h:110 | count equals the number of '1' characters in to_string |
| `BitSeq.SkipSpaces` | BitArray/bitarray.h:118-121 | the index of the first non-whitespace character: everything before it is whitespace |
| `BitSeq.BitRunEnd` | BitArray/bitarray.h:119 | the end of the maximal run of bit characters: everything in the run is '0'/'1' and the next character is not |
| `BitSeq.Extract` | BitArray/bitarray.h:118-122 | what operator>> reads: on success a non-empty run of bits and a rest no longer than the input; ExtractSplits gives the exact split |
| `BitSeq.ExtractSplits` | BitArray/bitarray.h:118-122 | the input is whitespace, then the bits read (never empty on success), then the rest, which does not start with a bit character; failure leaves the rest just after the whitespace |
| `AsWritten.HeaderAddressingLeavesCell` | BitArray/bitarray.h:27-29 | with BITS_PER_WORD 64 and 32-bit cells, position 40 gets cell 0 offset 40, and half of all positions get an offset a cell lacks |
| `AsWritten.CellAddressingStaysInCell` | BitArray/bitarray.h:79-80 | with the cell width the offset stays inside the cell and distinct positions get distinct (cell, offset) pairs |
| `Scenarios.CountExample` | BitArray/bitarray.h:110 | "1011" parses to 1011, whose count is 3 |
| `Scenarios.ParseRejectsSpace` | BitArray/bitarray.h:45 | "10 1" is rejected at the space; "" is the empty array |
| `Scenarios.CompareExamples` | BitArray/bitarray.h:99-106 | 10 > 01, 1 < 10 and 0 == 0 |
| `Scenarios.ShiftExamples` | BitArray/bitarray.h:90-91 | 1100 << 1 is 1000 and 1100 >> 1 is 0110 |
| `Scenarios.ExtractExample` | BitArray/bitarray.h:118-122 | reading "  101xyz" gives 101 and leaves "xyz" |
| `Scenarios.EraseExample` | BitArray/bitarray.h:64 | erasing 2 bits at 1 from 10110 leaves 110 |
| `Scenarios.AppendScenario` | BitArray/bitarray.h:43-46 | building "101" from its string, appending a 1 and reading back gives "1011" with count 3 |
| `Scenarios.WriteThenRead` | BitArray/bitarray.h:31-35 | reading a position just written returns the written value |
| `Scenarios.InsertThenErase` | BitArray/bitarray.h:64-65 | insert(pos, v) then erase(pos) restores the array |
| `Scenarios.ShrinkTwice` | BitArray/bitarray.h:67-74 | shrink_to_fit twice keeps the bits and leaves the minimal word count |

## Left out

- `BitArray/test.h`: the unit-test scaffolding that counts passes and failures and prints a report. It only drives the class and reports results.
- The stream insertion `operator<<(std::ostream&, ...)` (lines 114-116). It only prints the raw storage.
- The nested `bitproxy` class (lines 23-25). It exists only for `operator[]` assignment syntax; indexed write is `AssignBit` and indexed read is `ReadBit`.
- Move construction and move assignment (lines 49-57), and copy assignment (line 48). These are C++ ownership mechanics. The copy constructor is modelled as `Copy`, and Dafny's fresh objects cover the rest.
- The template parameter `IType` (line 20). The word width is fixed at the 32 bits of the `unsigned` storage cells; see Findings.
- The placeholder bodies in the header (`capacity() {}`, `return 0` in `operator[]`, empty constructors). The model follows the declared contracts and comments instead.
- Stream state beyond the characters: the model returns success or failure and the unconsumed text. End-of-file flags, locales and reading from a live stream are not modelled.
- `size_t` positions and the `unsigned int` shift count are unbounded naturals. No wrap-around is modelled, since no array can reach 2^64 bits.
- Capacity after `insert` and the other growing mutators: `Insert`, `InsertArray`, `AppendArray` and `ReadFrom` state the new bits but not the new word count, so `capacity()` is known after them only as a bound (at least `size()`, a multiple of 32). `Append` does state it: one word more exactly when the last word was full.

## Findings

| source | as written | input that shows it | evidently intended | confidence | as-written member | corrected member |
|---|---|---|---|---|---|---|
| BitArray/bitarray.h:27 | `BITS_PER_WORD = CHAR_BIT * sizeof(IType)` with the default `IType = size_t` is 64, but the cells of `bits_` are 32-bit `unsigned` (line 29), and `operator[]` addresses with `bitpos / BITS_PER_WORD`, `bitpos % BITS_PER_WORD` (lines 79-80) | bit position 40: cell 0, offset 40, past the last bit of a 32-bit cell | the word width is the width of the storage cell, so offsets stay below 32 | not executed; assumes the usual 64-bit `size_t` and 32-bit `unsigned` | `AsWritten.HeaderAddressingLeavesCell` | `AsWritten.CellAddressingStaysInCell` |
