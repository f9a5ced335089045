# Verified models of bc, compress, awk and col

Dafny models of the parts of this userland that are hardest to get right, in the form the C code has: classes whose
methods rewrite fields, loops with invariants, and specification functions that the methods are proved against.

- **compress** (`compress/zopen.c`). The LZW writer with its open-addressed hash table, variable-width bit packing and
  CLEAR codes; the reader that rebuilds the table one entry behind; both resumable at any byte. `Lzw` is the coding on
  its own, `LzwHash` the table, `LzwBits` and `LzwFrame` the bit layout, `LzwLock` the lockstep of the two sides,
  `LzwFormat` the file format in numbers, `Compressor` and `Decompressor` the two state records, `CompressRoundTrip` the
  end-to-end statement.
- **bc numbers** (`bc/num.c`). Limb arithmetic in base 10^9 or 10^4 (one undetermined constant `WIDE` stands for the
  two builds). The ghost field `mag` of `Num.BcNum` is the number's magnitude in units of its last decimal place, and
  `Canon` is the canonical form the code asserts after each operation. Addition, schoolbook and Karatsuba
  multiplication, long division, remainder, power, modular power, decimal shifts, radix conversion, decimal printing
  and parsing.
- **awk regular expressions** (`awk/b.c`). `ReTree` gives the parse tree its language and its first and follow sets,
  `ReSets` the meaning of position sets, `ReAutomaton` the lazily built transition table, `ReMatch` the three matchers,
  `ReHat`, `ReStray` and `ReLongest` the consequences of one entry that lands in the wrong row, `ReLeaf` the letters of
  each leaf and the simplest expressions, and `ReSearch` the matchers on a fresh automaton in terms of the expression.
- **bc programs** (`bc/bc_parse.c`, `bc/program.c`). Control flow compiled to labels and jumps (`BcCode`, `BcParser`,
  `BcRun`, `BcHalts`, `BcLaws`); the operator-precedence parser for expressions (`BcExpr`, `BcSound`, `BcComplete`,
  `BcGrammar`, `BcExprParser`); calls, parameters and returns (`BcMemory`, `BcBinding`, `BcCalls`, `BcOwn`, `BcVm`).
- **col** (`col/col.c`). The stable counting sort of a line, its printing with tabs, backspaces and character-set
  shifts, and reading it back (`ColSort`, `ColRender`, `ColCodes`, `ColLine`).

`dafny verify dfyconfig.toml` checks everything.

## Where the code is surprising

The models follow the code. Points where it differs from what one would expect:

- The one-limb fast path of `bc_num_m` gives a product scale 0, a zero product included, so a zero product may have a
  smaller scale than the rules of POSIX bc give it (`NumMul.M`).
- Adding to or subtracting zero takes over the other operand's scale, not the larger one (`NumAdd.As`).
- `bc_num_modexp` never takes the fast path of `bc_num_divmod`: that path tests the result record, which has just been
  cleared (`NumModexp.Halve`).
- `bc_num_parseDecimal` reads every capital letter as the digit nine (`NumDecimal.CharValue`).
- `!` is accepted only right after another `!`, or after a binary operator or the start of the expression with only
  opening parentheses in between: the parser looks at the last token, and no token of the input is a negation. So
  `-!a`, `-(!a)` and `!(!a)` are syntax errors while `!-a`, `!!a` and `a+(!b)` are not. `BcComplete.Fits` is the exact
  condition.
- `bc_func_insert` refuses the same name twice only for the same kind, so `a[]` and `*a[]` may both be declared. Such a
  function cannot bind its arguments as written, and even an unrelated parameter can get the wrong array
  (`BcBinding.SimultaneousIff`, `BcBinding.ClashExample`).
- `makeinit` stores the state reached on HAT in column 261 of row 2, in a table of 259 columns (`awk/awk.h:211-226`,
  `awk/b.c:37`), which in memory is column 2 of row 3. If the hat made a new state, as a leading `^` does, that is state
  3, and it keeps a loop on byte 2. So `^a` matches the text of byte 2 and `a` (`ReStray.StrayExample`). All entries are
  right exactly when the hat made no new state or that loop is the follow-set step (`ReAutomaton.Fa.EntriesRightIff`);
  the matchers are right on every text without byte 2 and for every expression without `^` (`ReMatch.Sure`,
  `ReMatch.SureWithoutHat`). For which expressions they are right on every text is said exactly by
  `ReStray.MatchRightIff` for `match` and by `ReLongest.AnchoredRightIff` for `pmatch` and `nematch`; with any number of
  bytes 2 between `^` and `a` they are (`ReLongest.SkippingExample`). If the hat made no new
  state the store falls into a row that is emptied before it is used. The index past the row is taken as C compilers
  lay the array out.
- With a maximum width of nine bits `compress` still goes on to ten-bit codes, because the width is compared with the
  maximum only after it has grown (`LzwFrame.GrowthAllowed`); the reader does the same.
- In `awk/b.c` an empty pair of parentheses and an empty character class match the empty string.

## Model

| member | source | states |
|---|---|---|
| `CompressRoundTrip.RoundTripInPieces` | compress/zopen.c:210-584 | writing any chunks and reading back with buffers of any sizes returns the input bytes in order, as far as the sizes reach; for every width setting, and whether or not the magic number was read beforehand |
| `CompressRoundTrip.Compress` | compress/zopen.c:210-344 | the closed file begins with the bytes 31, 157 and the maximum width plus 128 (16 unless given); its codes are the greedy encoding of the concatenated chunks and decode to them; no CLEAR for the first 9999 bytes, nor two for fewer than 10000 |
| `Compressor.Writer.RatioFell` | compress/zopen.c:670-690 | the ratio of bytes read to bytes written, in the units and with the overflow guards of the code, against the last one; the next test is due 10000 bytes on |
| `LzwFormat.LongerKnown` | compress/zopen.c:225-290 | while the string read so far has a code nothing is sent and that code is kept |
| `LzwFormat.LongerUnknown` | compress/zopen.c:291-307 | otherwise the longest known string's code is sent, the next string starts with the new byte, the longer string gets the next code from 257 on while there is room, and only without room may 256 follow and empty the dictionary |
| `LzwFormat.ExpandInjective` | compress/zopen.c:291-298 | two codes for one string are the same code |
| `LzwFormat.Widths` | compress/zopen.c:397-429 | without CLEAR code k is as wide as the number 256 + k, or 2^maxbits - 1 if that is smaller, and codes follow each other without a gap |
| `LzwFormat.AfterClear` | compress/zopen.c:402-429 | after CLEAR the rest of its group of eight is left out, the width is nine again and the next entry is 257 |
| `LzwFormat.FirstCodes` | compress/zopen.c:367-396 | bit t of code k is bit 9k + t of the body, lowest bits of bytes first, for the first 256 codes |
| `LzwFormat.ExampleCodes` | compress/zopen.c:225-307 | abab is sent as 97, 98, 257 |
| `Lzw.RoundTrip` | compress/zopen.c:225-307 | decoding the greedy encoding returns the input, whenever the encoder chooses to clear (the ratio test is an arbitrary sequence of choices) |
| `Lzw.SendCode` | compress/zopen.c:291-307 | after the pending code is sent the decoder has read the whole input and both dictionaries agree |
| `Lzw.ExpandBounded` | compress/zopen.c:546-560 | no string is longer than the dictionary, which bounds the decode stack |
| `LzwHash.TableSizeIsPrime` | compress/zopen.c:279-283 | the table size 69001 has no divisor between 1 and itself |
| `LzwHash.ProbesDistinct` | compress/zopen.c:270-290 | fewer than table-size probes of one key never visit a slot twice |
| `LzwHash.WalkBounded` | compress/zopen.c:270-290 | every probe walk reaches a free slot after at most as many steps as there are entries |
| `LzwHash.Hit` | compress/zopen.c:268-288 | a slot with the key means that the entry is in the dictionary, under the code stored there |
| `LzwHash.Miss` | compress/zopen.c:270-291 | an empty slot before the key means that the entry is absent, so the table refines a finite map |
| `LzwHash.Insert` | compress/zopen.c:291-298 | storing at the end of a walk keeps the table a faithful image of the dictionary with one more entry, each reachable without crossing an empty slot |
| `LzwBits.StoredHolds` | compress/zopen.c:371-396 | storing a code puts exactly its bits at the position and changes no earlier bit |
| `LzwBits.FetchedIsCode` | compress/zopen.c:641-665 | joining the masked bytes gives back the code stored there |
| `LzwFrame.CodeFits` | compress/zopen.c:397-429 | every code the encoder may send fits the width in force |
| `LzwFrame.GrowthAllowed` | compress/zopen.c:402-429 | the width grows only when the codes of the current width are used up, and only below the maximum width; with a maximum of nine it grows once, to ten |
| `LzwLock.FreeLags` | compress/zopen.c:529-579 | the decoder's dictionary after code k is as large as the encoder's was when it sent code k |
| `LzwLock.SameWidthTest` | compress/zopen.c:600-616 | the decoder's width test on its lagging next free code comes out as the encoder's did |
| `LzwLock.SameGroup` | compress/zopen.c:600-639 | whenever another code follows, the decoder leaves a group exactly when the encoder did, and is then in the same group at the same offset |
| `LzwLock.StreamEnds` | compress/zopen.c:600-639 | after the last code the group test leaves the group and nothing is left: the final partial group yields no extra code |
| `LzwLock.WrittenIsReadable` | compress/zopen.c:397-452 | what the writer frames is readable by the decoder's rules and decodes to the writer's input |
| `LzwLock.NextAccepted` | compress/zopen.c:527-579 | each code of a readable stream is accepted by the decoder, or is CLEAR and followed by one that is |
| `LzwLock.StepMeaning` | compress/zopen.c:540-579 | the new decoder entry makes the code just read stand for the string it was read as, the KwKwK case included |
| `Compressor.Writer.constructor` | compress/zopen.c:733-765 | a writer with the given or default maximum width and nothing written |
| `Compressor.Writer.Write` | compress/zopen.c:210-307 | accepts a chunk: the recorded input grows by exactly the chunk and the writer stays consistent |
| `Compressor.Writer.Close` | compress/zopen.c:310-344 | the file is the bytes 31, 157 and the maximum width plus 128, then exactly the framed codes of the greedy encoding of all input |
| `Compressor.Writer.Output` | compress/zopen.c:367-454 | one code joins the stream at the next position, with width change, group padding and buffer flush as the frame prescribes |
| `Compressor.Writer.PutBits` | compress/zopen.c:371-396 | the code lands at the writer's position and no earlier bit changes |
| `Compressor.Writer.Widen` | compress/zopen.c:402-429 | the next group starts in the next width |
| `Compressor.Writer.OutputEnd` | compress/zopen.c:440-452 | the last group is written out cut to the bytes it uses |
| `Compressor.Writer.Probe` | compress/zopen.c:273-290 | the probe loop ends at the key or at the first empty slot of the walk |
| `Compressor.Writer.Lookup` | compress/zopen.c:268-290 | finds the code of an entry just when the dictionary has it, and otherwise the slot where it belongs |
| `Compressor.Writer.Enter` | compress/zopen.c:295-298 | storing the new entry keeps the table an image of the dictionary |
| `Compressor.Writer.ClearBlock` | compress/zopen.c:670-697 | empties the dictionary and sends CLEAR, or sends nothing; either way the next test is due 10000 bytes on |
| `Compressor.Writer.ClearHash` | compress/zopen.c:701-730 | every slot is empty afterwards, for the table size as it is |
| `Decompressor.Reader.constructor` | compress/zopen.c:768-795 | a reader of a readable file that has delivered nothing |
| `Decompressor.Reader.Read` | compress/zopen.c:463-584 | hands out the next bytes of the decompressed text, as many as asked for or left, resuming anywhere |
| `Decompressor.Reader.GetCode` | compress/zopen.c:594-666 | returns the next code of the stream, and -1 just after the last |
| `Decompressor.Reader.Refill` | compress/zopen.c:622-632 | the unread bytes are kept in order and more of the file follows them |
| `Decompressor.Reader.Fetch` | compress/zopen.c:641-665 | the code at the position is the one the stream holds there |
| `Decompressor.Reader.Translate` | compress/zopen.c:538-560 | the stack read from its top is the string of the code, KwKwK included, and finchar is its first character |
| `Decompressor.Reader.AddEntry` | compress/zopen.c:571-579 | the table stays the decoder's dictionary with the entry for the code just read |
| `Decompressor.Reader.AfterClear` | compress/zopen.c:529-537 | after CLEAR the table is empty and the width is nine bits |
| `Decompressor.Reader.ReadHeader` | compress/zopen.c:475-516 | accepts just a magic number of 31, 157 (or one read before) and a width of at most 16; width, block flag and from it the first free code, 257 or 256, come from the third byte |
| `Decompressor.Reader.Drain` | compress/zopen.c:562-569 | the stack is emptied in forward order until the caller's buffer is full |
| `NumKernel.AddArrays` | bc/num.c:153-166 | a + B^off * b on limb arrays; the carry runs as far as needed and stops inside a |
| `NumKernel.SubArrays` | bc/num.c:168-181 | a - B^off * b when that is not negative; the borrow stops inside a |
| `NumKernel.MulArray` | bc/num.c:183-215 | times a factor of at most the base, exactly, with at most one more limb |
| `NumKernel.DivArray` | bc/num.c:217-241 | quotient and remainder by a factor of at most the base |
| `NumKernel.Compare` | bc/num.c:243-250 | the sign of the difference of the values, and 0 only for equal limbs |
| `NumKernel.ShiftDigits` | bc/num.c:414-436 | divides by 10^dig when that comes out even: no digit is lost at the low end |
| `NumKernel.CarryStops` | bc/num.c:153-166 | a sum that fits the array never carries past its end |
| `NumKernel.BorrowStops` | bc/num.c:168-181 | a difference that is not negative never borrows past the end |
| `Num.BcNum.constructor` | bc/num.c:78-80 | zero without limbs |
| `Num.BcNum.Copy` | bc/num.c:1998-2012 | a copy with the same limbs, point, scale and sign |
| `Num.BcNum.Clean` | bc/num.c:88-95 | leading zero limbs above the fraction go; a zero loses point and sign; the number becomes canonical |
| `Num.BcNum.Truncate` | bc/num.c:305-333 | the value cut towards zero to fewer decimal places, in canonical form |
| `Num.BcNum.Extend` | bc/num.c:335-358 | the same value at more decimal places |
| `Num.BcNum.ShiftLeft` | bc/num.c:438-493 | times 10^places at every alignment, fraction places first; canonical |
| `Num.BcNum.ShiftRight` | bc/num.c:495-546 | divided by 10^places with no digit lost: the digits stay, the scale grows; canonical |
| `Num.BcNum.RetireMul` | bc/num.c:360-368 | a product or quotient extended or cut to its final scale, with the sign of the operands |
| `NumShift.RightThenLeft` | bc/num.c:438-546 | a right shift and a left shift by the same places give back every limb |
| `NumShift.LeftThenRight` | bc/num.c:438-546 | a left shift and a right shift by the same places give back the value |
| `NumAdd.As` | bc/num.c:571-698 | the exact sum or difference at the larger scale, canonical; a zero operand lends not even its scale |
| `NumAdd.Run` | bc/num.c:660-681 | the digit loops: limbs of l plus or minus r with carry in, the exact value with carry out |
| `NumAdd.Reversed` | bc/num.c:605-615 | turned round just so that the remaining subtraction is not negative |
| `NumAdd.Combine` | bc/num.c:619-692 | the aligned limbs of sum or difference, in the limbs available |
| `NumSchool.Column` | bc/num.c:717-738 | one column of the schoolbook product is low part plus carry, and neither leaves 64 bits |
| `NumSchool.AccumulatorFits` | bc/num.c:720-733 | no accumulator overflows a 64-bit word before it is cut |
| `NumSchool.MulSimple` | bc/num.c:700-750 | the limbs of the product, when one operand has fewer than 64 |
| `NumSchool.ColsAreProduct` | bc/num.c:715-739 | all columns together are the product of the values |
| `NumMul.Karatsuba` | bc/num.c:819-852 | the identity behind the recursive combination |
| `NumMul.K` | bc/num.c:760-861 | the product of any two limb vectors; the mutual recursion ends because the longer operand shrinks |
| `NumMul.Recurse` | bc/num.c:782-852 | z2 and z0 each added twice and the middle product added or taken away make up the product, inside a result of 2*max + 3 limbs |
| `NumMul.Split` | bc/num.c:370-393 | the two halves, canonical, make up the number |
| `NumMul.Room` | bc/num.c:800-852 | five terms of the largest size fit the result buffer |
| `NumMul.AddTwice` | bc/num.c:819-841 | both shifted additions stay inside the result |
| `NumMul.M` | bc/num.c:863-939 | the exact product, cut to a scale that is the sum of the operands' scales, or, if that is less than the sum, the largest of the wanted scale and theirs; canonical, with the right sign; the one-limb path has scale 0 |
| `NumMul.MulScale` | bc/num.c:870-876 | never more than the sum of the scales, and if less, then the largest of the wanted scale and the two operands' |
| `NumMul.Positioned` | bc/num.c:922-931 | low zero limbs and the point put back, then the cut to scale |
| `NumDiv.Estimate` | bc/num.c:1053-1055 | the estimate from the two leading limbs never overshoots, and is exact for a one-limb divisor |
| `NumDiv.EstimateStep` | bc/num.c:1051-1071 | an estimate is at least one and leaves a remainder that is not negative |
| `NumDiv.QuotientLimb` | bc/num.c:1039-1087 | the correction loop ends with remainder below divisor, and the accumulated quotient limb stays below the base |
| `NumDiv.DivideLimbs` | bc/num.c:1031-1088 | the quotient cut below limb skip, for every dividend and divisor |
| `NumDiv.DivCmp` | bc/num.c:948-960 | decides whether the window is at least the divisor |
| `NumDiv.LeadingLimb` | bc/num.c:997-1021 | both operands scaled by the same power of ten so that the leading limb estimates well |
| `NumDiv.DivExtend` | bc/num.c:962-974 | scaling both operands for a better leading limb keeps their ratio |
| `NumDiv.NonZeroDig` | bc/num.c:941-946 | whether the limbs have a value above zero |
| `NumDiv.Log10` | bc/num.c:97-102 | the number of decimal digits |
| `NumDiv.DLong` | bc/num.c:976-1094 | the quotient of the whole parts cut at the limb that scale asks for |
| `NumDiv.D` | bc/num.c:1096-1162 | fails just on a zero divisor; otherwise q * b <= a < (q + 1) * b in units of the scale asked for, canonical, with the right sign |
| `NumDiv.QuotientTruncates` | bc/num.c:976-1162 | the quotient is the largest multiple that fits: q * b <= a < (q + 1) * b at the given scale |
| `NumDiv.LimbQuotient` | bc/num.c:1119-1155 | cutting by limbs and then by digits is the decimal quotient |
| `NumDiv.DivSingle` | bc/num.c:1112-1117 | the fast path for one-limb whole numbers gives the same quotient |
| `NumRem.R` | bc/num.c:1164-1199 | a = q * b + r exactly, |r| < |b| * 10^-scale, r zero or signed like a, at scale max(scale + scale(b), scale(a)) |
| `NumRem.Rem` | bc/num.c:1201-1215 | the same remainder alone |
| `NumRem.Between` | bc/num.c:1164-1199 | at the remainder's scale the dividend lies between neighbouring multiples of the divisor |
| `NumPow.Bigdig` | bc/num.c:2088-2112 | the whole part as a machine word, failing exactly on negative numbers and overflow |
| `NumPow.WrapTests` | bc/num.c:2097-2107 | the two wrap-around tests find exactly the overflows |
| `NumPow.PowerProduct` | bc/num.c:1255-1277 | a product taken at the sum of the scales loses nothing |
| `NumPow.EvenPart` | bc/num.c:1255-1264 | after the trailing zero bits the copy is the matching power |
| `NumPow.Powered` | bc/num.c:1255-1277 | square-and-multiply yields the exact power |
| `NumPow.Inv` | bc/num.c:548-559 | 1 / a cut to scale |
| `NumPow.Power` | bc/num.c:1217-1296 | a^n cut to a scale that is scale(a) * n, or, if less, the larger of the wanted scale and scale(a); or 1 / a^|n| cut to scale; fails exactly on fractions, exponents beyond a word and negative powers of zero |
| `NumModexp.Modexp` | bc/num.c:2390-2456 | c divides a^b - d, and d is below c unless b is zero; fails exactly on zero modulus, negative exponent and fractions |
| `NumModexp.ModexpRound` | bc/num.c:2420-2444 | one round keeps d * base^exp congruent to the goal while exp is halved |
| `NumModexp.Reduce` | bc/num.c:2428-2444 | the remainder of whole numbers is congruent and smaller than the modulus |
| `NumModexp.Halve` | bc/num.c:2420-2426 | the exponent halved and its lowest bit |
| `NumPrint.PrintFixup` | bc/num.c:1711-1747 | one pass splits off the lowest digit in base pow: value = low + pow * rest, in at most one more limb |
| `NumPrint.ConvertLimbs` | bc/num.c:1755-1758 | all passes keep the value, now read in base pow, every limb but the top below pow |
| `NumPrint.SettleTop` | bc/num.c:1760-1776 | every limb below pow, the same value, no leading zero |
| `NumPrint.LargestPower` | bc/num.c:1841-1853 | the largest power of the output base that fits a limb: it fits, and once more the base does not |
| `NumPrint.DigitStack` | bc/num.c:1862-1883 | the digit stack is the base-obase expansion with no leading zero |
| `NumPrint.LimbDigits` | bc/num.c:1864-1882 | the digits of one limb, all of them or for the top limb down to the last nonzero |
| `NumPrint.PrintInteger` | bc/num.c:1781-1891 | digit i from the right is the number divided by base^i, modulo the base, first digit not zero, for every base up to the limb base |
| `NumDecimal.CharWorth` | bc/num.c:1412-1421 | what each character is worth in base ten: digits themselves, capital letters nine |
| `NumDecimal.TextParts` | bc/num.c:1423-1484 | the value of a text is that of its characters in order, the point only setting the scale |
| `NumPow.PowerScale` | bc/num.c:1250-1252 | scale(a) * n, or if less the larger of the wanted scale and scale(a) |
| `NumModexp.CongruentDivides` | bc/num.c:2390-2456 | congruent means that the modulus divides the difference |
| `NumDecimal.PrintDecimal` | bc/num.c:1620-1651 | the text has the number's sign, digits and scale, no leading zero, and a point just when there is a fraction |
| `NumDecimal.PrintLimb` | bc/num.c:1628-1650 | what one limb adds to the text at any alignment |
| `NumDecimal.ParseDecimal` | bc/num.c:1423-1484 | any digits-and-point text becomes the canonical number of its value and scale |
| `NumDecimal.FillLimbs` | bc/num.c:1460-1483 | the digit loop builds the limbs of the text's value |
| `NumDecimal.Measure` | bc/num.c:1440-1452 | zero test, scale and digit count of the text |
| `NumDecimal.RoundTrip` | bc/num.c:1423-1651 | printing and parsing a nonzero number gives back every limb, point and scale |
| `NumDecimal.CanonUnique` | bc/num.c:1376-1378 | canonical numbers of one scale and value are equal limb for limb |
| `ReTree.FirstStarts` | awk/b.c:388-434 | every first position begins a match of the subtree that its context completes |
| `ReTree.NonemptyStart` | awk/b.c:388-434 | every nonempty match of a subtree begins at one of its first positions |
| `ReTree.FollowComplete` | awk/b.c:436-465 | whatever may follow a subtree begins at one of its follow positions, unless nothing need follow |
| `ReTree.FollowSound` | awk/b.c:436-465 | a follow position only begins what may follow |
| `ReTree.CatSplit` | awk/b.c:424-426 | where a match of a concatenation passes from left to right |
| `ReTree.LoopSplit` | awk/b.c:417-423 | the first nonempty round of a loop |
| `ReLeaf.LeafLetters` | awk/b.c:877-890 | which letters each kind of leaf takes, class by class: a negated class all but its members, NUL and the hat |
| `ReLeaf.Complement` | awk/b.c:885-886 | a class and its complement share out all letters but NUL and the hat |
| `ReLeaf.LeafWords` | awk/b.c:877-890 | a leaf has no word of another length than one, except the empty one of an empty expression or class |
| `ReLeaf.PairWords` | awk/b.c:388-465 | the words of two leaves in a row, of alternatives and of an optional leaf |
| `ReLeaf.StarWords` | awk/b.c:417-423 | a starred leaf has just the words of its letters |
| `ReLeaf.PlusWords` | awk/b.c:417-423 | with a plus sign all of those but the empty one |
| `ReLeaf.HatMatchAt` | awk/b.c:152-180 | ^ in front of a leaf holds its matches to the start of the string |
| `ReLeaf.DollarMatchAt` | awk/b.c:497-554 | $ behind it to the end |
| `ReLeaf.LeafFound` | awk/b.c:477-495 | a single leaf is to be found just in the strings that hold a character it takes |
| `ReLeaf.Letters` | awk/awk.h:211-226 | 256 bytes and the hat, 261, are letters; the stray entry is at byte 2 |
| `ReSets.StepMeaning` | awk/b.c:877-905 | the follow-set step on a letter keeps exactly the words that go on with that letter |
| `ReSets.RunMeaning` | awk/b.c:861-950 | after a word a position set stands for what could follow that word |
| `ReSets.RunAccepts` | awk/b.c:861-950 | the accepting position is reached exactly by the words that complete the tree |
| `ReSets.StartMeaning` | awk/b.c:166-171 | the start set stands for any letters followed by the expression |
| `ReSets.AnchoredStart` | awk/b.c:173-178 | without position 0 it stands for the expression alone |
| `ReSets.HattedParts` | awk/b.c:172-180 | reading the hat keeps the start set and adds what follows ^ |
| `ReSets.AnchoredHatted` | awk/b.c:172-180 | an anchored match at the start of the string may begin with or without the hat |
| `ReSets.RootLang` | awk/b.c:128-132 | the whole tree is any letters, the expression, and the end mark |
| `ReAutomaton.Collector.Penter` | awk/b.c:184-207 | leaves numbered from left to right, the tree otherwise unchanged |
| `ReAutomaton.Collector.First` | awk/b.c:388-434 | marks exactly the first positions; the answer is 1 unless the empty string matches |
| `ReAutomaton.Collector.Follow` | awk/b.c:436-465 | climbing the parent links marks exactly the follow positions |
| `ReAutomaton.RenumberKeeps` | awk/b.c:184-207 | numbering leaves the language alone |
| `ReAutomaton.Fa.Mkdfa` | awk/b.c:122-150 | an automaton of the expression with rows filled and start states ready; all its cached entries are right exactly when the hat's stray entry is harmless |
| `ReAutomaton.Fa.Cfoll` | awk/b.c:344-386 | each leaf's row gets its own follow set, other rows stay |
| `ReAutomaton.Fa.Makeinit` | awk/b.c:152-182 | state 2 and the start state hold the start sets, without position 0 when anchored; the store for HAT is in row 3, and all cached entries are right exactly when that is harmless |
| `ReAutomaton.Fa.Cgoto` | awk/b.c:861-950 | the returned state has the positions of the follow-set step, old states stay, a new state's row is emptied, and the entry is stored at the flat index of row and letter, HAT included; 0 only with a full table |
| `ReAutomaton.Fa.FindState` | awk/b.c:913-925 | the state with exactly this list, and 0 only if no state has it |
| `ReAutomaton.Fa.AddState` | awk/b.c:927-949 | one more state, different from all others, with an empty row; all other rows kept |
| `ReMatch.MatchMeaning` | awk/b.c:477-495 | FINAL is reached on a word just when hat and word hold a word of the expression at the end |
| `ReMatch.Match` | awk/b.c:477-495 | true just when some prefix of the ended string leads to FINAL, whatever was cached before, the stray entry included |
| `ReMatch.Try` | awk/b.c:513-535 | one start: the longest length that leads to FINAL, or none |
| `ReMatch.Pmatch` | awk/b.c:497-554 | the least start from which some length leads to FINAL, and the greatest length there; false only if there is none |
| `ReMatch.Nematch` | awk/b.c:556-612 | the same over nonempty matches |
| `ReMatch.HitsAreMatches` | awk/b.c:497-612 | what the code takes is what the language of the expression matches, unless the stray entry gets in the way |
| `ReSearch.MatchRe` | awk/b.c:477-495 | from a fresh automaton: true just when some prefix of HAT, string, NUL is any letters followed by a word of the expression, for a text without byte 2, a harmless stray entry, or an expression on which byte 2 in front never decides; on every text, what the automaton with that entry takes; for a class, or a negated class, just when some character is in it, or is not |
| `ReSearch.PmatchRe` | awk/b.c:497-554 | from a fresh automaton: leftmost and longest in the language of the expression, for a text without byte 2, a harmless stray entry, or an expression on which byte 2 in front only lengthens the longest match; on every text, leftmost and longest in what the automaton with that entry takes; for a class, or a negated class, the first character in it, or not in it |
| `ReSearch.NematchRe` | awk/b.c:556-612 | the same among the nonempty matches |
| `ReAutomaton.Cells` | awk/awk.h:211-226 | rows of the table do not overlap, and HAT in row 2 is byte 2 in row 3 |
| `ReAutomaton.ClearedCell` | awk/b.c:935-936 | emptying a row empties exactly its cells, so a store that fell into the row of a state still to come is gone when that state is made |
| `ReAutomaton.Fa.HatLater` | awk/b.c:165-170 | where the hat leads, and the one entry its store leaves in row 3 |
| `ReAutomaton.Fa.EntriesRightIff` | awk/b.c:861-950 | at any time all cached entries are right if and only if the hat made no new state, or byte 2 leads from that state back to it |
| `ReHat.RanIsRun` | awk/b.c:477-495 | with a harmless stray entry, or without byte 2 in the text, every state is the one the follow-set steps lead to |
| `ReHat.RightStatesIff` | awk/b.c:477-495 | from the hat state all texts lead to the right states if and only if the stray entry is harmless |
| `ReHat.RightAnswersIff` | awk/b.c:477-495 | a hat state of its own judges every word that a text can hold rightly if and only if byte 2 in front of such a word means nothing to what may follow |
| `ReHat.NoHatNoState` | awk/b.c:152-182 | an expression without ^ has no hat state of its own |
| `ReMatch.Advance` | awk/b.c:861-950 | one transition, cached or made now, is the follow-set step or the stray loop, and the start states stay as they are |
| `ReMatch.SureWithoutHat` | awk/b.c:477-612 | without ^ in the expression the matchers are right on every text |
| `ReStray.MatchRightIff` | awk/b.c:477-495 | match is right on every text if and only if the hat makes no state of its own or byte 2 in front of a text never decides whether there is a match |
| `ReLongest.AnchoredRightIff` | awk/b.c:497-612 | pmatch and nematch are each right on every text if and only if the hat makes no state of its own or byte 2 in front of a text makes the longest match at its start just one longer |
| `ReLongest.BestIsMost` | awk/b.c:507-530 | the recursive longest length is taken and is the greatest one taken |
| `ReLongest.BestRight` | awk/b.c:507-552 | if byte 2 in front only lengthens, the code's longest length is right from every state and on every text |
| `ReLongest.RightNeedsBest` | awk/b.c:497-612 | right answers on all texts need the right longest length at the start of each |
| `ReLongest.SkippingExample` | awk/b.c:152-182 | for ^, bytes 2, a the hat makes a state of its own and all answers are right |
| `ReStray.StrayExample` | awk/b.c:152-182 | for ^a and the text of byte 2 and a, the code finds a match of length 2 at the start where there is none |
| `BcCode.PushIndex` | bc/vector.c:99-114 | an index operand: its length, then its bytes, at most eight |
| `BcLaws.OperandBytes` | bc/vector.c:99-114 | the length byte is the number of bytes the index needs, and byte i is its digit of weight 256^i |
| `BcCode.ReadLoop` | bc/program.c:100-111 | the byte loop reads the index and steps past it |
| `BcCode.IndexRoundTrip` | bc/vector.c:99-114 | what was pushed is what is read, wherever it stands in the code |
| `BcCode.OperandsRoundTrip` | bc/program.c:1017-1030 | the indices of an instruction, two for a call, are read as they were pushed |
| `BcParser.Parser.SetLabel` | bc/bc_parse.c:97-109 | the topmost exit label is set to the present end of the code and closed |
| `BcParser.Parser.LoopExit` | bc/bc_parse.c:834-858 | break jumps to the nearest enclosing loop's exit label, continue to the nearest condition label |
| `BcParser.Parser.CompileIf` | bc/bc_parse.c:676-705 | code and labels of an if without else |
| `BcParser.Parser.CompileIfElse` | bc/bc_parse.c:676-723 | code and labels of an if with else |
| `BcParser.Parser.CompileWhile` | bc/bc_parse.c:725-754 | code and labels of a while loop |
| `BcParser.Parser.CompileFor` | bc/bc_parse.c:756-832 | code and labels of a for loop, the update before the body |
| `BcParser.Parser.EndLoop` | bc/bc_parse.c:588-610 | jump back to the condition, and the exit is here |
| `BcParser.Parser.Compile` | bc/bc_parse.c:569-858 | the code and labels of the statement tree, with every label and exit it opens closed again |
| `BcHalts.CompileProgram` | bc/bc_parse.c:97-132 | a whole program compiles to code whose labels are all set, to instruction boundaries inside it, so none is the unset mark while the code is shorter than that |
| `BcHalts.CompileAndRun` | bc/program.c:1670-1712 | a compiled program run for so many instructions never jumps to an unset label, and if it gets to the end of the code it ends as the statement does |
| `BcHalts.LabelsOnBoundaries` | bc/bc_parse.c:97-132 | every label of a statement is set to an instruction boundary |
| `BcRun.Exec` | bc/program.c:1670-1712 | the dispatch loop is the step function repeated |
| `BcRun.Forward` | bc/bc_parse.c:670-858 | if the statement ends, so does its code, at the right place and with the same effect, break and continue included |
| `BcLaws.Conditions` | bc/bc_parse.c:670-754 | a condition that is not zero lets the statement under it run, zero passes it over or ends the loop, and the value is popped |
| `BcLaws.Unrolled` | bc/bc_parse.c:725-754 | a while loop is its body and then the loop again, early on continue; break ends it |
| `BcLaws.ForIsWhile` | bc/bc_parse.c:756-832 | a for loop without continue is a while loop with the update after the body |
| `BcLaws.ForContinues` | bc/bc_parse.c:834-858 | in a for loop continue skips the rest of the body but not the update |
| `BcRun.JumpStep` | bc/program.c:1690-1712 | JUMP goes to its label, JUMP_ZERO only on zero, popping the value either way |
| `BcHalts.Backward` | bc/bc_parse.c:670-858 | if the code halts, the statement ends |
| `BcHalts.Preserved` | bc/bc_parse.c:670-858 | the byte code ends in a state just when the structured statement does |
| `BcHalts.MoreFuel` | bc/bc_parse.c:670-858 | the structured semantics does not depend on how much fuel it is given |
| `BcHalts.SameEnd` | bc/bc_parse.c:670-858 | a run of the code has one end |
| `BcExpr.PostEvaluates` | bc/bc_parse.c:134-155 | postfix code of a tree never lacks operands and pushes exactly the tree's value |
| `BcExpr.SpinePops` | bc/bc_parse.c:134-155 | an arriving operator pops the whole right spine of a tree it may take as left operand |
| `BcSound.Emit` | bc/bc_parse.c:134-155 | emitting the top operator builds a tree the rest of the stack can take, spelling the same tokens |
| `BcSound.PopForKeeps` | bc/bc_parse.c:134-155 | bc_parse_operator leaves the arriving operator's left operand whole |
| `BcSound.PopToParenKeeps` | bc/bc_parse.c:157-170 | bc_parse_rightParen gathers everything since the parenthesis into one tree |
| `BcSound.TokenStep` | bc/bc_parse.c:1285-1500 | every accepted token keeps flags, stacks and code in step with the trees read so far |
| `BcSound.Sound` | bc/bc_parse.c:1258-1537 | accepted tokens are the reading of a tree that the precedence table allows, and the code is its postfix |
| `BcComplete.Complete` | bc/bc_parse.c:1258-1537 | a tree the table allows is accepted if and only if each `!` follows another `!`, or a binary operator or the start with only opening parentheses in between; then the code is its postfix |
| `BcComplete.AcceptedIff` | bc/bc_parse.c:1258-1537 | exactly the readings of such trees are accepted |
| `BcComplete.OneMeaning` | bc/bc_parse.c:1258-1537 | all trees behind accepted tokens have the same postfix; it leaves exactly one more value, the tree's |
| `BcComplete.UniqueTree` | bc/bc_parse.c:1258-1537 | accepted tokens are the reading of exactly one tree, parentheses included |
| `BcComplete.LeftTaken` | bc/bc_parse.c:134-155 | what waits on the stack does not give way inside its right operand |
| `BcExprParser.Parser.Operator` | bc/bc_parse.c:134-155 | the loop over the shared stack pops and emits exactly what the table says, and counts |
| `BcExprParser.Parser.RightParen` | bc/bc_parse.c:157-170 | the loop emits down to the parenthesis and removes it |
| `BcExprParser.Parser.MinusSign` | bc/bc_parse.c:462-480 | a minus sign after an operand is binary, otherwise a negation is pushed |
| `BcExprParser.Parser.OneToken` | bc/bc_parse.c:1285-1500 | one round of the loop, with everything below the expression untouched |
| `BcExprParser.Parser.ReadTokens` | bc/bc_parse.c:1285-1503 | the loop gets as far as the token function does |
| `BcExprParser.Parser.Flush` | bc/bc_parse.c:1508-1527 | the operators left are emitted, or an open parenthesis is reported |
| `BcGrammar.GrammarIsTable` | bc/data.c:709-731 | the table of precedences and sides allows exactly the trees of a grammar with one rule for each kind of operator |
| `BcGrammar.GrammarRead` | bc/bc_parse.c:1258-1537 | every expression of that grammar with its `!` in place is read as its postfix |
| `BcGrammar.TwoOperators` | bc/data.c:709-731 | of two operators in a row between any operands the one of the tighter row goes first; in one row the left one, but the right one for @ and ^ |
| `BcGrammar.Boundaries` | bc/data.c:709-731 | the postfix of two operators from neighbouring rows, for every boundary and side: a+b*c is a b c * + |
| `BcGrammar.SameRow` | bc/data.c:709-731 | of two operators of one row: a-b-c is a b - c -, a^b^c is a b c ^ ^ |
| `BcGrammar.SignFirst` | bc/bc_parse.c:462-480 | a minus sign or `!` in front belongs to the operand right after it, whatever operator follows |
| `BcGrammar.SmallTexts` | bc/bc_parse.c:1258-1537 | signs are applied from the inside, parentheses leave no code |
| `BcGrammar.FirstRefused` | bc/bc_parse.c:1285-1500 | no operator but a minus sign or `!` begins an expression |
| `BcGrammar.SecondRefused` | bc/bc_parse.c:1285-1500 | two numbers in a row, `!` after a minus sign, and empty parentheses are refused, whatever follows |
| `BcGrammar.OperandOrder` | bc/program.c:326-424 | the code of two numbers and an operator applies it with the left number first |
| `BcExprParser.Parser.ParseExpr` | bc/bc_parse.c:1258-1530 | accepts exactly the readings of well-formed trees, appends the postfix of every such tree and restores the operator stack; three numbers with two operators are grouped by the rows of operators written out |
| `BcMemory.BoundContents` | bc/program.c:720-810 | by copy or by reference an array parameter starts with the caller's contents |
| `BcMemory.CopiedTop` | bc/program.c:735-810 | a look at the top entry gives the number itself, the variable's newest entry, the array's contents, or the entry a reference leads to |
| `BcMemory.CopiedGrown` | bc/program.c:720-810 | reading the caller's entry below a fresh push gives the caller's value |
| `BcBinding.BindOneValue` | bc/program.c:1043-1064 | each parameter gets the caller's value although earlier ones were pushed |
| `BcBinding.SimultaneousIff` | bc/program.c:1017-1082 | a call binds every parameter to the caller's value of its argument, and zeroes the other auto variables, if and only if no name is declared both as array and as reference |
| `BcBinding.CalleeValues` | bc/program.c:1017-1082 | in a callee without clashes each variable parameter is the number given or the newest entry of the caller's variable, each array parameter the caller's contents or a reference to them, and every other name is 0 |
| `BcBinding.ClashExample` | bc/program.c:1043-1064 | with a[] and *a[] both declared, a third parameter gets the array meant for *a |
| `BcBinding.ClashBreaks` | bc/lang.c:67-91 | two declarations of one name that bc_func_insert lets through can never both have their expected entry on top |
| `BcCalls.PopCalled` | bc/program.c:1017-1144 | removing the auto variables' entries undoes a call exactly |
| `BcCalls.StepStays` | bc/program.c:1017-1144 | every step inside a call keeps what lies below it |
| `BcCalls.Balanced` | bc/program.c:1017-1144 | over any run from a call to its return, with any nesting: all stack depths restored, the function's own variables unchanged, one result above the caller's others, globals restored when shielded |
| `BcCalls.ReturnLeaves` | bc/program.c:1089-1144 | a return leaves one result: the number on top or the newest value of the variable on top, 0, or void |
| `BcCalls.StepSafe` | bc/program.c:1017-1144 | each step keeps every reference naming an array and every stack nonempty, now and after all pending returns |
| `BcCalls.RunSafe` | bc/program.c:1017-1144 | so does every run |
| `BcOwn.ParsedWorks` | bc/program.c:404-424 | every instruction of the code of an accepted expression uses only results pushed since it began, so the results below the function's frame stay, and one value is left |
| `BcOwn.ArgumentsOwn` | bc/program.c:1028-1034 | a call whose arguments are expressions takes them all from its own function's results, in order, and leaves the rest |
| `BcVm.Vm.CopyToVar` | bc/program.c:720-810 | one parameter: fails just on a kind mismatch, otherwise pushes the copied entry and drops the argument; for a variable that is its newest entry, or the one below if its stack was pushed on |
| `BcVm.Vm.NotPushed` | bc/program.c:1053-1060 | whether an earlier parameter of this call was pushed where the argument lives |
| `BcVm.Vm.PushParams` | bc/program.c:1043-1064 | all parameters, last first; succeeds exactly when every argument fits |
| `BcVm.Vm.PushLocals` | bc/program.c:1066-1082 | the remaining auto variables start at zero |
| `BcVm.Vm.Call` | bc/program.c:1017-1087 | the whole state after a call; fails exactly on a wrong number or kind of arguments; without clashes all names have the caller's values, and the globals are saved when shielded |
| `BcVm.Vm.Return` | bc/program.c:1089-1144 | the whole state after a return, with the value it leaves and the globals it restores; no stack is popped empty and references stay sound |
| `ColSort.ColumnsStable` | col/col.c:391-428 | the order by columns is sorted and keeps each column's order |
| `ColSort.StableUnique` | col/col.c:391-428 | there is only one stable order by column |
| `ColSort.SlotFree` | col/col.c:416-428 | no character is placed where another already is |
| `ColSort.CountingSort` | col/col.c:391-428 | the counting sort yields the line column by column |
| `ColSort.RunningTotal` | col/col.c:416-424 | from counts to the place of each column's first character |
| `ColRender.RenderReads` | col/col.c:430-473 | reading the output of a sorted line gives the same characters, columns and sets |
| `ColRender.ReadGap` | col/col.c:443-458 | tabs and spaces lead to exactly the wanted column |
| `ColCodes.ReadMoves` | col/col.c:156-217 | backspace, carriage return, space and tab as code numbers and columns; a tab leads to the next multiple of 8 |
| `ColCodes.ReadOthers` | col/col.c:156-217 | SI and SO choose the set, 33 to 126 are put on the line, other codes do nothing |
| `ColCodes.LeavingCodes` | col/col.c:156-217 | the codes that leave a line are 10, 11 and 27 |
| `ColCodes.GapIs` | col/col.c:443-458 | one tab for every multiple of 8 passed, then spaces, if asked for and the gap is wider than one column; else spaces |
| `ColCodes.GapShortest` | col/col.c:443-458 | no other tabs and spaces lead there in fewer characters |
| `ColRender.LastsAre` | col/col.c:437-439 | without backspaces each column keeps its last character |
| `ColRender.RoundTrip` | col/col.c:381-474 | reading a printed line back gives its entries stably sorted by column (only the last of each column without backspaces), and both sides end in the same character set |
| `ColRender.AlreadyOrdered` | col/col.c:391-430 | a line that needs no sorting is printed as it stands |
| `ColRender.Idempotent` | col/col.c:381-474 | printing what was read back prints the same bytes again |
| `ColRender.FlushedStays` | col/col.c:381-474 | what is printed for a line holds no newline, vertical tab or escape |
| `ColLine.PrintAndRead` | col/col.c:156-474 | a line printed and read back by the two routines is stably sorted by column (the last of each column without backspaces), with the same character set, and printed again gives the same output |
| `ColLine.Line.Add` | col/col.c:284-298 | the character is appended, and the sort flag stays right |
| `ColLine.Line.ReadLine` | col/col.c:156-298 | the input loop on one line ends where the reading function does |
| `ColLine.Printer.PutGap` | col/col.c:443-458 | the tabs and spaces from one column to a later one |
| `ColLine.Printer.PutStrikes` | col/col.c:461-472 | the characters of one column struck over each other, with set shifts |
| `ColLine.Printer.PutColumn` | col/col.c:431-473 | one column moves the printer on and leaves exactly the rest to print |
| `ColLine.Printer.FlushLine` | col/col.c:381-474 | the output is the line's rendering, and the printer ends in its last character set |

## Left out

- Signals, allocation failure and capacities of growing vectors; input and output errors.
- Limb arrays: `num`, `stack`, `ops`, `code` and the like are `seq` fields that methods reassign, so aliasing of limb
  buffers between records is not modelled. A result record is always fresh; the cases where C passes the same record as
  operand and result go through `bc_num_binary`'s copy.
- NumMul.M: states no POSIX scale for products on the one-limb fast path, because the code gives them scale 0.
- NumPow.Power: does not model wrap-around of `scale * pow` in `size_t`; it takes an exact power of 2^64 fraction digits
  or more, whose squares the loop would have to hold.
- NumModexp.Modexp: states the remainder's bound only for a nonzero exponent; with exponent zero the code answers 1
  even for modulus 1.
- NumPrint.PrintInteger: models the integer part only; the fraction digits of `bc_num_printNum`, line wrapping and the
  letters of `bc_num_printHex` are left out.
- NumDecimal.ParseDecimal: models base ten; `bc_num_parseBase` is left out.
- `bc_num_sqrt`, whose stopping rule is a heuristic; `bc_num_cmp`, whose answer on two negative numbers of different
  length ignores the sign; the one-limb path of `bc_num_divmod`, which never sets a sign; `bc_num_place`,
  `bc_num_left`, `bc_num_right`, which add only argument conversion to the shifts.
- Compressor.Writer.Write: an empty stream (for which no header is written) is not modelled. The ratio test of `cl_block`
  is modelled, but the coding is proved right for any choice of when to clear.
- Decompressor.Reader.constructor: takes a file that the writer can have produced.
- Decompressor.Reader.Read: models files the writer produces; malformed or truncated streams, streams without block
  mode and short reads from the file are left out, and so is file metadata.
- ReMatch.Match: reports failure when all states are in use; the reset of the state table at that point, and runs after
  it, are not modelled. The same holds for `Pmatch` and `Nematch`.
- The regular expression parser and lexer of awk, bracket-expression notation and the cache of compiled expressions.
  Parse trees are values, and a node's parent link is the path from it to the root.
- BcParser.Parser.Compile: statement trees come bracketed; newline, brace and else lookahead in `bc_parse_endBody` and
  `bc_parse_body` is left out, and straight-line code is a list of uninterpreted instructions.
- BcExprParser.Parser.ParseExpr: operands are numbers or names without calls or subscripts. Assignment, increment and
  decrement, the truncation operator `$`, builtin functions, POSIX warnings and the test of the token after the
  expression are left out.
- BcVm.Vm.CopyToVar: array elements as arguments are left out, because they are resolved against the stack top when used;
  so are dc's strings and registers.
- BcVm.Vm.Call: the same arguments are left out.
- BcCalls.Balanced: takes it that statements use only results their own function pushed; for expressions and for the
  arguments of a call that is proved (`BcOwn.ParsedWorks`, `BcOwn.ArgumentsOwn`).
- ColLine.Line.ReadLine: one line at a time; line feeds, half lines, reverse motion and the buffering of lines with its
  warning are left out.
- `ctags`, `cal`, `cut`, `comm`, `cmp` and the other utilities; `awk`'s interpreter and hash table; `dc`; and the gzip
  side of `compress`.
