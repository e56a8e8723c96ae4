# Verified model of the PyRust built-in type layer

This project models, in Dafny 4.11, the algorithmic cores of PyRust's built-in types and proves what
they compute. Each module follows one source file of `crates/pyrust-builtins/src` (and the parts of
`pyrust-core` it leans on). Code that is an expression in the source is a function here; code that
updates an object or runs a loop is a class or a method proved against a specification function, whose
own properties are then proved as lemmas.

| module | what it models |
|---|---|
| `Basics` | options, results, bytes and machine words |
| `Powers` | shifts, powers of two, bit lengths and the reals `m * 2^e`, by repeated doubling |
| `Doubles` | binary64 patterns, their values, nearest-even, `float.as_integer_ratio` |
| `HexRounding` | rounding a hexadecimal mantissa to a double, with its 64-bit exponent sums |
| `HexCorrectness` | when that rounding is correct: overflow, truncation, wrap-around |
| `HexStrings` | `float.fromhex` and `float.hex` as parser and printer |
| `HexLetters` | what single characters mean there: digits, letter case, white space, names, the printed form |
| `HexGrammar` | which strings `float.fromhex` accepts |
| `IntBytes` | `int.to_bytes`, `int.from_bytes`, `int.bit_length` |
| `Sorting` | what a stable sort is, and that there is only one |
| `ListSort` | `list.sort`: native, snapshot and keyed routes, comparisons that raise |
| `PySets` | set algebra on key tables where equal keys stay distinguishable |
| `SetMembers` | which keys each set operation leaves, told from its operands, and what a bad argument does |
| `SetAliases` | intersections whose arguments include the receiver itself |
| `Slices` | `slice.indices` against slicing over unbounded integers |
| `ByteArrays` | slice reads, assignments and deletions of `bytearray` |
| `OrderedGuard` | the iteration guard of `collections.OrderedDict`, over whole runs |
| `UnionTypes` | Union types: construction, equality, hashing; parameters of generic aliases |
| `IterHelpers` | `zip`, drained first and in lockstep, with `strict` |
| `FileCursor` | the read cursor of text and binary files |
| `ClassMethods` | native `classmethod` binding and the plan that caches it |

Results in brief:

- **Floats.** For every pattern but nan, `fromhex(x.hex())` gives back all 64 bits. `as_integer_ratio`
  is exact and in lowest terms, and denotes the same rational as the printed string. `fromhex` rounds
  correctly exactly when the rounded exponent fits in 64 bits and the value is at least 2^-1022 or the
  truncation to 2^-1074 is harmless; both failures have a concrete input. It accepts exactly the strings of
  a stated grammar, in any letter case. (The doc comments claim CPython's results without exception; the model follows the
  code.)
- **Integers.** Encoding and decoding are inverse in both directions, for both byte orders, signed and
  unsigned, every length including 0; both encoders raise exactly outside the range, and each byte has the weight its
  place in either order gives it.
- **Sorting.** A stable sort under a weak order is unique, so the three routes leave the same list, also
  with `reverse`: numbers by value, strings by the first differing byte. A comparison that raises leaves the
  list alone.
- **Sets.** For every argument list, `intersection` is `intersection_update` restarted at the last place
  where the receiver is met after arguments that have all of its classes; from this, exactly when the two
  keep the same objects, as a condition on the operands. Up to equality they always agree.
- **Slices.** Saturating bounds and steps to 64 bits changes no index. `bytearray` resolves bounds on its
  own and agrees with Python exactly when its operands are integers and a `True` start does not step
  over the only byte.
- **Guard.** Over every run, the sticky size arm is chosen exactly after a clear of the watched,
  non-empty mapping with no relink since; eviction at 1024 marks, the saturated counter and replacements of
  equal size are settled exactly, with examples.
- **Unions.** Associative with identical order, commutative under equality, idempotent exactly for
  classes and functions. Equality is symmetric at a value exactly when every union inside it, at any depth,
  has distinct members; the others equal a value that can be constructed and does not equal them. Equal type
  expressions have equal recursive hashes, at any depth.
- **zip.** The drained and lockstep forms report the same rows and the same first ending, and part only
  after an error has been raised.
- **Files.** Over any run of reads the pieces add up to the content passed over; a text seek stays on a
  character exactly when the byte it goes to is not a continuation byte.
- **classmethod.** A plan exists exactly for admissible descriptors that bind, and gives the generic
  result exactly while the owner is alive and reached and the qualified name is unchanged.

## Model

| member | source | states |
|---|---|---|
| Doubles.Pack | crates/pyrust-builtins/src/float.rs:258-276 | a pattern assembled from sign, biased exponent and fraction has those three fields |
| Doubles.PackFields | crates/pyrust-builtins/src/float.rs:291-300 | taking a pattern apart and assembling it again gives the pattern |
| Doubles.Landmarks | crates/pyrust-builtins/src/float.rs:291-300 | the patterns of one, of the least double of each sign and of the greatest finite double denote those numbers |
| Doubles.AsIntegerRatioExact | crates/pyrust-builtins/src/float.rs:291-338 | for every finite double the fraction equals it exactly, the denominator is a power of two, and no integer above one divides both parts |
| Doubles.RatioShape | crates/pyrust-builtins/src/float.rs:303-338 | the code shifts an odd integer by the exponent that remains once all trailing zeros are out |
| HexRounding.WindowRounds | crates/pyrust-builtins/src/float.rs:219-243 | the 53-bit mantissa is the rounding of the exact value, ties to even, inside the cell that holds it |
| HexRounding.NormalIsNearest | crates/pyrust-builtins/src/float.rs:202-262 | from 2^-1022 up to the overflow threshold the result is the double of all doubles nearest to the exact value, ties to even, carry included |
| HexCorrectness.OverflowExactly | crates/pyrust-builtins/src/float.rs:246-257 | the rounded exponent exceeds 1023 exactly when the value reaches 2^1024 - 2^970 |
| HexRounding.EncodesSubnormal | crates/pyrust-builtins/src/float.rs:263-276 | below 2^-1022 the significand is the 53-bit mantissa shifted right, and its value a multiple of 2^-1074 |
| HexCorrectness.SubnormalIsTruncated | crates/pyrust-builtins/src/float.rs:219-276 | there the result has the right sign, is less than 2^-1074 away, and is exact when the value is a double |
| HexCorrectness.SubnormalNearestIff | crates/pyrust-builtins/src/float.rs:219-276 | there the result is nearest-even exactly when the bits dropped by the final shift are harmless |
| HexCorrectness.RoundToDoubleIsCorrect | crates/pyrust-builtins/src/float.rs:202-279 | with unbounded exponents, rounding is correct exactly from 2^-1022 up or where truncation is harmless |
| HexRounding.AssembleWraps | crates/pyrust-builtins/src/float.rs:202-250 | the 64-bit sums give the true rounded exponent modulo 2^64, wherever they wrap |
| HexCorrectness.WrappingIsExact | crates/pyrust-builtins/src/float.rs:202-279 | the wrapping code gives the unbounded result exactly when the rounded exponent fits in 64 bits |
| HexCorrectness.WrappedIsWrong | crates/pyrust-builtins/src/float.rs:202-279 | an exponent that does not fit never yields a correctly rounded result |
| HexGrammar.AcceptedExactly | crates/pyrust-builtins/src/float.rs:147-198 | a string is accepted as a literal exactly when it spells it: sign, prefix, digits around a point with one at least, p and a 64-bit exponent |
| HexGrammar.RejectedExactly | crates/pyrust-builtins/src/float.rs:129-198 | `ValueError` is raised exactly on strings that, trimmed, name no special value and spell no literal |
| HexStrings.MantissaDenotes | crates/pyrust-builtins/src/float.rs:188-203 | joining integer and fraction digits and lowering the exponent by four a digit keeps the denoted value |
| HexStrings.LiteralsAreAssembled | crates/pyrust-builtins/src/float.rs:129-147 | no spelling of inf or nan shadows a literal with an exponent |
| HexStrings.FromHexRounds | crates/pyrust-builtins/src/float.rs:129-279 | on accepted literals overflow is raised exactly from the threshold up, and the result is roundTiesToEven exactly from 2^-1022 up or where harmless |
| HexStrings.FromHexCorrectExactly | crates/pyrust-builtins/src/float.rs:129-279 | over all literals a machine can hold, the exact condition for a correctly rounded result, wrap-around included |
| HexStrings.FromHexSubnormal | crates/pyrust-builtins/src/float.rs:219-279 | under 2^-1022 `fromhex` is within 2^-1074 and exact on representable values |
| HexStrings.PrintedDenotes | crates/pyrust-builtins/src/float.rs:353-387 | the string printed for a finite double parses, and denotes that double exactly |
| HexStrings.HexRoundTrip | crates/pyrust-builtins/src/float.rs:129-387 | `fromhex(x.hex())` gives back every bit, for zeros of both signs, subnormals and infinities |
| HexStrings.RatioAgreesWithHex | crates/pyrust-builtins/src/float.rs:291-387 | `as_integer_ratio` and the printed string denote the same rational |
| HexStrings.TruncationExample | crates/pyrust-builtins/src/float.rs:263-276 | `0x1.8p-1074`, 1.5 units of 2^-1074, comes out as one unit, not the two that ties-to-even gives |
| HexStrings.WrapExample | crates/pyrust-builtins/src/float.rs:203-217 | `0x2.0p+9223372036854775807` wraps and comes out as zero |
| HexLetters.HexDigitsExactly | crates/pyrust-builtins/src/float.rs:182-196 | a character is a digit exactly when it is one of `0123456789abcdef` or `0123456789ABCDEF`, and it counts for its place there |
| HexLetters.PlaceValue | crates/pyrust-builtins/src/float.rs:168-196 | hexadecimal and decimal numerals are read by place value, a decimal digit counting for its place in `0123456789` |
| HexLetters.FromHexIgnoresCase | crates/pyrust-builtins/src/float.rs:129-198 | strings that differ in letter case only give the same result, whatever it is |
| HexLetters.ToLowerExactly | crates/pyrust-builtins/src/float.rs:133-144 | letter case pairs the 26 capitals with their small letters and leaves every other character alone |
| HexLetters.TrimExactly | crates/pyrust-builtins/src/float.rs:130 | trimming takes off white space, and all there is, at both ends |
| HexLetters.WhitespaceExactly | crates/pyrust-builtins/src/float.rs:130 | white space is what the Unicode property White_Space lists |
| HexLetters.SpecialNamesExactly | crates/pyrust-builtins/src/float.rs:132-145 | an infinity or nan exactly for its name in any letter case, after the signs allowed |
| HexLetters.PrintedForm | crates/pyrust-builtins/src/float.rs:364-387 | the printed text character by character: thirteen small digits, the exponent always signed, no idle zero in it |
| HexLetters.PrintedNames | crates/pyrust-builtins/src/float.rs:354-363 | infinities and nan are printed by name, and nan is read back as nan |
| IntBytes.DecodeEncode | crates/pyrust-builtins/src/int.rs:392-510 | every integer in range encodes to `length` bytes that decode to it, in each order and signedness |
| IntBytes.EncodeDecode | crates/pyrust-builtins/src/int.rs:636-659 | every byte string decodes to an integer in range that encodes back to it |
| IntBytes.EncodedByte | crates/pyrust-builtins/src/int.rs:392-510 | byte k is the digit of weight 256^k little-endian and of 256^(length-1-k) big-endian, also of negative integers |
| IntBytes.DecodedByte | crates/pyrust-builtins/src/int.rs:640-653 | a first byte adds 256^n times itself big-endian, a last byte little-endian, n being the number of the others |
| IntBytes.DecodedSign | crates/pyrust-builtins/src/int.rs:640-653 | signed is unsigned less 256^length when the heaviest byte, first or last, has its top bit set |
| IntBytes.IntI64ToBytes | crates/pyrust-builtins/src/int.rs:392-454 | the machine-word encoder returns the specified bytes or error for every word, length, order and signedness |
| IntBytes.BigintToBytes | crates/pyrust-builtins/src/int.rs:456-510 | the big-integer encoder returns the same specified bytes or error |
| IntBytes.FillBuffer | crates/pyrust-builtins/src/int.rs:428-434 | the buffer holds the bytes, then the fill, in the requested order |
| IntBytes.ReverseInPlace | crates/pyrust-builtins/src/int.rs:431-433 | reversing in place mirrors the buffer |
| IntBytes.FillIsDigits | crates/pyrust-builtins/src/int.rs:427-430 | filling up with the sign byte is the wider two's complement encoding |
| IntBytes.BitLengthArmsAgree | crates/pyrust-builtins/src/int.rs:81-95 | the leading-zeros arm and the big-integer arm of `bit_length` count the same bits |
| IntBytes.BitLengthIsLeast | crates/pyrust-builtins/src/int.rs:81-95 | the bit length is the least k with the integer strictly between -2^k and 2^k |
| IntBytes.UnsignedFitsByBitLength | crates/pyrust-builtins/src/int.rs:434-447 | a negative integer is refused as such; another encodes unsigned exactly when 8 * length >= its bit length and is too big otherwise |
| IntBytes.SignedFitsByBitLength | crates/pyrust-builtins/src/int.rs:392-426 | an integer encodes signed exactly when there is one bit more than it needs, and zero also in no bytes; otherwise it is too big |
| Sorting.SortIsStable | crates/pyrust-builtins/src/list.rs:366-419 | the model of the standard sort permutes, orders, and keeps ties in place |
| Sorting.StableSortIsUnique | crates/pyrust-builtins/src/list.rs:366-475 | under a weak order a list is a stable sort exactly when it is the one computed |
| Sorting.ReverseSort | crates/pyrust-builtins/src/list.rs:381-395 | exchanging the comparator's arguments is sorting the reversed list and reversing, ties in original order |
| ListSort.SortInPlace | crates/pyrust-builtins/src/list.rs:409-423 | sorting an array with a closure that captures the first error leaves what the specification does |
| ListSort.ClassifySort | crates/pyrust-core/src/core/builtin_types.rs:376-423 | one pass finds all-int, all-str, an instance, or neither |
| ListSort.List.SortByCmp | crates/pyrust-builtins/src/list.rs:366-427 | the list is written back when nothing was raised, and then is the plain sort; otherwise the error is returned and the list untouched; lists of integers or of strings always end in increasing order, or decreasing with `reverse` |
| ListSort.List.SortWithPrecomputedKeys | crates/pyrust-builtins/src/list.rs:431-475 | pairs are sorted by key, which is the plain sort when nothing was raised, and the items written back; or the error is raised and nothing changes |
| ListSort.SortWithoutError | crates/pyrust-builtins/src/list.rs:409-423 | when no comparison that was made raised, the error-capturing sort left the plain sort |
| ListSort.SortError | crates/pyrust-builtins/src/list.rs:409-426 | a raised error was raised by comparing two of the elements |
| ListSort.KeyedRoute | crates/pyrust-builtins/src/list.rs:431-475 | the keyed route sorts the items through their keys unless a comparison it makes raises, and none does when no two keys raise |
| ListSort.KeysInOrder | crates/pyrust-builtins/src/list.rs:431-475 | with integer or string keys nothing is raised, and the pairs end in the order of their keys |
| ListSort.ZipAt | crates/pyrust-builtins/src/list.rs:440 | key i is paired with item i |
| ListSort.InOrder | crates/pyrust-builtins/src/list.rs:409-423 | under any comparator that orders weakly no element ends up after a greater one, and none is lost |
| ListSort.LexExactly | crates/pyrust-builtins/src/list.rs:387-395 | strings are compared by the first byte that differs, a proper prefix coming first |
| ListSort.NativeRouteAgrees | crates/pyrust-builtins/src/list.rs:376-397 | on all-int or all-str lists the native comparators give the interpreter's order |
| ListSort.RoutesAgree | crates/pyrust-builtins/src/list.rs:366-475 | native, snapshot and identity-keyed routes leave the same list, the only stable sort, in both directions |
| PySets.Table.Retain | crates/pyrust-core/src/core/prelude.rs:892-935 | the one-pass compaction keeps exactly the keys asked for, in order |
| PySets.Table.Extend | crates/pyrust-core/src/core/prelude.rs:823-829 | extending keeps the first representative of each class |
| PySets.IntersectInPlace | crates/pyrust-builtins/src/set.rs:425-439 | all three branches leave what the owned and the borrowed form return |
| PySets.IntersectionMembers | crates/pyrust-builtins/src/set.rs:395-463 | an intersection has exactly the classes both sides have, with objects and order of the scanned side |
| PySets.SubtractSnapshot | crates/pyrust-builtins/src/set.rs:614-622 | nothing, one lookup or one pass: each removes exactly the snapshot's classes |
| PySets.RangeMembers | crates/pyrust-builtins/src/set.rs:356-372 | a range argument yields the unbounded walk although the addition stops at overflow |
| PySets.SetObject.IntersectionUpdate | crates/pyrust-builtins/src/set.rs:249-258 | the arm applies argument by argument, and an error keeps what came before |
| PySets.SetObject.DifferenceUpdate | crates/pyrust-builtins/src/set.rs:259-267 | the same for difference |
| PySets.SetObject.SymmetricDifferenceUpdate | crates/pyrust-builtins/src/set.rs:268-292 | the in-place form leaves exactly the sequence the other form returns |
| PySets.SetObject.SymmetricDifferenceOf | crates/pyrust-builtins/src/set.rs:752-780 | the growing form returns that sequence |
| PySets.SetObject.Update | crates/pyrust-builtins/src/set.rs:240-248 | the arm extends by one collected argument after another |
| PySets.SetObject.Collect | crates/pyrust-builtins/src/set.rs:321-330 | every argument is snapshotted first, or the first bad one reported |
| PySets.SetObject.IntersectionOf | crates/pyrust-builtins/src/set.rs:710-732 | the loop over snapshots meets them left to right |
| PySets.SetObject.DifferenceOf | crates/pyrust-builtins/src/set.rs:734-750 | the loop subtracts every snapshot from a copy |
| PySets.SetObject.UnionOf | crates/pyrust-builtins/src/set.rs:671-708 | operands are collected, aliases skipped, sets copied into an empty result and merged otherwise |
| SetMembers.IntersectionHas | crates/pyrust-builtins/src/set.rs:710-732 | either form keeps exactly the classes of the receiver that every argument has, with any number of arguments |
| SetMembers.IntersectionOfNothing | crates/pyrust-builtins/src/set.rs:716-718 | without arguments it is a copy, and the update changes nothing |
| SetMembers.DifferenceHas | crates/pyrust-builtins/src/set.rs:734-750 | either form keeps exactly the keys of the receiver whose class no argument has |
| SetMembers.UnionHas | crates/pyrust-builtins/src/set.rs:671-708 | either form has the receiver's keys and, for every other class, the key contributed by the first argument that has it |
| SetMembers.SymmetricHas | crates/pyrust-builtins/src/set.rs:752-780 | exactly the keys of each side whose class the other lacks, the receiver's first |
| SetMembers.BadArgument | crates/pyrust-builtins/src/set.rs:240-267 | the first bad argument's error is raised; the updates keep what the arguments before it did, and the others return nothing |
| SetMembers.ExtendedExactly | crates/pyrust-core/src/core/prelude.rs:823-829 | extending adds the keys that come first of a class that was not there |
| PySets.IntersectionIsUpdate | crates/pyrust-builtins/src/set.rs:249-258 | `intersection` returns what `intersection_update` leaves, object for object, when the receiver is not a later argument |
| PySets.IntersectionClasses | crates/pyrust-builtins/src/set.rs:710-732 | up to equality the two agree for all arguments, aliased or not |
| SetAliases.IntersectionRestarts | crates/pyrust-builtins/src/set.rs:249-258 | for every argument list, `intersection` returns what `intersection_update` leaves of the arguments after the last place where the receiver is met once all of its classes are covered |
| SetAliases.AliasedExactly | crates/pyrust-builtins/src/set.rs:468-481 | for every argument list, exactly when the two keep the same objects: no such place, or a later argument is the side that survives, or the objects standing there are the receiver's own |
| SetAliases.TakenOrKept | crates/pyrust-builtins/src/set.rs:425-439 | a run of updates leaves the common classes, and the receiver's own objects when no argument is the side that survives |
| SetAliases.StandingIsLeft | crates/pyrust-builtins/src/set.rs:425-439 | after covering arguments the objects are those of the last argument that is not a larger set |
| SetAliases.CoveredExactly | crates/pyrust-builtins/src/set.rs:395-463 | the arguments have all of the receiver's classes exactly when the common part is the whole receiver |
| PySets.AliasExample | crates/pyrust-builtins/src/set.rs:468-481 | `{1}` with `[1.0]` and itself: the two forms keep different objects |
| PySets.SameError | crates/pyrust-builtins/src/set.rs:249-258 | both forms fail on the same arguments with the same error |
| PySets.DifferenceMembers | crates/pyrust-builtins/src/set.rs:259-267 | what is left is exactly the receiver's keys whose class no argument has, and nothing when the receiver is an argument |
| PySets.DifferenceIsUpdate | crates/pyrust-builtins/src/set.rs:734-750 | `difference` and `difference_update` keep the same keys, aliases included |
| PySets.SymmetricMembers | crates/pyrust-builtins/src/set.rs:752-780 | the result has exactly the classes one side has and the other lacks, none twice |
| PySets.SymmetricTwice | crates/pyrust-builtins/src/set.rs:268-292 | twice with one operand restores the classes, with itself it empties the set |
| PySets.UnionIsUpdate | crates/pyrust-builtins/src/set.rs:671-708 | `union` and `update` end with the same keys, object for object |
| Slices.WalkIsProgression | crates/pyrust-builtins/src/slice.rs:291-327 | stepping visits `start + n * step` and ends exactly where it meets the stop |
| Slices.WalkBetween | crates/pyrust-builtins/src/slice.rs:291-327 | every index lies between start and stop and the walk is strictly monotone |
| Slices.BoundMeaning | crates/pyrust-builtins/src/slice.rs:268-320 | a bound is the integer itself, counted from the end when negative, or the nearest end in that direction; `True` is one |
| Slices.IndicesMeaning | crates/pyrust-builtins/src/slice.rs:291-327 | which error a slice raises, step first, and that start and stop are those bounds |
| Slices.PlainSlices | crates/pyrust-builtins/src/slice.rs:291-327 | `[:]`, `[::-1]` and `[i:j]` within the length |
| Slices.BoundsAgree | crates/pyrust-builtins/src/slice.rs:268-320 | a saturated and clamped bound is the exact clamped bound, and valid |
| Slices.ComputeIsPython | crates/pyrust-builtins/src/slice.rs:268-327 | same errors, same indices as unbounded slicing, all valid; the triple is exact exactly when the step fits a word |
| ByteArrays.CollectSelected | crates/pyrust-builtins/src/bytearray/indexing.rs:96-134 | the saturating iterator with the length filter yields the unbounded walk's valid positions |
| ByteArrays.ByteArray.GetSlice | crates/pyrust-builtins/src/bytearray.rs:313-330 | a slice read returns the bytes at the selected positions, or the error |
| ByteArrays.ByteArray.SetSlice | crates/pyrust-builtins/src/bytearray.rs:345-393 | step 1 splices; otherwise each selected byte is replaced, or the sizes differ and nothing changes; assigning the array to itself reads it first |
| ByteArrays.ByteArray.DeleteSlice | crates/pyrust-builtins/src/bytearray.rs:409-452 | deleting equals removing the selected positions one at a time from the highest, for both step signs |
| ByteArrays.ByteArray.RetainOthers | crates/pyrust-builtins/src/bytearray.rs:436-450 | the single pass with its index counter equals those removals |
| ByteArrays.ByteArray.WriteEach | crates/pyrust-builtins/src/bytearray.rs:388-390 | the write loop is the successive replacement of each position |
| ByteArrays.AssignedReadsBack | crates/pyrust-builtins/src/bytearray.rs:345-393 | an assignment leaves the bytes before its cut, the new ones and those after; or the new ones at the selected positions and the rest as it was |
| ByteArrays.WrittenReadsBack | crates/pyrust-builtins/src/bytearray.rs:373-391 | reading the slice afterwards gives the replacement, and no other byte changed |
| ByteArrays.AscendingRises | crates/pyrust-builtins/src/bytearray.rs:432-440 | the selected positions are distinct, valid, and ascending once normalised |
| ByteArrays.DrainedIsRemoved | crates/pyrust-builtins/src/bytearray.rs:422-427 | draining a step-1 range removes exactly the selected positions |
| ByteArrays.SelectionAgrees | crates/pyrust-builtins/src/bytearray/indexing.rs:13-93 | the positions, or the error, are Python's exactly when the operands are faithful |
| ByteArrays.GetAgrees | crates/pyrust-builtins/src/bytearray.rs:313-330 | a slice read is Python's exactly when the operands are faithful |
| ByteArrays.SetAgrees | crates/pyrust-builtins/src/bytearray.rs:345-393 | so is an assignment, prefix + replacement + suffix with inverted ranges for step 1; a refused value agrees also when the positions would not |
| ByteArrays.DeleteAgrees | crates/pyrust-builtins/src/bytearray.rs:409-452 | so is a deletion |
| ByteArrays.UnfaithfulSizes | crates/pyrust-builtins/src/bytearray/indexing.rs:75-86 | where the operands are not faithful: no position instead of one, or a value instead of an error |
| OrderedGuard.ClearLog.NoteClear | crates/pyrust-builtins/src/ordered_mapping.rs:160-189 | a clear advances the saturating counter and leaves a mark, evicting all marks at 1024 |
| OrderedGuard.ClearLog.GuardOutcome | crates/pyrust-builtins/src/ordered_mapping.rs:217-248 | the decision from the watch, the mark, the recorded and the current length |
| OrderedGuard.DecideExactly | crates/pyrust-builtins/src/ordered_mapping.rs:217-248 | the sticky arm needs a known backing, its mark of that length since the watch began, no relink, and a known length of zero |
| OrderedGuard.EntriesAccounted | crates/pyrust-core/src/core/containers.rs:501-569 | over every run the entries there and inserted are those left, removed and cleared |
| OrderedGuard.RunKeepsValid | crates/pyrust-builtins/src/ordered_mapping.rs:160-189 | in every run marks stay older than an unsaturated counter, at most 1024, never of an empty mapping |
| OrderedGuard.RelinkedExactly | crates/pyrust-core/src/core/containers.rs:562-569 | a watch reports a relink unless their number is a multiple of 2^64 |
| OrderedGuard.EntryOrderCounts | crates/pyrust-core/src/core/value_containers.rs:424-465 | the generation counts changes of length and moves, and no clear |
| OrderedGuard.RelinksAndReplacements | crates/pyrust-core/src/core/containers.rs:501-516 | what it misses is exactly the mutations that insert as many entries as they remove |
| OrderedGuard.DisturbanceSeenExactly | crates/pyrust-core/src/core/containers.rs:501-569 | a disturbed mapping is reported exactly when not every disturbance was such a replacement |
| OrderedGuard.ReplacementExample | crates/pyrust-core/src/core/containers.rs:508-516 | about the storage primitive, which counts any one mutation by its net difference: replacing the only entry in one goes unseen (no operation of `OrderedDict` is known to make such a mutation) |
| OrderedGuard.MarkIsLast | crates/pyrust-builtins/src/ordered_mapping.rs:160-189 | the mark present is that of the last non-empty clear not evicted since |
| OrderedGuard.DiagnosisExactly | crates/pyrust-builtins/src/ordered_mapping.rs:129-248 | for every run and both kinds of watch, exactly when the sticky arm is chosen |
| OrderedGuard.StickyExactlyAfterClear | crates/pyrust-builtins/src/ordered_mapping.rs:206-248 | without eviction, and whatever the counter: exactly when the non-empty mapping was cleared and not relinked |
| OrderedGuard.StickyExactlyUndisturbed | crates/pyrust-builtins/src/ordered_mapping.rs:206-248 | in terms of what was done: exactly when it was cleared and nothing else was inserted, removed or moved |
| OrderedGuard.FewBackings | crates/pyrust-builtins/src/ordered_mapping.rs:176-180 | fewer than 1024 distinct backings never evict |
| OrderedGuard.EvictionExample | crates/pyrust-builtins/src/ordered_mapping.rs:176-180 | after 1024 other mappings are cleared a cleared mapping is reported as mutated |
| OrderedGuard.StaleMarkExample | crates/pyrust-builtins/src/ordered_mapping.rs:160-189 | with a saturated counter and no observed order, a mark from before the watch answers for deletions |
| UnionTypes.ArgsEqAsSet | crates/pyrust-builtins/src/union_type.rs:132-151 | the scan decides equal length and one-sided containment |
| UnionTypes.CollectUnionComponents | crates/pyrust-builtins/src/union_type.rs:237-252 | a union contributes its arguments, anything else itself |
| UnionTypes.MakeUnionType | crates/pyrust-builtins/src/union_type.rs:196-215 | the result keeps the first of each identity, collapsed when only one is left |
| UnionTypes.MakeUnionBuilt | crates/pyrust-builtins/src/union_type.rs:196-215 | unions stay flat and thinned, and their arguments are the thinned concatenation |
| UnionTypes.UnionKeepsComponents | crates/pyrust-builtins/src/union_type.rs:196-215 | joining loses no component and adds none |
| UnionTypes.UnionAssociative | crates/pyrust-builtins/src/union_type.rs:189-215 | both groupings give the same value, argument order included, for any components |
| UnionTypes.UnionIdempotentExactly | crates/pyrust-builtins/src/union_type.rs:196-233 | joining a union with itself gives it back exactly when all components are classes or functions |
| UnionTypes.UnionCommutative | crates/pyrust-builtins/src/union_type.rs:132-215 | both orders of joining give equal values, for any components |
| UnionTypes.EqualTransitive | crates/pyrust-builtins/src/union_type.rs:132-151 | equality of type expressions is transitive |
| UnionTypes.EqualReflexive | crates/pyrust-builtins/src/union_type.rs:132-151 | and reflexive |
| UnionTypes.EqualSameShape | crates/pyrust-builtins/src/union_type.rs:132-151 | equal values are of one kind, origin and size, aliases equal argument by argument |
| UnionTypes.EqualSymmetricExactly | crates/pyrust-builtins/src/union_type.rs:132-151 | and symmetric at a value exactly when every union inside it, at any depth, has distinct members, also when only values that can be constructed are compared with it |
| UnionTypes.Asymmetric | crates/pyrust-builtins/src/union_type.rs:132-215 | any other value that can be constructed equals one that can be constructed and that mentions a class it does not, so does not equal it |
| UnionTypes.SetEqOfDistinct | crates/pyrust-builtins/src/generic_alias.rs:697-704 | where members are distinct, also in every union inside them, the one-sided test is set equality |
| UnionTypes.SymmetricExactly | crates/pyrust-builtins/src/generic_alias.rs:692-704 | the one-sided test is symmetric in a tuple, whatever it is compared with, exactly when its members are distinct and so are those of every union inside them |
| UnionTypes.RepeatExample | crates/pyrust-builtins/src/union_type.rs:196-233 | a union of two equal aliases keeps both and equals a union that does not equal it |
| UnionTypes.FirstSeenDistinct | crates/pyrust/src/builtin_modules/bodies/typing/aliases.rs:234-261 | keeping an argument only if it equals none kept before leaves no two equal |
| UnionTypes.EqualComponentsHashEqual | crates/pyrust-builtins/src/union_type.rs:154-187 | equal argument tuples of built unions have the same exclusive or of component hashes, or both have none |
| UnionTypes.EqualUnionsHashEqual | crates/pyrust-builtins/src/generic_alias.rs:710-721 | equal `typing.Union` argument tuples have the same exclusive or of their members' recursive hashes, or both have none |
| UnionTypes.HashedIsWellFormed | crates/pyrust-builtins/src/generic_alias.rs:605-632 | a constructed value that has a hash has distinct members in every union inside |
| UnionTypes.UnionArgsSetHash | crates/pyrust-builtins/src/generic_alias.rs:710-721 | the loop returns the exclusive or, or none at the first member without a hash |
| UnionTypes.EqualHashEqual | crates/pyrust-builtins/src/generic_alias.rs:187-205 | constructed type expressions that compare equal hash equal, or neither has a hash, through aliases and both kinds of union at any depth |
| UnionTypes.XorSorted | crates/pyrust-builtins/src/union_type.rs:159-165 | sorting the hashes first changes nothing |
| UnionTypes.XorsBit | crates/pyrust-builtins/src/generic_alias.rs:710-721 | a bit of the exclusive or is set exactly when an odd number of hashes have it |
| UnionTypes.HashableExactly | crates/pyrust-builtins/src/generic_alias.rs:605-632 | which values have a hash: classes, keyed objects, unions of classes and functions, and aliases of such values at any depth |
| UnionTypes.HashParts | crates/pyrust-builtins/src/generic_alias.rs:187-205 | what each kind of value mixes into its hash |
| UnionTypes.HashArgs | crates/pyrust-builtins/src/union_type.rs:154-170 | collect, sort, accumulate, mix: the mixed exclusive or, or none |
| UnionTypes.CollectParameters | crates/pyrust-builtins/src/generic_alias.rs:556-592 | the type variables at any depth, once each, in the order first met |
| UnionTypes.ParametersExactly | crates/pyrust-builtins/src/generic_alias.rs:556-592 | the parameters are exactly the type variables that occur among the arguments or inside aliases at any depth, each once |
| UnionTypes.ParametersInOrder | crates/pyrust-builtins/src/generic_alias.rs:556-592 | further arguments add parameters at the end only, and an alias counts as its arguments |
| IterHelpers.Zip.IterNext | crates/pyrust-builtins/src/iter_helpers.rs:120-168 | the drained zip gives row k, or the strict verdict |
| IterHelpers.PastTheShortest | crates/pyrust-builtins/src/iter_helpers.rs:139-166 | the two position scans find the verdict |
| IterHelpers.ZipIter.Step | crates/pyrust/src/interpreter/runtime/iteration/iterator_steps.rs:473-555 | the lockstep zip gives row k, the same verdict, and is exhausted afterwards |
| IterHelpers.ZipIter.DrawRow | crates/pyrust/src/interpreter/runtime/iteration/iterator_steps.rs:493-510 | one item from each source up to the first that stops |
| IterHelpers.ZipIter.Verdict | crates/pyrust/src/interpreter/runtime/iteration/iterator_steps.rs:511-546 | drawing again reaches the same verdict, although it may redraw an advanced source |
| IterHelpers.RaisesExactly | crates/pyrust-builtins/src/iter_helpers.rs:150-166 | strict raises exactly when two sources differ in length |
| IterHelpers.ShorterExactly | crates/pyrust-builtins/src/iter_helpers.rs:186-192 | "argument i is shorter" exactly when i is first to run out and all before it have more |
| IterHelpers.LongerExactly | crates/pyrust-builtins/src/iter_helpers.rs:197-203 | "argument j is longer" exactly when all before it end together first and it has more |
| IterHelpers.CallDrained | crates/pyrust-builtins/src/iter_helpers.rs:120-180 | for any number of calls: report k is row k, with the item at k of every source, exactly while there are sources and all reach that far; then the strict error for ever, or the end |
| IterHelpers.CallInLockstep | crates/pyrust/src/interpreter/runtime/iteration/iterator_steps.rs:473-555 | the same rows; then the strict error once and the end ever after |
| IterHelpers.ZipsAgreeExactly | crates/pyrust-builtins/src/iter_helpers.rs:120-168 | call k of both reports the same exactly up to the first ending, or when not strict, or when all lengths are equal |
| FileCursor.Utf8 | crates/pyrust-builtins/src/file.rs:605-667 | the first byte tells a character's length, and the newline byte occurs in no other character |
| FileCursor.Utf8Spells | crates/pyrust-builtins/src/file.rs:605-667 | the payload bits of an encoded character spell it |
| FileCursor.File.ContentBetween | crates/pyrust-builtins/src/file.rs:605-667 | what is handed out is the bytes, or the characters encoded one after another, between two places of the content |
| FileCursor.File.Read | crates/pyrust-builtins/src/file.rs:605-667 | without a count or with a negative one everything that is left is handed out, otherwise n characters or bytes or as many as there are; a closed or unreadable file refuses |
| FileCursor.TakeCharacters | crates/pyrust-builtins/src/file.rs:639-666 | walking character by character finds the bytes of the next n characters |
| FileCursor.File.ReadLineValue | crates/pyrust-builtins/src/file.rs:773-821 | the next line, or none at the end |
| FileCursor.File.ReadLines | crates/pyrust-builtins/src/file.rs:426-432 | every remaining line |
| FileCursor.ScanFindsLineEnd | crates/pyrust-builtins/src/file.rs:790-820 | scanning bytes for a newline always ends on a character boundary, at the end of the line |
| FileCursor.LinesShape | crates/pyrust-builtins/src/file.rs:426-432 | each line has a newline at its very end; only the last may lack it |
| FileCursor.LinesConcatenate | crates/pyrust-builtins/src/file.rs:426-432 | the lines of the rest of the file are the rest of the file |
| FileCursor.Perform | crates/pyrust-builtins/src/file.rs:605-821 | over any run of reads, the pieces are the content between the old and the new cursor, always on a boundary |
| FileCursor.File.Seek | crates/pyrust-builtins/src/file.rs:442-560 | where a seek on a readable file goes, its errors, and that a failed one moves nothing |
| FileCursor.RelativeSeekExactly | crates/pyrust-builtins/src/file.rs:484-554 | from the cursor or the end: the sum, the end if it lies beyond, an error if negative; in text only without offset |
| FileCursor.AbsoluteSeekExactly | crates/pyrust-builtins/src/file.rs:473-554 | from the start: the offset or the end; other modes are refused |
| FileCursor.BoundaryExactly | crates/pyrust-builtins/src/file.rs:605-667 | a position is on a character boundary exactly at the end or where the byte is not a continuation byte |
| FileCursor.TextSeekOnBoundaryExactly | crates/pyrust-builtins/src/file.rs:518-554 | a text seek ends on a boundary exactly when it goes to the end or to a byte that is not a continuation byte |
| FileCursor.TellReadSeek | crates/pyrust-builtins/src/file.rs:388-560 | telling, any run of reads and seeking back is back at the same character |
| ClassMethods.SubclassExactly | crates/pyrust-builtins/src/classmethod.rs:600-618 | the walk is reachability over `base` and `extra_bases`, or true for `object` |
| ClassMethods.SubclassLaws | crates/pyrust-builtins/src/classmethod.rs:600-618 | the walk holds for the class, its base, each extra base, and through them |
| ClassMethods.SubclassLeast | crates/pyrust-builtins/src/classmethod.rs:600-618 | and for nothing outside any set closed under bases, but `object` |
| ClassMethods.BindsExactly | crates/pyrust-builtins/src/classmethod.rs:431-598 | a native descriptor binds exactly to descendants of a living owner |
| ClassMethods.BoundShape | crates/pyrust-builtins/src/classmethod.rs:431-598 | what a bound value calls and with which class, the names it shows, and what the error names |
| ClassMethods.PlanExactly | crates/pyrust-builtins/src/classmethod.rs:484-520 | a plan exists exactly for admissible descriptors that bind, that is whose owner is alive and an ancestor or `object` |
| ClassMethods.CachedBindExactly | crates/pyrust-builtins/src/classmethod.rs:522-562 | a plan serves its own target while that lives and nobody else; its binding is the generic one exactly while the owner is alive and reached and the qualified name is kept; its call is the generic call |
| ClassMethods.PlanStaysValid | crates/pyrust-builtins/src/classmethod.rs:564-618 | with bases unchanged binding keeps succeeding while the owner lives, and descent keeps the owner alive |

## Left out

- Nan payloads, and the sign `fromhex` gives a nan: every nan is one value here.
- The 64-bit sums of `fromhex` and of a relative seek in a binary file are taken to wrap, as they do without overflow checks; with checks they would stop the program.
- ListSort.SortInPlace: is an insertion sort where the source calls the standard library's stable sort; `Sorting.StableSortIsUnique` makes the choice immaterial where the comparator is a weak order and does not raise, but which pairs are compared, and so which error is met first, is not claimed.
- ListSort.List.SortByCmp: sorts a copy on every route; the native routes of the source sort the list itself, which nobody can observe because native comparators neither raise nor call out.
- Comparators and key functions that change the list or other state while sorting: comparisons are functions here.
- The order of CPython's hash tables: copies and slot order are arbitrary permutations in `PySets`, so no order is claimed for `union`, `copy` or `difference`.
- Unhashable set elements: a bad argument is one that reports an error when collected.
- ByteArrays.SelectionAgrees: big integers are assumed to lie beyond the machine word, as the comments in `indexing.rs` say.
- ByteArrays.SetAgrees: is against the language reference's rule for mutable sequences; CPython's own `bytearray` deletes the slice when an empty value is assigned to an extended one.
- Integer subscripts, methods and casing of `bytearray`, and iterables with side effects on the right of an assignment.
- Mappings whose address is reused after they are freed: identities in `OrderedGuard` are never reused.
- The registry of `OrderedDict` classes and its owner walk, which is the walk of `ClassMethods` again.
- UnionTypes.HashArgs: words are sets of bit positions and the hashing of addresses, keys and tuples is arbitrary, so nothing is claimed about the spread of hashes.
- `repr` of unions and aliases, and user-defined `__eq__` of components.
- Zip sources that raise while being drained, or that share state with one another: sources are independent finite sequences.
- `enumerate` and `reversed`: one cursor each, which would only add easy members.
- Opening, decoding, writing and flushing files, Windows newlines, and reading from a text cursor that a seek has put inside a character (where the program stops).
- Descriptors of Python functions beyond what binding returns, and the bytecode cache that holds a plan.
- Class graphs with cycles.
- The compiler, the virtual machine, `str` and `bytes` methods, and argument parsing of all methods.
- A list's length and Rust `usize` limits, except where a bound is stated.
