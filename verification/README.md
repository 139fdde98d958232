# SabiRuby's core data structures, modelled and proved

A Dafny model of four self-contained cores of the SabiRuby virtual machine, with proofs of what
they promise. `dafny verify dfyconfig.toml` checks the whole project.

**Arbitrary-precision integers** (`src/bigint.rs`). A number is a sign and trimmed little-endian
32-bit limbs. The limb loops are methods over `u32`, `u64` and `i64` newtypes, so that no carry,
borrow or product leaves its machine type is a proof obligation of each. Each is proved against the
integer its limbs stand for (`Limbs.Val`, `BigInts.BigInt.Int`). Modules: `Words`, `Limbs`, `Bits`,
`Magnitude`, `KnuthD` (Algorithm D of section 4.3.1 of TAOCP volume 2), `BigInts`, `LimbBits`,
`BitOps`, `NumberTheory`, `Roots`, `Radix`.

**The Hash table** (`src/hashtable.rs`). Entries in insertion order; up to sixteen are searched one
by one, more through an open-addressing index with triangular probing and deleted marks. The class
`HashTable.HashData` has the fields of the source and a ghost copy of the reference's entry array
with its holes. Whatever form the table is in, it means an association list (`HashTable.Put`,
`HashTable.Without`, `HashTable.Dedup`), and that list means a map on classes of equal keys
(`HashRuns.Meaning`). Modules: `HashKeys`, `Probe`, `EntryArray`, `HashSizes`, `HashIndex`,
`HashTable`, `HashRuns`.

**The collector and the offset array** (`src/object.rs`, driver in `src/vm.rs`). Reachable means: in
every set that holds the roots and is closed under references, where a Fiber or Task leads to its
context, a context to its registers in use and frames, and an attached environment to its stack
window (`Reachability.Reached`). The mark loop with its three worklists finds exactly that set, the
sweep keeps exactly it. `References` says field by field what refers to what and that reachable is the
same as having a path of references from a root. Modules: `HeapObjects`, `Contexts`, `Reachability`,
`References`, `MarkSweepHeap`, `Collector`, `CollectorMeaning`, `ShiftArray`.

**The fiber protocol** (`src/vm.rs`). Contexts with status, `prev`, `vmexec` and pending register,
and the nested run loops on the host stack as an explicit list. The invariant
(`FiberChain.InOrder`) ties the loops to the chain of resumers; what a guard at a native boundary
answers is a parameter. Two ghost fields remember the chain and how each context was left. Modules:
`FiberChain`, `Fibers`.

Where the code and `docs/design/gc.md` differ, the model follows the code: the scheduler's dormant
queue is weak (`src/vm.rs:3880-3886`), while the document's table of roots lists all four queues,
and the document's root 8b is not marked by `gc_mark_roots`.

Conditions the source leaves to its callers are preconditions: a collection requires that an
attached environment's window lies in the registers in use of its context, that a frame's
environment belongs to that frame's context, and that the running context's stack and frames are
not in its entry too (`Collector.Vm.EnvsInOrder`), which the frame machinery keeps.
`Collector.Vm.GcCollect` and `Collector.Vm.Switch` keep them themselves; a step of a run that breaks
them is no step of the program (`Collector.Vm.Perform`).

A Hash breaks at the first store that meets 3 * 2^29 entries. `ht_make_room` then asks for an index
of width 32 (`src/hashtable.rs:266-273`), and `mask` computes `(1u32 << 32) - 1`
(`src/hashtable.rs:183`), which without overflow checks is zero: the rebuild places the first entry
only, a store under any other key ends without storing (`src/hashtable.rs:604-621`), and a search
sees one bucket (`src/hashtable.rs:1054-1062`). "hash too big" is not raised, since it asks for
`EA_MAX_CAPA` used slots and the array has just been packed. `HashRuns.RunThenStore` states exactly
when the entries are right after such a store and when a search is; `HashRuns.SearchLostAtLimit`
says that whatever is stored, some key in the list is not found any more, so that the table is right
exactly below the limit (`HashTable.HashData.HSet`); `HashRuns.StoreLostAtLimit` gives the run.

The source's one `Vm` is two classes here, `Collector.Vm` and `Fibers.Vm`, over two context types.
A collection looks at a context's frames and the objects it holds, at any nesting of native calls;
the fiber protocol looks at who resumed whom and at the run loops on the host stack, whatever the
registers hold. Each class has the fields its part reads and writes, and `switch_context` appears
in both (`Collector.Vm.Switch`, `Fibers.Vm.SwitchContext`), each stating it on its own fields.

## Model

| member | source | states |
|---|---|---|
| `Limbs.ValInjective` | src/bigint.rs:22-28 | trimmed magnitudes with the same value are the same limbs |
| `Limbs.LongerIsLarger` | src/bigint.rs:38-48 | of two trimmed magnitudes the one with more limbs is the larger number |
| `Limbs.HighLimbDecides` | src/bigint.rs:38-48 | with equal limbs above, the first unequal limb from the top decides the order |
| `Magnitude.Trim` | src/bigint.rs:32-36 | drops top zero limbs: the value stays, the result is trimmed |
| `Magnitude.UCmp` | src/bigint.rs:38-48 | the order of two trimmed magnitudes is the order of their values |
| `Magnitude.UAdd` | src/bigint.rs:50-64 | the sum, trimmed if both operands are; no step leaves 64 bits |
| `Magnitude.USub` | src/bigint.rs:66-78 | the difference, trimmed, for a minuend not smaller than the subtrahend; no borrow is left |
| `Magnitude.AddProducts` | src/bigint.rs:89-94 | one row of the schoolbook product added in place, its carry handed back; no step leaves 64 bits |
| `Magnitude.Propagate` | src/bigint.rs:95-101 | the row's carry added in place above it; it never runs off the end |
| `Magnitude.UMul` | src/bigint.rs:80-105 | the product, trimmed |
| `Magnitude.UMulSmall` | src/bigint.rs:108-120 | `a * d + add` in place of `a` |
| `Magnitude.UDivSmall` | src/bigint.rs:123-132 | quotient and remainder by one limb |
| `Bits.ShiftLeftStep` | src/bigint.rs:143-146 | a limb shifted left with the bits coming in from below: two disjoint parts of one 64-bit number |
| `Bits.ShiftRightStep` | src/bigint.rs:164-167 | a limb shifted right with the bits coming in from above |
| `Magnitude.UShl` | src/bigint.rs:134-153 | multiplication by a power of two, trimmed |
| `Magnitude.UShr` | src/bigint.rs:155-171 | floor division by a power of two, trimmed, limbs shifted out entirely included |
| `KnuthD.FirstEstimate` | src/bigint.rs:215-227 | the two-limb quotient of the top limbs is never below the true digit |
| `KnuthD.LowerEstimate` | src/bigint.rs:218-227 | an estimate the three-limb test rejects is above the true digit, so lowering it keeps it no smaller |
| `KnuthD.AcceptEstimate` | src/bigint.rs:218-227 | an estimate the test accepts is below 2^32 and at most one too large |
| `KnuthD.AcceptLargeRemainder` | src/bigint.rs:218-227 | so is one whose remainder left a limb, where the loop stops untested |
| `KnuthD.EstimateDigit` | src/bigint.rs:215-227 | the correction loop ends with a digit below 2^32, at most one too large |
| `KnuthD.MulSubtract` | src/bigint.rs:228-240 | the window less digit times divisor in place, and whether that went below zero; every step fits i64 |
| `KnuthD.AddBack` | src/bigint.rs:240-250 | the divisor added back in place; the carry lost at the top is exactly the borrow |
| `KnuthD.Corrected` | src/bigint.rs:240-251 | one add-back suffices: the digit is then the true one and the remainder below the divisor |
| `KnuthD.DivideStep` | src/bigint.rs:214-252 | one digit of Algorithm D: quotient digit and remaining window of the old one |
| `KnuthD.DivideLimbs` | src/bigint.rs:212-252 | all digits: dividend = quotient * divisor + what is left, which is below the divisor |
| `KnuthD.UDivMod` | src/bigint.rs:174-260 | for every trimmed dividend and non-zero divisor: a = q * b + r and r < b, both trimmed |
| `BigInts.EqualityIsIntegerEquality` | src/bigint.rs:22-28 | canonical big integers are equal as data exactly when they are equal as integers |
| `BigInts.Make` | src/bigint.rs:302-305 | sign and limbs made canonical: trimmed, and zero never negative |
| `BigInts.FromI64` | src/bigint.rs:306-317 | the canonical big integer of a 64-bit integer, the least one included |
| `BigInts.FromU64` | src/bigint.rs:309-311 | the same for unsigned |
| `BigInts.ToI64` | src/bigint.rs:318-335 | an answer exactly when the integer fits i64, and then that integer |
| `BigInts.ToU64` | src/bigint.rs:337-343 | an answer exactly when it fits u64 |
| `BigInts.BitLength` | src/bigint.rs:357-362 | the position of the top bit of the magnitude: below 2^n and not below 2^(n-1), 0 for zero |
| `BigInts.Cmp` | src/bigint.rs:494-502 | the order of the integers |
| `BigInts.Neg` | src/bigint.rs:503-505 | the negative |
| `BigInts.Add` | src/bigint.rs:509-519 | the sum, canonical, for all four sign cases |
| `BigInts.Sub` | src/bigint.rs:520-522 | the difference, canonical |
| `BigInts.Mul` | src/bigint.rs:523-527 | the product, canonical |
| `BigInts.TruncDivModUnique` | src/bigint.rs:528-532 | quotient truncated toward zero and remainder with the dividend's sign determine each other |
| `BigInts.FloorDivModUnique` | src/bigint.rs:533-541 | floor quotient and remainder with the divisor's sign determine each other |
| `BigInts.DivModTrunc` | src/bigint.rs:528-532 | truncated division |
| `BigInts.DivModFloor` | src/bigint.rs:533-541 | floor division, the remainder taking the divisor's sign |
| `BigInts.Shl` | src/bigint.rs:591-595 | multiplication by 2^n, negative numbers too |
| `BigInts.Shr` | src/bigint.rs:596-607 | floor division by 2^n, negative numbers and values shifted out entirely included |
| `Bits.BitIsQuotient` | src/bigint.rs:651-663 | bit `i` of any integer is floor(x / 2^i) mod 2 |
| `BitOps.BitsDetermine` | src/bigint.rs:651-663 | two integers with the same bits are equal, so the bitwise result is the only one |
| `BitOps.Complement` | src/bigint.rs:729-733 | the carry chain over all limbs is the two's complement |
| `BitOps.Twos` | src/bigint.rs:664-673 | `n` limbs of two's complement that stand for the integer |
| `BitOps.BitOperation` | src/bigint.rs:651-663 | limb-wise operation on two's complements, read back: every bit of the result is the operation on the operands' bits, results that need the extra limb included |
| `BitOps.BitAnd` | src/bigint.rs:674-683 | `and`, all paths: every bit of the result is the product of the operands' bits |
| `BitOps.BitOr` | src/bigint.rs:684-696 | `or`, all paths: every bit is the sum of the operands' bits less their product |
| `BitOps.BitXor` | src/bigint.rs:697-710 | `xor`, all paths: every bit is the sum of the operands' bits modulo two |
| `BitOps.BitNot` | src/bigint.rs:711-715 | -x - 1, which flips every bit |
| `NumberTheory.Power` | src/bigint.rs:554-571 | square-and-multiply computes self^e |
| `NumberTheory.RemTrunc` | src/bigint.rs:550-553 | the truncated remainder |
| `NumberTheory.TruncRemProduct` | src/bigint.rs:572-590 | truncated remainders can be taken before multiplying, negative bases and zero remainders included |
| `NumberTheory.PowM` | src/bigint.rs:572-590 | the truncated remainder of self^e by m, for every e not negative and m not zero |
| `Roots.NewtonAboveRoot` | src/bigint.rs:608-623 | a Newton step from above the root stays at or above it |
| `Roots.NewtonStops` | src/bigint.rs:608-623 | a step that no longer decreases is at the root |
| `Roots.RootUnique` | src/bigint.rs:608-623 | there is one integer square root |
| `Roots.ISqrtU64` | src/bigint.rs:735-746 | r * r <= n < (r+1) * (r+1) on the word path; the loop ends, no step leaves u64 |
| `Roots.Sqrt` | src/bigint.rs:608-623 | the same for every non-negative big integer, on both paths; the loop ends |
| `Roots.BezoutGivesGcd` | src/bigint.rs:625-635 | a common divisor that is a combination of both is the greatest: every common divisor divides it |
| `Roots.Gcd` | src/bigint.rs:625-635 | the greatest common divisor, with a remainder loop that ends; 0 for two zeros |
| `Roots.Lcm` | src/bigint.rs:636-649 | the least common multiple: divides every common multiple; zero when an operand is zero |
| `Radix.BaseChunk` | src/bigint.rs:273-281 | the largest power of the base in a limb, and its exponent |
| `Radix.FromStr` | src/bigint.rs:371-419 | the Horner value of sign and digits with underscores skipped, and no value exactly when the text is no number; the accumulator of a chunk never leaves a limb |
| `Radix.DigitValReads` | src/bigint.rs:371-420 | 0 to 9 and a letter in either case are read as the digit they are, every other character as none |
| `Radix.UnderscoreIgnored` | src/bigint.rs:371-420 | an underscore after the sign changes nothing |
| `Radix.SignInFront` | src/bigint.rs:371-420 | a plus sign in front changes nothing, a minus sign negates |
| `Radix.ToStringRadix` | src/bigint.rs:421-447 | the digits of the number in the base, highest first, with its sign |
| `Radix.RenderShape` | src/bigint.rs:421-447 | the text is "0" for zero, else "-" exactly for a negative number and digits 0 to 9 and lower-case letters, without a zero in front; with reading it back this fixes the text |
| `Radix.ParseRender` | src/bigint.rs:371-447 | reading what is written in a base from 2 to 36 gives the number back |
| `Radix.PrintThenParse` | src/bigint.rs:371-447 | `from_str(to_string_radix(x))` is `x`, as data |
| `HashKeys.EqlIsSameCanon` | src/hashtable.rs:1034-1042 | two keys are equal exactly when they have the same representative: the zeros of both signs are one key, a NaN equals only its own bits |
| `HashKeys.EqlEquivalence` | src/hashtable.rs:1034-1042 | key equality is an equivalence, NaN included |
| `HashKeys.EqlByPayload` | src/hashtable.rs:1034-1042 | keys are equal exactly when they are of one kind and of the same payload, but for the two floats zero, which are one key |
| `HashKeys.FloatEqlIsEquals` | src/hashtable.rs:1036 | float keys are equal as floats are, a NaN by its bits; a NaN is an exponent of all ones with a fraction |
| `HashKeys.EqlSameCode` | src/hashtable.rs:1021-1042 | equal keys have equal codes |
| `Probe.ProbeIsTriangular` | src/hashtable.rs:142-144 | the wrap at 2^32 before the halving loses nothing: probe `n` is at code + n(n+1)/2 modulo the table, up to 2^31 buckets |
| `Probe.ProbeInjective` | src/hashtable.rs:142-144 | no bucket is visited twice in a round |
| `Probe.ProbeSurjective` | src/hashtable.rs:142-144 | every bucket is visited in a round |
| `Probe.StepProbeAgrees` | src/hashtable.rs:803-817 | the Set's incremental probe visits the same buckets in the same order |
| `HashSizes.NextCapaGrows` | src/hashtable.rs:121-128 | a capacity is at least the size, and more unless the limit is reached |
| `HashSizes.NextCapaIs` | src/hashtable.rs:121-128 | a fifth more and six, at most 65535 more and never past the limit; four for less than four entries |
| `HashSizes.UpperBoundOfTable` | src/hashtable.rs:130 | the bound on entries is three quarters of the buckets |
| `HashSizes.IbBitForFits` | src/hashtable.rs:133-138 | the width chosen for a size is 5 to 31, and the size is within its bound |
| `HashSizes.IbBitForLeast` | src/hashtable.rs:133-138 | no narrower index has room for the size |
| `EntryArray.Append` | src/hashtable.rs:258-262 | an entry pushed is appended to the array with holes |
| `EntryArray.Overwrite` | src/hashtable.rs:209-212 | a value set is set in its slot of that array |
| `EntryArray.Punch` | src/hashtable.rs:301-311 | an entry removed is a hole punched in that array |
| `EntryArray.PackedLive` | src/hashtable.rs:213-216 | compressing squeezes the holes out |
| `EntryArray.NextLive` | src/hashtable.rs:699-703 | the next entry by slot is the next live slot of that array |
| `HashIndex.IndexOfFirst` | src/hashtable.rs:1044-1053 | the linear search finds the first equal key, or there is none |
| `HashIndex.FirstEmpty` | src/hashtable.rs:1065-1077 | while the table is not full a probe meets an empty bucket |
| `HashIndex.ProbeMiss` | src/hashtable.rs:1054-1062 | a probe that ends without a match has searched every entry |
| `HashIndex.PlaceNext` | src/hashtable.rs:227-233 | placing the next entry finds a bucket and keeps the index right |
| `HashIndex.RemoveKeeps` | src/hashtable.rs:301-311 | removing an entry, marking its bucket and renumbering keeps the index right |
| `HashTable.ProbeBuckets` | src/hashtable.rs:1065-1079 | the entry the linear search finds; else the first empty bucket of the probe; none of both only in a full table |
| `HashTable.HashData.constructor` | src/hashtable.rs:165-172 | a new table is empty with the capacity asked for, and with an index from the start exactly past sixteen |
| `HashTable.HashData.SetValueAt` | src/hashtable.rs:209-212 | sets a value in the entries and in the array with holes |
| `HashTable.HashData.Compress` | src/hashtable.rs:213-216 | the entries stay, the holes go, as many slots as entries are used |
| `HashTable.HashData.Place` | src/hashtable.rs:227-233 | the position goes into the first empty bucket of the probe |
| `HashTable.HashData.ToArray` | src/hashtable.rs:235-241 | the index goes, the entries stay |
| `HashTable.HashData.ArMakeRoom` | src/hashtable.rs:244-256 | an index is due exactly with sixteen entries, no hole and no capacity left; else there is room for an entry, the holes given back only where the capacity is used up |
| `HashTable.HashData.ArPush` | src/hashtable.rs:258-262 | appends to the entries and to the array with holes |
| `HashTable.HashData.HtMakeRoom` | src/hashtable.rs:266-289 | which of the answers is given, by entries, slots used, capacity and buckets: an entry fits with buckets to spare; or the index is to be rebuilt at a width with room; or the table goes back to an array of at most sixteen; a width past 31 is asked for exactly by a table of width 31 with 3 * 2^29 entries |
| `HashTable.HashData.LimitIsSize` | src/hashtable.rs:266-273 | a table that asks for a width past 31 on a store is one of 3 * 2^29 entries, and every such table does |
| `HashTable.HashData.HtPush` | src/hashtable.rs:291-299 | appends an entry and writes its position into the bucket |
| `HashTable.HashData.RemoveEntry` | src/hashtable.rs:301-311 | the entry goes from the entries, its slot becomes a hole, its bucket a deleted one, later positions are one less |
| `HashTable.HashData.Find` | src/hashtable.rs:1044-1063 | with an index or without: the position the linear search finds; over the index a store at the limit leaves, the first entry or nothing, which is right exactly for the first key and for keys not there |
| `HashTable.HashData.HRebuild` | src/hashtable.rs:539-551 | a fresh index that is right for the entries |
| `HashTable.HashData.HSet` | src/hashtable.rs:564-581 | an equal key keeps its place and gets the value, a new key goes last, and it ends; the table stays right exactly below the limit; at the limit the entries are still right if the store is under the first key or of the value that is there, but the index is left with the first entry alone |
| `HashTable.HashData.HtSet` | src/hashtable.rs:582-622 | the same from the table with an index, through growth, compaction and the way back to an array |
| `HashTable.PastLimitIsPut` | src/hashtable.rs:593-621 | with only the first entry to be met, the entries after a store are those of the list exactly if it is under the first key or of the value that is there |
| `HashTable.HashData.SetPastLimit` | src/hashtable.rs:582-622 | a rebuild and a store at width 32, whose 32-bit mask is zero: the index is left with the first entry alone in bucket 0, the store reaches that entry only, any other key is not stored |
| `HashTable.HashData.HtStore` | src/hashtable.rs:593-603 | the store after making room is never lost: there is an equal entry or an empty bucket |
| `HashTable.HashData.HDelete` | src/hashtable.rs:623-628 | the entry of an equal key goes, the order of the others stays; answers the value it had |
| `HashTable.HashData.HShift` | src/hashtable.rs:631-635 | takes the first entry |
| `HashTable.HashData.Clear` | src/hashtable.rs:322-331 | no entries and no index |
| `HashTable.HashData.HNext` | src/hashtable.rs:699-703 | the walk by slots steps to the next live slot of the array with holes |
| `HashTable.HashData.HRehash` | src/hashtable.rs:638-697 | every entry stored again in order; the table is right again and has an index exactly past sixteen entries |
| `HashTable.HashData.MoveOne` | src/hashtable.rs:651-690 | one step of a rehash: a duplicate gives its value to the earlier entry and goes, another moves up |
| `HashRuns.DeleteUndoesStore` | src/hashtable.rs:564-628 | deleting a key that was new when stored gives the old list back |
| `HashRuns.LookupMeaning` | src/hashtable.rs:1044-1063 | with distinct keys a lookup in the list is a lookup in a map on classes of keys |
| `HashRuns.PutMeaning` | src/hashtable.rs:564-622 | a store is an update of that map |
| `HashRuns.WithoutMeaning` | src/hashtable.rs:623-628 | a delete is a removal from that map |
| `HashRuns.RehashMeaning` | src/hashtable.rs:638-697 | a rehash keeps the first key of each class, in order, with the value of its last duplicate |
| `HashRuns.RehashOfDistinct` | src/hashtable.rs:638-697 | a rehash of distinct keys changes nothing |
| `HashRuns.RunKeepsDistinct` | src/hashtable.rs:564-697 | in every reachable list the keys are distinct |
| `HashRuns.Run` | src/hashtable.rs:564-697 | any run of stores, deletes, lookups, shifts, clears and rehashes in which no store meets the limit is the run of an insertion-ordered association list: same entries, same order, same answers |
| `HashRuns.RunThenStore` | src/hashtable.rs:582-622 | after any such run, one more store and a search: the entries are those of the list exactly below 3 * 2^29 entries, or for a store under the first key or of the value that is there; the search is right exactly below 3 * 2^29 entries, or asking for the first key or for one not there |
| `HashRuns.SearchLostAtLimit` | src/hashtable.rs:1054-1062 | every store at the limit leaves a key in the list, the second, that a search over a mask of no bits does not find; so all answers stay right exactly below the limit |
| `HashRuns.StoreLostAtLimit` | src/hashtable.rs:266-273 | a run that meets the limit, a store of a new key after it that is lost, and a store under the first key that is not lost and after which the second key is not found |
| `Reachability.MarkAllEffect` | src/object.rs:760-777 | marking objects marks exactly them, puts on the stack those that were not marked, and leaves as many to be marked or scanned |
| `Reachability.DrainStep` | src/object.rs:782-837 | scanning one grey object: what it refers to is in use, the marking invariant stays, one less is left |
| `Reachability.ScanStep` | src/vm.rs:3773-3777 | a context handed back: what it holds is in use, the marking invariant stays |
| `Reachability.WindowStep` | src/vm.rs:3778-3783 | a stack window handed back: its values are in use, the marking invariant stays, also when its context is scanned already |
| `Reachability.MarkedIsReached` | src/vm.rs:3770-3787 | when nothing waits, the marked objects and the scanned contexts are exactly the reachable ones |
| `Reachability.KeptIsClosed` | src/vm.rs:3762-3833 | what is kept leads only to what is kept, contexts and windows included |
| `MarkSweepHeap.FreeSlotsAreFree` | src/object.rs:656-657 | the free list is exactly the free slots, from the highest down |
| `MarkSweepHeap.LiveCountIsInUse` | src/object.rs:746-748 | slots less free ones are the objects in use |
| `MarkSweepHeap.Heap.Alloc` | src/object.rs:696-719 | a slot that was not in use: the lowest free one, else a new one; every other slot stays |
| `MarkSweepHeap.Heap.LiveCount` | src/object.rs:746-748 | the number of objects in use |
| `MarkSweepHeap.Heap.MarkId` | src/object.rs:760-766 | marks once and pushes; the assertion against freed objects holds |
| `MarkSweepHeap.Heap.MarkSlots` | src/object.rs:771-773 | marks the objects among some values, in order |
| `MarkSweepHeap.Heap.MarkDrain` | src/object.rs:782-840 | empties the stack of grey objects keeping the marking invariant; no assertion fires; it ends |
| `References.RefsExact` | src/object.rs:798-838 | what is marked for an object is exactly what its class, instance variables and the fields of its kind name |
| `References.LiveEndExact` | src/vm.rs:3911-3921 | a register is in use exactly if it is one of the top frame's code, of its receiver, arguments, keywords and block, or of its first four |
| `References.TrimmedExact` | src/vm.rs:3925-3933 | clearing a context's slots out of use leaves the registers in use and all else |
| `References.ReachedIsByPath` | src/vm.rs:3762-3790 | reachable is: along a path of references from a root, each step from an object to what a field of it names, to its context or to its window, or from a context to what it holds |
| `MarkSweepHeap.Heap.Sweep` | src/object.rs:844-874 | marked objects stay and lose the mark, the others are inert and free, trailing free slots go, the free list is rebuilt, each swept Data is recorded once, and the number freed is right |
| `MarkSweepHeap.MarkedStayLive` | src/object.rs:844-874 | no marked object is cut off with the end of the table |
| `Collector.Vm.SnapshotSound` | src/vm.rs:3859-3933 | nothing the collection starts from names a freed slot, and windows in use are held by their contexts |
| `Collector.Vm.GcMarkRoots` | src/vm.rs:3859-3888 | marks what the Vm and the scheduler name, the dormant queue left out, and hands back the running context, the root and those waiting |
| `Collector.Vm.GcMarkContext` | src/vm.rs:3891-3933 | marks what a context holds up to the end of its registers in use, and clears those above |
| `Collector.Vm.MarkPhase` | src/vm.rs:3762-3787 | marks exactly the reachable objects and scans exactly the reachable contexts; it ends |
| `Collector.DormantIsNoRoot` | src/vm.rs:3880-3886 | what is only in the dormant queue is not kept by it |
| `CollectorMeaning.RootsExact` | src/vm.rs:3871-3891 | the roots are what the Vm names field by field, the running and main task, and every queue but the dormant one |
| `CollectorMeaning.SnapshotExact` | src/vm.rs:3859-3933 | the graph a collection starts from: a context holds its registers in use, its frames' code, class and environment, its Fiber and block; the contexts to scan are the running one, the root and those that run, wait for another or were resumed by native code |
| `CollectorMeaning.EnvsInOrderExact` | src/vm.rs:3897-3906 | what a collection requires of windows and frames, slot by slot and frame by frame |
| `CollectorMeaning.KeptExact` | src/vm.rs:3800-3818 | a kept object is as it was, but an environment attached to a context not reached and owned by a frame there has exactly its window's values and is attached no more |
| `CollectorMeaning.DroppedExact` | src/vm.rs:3819 | a context not reached is over: no stack, frame, resumer, Fiber or block |
| `CollectorMeaning.LostExact` | src/object.rs:842-873 | each Data in use that is not reached is reported once, by its tag and handle |
| `CollectorMeaning.RememberedExact` | src/vm.rs:3788-3798 | the dormant tasks kept are those reached, in their order |
| `CollectorMeaning.LegalExact` | src/object.rs:782-840 | the program stores only what names objects in use and contexts there are |
| `CollectorMeaning.FreshWindowExact` | src/vm.rs:3897-3906 | a new environment may be attached exactly to a window every slot of which is in use |
| `Collector.Vm.RetainDormant` | src/vm.rs:3788-3798 | the dormant queue keeps its reached tasks, in order |
| `Collector.Vm.DetachFrames` | src/vm.rs:3809-3820 | exactly the marked attached environments of a context's frames get their window's values |
| `Collector.Vm.DropContexts` | src/vm.rs:3799-3822 | every context not reached is emptied, its reached environments detached before |
| `Collector.EnvReadKept` | src/vm.rs:3944-3947 | a kept environment reads the same after a collection exactly if it was detached before, its context is reached, a frame of its context owns it, or it read nil |
| `Collector.Vm.ReadAround` | src/vm.rs:3944-3947 | the same of one read before and one after a collection; the environment is there to be read exactly if it is reached |
| `Collector.Vm.ValidAfter` | src/vm.rs:3762-3833 | after a collection nothing names a freed slot and the free list is right |
| `Collector.Vm.GcCollect` | src/vm.rs:3762-3856 | exactly the reachable objects stay in use, under their ids and unchanged but for environments detached; what a field of one names is in use, and the context of a Fiber or Task is reached; the running, root and waiting contexts are reached; contexts not reached are emptied; each lost Data is reported once, lowest slot first; nothing names a freed slot; windows and frames stay in order, so another collection may follow |
| `CollectorMeaning.CollectByPaths` | src/vm.rs:3762-3856 | a collection keeps exactly the objects and contexts a path of references leads to from a root, and what a field of a kept object names is kept |
| `Collector.Vm.OrderAfter` | src/vm.rs:3790-3820 | a collection keeps every attached window in the registers in use of its context and every frame with an environment of its own context |
| `Collector.Vm.New` | src/object.rs:696-719 | allocation keeps every object in use and the windows and frames in order, and nothing names a freed slot |
| `Collector.Vm.Switch` | src/vm.rs:3361-3372 | stacks and frames change places, the context switched to is Running, nothing if it runs already; nothing names a freed slot, windows and frames stay in order |
| `Collector.Vm.Perform` | src/vm.rs:3762-3833 | a step happens exactly if it stores only references to objects in use and leaves windows and frames in order; what it then does to every field; a collection always happens and keeps exactly the objects reached |
| `Collector.RunProgram` | src/vm.rs:3762-3833 | over any run of allocations, writes, switches and collections every step does just that from the state before it, nothing names a freed slot and windows stay in order, so every collection can start and no mark assertion fires |
| `ShiftArray.ArrayData.Compact` | src/object.rs:363-368 | the elements stay; the room in front goes exactly if it is more than sixteen and more than they are |
| `ShiftArray.LegalIsInRange` | src/object.rs:331-441 | an operation does not panic exactly if the stretch it names lies in the array |
| `ShiftArray.ArrayData.Push` | src/object.rs:369-371 | appends an element |
| `ShiftArray.ArrayData.Pop` | src/object.rs:372-374 | takes the last element, or nothing from an empty array |
| `ShiftArray.ArrayData.Truncate` | src/object.rs:379-381 | keeps at most so many elements |
| `ShiftArray.ArrayData.Resize` | src/object.rs:382-384 | exactly so many elements, filled up with the value |
| `ShiftArray.ArrayData.SplitOff` | src/object.rs:389-391 | splits the elements at a position |
| `ShiftArray.ArrayData.Shift` | src/object.rs:393-399 | takes the first element; the room it leaves is nil |
| `ShiftArray.ArrayData.ShiftN` | src/object.rs:402-409 | takes the first n elements, or all |
| `ShiftArray.ArrayData.Unshift` | src/object.rs:411-418 | puts elements in front, in the room there or by moving the others |
| `ShiftArray.ArrayData.Insert` | src/object.rs:419-426 | puts an element before a position |
| `ShiftArray.ArrayData.Remove` | src/object.rs:427-430 | takes the element at a position |
| `ShiftArray.ArrayData.DrainRange` | src/object.rs:432-435 | takes a range; from the front, as much of it as there is |
| `ShiftArray.ArrayData.SpliceRange` | src/object.rs:437-440 | replaces a range |
| `ShiftArray.RunArray` | src/object.rs:331-441 | any run is that of a plain sequence, with the same elements handed back, and reclaiming room has moved no more elements than were taken from the front |
| `FiberChain.ReachableState` | src/vm.rs:3457-3547 | the `prev` chain from the running context has no cycle, all behind it are Resumed, native resumes and native calls are only on it, parked registers are as they were left, no other context is Running |
| `FiberChain.GivenExact` | src/vm.rs:3354-3358 | a value delivered is in its register if the stack has it, every other register stays |
| `FiberChain.ResumeKeeps` | src/vm.rs:3468-3477 | a resume puts a context in front of the chain and keeps the invariant, with a nested loop or without |
| `FiberChain.JumpKeeps` | src/vm.rs:3525-3547 | a switch that leaves the chain behind finds no nested loop running and keeps the invariant |
| `FiberChain.BackKeeps` | src/vm.rs:3389-3398 | a switch back goes to the context that resumed this one, which is Resumed; a nested loop of this one is the innermost and was started by that context; the invariant stays |
| `FiberChain.ReturnKeeps` | src/vm.rs:4257-4266 | the innermost nested loop is that of the running context's last native call |
| `Fibers.Vm.Deliver` | src/vm.rs:3354-3358 | the value goes to the pending register if there is one within the stack, once |
| `Fibers.Vm.SwitchContext` | src/vm.rs:3361-3372 | stacks change places, the context switched to is Running; nothing if it runs already |
| `Fibers.Vm.FiberSwitch` | src/vm.rs:3457-3504 | refused exactly as the statuses say, with nothing changed; else the fiber runs with its block's registers or those it was left with, and the invariant holds |
| `Fibers.Vm.ResumeAnswers` | src/vm.rs:3457-3468 | a resume works exactly for a context off the chain that is Created or Suspended, and each refusal has its own case; a native frame is never the reason |
| `Fibers.Vm.SendResume` | src/vm.rs:3233-3248 | a resume called by a SEND works exactly for a context off the chain that is Created or Suspended: the fiber finds its registers as left, but for the value in the one it waits with |
| `Fibers.Vm.NativeResume` | src/vm.rs:3450-3504 | a resume called by native code: the same, in a nested loop started by the caller's context |
| `Fibers.Vm.FiberTransfer` | src/vm.rs:3525-3547 | refused exactly when a native frame or native resume is on the chain, the target is resuming, or it cannot be switched to; else the chain is the target alone |
| `Fibers.Vm.TransferAnswers` | src/vm.rs:3525-3547 | a transfer works exactly from bytecode with no native frame or native resume on the chain, to the running context or to one off the chain that is Created, Suspended or Transferred |
| `Fibers.Vm.NativeFree` | src/vm.rs:3529-3535 | the walk over resumers decides whether a native frame is on the chain; it ends |
| `Fibers.Vm.SendTransfer` | src/vm.rs:3525-3547 | a transfer called by a SEND: the target finds its registers as left, but for the value |
| `Fibers.Vm.FiberYield` | src/vm.rs:3508-3522 | refused exactly as the state says, with nothing changed; else back in the resumer, with the innermost loop to end exactly if native code resumed the fiber |
| `Fibers.Vm.YieldAnswers` | src/vm.rs:3508-3514 | a yield works exactly from bytecode in a context that was resumed and has no native frame |
| `Fibers.Vm.SendYield` | src/vm.rs:3508-3522 | the nested loop that ends was started by the context now running; without one the value is delivered; all other registers are as left |
| `Fibers.Vm.YieldAndResume` | src/vm.rs:3457-3522 | a fiber that yields and is resumed finds every register as it left it, and the value of the resume in the one the yield is to fill; the chain is as before |
| `Fibers.Vm.TransferAndBack` | src/vm.rs:3525-3547 | the same of a transfer and a transfer back |
| `Fibers.Vm.FiberTerminate` | src/vm.rs:3389-3398 | the fiber is Terminated and empty, its resumer runs, or the root where it has none |
| `Fibers.Vm.FinishFiber` | src/vm.rs:4389-4396 | a block's value ends the nested loop of a native resume, in the context that started it, or is delivered |
| `Fibers.Vm.FailFiber` | src/vm.rs:4434-4442 | an exception ends the fiber the same way and delivers nothing |
| `Fibers.Vm.FiberInit` | src/vm.rs:3409-3419 | a new context, Created, with its block, which the Fiber object leads to; refused if it has one |
| `Fibers.Vm.LeaveNative` | src/vm.rs:4257-4266 | the loop a native call returns from is its own |
| `Fibers.Vm.Perform` | src/vm.rs:3457-3547 | every step keeps the invariant, is answered and does as its case says, and changes no context but the one that ran before it and the one that runs after it |
| `Fibers.RunFibers` | src/vm.rs:3457-3547 | over any run of resumes, yields, transfers, ends and native calls the invariant holds and every step does just that from the state before it, whatever the guards answer |
| `Fibers.RunFrom` | src/vm.rs:3457-3547 | over any run a context that runs at none of its states is untouched: registers, status, resumer and the register it waits with |

## Left out

- HashTable.HashData.HSet: does not model keys whose `eql?` or `hash` is Ruby code, nor the checks for a Hash modified by it, because the called code is unbounded; the keys are Integer, Symbol, Float and String.
- HashTable.HashData.HSet: past the limit follows a build without overflow checks, where `1u32 << 32` is 1; with them that shift panics. Operations on such a table other than a search are not part of this model.
- HashRuns.Run: requires that no store of the run meets 3 * 2^29 entries, because from there on the source is not the list: what holds instead after the first such store is `HashRuns.RunThenStore` and `HashRuns.SearchLostAtLimit`.
- HashKeys.EqlSameCode: states that equal keys have equal codes, and no more of a code: which one a key has decides the order of the buckets and nothing a caller of the Hash sees.
- HashTable.HashData.HSet: does not model that an unfrozen String key is stored as a frozen copy; the copy is the same key by its bytes.
- HashTable.HashData.HRehash: does not model a rehash during which a callback changes the Hash; the slot of the entry being moved is then always found again.
- The Set operations beyond the probe: their key comparison is not reflexive on NaN, so a Set is not a plain set of keys.
- `replace_table`, `remove_nil_values`, `h_merge`, `h_equal`, `h_assoc`, `h_except`: loops over the operations modelled.
- Float conversions, `hash_bytes`, `byte_size`, `from_bytes_le` and `two_comp_mag` of big integers: IEEE detail or plumbing.
- Magnitude.Trim: models a vector as a sequence that is reassigned; only the product's and the division's buffers are arrays changed in place, so sharing of vectors is not captured.
- MarkSweepHeap.Heap.Alloc: does not model the thresholds, counters and the method serial, nor a table of 2^32 slots.
- MarkSweepHeap.Heap.Sweep: does not model the capacity given back by `shrink_to`.
- Collector.Vm.GcCollect: does not model the clock, counters, trace events and the host's stores; the handles for the host's hook are its result.
- Collector.Vm.GcMarkRoots: groups the roots the source names one by one into lists of values and of ids, in the order they are marked.
- Collector.RunProgram: does not model how frames are pushed and popped; a program step may change registers, frames and contexts in any way that stores only references to objects in use and leaves windows and frames in order.
- ShiftArray.ArrayData.Compact: counts the elements moved by reclaiming room only, not those a splice moves.
- Fibers.Vm.FiberSwitch: does not model the frame and registers made for a new fiber's block; they are a parameter, as is the array made of several arguments.
- Fibers.Vm.FiberInit: models a Fiber object by its link to a context, given and handed back; a receiver that is no Fiber, or one not initialized, is refused before the steps modelled.
- Fibers.Vm.FiberYield: does not model writes to a parked context's registers through a captured environment; the protocol itself makes none.
- `reset_to_root` and the scheduler's own switches: after an abort contexts on the old chain stay as they are, and `ext_task` is not part of this model.
- The rest of `src/vm.rs`: opcode dispatch, classes and methods, constants, backtraces, messages.
- `src/sorted_deque.rs`, `src/host_store.rs`, `src/symbol.rs`, `src/opcode.rs`, `src/rite.rs`, `src/convert.rs`, `src/inspect.rs`, the regexp engine, checkpoints, the command line: only easy members, tables, plumbing or input and output.
