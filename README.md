# NPK_ds in Dafny

`NPK_ds.h` is a single-header, type-erased container library for C. This project is a
Dafny model of its engine, together with proofs about that model. The engine has four
parts:

- **The growable array `NPK_array`.** It holds `len` elements in an allocation of
  `maxlen` slots. A full array grows to 1.5 times its capacity before an append.
  Elements are compared with a caller-supplied equality callback.
  - Modelled by the class `Buffers.Buffer`: an `array<T>` plus `len`, with `eq` as a
    function parameter.
  - Its sequence-level meaning is in `SeqSpec`: filter, replace, reverse, split and join.
- **The dimension-aware operations.** These are copy, equals, contains, remove,
  replace and split at a depth `dim`, where every element above dimension 1 is itself
  an array.
  - Modelled in `Dims` on the datatype `Nested = Leaf(seq<T>) | Node(seq<Nested>)`,
    with the depth passed explicitly.
- **The string layer `NPK_string`.** It is a byte array whose last stored element is a
  NUL sentinel.
  - `Strings` gives its operations as methods on `Buffer<byte>`.
  - `Text` says what the C library calls they rely on see of the bytes:
    - `strlen`, `strcmp` and `strstr` stop at the first NUL (`CView`);
    - `strstr` is `FindFirst`;
    - split, replace and remove-all are built on `FindFirst`.
- **The identity-keyed hash map `NPK_map`.** A key is an address, and the home slot is
  the address modulo the capacity. It uses linear probing over a key-slot array and a
  value-slot array of equal capacity. NULL marks an empty slot. When an insertion
  brings the load to one half, the map is rebuilt at 1.5 times the capacity.
  - `Probing` gives the slot contents as a value `Table`, with the probes and the
    operations as functions.
  - `ProbeLaws` proves the operations' meaning: get, add, the rebuild and remove, as a
    finite function from keys to values. This holds under the probing invariant
    `Reachable`: every stored key is found by get from its home slot.
  - `HashMaps.HashMap` is the class with the two arrays and `len`. Its methods are
    proved equal to those functions.
- **The integer `*_equals` callbacks and the `*_asc` / `*_desc` comparators.** These
  are in `Comparators`.

Keys are positive naturals, and 0 is the NULL slot. Bytes are the newtype `Text.byte`.
A C string argument is `Text.CString`, a byte sequence without NUL.

## Model

| member | source | states |
|---|---|---|
| Growth.AsWrittenStalls | NPK_ds.h:636 | `maxlen *= 1.5` on an int leaves capacities 0 and 1 unchanged and strictly grows every capacity of at least 2 |
| Growth.MapCapacityOneNeverSettles | NPK_ds.h:1014-1015 | a map of capacity 1 is rebuilt at capacity 1 after any number of rebuilds, and the load test fires each time |
| Growth.Grown | NPK_ds.h:636 | the growth step always adds room, and equals the source's ⌊1.5·c⌋ for every capacity of at least 2 |
| Growth.CapacityAfterAddsBounds | NPK_ds.h:634-644 | after n appends the capacity holds every element, never shrank, and is unchanged while the array had room |
| Growth.CapacityAfterAddsCompose | NPK_ds.h:634-644 | n appends followed by m appends give the capacity of n + m appends |
| Growth.GrowUntilSparse | NPK_ds.h:1014-1027 | repeated growth reaches a capacity above twice the length; it keeps a capacity that is already sparse |
| SeqSpec.ElemsEqualIsEquality | NPK_ds.h:584-608 | with the identity as callback, element-wise equality of two arrays is equality of their contents |
| SeqSpec.FilterNoMatch | NPK_ds.h:721-730 | after remove-all, no element matches the removed value |
| SeqSpec.FilterLength | NPK_ds.h:721-730 | remove-all drops exactly as many elements as match |
| SeqSpec.FilterUnchanged | NPK_ds.h:721-730 | remove-all changes nothing when no element matches |
| SeqSpec.FilterSubset | NPK_ds.h:721-730 | remove-all keeps only elements of its input |
| SeqSpec.FilterConcat | NPK_ds.h:721-730 | remove-all distributes over concatenation, so survivors keep their order |
| SeqSpec.Deleted | NPK_ds.h:695-704 | deleting k elements at a position keeps those before it and shifts those after it left by k |
| SeqSpec.DeletedAgain | NPK_ds.h:856-860 | deleting at the same position again extends the deleted range by one, as string remove's repeated remove-at does |
| SeqSpec.ReplaceElemsAt | NPK_ds.h:646-654 | replace keeps the length; each element matching `from` becomes `to` and every other element stays |
| SeqSpec.ReversedIndex | NPK_ds.h:682-693 | reversal keeps the length and puts element n−1−k at position k |
| SeqSpec.ReversedInvolution | NPK_ds.h:682-693 | reversing twice gives the input back |
| SeqSpec.SplitElems | NPK_ds.h:542-560 | a split always yields at least one part |
| SeqSpec.SplitElemsCount | NPK_ds.h:542-560 | with k delimiter matches there are k + 1 parts |
| SeqSpec.SplitElemsClean | NPK_ds.h:542-560 | no part contains an element matching the delimiter |
| SeqSpec.JoinSplit | NPK_ds.h:542-560 | joining the parts with the delimiter gives the input back when only the delimiter matches it |
| SeqSpec.SplitJoin | NPK_ds.h:542-560 | splitting delimiter-free parts joined by the delimiter gives the same parts back |
| Buffers.ReversedPrefix | NPK_ds.h:682-693 | a sequence whose first n slots are mirrored and whose rest is unchanged is the reversed prefix followed by the rest |
| Buffers.Buffer.constructor | NPK_ds.h:512-520 | sized_new: an empty array whose capacity is the requested maxlen |
| Buffers.Buffer.Add | NPK_ds.h:634-644 | append: the contents gain `x` at the end; a full array first grows; len ≤ capacity still holds |
| Buffers.Buffer.RemoveAt | NPK_ds.h:695-704 | remove-at: exactly position idx is dropped, later elements shift left, and the storage is kept |
| Buffers.Buffer.Remove | NPK_ds.h:721-730 | remove-all: the contents become the input without its matching elements, in order |
| Buffers.Buffer.Replace | NPK_ds.h:646-654 | replace: the contents become the input with each match of `from` replaced by `to` |
| Buffers.Buffer.Contains | NPK_ds.h:610-620 | contains: true exactly when some element matches `val` |
| Buffers.Buffer.Equals | NPK_ds.h:584-608 | equals: true exactly when the lengths agree and the elements match position by position |
| Buffers.Buffer.Reverse | NPK_ds.h:682-693 | reverse: the first n elements are reversed in place and the rest is unchanged |
| Buffers.Buffer.Split | NPK_ds.h:542-560 | split: the parts are those of SplitElems on the contents |
| Buffers.Buffer.Copy | NPK_ds.h:522-540 | copy at dimension 1: fresh storage with the same slots, length and capacity |
| Dims.Copy | NPK_ds.h:522-540 | a deep copy has the source's length and shape at the top level (CopyIsSame gives the rest) |
| Dims.Equals | NPK_ds.h:584-608 | nested equals is true only for arrays of the same top-level length |
| Dims.CopyIsSame | NPK_ds.h:522-540 | a deep copy at any dimension is the same value at every level |
| Dims.EqualsReflexive | NPK_ds.h:584-608 | nested equals is reflexive when the scalar callback is |
| Dims.CopyEqualsSource | NPK_ds.h:522-608 | a deep copy keeps the dimension and compares equal to its source at that dimension |
| Dims.EqualsIsEquality | NPK_ds.h:584-608 | with the identity as callback, nested equals at the arrays' dimension is equality |
| Dims.DimContains | NPK_ds.h:622-632 | dimensional contains succeeds only when some element has the length of `val`, since equals compares lengths first |
| Dims.DimContainsIsMembership | NPK_ds.h:622-632 | with the identity as callback, dimensional contains is membership among the elements |
| Dims.DimRemoveAt | NPK_ds.h:706-719 | dimensional remove-at drops exactly element idx and shifts the later ones left |
| Dims.DimRemove | NPK_ds.h:732-741 | dimensional remove never lengthens the outer array and keeps only elements it had |
| Dims.DimRemoveProperties | NPK_ds.h:732-741 | after dimensional remove, no element equals `val`; the length drops by the number of equal elements; the dimension is kept |
| Dims.DimReplace | NPK_ds.h:656-668 | dimensional replace keeps the length of the outer array |
| Dims.DimReplaceAt | NPK_ds.h:656-668 | dimensional replace: each element equal to `from` becomes `to`, the others stay, and the length and dimension are kept |
| Dims.DimSplit | NPK_ds.h:562-582 | dimensional split always yields at least one part |
| Dims.DimSplitProperties | NPK_ds.h:562-582 | dimensional split: k delimiters give k + 1 parts, no part holds a delimiter, and joining the parts gives the input back |
| Dims.DimSplitHasDim | NPK_ds.h:562-582 | splitting an array of dimension d yields an array of dimension d + 1 |
| Text.CView | NPK_ds.h:192 | what strcmp and strstr see is the NUL-free prefix of the stored bytes, up to the first NUL |
| Text.CViewOfPrefix | NPK_ds.h:192 | NUL-free bytes followed by a NUL are seen whole |
| Text.CViewExtend | NPK_ds.h:192 | bytes after a NUL are never seen |
| Text.CViewSameLength | NPK_ds.h:192 | a NUL-terminated text equals a NUL-free string of its length exactly when the bytes are equal |
| Text.ViewIsCView | NPK_ds.h:192 | the NUL-free prefix followed by a NUL or by the end is exactly CView |
| Text.ViewOfPrefix | NPK_ds.h:192 | NUL-free bytes followed by a NUL have themselves as their only view |
| Text.StrNEqualIsPrefix | NPK_ds.h:207 | strncmp over strlen(s) bytes is 0 exactly when s is a prefix |
| Text.FindFirst | NPK_ds.h:195 | strstr's result lies at or after the start and leaves room for the needle |
| Text.FindFirstSpec | NPK_ds.h:195 | strstr returns an occurrence with no earlier one, and NULL exactly when there is none |
| Text.SplitFrom | NPK_ds.h:777-801 | a string split always yields at least one part |
| Text.SplitFromProperties | NPK_ds.h:777-801 | joining the parts with the delimiter gives the text back, and no part contains the delimiter |
| Text.ReplaceFromNoNul | NPK_ds.h:814-834 | replacing with a NUL-free string in a NUL-free text gives a NUL-free text |
| Text.ReplaceIsSplitJoin | NPK_ds.h:814-834 | replace-all is splitting on `from` and joining with `to` |
| Text.ReplaceIdentities | NPK_ds.h:814-834 | replacing a pattern by itself, or a pattern that does not occur, changes nothing |
| Text.StripAll | NPK_ds.h:852-863 | remove-all leaves no occurrence, never lengthens the text, changes nothing without an occurrence, and adds no NUL |
| Text.StripAllStep | NPK_ds.h:852-863 | deleting the first occurrence and searching again from the start does not change the final result |
| Text.StripAllExample | NPK_ds.h:852-863 | "abcabc" with every "bc" removed is "aa" |
| Text.SplitExample | NPK_ds.h:777-801 | "a,,b" split on "," is "a", "", "b" |
| Text.LowerAll | NPK_ds.h:836-842 | lowering keeps the length |
| Text.UpperAll | NPK_ds.h:844-850 | raising keeps the length |
| Text.LowerAllProperties | NPK_ds.h:836-842 | lowering leaves no upper-case letter, adds 0x20 to each upper-case letter, leaves other bytes alone, is idempotent, and undoes raising |
| Text.UpperAllProperties | NPK_ds.h:844-850 | raising leaves no lower-case letter, subtracts 0x20 from each lower-case letter, leaves other bytes alone, is idempotent, and undoes lowering |
| Strings.Chars | NPK_ds.h:204 | the stored bytes are the logical content followed by the NUL sentinel |
| Strings.SizedNew | NPK_ds.h:769-775 | sized_new: an empty string (the sentinel alone) |
| Strings.Add | NPK_ds.h:809-812 | add: the logical content gains exactly `c` and the sentinel stays last |
| Strings.Append | NPK_ds.h:803-807 | append: the logical content gains exactly `s` |
| Strings.NewString | NPK_ds.h:756-767 | new: the string holds exactly `s`; "" gets two slots, any other string its bytes plus one |
| Strings.Length | NPK_ds.h:204 | the length is the stored length minus the sentinel |
| Strings.IsEmpty | NPK_ds.h:201 | is_empty is true exactly when the logical content is empty |
| Strings.Equals | NPK_ds.h:192 | equals: the bytes up to the first NUL are exactly `s`; for a NUL-free string, the content is `s` |
| Strings.Contains | NPK_ds.h:195 | contains: `s` occurs in the visible bytes |
| Strings.Starts | NPK_ds.h:207 | starts: `s` is a prefix of the visible bytes |
| Strings.Ends | NPK_ds.h:210 | ends: the last strlen(s) bytes are `s` |
| Strings.RemoveAt | NPK_ds.h:234 | remove-at: exactly the byte at idx is dropped and the sentinel stays last |
| Strings.Visible | NPK_ds.h:195 | the scan start of strstr: the view of the stored bytes |
| Strings.SplitText | NPK_ds.h:777-801 | the split loop builds exactly SplitFrom of the visible bytes |
| Strings.Split | NPK_ds.h:777-801 | split: the parts between non-overlapping delimiters, found left to right |
| Strings.ReplaceText | NPK_ds.h:814-834 | the replace loop builds exactly ReplaceFrom of the visible bytes |
| Strings.Replace | NPK_ds.h:814-834 | replace: the string is replaced by a fresh one holding every occurrence of `from` replaced by `to`, with the capacity of a string grown from two slots |
| Strings.DeleteRange | NPK_ds.h:856-860 | strlen(s) remove-ats at one position delete that many bytes there |
| Strings.Remove | NPK_ds.h:852-863 | remove: the visible bytes become StripAll of themselves (bytes after an embedded NUL stay), and no occurrence of `s` is left |
| Strings.ToLower | NPK_ds.h:836-842 | to_lower: the content becomes LowerAll of itself |
| Strings.ToUpper | NPK_ds.h:844-850 | to_upper: the content becomes UpperAll of itself |
| Strings.Reverse | NPK_ds.h:225 | reverse: the content is reversed and the sentinel stays last |
| Probing.Home | NPK_ds.h:929 | the home slot is a slot of the table |
| Probing.Slot | NPK_ds.h:931-932 | probe step j visits (home + j) mod capacity |
| Probing.Step | NPK_ds.h:931-932 | every slot is visited at some step of a probe |
| Probing.StepOfSlot | NPK_ds.h:931-932 | different steps of one probe visit different slots |
| Probing.FindFrom | NPK_ds.h:928-944 | a hit of get's probe is a slot holding the key |
| Probing.Lookup | NPK_ds.h:928-944 | a value get returns belongs to a slot that holds the key, and the NULL key 0 is never found |
| Probing.FreeOrKey | NPK_ds.h:1001-1008 | add writes an empty slot or the slot holding the key; when it finds none, every slot is occupied |
| Probing.Holding | NPK_ds.h:1039-1045 | remove's probe finds the first slot in probe order that holds the key; when it finds none, no slot holds the key |
| Probing.CountUpdate | NPK_ds.h:1011 | storing into a slot changes the number of occupied slots by what left and what came in |
| Probing.CountZeros | NPK_ds.h:867-875 | a cleared key array has no occupied slot |
| Probing.Empty | NPK_ds.h:867-875 | sized_new: both arrays have the capacity, every key slot is cleared and the length is 0 |
| Probing.Put | NPK_ds.h:1001-1013 | add's insertion keeps the capacity, adds at most one pair, and keeps the length equal to the occupied slots |
| Probing.SlotValue | NPK_ds.h:1019 | the value read for a slot is what get returns for its key or, where get misses the key, the slot's own value; the source reads NULL there (see Findings) |
| Probing.Reinsert | NPK_ds.h:1016-1022 | reinsertion keeps the target's capacity and adds at most one pair per stored key |
| Probing.Rebuild | NPK_ds.h:1015-1026 | the rebuilt map has the requested capacity and no more pairs than were stored |
| Probing.Grow | NPK_ds.h:1014-1027 | the rebuild inside add has the grown capacity |
| Probing.Settle | NPK_ds.h:1014-1027 | after add's rebuilds, fewer than half of the slots are occupied and the capacity has not shrunk; a sparse map is untouched |
| Probing.Added | NPK_ds.h:1001-1037 | add keeps the length equal to the occupied slots and keeps the map's load invariant |
| Probing.Removed | NPK_ds.h:1039-1059 | remove keeps the capacity and the length count, and keeps the load invariant |
| Probing.KeysFrom | NPK_ds.h:886-898 | keys_new lists as many keys as there are occupied slots, and exactly the stored keys |
| Probing.ValuesFrom | NPK_ds.h:900-926 | values_new lists one value per occupied slot |
| ProbeLaws.ReachableDistinct | NPK_ds.h:1001-1037 | under the probing invariant, no key is stored twice |
| ProbeLaws.FindAbsent | NPK_ds.h:928-944 | under the invariant, get returns NULL exactly for keys that are not stored |
| ProbeLaws.FindThroughFree | NPK_ds.h:928-944 | get stops where add would write: it finds the key there or not at all |
| ProbeLaws.FindNew | NPK_ds.h:1008-1011 | the key add wrote into an empty slot is found there by get |
| ProbeLaws.FindKept | NPK_ds.h:1008-1011 | filling an empty slot does not change any get that already succeeded |
| ProbeLaws.FreeOrKeyFull | NPK_ds.h:1001-1036 | add writes nothing only when every slot is occupied |
| ProbeLaws.HoldingFinds | NPK_ds.h:1039-1045 | with distinct keys, remove's probe finds the one slot holding the key |
| ProbeLaws.HoldingAbsent | NPK_ds.h:1039-1045 | remove's probe finds nothing exactly when the key is not stored |
| ProbeLaws.SlotValueOwn | NPK_ds.h:917 | with distinct keys, the value read for an occupied slot is that slot's value |
| ProbeLaws.SlotValueAgrees | NPK_ds.h:1019 | under the invariant, get of a slot's key returns that slot's value |
| ProbeLaws.HeldIsLookup | NPK_ds.h:928-944 | under the invariant, get returns the value stored with the key anywhere in the table |
| ProbeLaws.PutReachable | NPK_ds.h:1001-1013 | add's insertion keeps the probing invariant, and stores one more key exactly when the key is new |
| ProbeLaws.PutStored | NPK_ds.h:1001-1013 | after the insertion, the stored keys are the old ones plus the added key |
| ProbeLaws.PutLookup | NPK_ds.h:1001-1036 | after the insertion, get maps the key to the new value and every other key to its old value |
| ProbeLaws.ReinsertCount | NPK_ds.h:1016-1022 | reinsertion into an empty map gives a reachable table holding one pair per stored key |
| ProbeLaws.ReinsertKept | NPK_ds.h:1016-1022 | a key not reinserted keeps what get returned for it in the target |
| ProbeLaws.ReinsertMoved | NPK_ds.h:1016-1022 | a reinserted key ends up with the value read from its old slot |
| ProbeLaws.RebuildSpec | NPK_ds.h:1014-1027 | the rebuild restores the probing invariant, keeps the length, and keeps every stored pair, whether get reached it or not |
| ProbeLaws.SettleSpec | NPK_ds.h:1014-1027 | add's rebuilds keep the invariant, the length and every get; the capacity is the first sparse one |
| ProbeLaws.AddedLookup | NPK_ds.h:1001-1037 | after add, get of the key yields the value, every other key keeps its value, and the invariant holds |
| ProbeLaws.AddedLength | NPK_ds.h:1001-1037 | add grows the length by one exactly when the key is new |
| ProbeLaws.AddedCapacity | NPK_ds.h:1014-1015 | a new key grows the capacity by 1.5 until the load is below one half; an existing key leaves it alone |
| ProbeLaws.AddedCapacityExample | NPK_ds.h:1014-1015 | a map of 9 slots holding 4 keys has 13 slots and 5 pairs after a fifth key |
| ProbeLaws.RemovedSpec | NPK_ds.h:1039-1059 | remove clears exactly the slot holding the key, leaves the values alone, drops the length when the key was stored, and afterwards the key is neither stored nor found |
| ProbeLaws.FindAfterClear | NPK_ds.h:928-944 | once the slot remove's probe finds is cleared, get's probe for that key misses from the same step on |
| ProbeLaws.RemovedClearsFirst | NPK_ds.h:1039-1059 | on any key array, even one holding a key twice, remove clears exactly the first slot in probe order holding the key, drops the length by one, keeps the values, and afterwards get and contains_key miss the key; an absent key leaves the map unchanged |
| ProbeLaws.RemoveHidesKey | NPK_ds.h:1052 | as written, removing 6 from a map of 6 slots holding 6 and 12 leaves 12 stored but not found by get |
| ProbeLaws.ReAddStoresTwice | NPK_ds.h:1001-1013 | as written, adding 12 again after that removal stores it in slot 0 as well, so the key is held twice |
| ProbeLaws.RebuildReadsNull | NPK_ds.h:1019-1021 | as written, adding 1 and 2 to that map triggers a rebuild whose get for the hidden 12 returns NULL |
| ProbeLaws.RebuildKeepsHidden | NPK_ds.h:1019-1021 | reading the slot itself when get misses, the rebuild keeps 12 with its value 20 |
| ProbeLaws.RemovedRebuilt | NPK_ds.h:1039-1059 | remove followed by a rebuild at the same capacity keeps the load invariant and the capacity |
| ProbeLaws.RemovedRebuiltSpec | NPK_ds.h:1039-1059 | after the repaired remove, the key is gone, every other key keeps its value, and the probing invariant holds |
| ProbeLaws.EqualReflexive | NPK_ds.h:946-967 | a map equals itself when the value callback is reflexive |
| ProbeLaws.EqualLookups | NPK_ds.h:946-967 | maps that are equal answer every get alike: both miss, or both return matching values |
| ProbeLaws.ValuesFromHas | NPK_ds.h:900-926 | every occupied slot contributes its value to values_new |
| ProbeLaws.ValuesFromAt | NPK_ds.h:900-926 | every value values_new lists comes from an occupied slot |
| HashMaps.HashMap.constructor | NPK_ds.h:867-875 | sized_new: every key slot is cleared, the length is 0, and every get misses |
| HashMaps.HashMap.Filled | NPK_ds.h:867-875 | a fresh map is the empty table of its capacity |
| HashMaps.HashMap.Get | NPK_ds.h:928-944 | get returns Lookup; under the invariant it misses exactly for keys that are not stored |
| HashMaps.HashMap.ContainsKey | NPK_ds.h:969-985 | contains_key is get's probe; under the invariant it is true exactly for stored keys |
| HashMaps.HashMap.ValueAt | NPK_ds.h:1019 | the value the rebuild reads for a slot |
| HashMaps.HashMap.FreeSlot | NPK_ds.h:1001-1008 | add's probe loop returns FreeOrKey |
| HashMaps.HashMap.Insert | NPK_ds.h:1001-1013 | add's write: the new state is Put of the old one |
| HashMaps.HashMap.Rebuilt | NPK_ds.h:1015-1024 | the rebuild loop fills a fresh map to exactly Rebuild of the current state |
| HashMaps.HashMap.MoveSlot | NPK_ds.h:1018-1022 | one reinsertion step advances the rebuild by one slot |
| HashMaps.HashMap.Rehash | NPK_ds.h:1025-1026 | the map adopts the grown map's storage; its state is Grow of the old one |
| HashMaps.HashMap.Add | NPK_ds.h:1001-1037 | add: the new state is Added of the old one, and the load invariant holds again |
| HashMaps.HashMap.HoldingSlot | NPK_ds.h:1039-1045 | remove's probe loop returns Holding |
| HashMaps.HashMap.Remove | NPK_ds.h:1039-1059 | remove as written: the new state is Removed of the old one |
| HashMaps.HashMap.RemoveRepaired | NPK_ds.h:1039-1059 | the repaired remove: the new state is RemovedRebuilt of the old one |
| HashMaps.HashMap.KeysNew | NPK_ds.h:886-898 | keys_new: the stored keys in slot order, `len` of them, exactly the stored ones |
| HashMaps.HashMap.ValuesNew | NPK_ds.h:900-926 | values_new: one value per stored key, in slot order |
| HashMaps.HashMap.ContainsValue | NPK_ds.h:987-999 | contains_value: true exactly when some occupied slot's value matches |
| HashMaps.HashMap.Equals | NPK_ds.h:946-967 | equals: the same capacity, the same key in every slot, and matching values wherever a key is stored |
| HashMaps.HashMap.Copy | NPK_ds.h:877-884 | copy_new: fresh arrays with the same slots and length |
| Comparators.Equals | NPK_ds.h:1080-1106 | the integer `*_equals` callback holds exactly when neither value is greater, so it agrees with the comparators' order |
| Comparators.Compare | NPK_ds.h:1108-1120 | the generated comparator is 0 for equal values and ±val otherwise |
| Comparators.Asc | NPK_ds.h:1122-1148 | `*_asc` is negative, zero or positive as the first value is smaller, equal or greater |
| Comparators.Desc | NPK_ds.h:1150-1176 | `*_desc` is negative, zero or positive as the first value is greater, equal or smaller |
| Comparators.AscAntisymmetric | NPK_ds.h:1108-1120 | swapping the arguments negates both comparators |
| Comparators.DescIsSwappedAsc | NPK_ds.h:1108-1120 | descending order is ascending order with the arguments swapped |
| Comparators.ComparatorsTransitive | NPK_ds.h:1108-1120 | both comparators are transitive, as qsort requires |

## Left out

- File I/O (`NPK_file_*`): reading and writing files is outside the model.
- Numeric↔text conversion (`*_to_string_new`, `NPK_string_to_*`): these are thin
  wrappers over `snprintf` and `sscanf`.
- Floating-point `*_equals` and comparators: epsilon-based float arithmetic is outside
  the model.
- The map's load test compares two doubles. It is modelled as the integer test
  `2 * len >= capacity`, which agrees with it for every capacity an int can hold.
- Deallocation (`NPK_array_dim_del`, `NPK_map_dim_del`, the frees inside dimensional
  remove and replace) and the `alloca` swap. Memory management has no counterpart
  under Dafny's heap. A swap is a plain exchange of two slots.
- Sort (`NPK_array_sort_`, `NPK_string_sort`): it delegates to the C library's `qsort`.
  Only the comparators it is given are modelled.
- The character classification macros other than the case tests
  (`NPK_char_is_blank`, `is_digit`, `is_punct`): no operation of the engine uses them.
- Maps at dimension greater than 1 (values_new, copy, remove and contains_value on
  nested values): the map is modelled with scalar values only.
- Integer widths:
  - keys are unbounded positive naturals, so the truncation of `int64_t key % maxlen`
    into an `int` is not modelled;
  - lengths and indices are naturals, not `int`.
- Buffers.Buffer.Split: the parts are returned as sequences, not as freshly allocated
  arrays. The capacities those arrays get are not modelled.
- Dims.DimSplit: the same holds for the arrays that dimensional split allocates.
- HashMaps.HashMap.KeysNew: the keys are returned as a sequence rather than a fresh
  array. The same holds for HashMaps.HashMap.ValuesNew.
- HashMaps.HashMap.constructor: it requires a capacity of at least 1, because every map
  operation takes a key modulo the capacity.
- Probing.Empty: the value slots of a new map are uninitialised in C. The model fills
  them with a given value: the default of `V`, or the first value slot of the map being
  rebuilt.
- The map keeps one `len` for both of its arrays, since the source always changes the
  two lengths together.
- Strings.Ends: it requires `strlen(s)` to be at most the string's length. Otherwise the
  source compares from before the start of the buffer.
- Strings.Split: the parts are returned as byte sequences, not as NUL-terminated
  strings with their own capacities.
- Strings.Split: it requires a non-empty delimiter, as do Strings.Replace (a non-empty
  `from`) and Strings.Remove (a non-empty `s`). `strstr` finds an empty needle at its
  start, so the source loops forever on such input.
- Strings.Replace: the new text is computed by ReplaceText and then appended to a fresh
  string. The source appends piece by piece; the result and the capacity are the same.
- HashMaps.HashMap.Add: the nested rebuild inside a rebuild is written as a loop that
  rebuilds while the load is at least one half. A nested rebuild can only fire on the
  last reinsertion, so the two agree.
- HashMaps.HashMap.Remove: it keeps the source's behaviour, which breaks the probing
  invariant (see Findings). The repaired operation is
  HashMaps.HashMap.RemoveRepaired.
- ProbeLaws.ReAddStoresTwice: after such a removal, adding a hidden key again stores
  it a second time, as the source does. The model keeps this behaviour.
- Probing.SlotValue: where get misses a key that is still stored (a key hidden by
  remove), the source gets NULL back and the model reads the slot's own value instead.
  This substitution is used by every member below.
- Probing.ValuesFrom: for a hidden key the source copies the value from NULL
  (`NPK_ds.h:917-919`). The model lists the slot's own value.
- HashMaps.HashMap.ValuesNew: the same NULL read as Probing.ValuesFrom is replaced by
  the slot's own value.
- HashMaps.HashMap.ContainsValue: it builds values_new, so it inherits that
  substitution.
- HashMaps.HashMap.Equals: for a hidden key the source passes get's NULL to the value
  callback (`NPK_ds.h:959`), and the integer callbacks dereference it. The model
  compares the slots' own values. The same holds for the predicate ProbeLaws.Equal.

## Findings

| source | as written | input that shows it | evidently intended | confidence | as-written member | corrected member |
|---|---|---|---|---|---|---|
| NPK_ds.h:636 | `arr->maxlen *= 1.5` truncates back to an int | an array made with `NPK_array_sized_new(T, 1)` that receives two elements: capacity 1 "grows" to 1 and the second element is written past the allocation (capacity 0 fails on the first add) | growth makes room for at least one more element | not executed | Growth.AsWrittenStalls | Growth.Grown |
| NPK_ds.h:1015 | the rebuild's capacity is `map_maxlength(m) * 1.5` | a map made with `NPK_map_sized_new(T, 1)` that receives one key: load 1/1 triggers a rebuild at capacity 1, whose reinsertion triggers the same rebuild again, without end | the rebuild reaches a capacity with load below one half | not executed | Growth.MapCapacityOneNeverSettles | ProbeLaws.SettleSpec |
| NPK_ds.h:1052 | remove sets the key slot to NULL, leaving no tombstone | a map of capacity 6 holding 6 (slot 0) and 12 (slot 1, its home slot 0 taken): after removing 6, get and contains_key miss 12 although it is still stored | other keys stay reachable after a removal | not executed | ProbeLaws.RemoveHidesKey | ProbeLaws.RemovedRebuiltSpec |
| NPK_ds.h:1019 | the rebuild reads each value with `NPK_map_get_` | the map above after adding keys 1 and 2 (load 3/6): keys_new lists 12, get returns NULL for it, and `NPK_map_add_` copies the value from a NULL pointer; values_new (917-919) and equals (959) read the same NULL for 12 | every stored pair survives the rebuild, and values_new and equals see 12's value | not executed | ProbeLaws.RebuildReadsNull | ProbeLaws.RebuildKeepsHidden |
