# UnityMemorySnapshotToCsv: the address-space engine in Dafny

UnityMemorySnapshotToCsv reads a Unity memory snapshot and writes CSV reports
about it. Beneath the Unity API calls and the file output sits a small engine,
and this project models that engine and proves what it does.

- **Snapshot cache (`MemorySnapshotCacheData`).** It copies the snapshot's
  tables into lists and dictionaries:
  - native objects and native allocations, each sorted by address;
  - root references keyed by id, and memory regions;
  - managed types, keyed both by type-info address and by type index;
  - field descriptions, with each type's fields split into a static list and
    an instance list;
  - managed heap and stack sections, merged into one list sorted by start
    address;
  - the GC-handle targets.

  On top of these tables it answers three questions:
  - which section holds an address: a hand-written binary search whose test
    includes the one-past-end address;
  - what pointer is stored at an address: a 4- or 8-byte little-endian read;
  - how long an array is.

  The older revision of the class also has a type resolver that follows at
  most two pointers.
- **Object crawler (`ManagedObjectCrawler`), in two revisions.**
  - The current one builds a record for every GC-handle target that lies in a
    section.
  - The older one also reads every reference-typed static field slot.
  - Both insert the records into an address-keyed table, where the first
    record for an address wins.
- **Unified address map (`MemorySnapshotMap`).** It turns regions, native
  allocations, native objects and managed sections into (start, end, size)
  entries and sorts them by start, then by end.
- **Nesting classification.** This is the loop in `SaveMergedMemoryImageInfo`.
  It numbers the entries that have a non-zero size, and gives each one either
  the number of an earlier entry that is still open at its start, or -1.
- **String helpers.**
  - The cached `0x{0:X<2*pointerSize>}` address pattern and the addresses
    formatted with it.
  - The managed-object listing, which skips address 0.
  - Stripping the 5-character `.snap` suffix from a file name.

## How the model maps the code

- **Mutable classes become Dafny classes.**
  - `MemorySnapshotCacheData`, both `ManagedObjectCrawler`s and
    `MemorySnapshotMap` become classes.
  - Their `List` and `Dictionary` fields become `seq` and `map` fields that
    the methods reassign.
  - Each `Create*` loop and each crawler loop is a method with a loop. It is
    proved against a function that specifies it: `SortByKey`,
    `GcHandleRecords`, `StaticRecords`, `FieldRecords`, `AddFirst`,
    `FirstWins`, `MapEntries` and `Classify`.
- **Exceptions become values.** Each exception the code can raise is a
  `Fault` value carried by `Result` or `Outcome`:
  - `Dictionary.Add` with a duplicate key;
  - a missing key in the by-type-index indexer;
  - a field index out of range;
  - a pointer size other than 4 or 8;
  - a `BitConverter` read past the end of a byte array;
  - `string.Remove` with a negative start.

  A null reference becomes `Option`.
- **Machine words are explicit.** A `ulong` is `u64`. The unchecked sums
  `start + bytes.Length` and `base + size` wrap modulo 2^64 (`AddU64`).
  `BitConverter` reads little-endian bytes, as on the little-endian hosts the
  tool runs on.
- **`ManagedType.IsArray` and `IsValue`** are predicates on the type flags,
  with `kValueType = 1` and `kArray = 2`.
- **`List.Sort` is an insertion sort by an integer key.** It is proved sorted
  and a permutation of its input; its order among equal keys is the model's
  own (see "## Left out"). The map's `(start, end)` comparison is the
  single key `start * 2^64 + end`, and `StartEndKeyIsLexicographic` proves
  that this key orders entries the same way.
- **Shared objects are rebuilt, not aliased.**
  - `ResolveManagedFieldType` fills in the field lists of `ManagedType`
    objects that both type dictionaries share. The model rebuilds the list and
    both tables from the resolved types (`ResolveTable`), and proves that they
    stay consistent.
  - A field's back reference to its type (`fieldType`) is the lookup
    `managedTypeByTypeIndex[f.typeIndex]`, which the first loop of
    `ResolveManagedFieldType` guarantees to succeed.
- **One model for both revisions where the code is the same.**
  - Both cache revisions have the same binary search, comparator, pointer
    read, native sorts and root-reference table, so each is modelled once.
  - The nesting loops in the two `MemorySnapshotToCsv.cs` files are the same
    apart from how they format addresses, so they share one method.
  - The older crawler calls `ReadPointerByAddress` and `ReadPointer` on the
    cache, so both crawlers are modelled against the one cache class.

### Two behaviours of the code worth knowing

- **A lookup can miss the first section.** A lookup of 0x110 in the
  sections [0x100, 16 bytes] and [0x200, 8 bytes] returns null, although
  0x110 lies in the first section.
  - The binary search starts at index `length / 2` and stops as soon as
    `(minIdx + maxIdx) / 2` equals `minIdx`, so with two or more sections it
    never examines index 0.
  - `Segments.LookupMissesFirstSegment` shows this case.
  - `Segments.FirstSegmentNeverExamined` proves it in general: the lookup's
    result does not depend on the first section at all.
- **A GC handle whose target is in no section gets no record.** This holds
  for target 0 as well (`Editor/Core/ManagedObjectCrawler.cs` lines 32-34).
  - `ObjectRecords.CoreCrawlTable` proves that the table's keys are exactly
    the handle targets that lie in a section.
  - Address 0 reaches the table only through a static field slot in the older
    crawler (`ObjectRecords.NullStaticSlotIsRecorded`).

## Model

| member | source | states |
|---|---|---|
| Words.AddU64 | Editor/Core/MemorySnapshotCacheData.cs:593 | the unchecked ulong `startAddress + bytes.Length` is the sum modulo 2^64, and when it wraps the result is below both operands |
| Words.DecodeEncode | Editor/Core/MemorySnapshotCacheData.cs:599-607 | reading back the little-endian encoding of a value that fits in n bytes gives the value |
| Words.EncodeDecode | Editor/Core/MemorySnapshotCacheData.cs:599-607 | encoding the value read from n bytes gives back the same n bytes, so the little-endian read is a bijection |
| Words.ReadUnsigned | Editor/Core/MemorySnapshotCacheData.cs:603-606 | BitConverter.ToUInt32/ToUInt64: succeeds exactly when offset >= 0 and offset + width <= length, the value fits in width bytes, and otherwise fails with the offset, width and length |
| Words.ReadInt32 | Editor/Core/MemorySnapshotCacheData.cs:612-615 | BitConverter.ToInt32: succeeds exactly when 4 bytes are available; the result is the two's-complement reading of the 4 little-endian bytes and lies in [-2^31, 2^31) |
| Words.ReadPointer | Editor/Core/MemorySnapshotCacheData.cs:599-607 | succeeds exactly when the pointer size is 4 or 8 and that many bytes are available at offset; any other size fails with UnexpectedPointerSize; the value is the little-endian number in those bytes, below 2^32 for size 4; the same code at Editor/MemorySnapshotCacheData.cs:505-513 behaves the same |
| Words.PointerRoundTrip | Editor/Core/MemorySnapshotCacheData.cs:599-607 | a pointer stored little-endian anywhere in a byte array is read back exactly at its offset |
| AddressFormat.AddressPattern | Editor/MemorySnapshotCacheData.cs:110-120 | the pattern built for the cache is a .NET composite format of argument 0 with the `X` (uppercase hex) specifier: it starts with `0x{0:X` and ends with `}`, and the characters between are the decimal digits of 2 * pointerSize (after a minus sign when the pointer size is negative) |
| AddressFormat.DecimalNatRoundTrip | Editor/MemorySnapshotCacheData.cs:116 | reading back the decimal spelling that string concatenation gives a non-negative int yields the number, and there is no leading zero |
| AddressFormat.DecimalRoundTrip | Editor/MemorySnapshotCacheData.cs:116 | for a negative int the spelling is a minus sign followed by the digits of its magnitude |
| AddressFormat.HexRoundTrip | Editor/Core/MemorySnapshotCacheData.cs:180-183 | the uppercase hex digits of a value denote that value |
| AddressFormat.PaddedHexRoundTrip | Editor/Core/MemorySnapshotCacheData.cs:180-183 | left-padding the hex digits with zeros to the format's width keeps the value they denote |
| AddressFormat.FormatAddress | Editor/Core/MemorySnapshotCacheData.cs:180-183 | the formatted address is `0x` followed by hex digits whose value is the address |
| AddressFormat.FormatAddressWidth | Editor/Core/MemorySnapshotCacheData.cs:180-183 | an address that fits in pointerSize bytes is printed with exactly 2 * pointerSize digits after `0x` |
| Segments.Compare | Editor/Core/MemorySnapshotCacheData.cs:589-598 | returns -1 exactly when addr is below the start, 1 exactly when it is past start + length, and 0 exactly when start <= addr <= start + length (end included) |
| Segments.ContainedOffset | Editor/Core/MemorySnapshotCacheData.cs:641 | for a section that contains addr, the end does not wrap and the offset addr - start lies in [0, length], so the int cast keeps it |
| Segments.Probe | Editor/Core/MemorySnapshotCacheData.cs:559-586 | an index the search returns lies inside the current window and its section contains the address |
| Segments.FindSegment | Editor/Core/MemorySnapshotCacheData.cs:557-587 | a result is an element of the sorted list that contains the address; an empty list gives null; with one section the result is that section exactly when it contains the address |
| Segments.GetManagedMemory | Editor/Core/MemorySnapshotCacheData.cs:557-587 | the while loop over minIdx/maxIdx/currentIdx terminates, indexes only inside the list and returns FindSegment's answer, so its result is a containing section of the list; the same code at Editor/MemorySnapshotCacheData.cs:463-504 behaves the same |
| Segments.ProbeIgnoresFirst | Editor/Core/MemorySnapshotCacheData.cs:559-586 | once the window holds two or more sections or starts past index 0, the search never reads index 0 and never returns it |
| Segments.FirstSegmentNeverExamined | Editor/Core/MemorySnapshotCacheData.cs:557-587 | with two or more sections, lists that differ only in the first section give the same lookup result, and a found section is never the first one |
| Segments.LookupMissesFirstSegment | Editor/Core/MemorySnapshotCacheData.cs:557-587 | with sections [0x100, 16 bytes] and [0x200, 8 bytes], 0x110 lies in the first section yet the lookup returns null |
| Segments.FindSegmentComplete | Editor/Core/MemorySnapshotCacheData.cs:557-587 | on sorted, disjoint sections, an address in the section at index j >= 1 (or in the only section) is found in that section |
| Sorting.SortByKey | Editor/Core/MemorySnapshotCacheData.cs:525-536 | List.Sort with a key comparator: the result is sorted by the key, has the same length and is a permutation of the input |
| ManagedTypes.IndexByKey | Editor/Core/MemorySnapshotCacheData.cs:425-436 | the Dictionary.Add loop succeeds exactly when the keys are distinct; then the table's keys are the items' keys and each key maps to its item; otherwise it fails with DuplicateKey for a key that repeats an earlier one |
| ManagedTypes.IndexedValues | Editor/Core/MemorySnapshotCacheData.cs:425-436 | every value of a built table is an item of the list and is stored under its own key |
| ManagedTypes.OfKindMembers | Editor/Core/MemorySnapshotCacheData.cs:478-488 | a field is in the static (instance) list exactly when it is one of the picked fields and is (is not) static |
| ManagedTypes.OfKindAppend | Editor/Core/MemorySnapshotCacheData.cs:478-488 | splitting a concatenation is concatenating the splits, so each list keeps the order of fieldIndices |
| ManagedTypes.OfKindPartition | Editor/Core/MemorySnapshotCacheData.cs:478-488 | the static and instance lists together are a permutation of the fields picked by fieldIndices |
| ManagedTypes.SplitFieldInfos | Editor/Core/MemorySnapshotCacheData.cs:478-488 | succeeds exactly when every index is in range; then it returns the picked non-static fields and the picked static fields, each in fieldIndices order; otherwise it fails at the first out-of-range index |
| ManagedTypes.ResolveType | Editor/Core/MemorySnapshotCacheData.cs:474-488 | a type without field indices is unchanged; otherwise the static list is exactly the static fields named by fieldIndices and the instance list the others, both in fieldIndices order, and together they hold every named field as often as it is named; keys and flags are kept; it fails exactly when an index is out of range, with the first such index |
| ManagedTypes.ResolveAll | Editor/Core/MemorySnapshotCacheData.cs:472-489 | the loop over all types succeeds exactly when every type resolves, and then the i-th type is the i-th type resolved |
| ManagedTypes.ResolveTable | Editor/Core/MemorySnapshotCacheData.cs:465-490 | a type table seen after resolution has the same keys and holds the resolved version of each type |
| PointerReader.ReadPointerByAddress | Editor/Core/MemorySnapshotCacheData.cs:633-644 | no containing section gives (0, null, 0); otherwise the found section, offset = addr - start and the pointer read there; it fails exactly when the pointer size is wrong or fewer than pointerSize bytes remain past the offset |
| PointerReader.ReadPointerByAddressFindsStoredPointer | Editor/Core/MemorySnapshotCacheData.cs:633-644 | a pointer stored little-endian in a section the lookup can find is returned, with that section and its offset, when its own address is dereferenced |
| PointerReader.DereferencePastLastPointerFails | Editor/Core/MemorySnapshotCacheData.cs:633-644 | the inclusive end lets the lookup accept 0x1008 for an 8-byte section at 0x1000, and the 8-byte read at offset 8 then fails |
| PointerReader.ReadArraySize | Editor/Core/MemorySnapshotCacheData.cs:608-631 | the bounds pointer is read at offset + arrayBoundsOffsetInHeader; a non-zero bounds pointer gives 0 and a zero one gives the int32 at offset + 2 * arrayBoundsOffsetInHeader; read failures are passed on |
| PointerReader.ArraySizeRoundTrip | Editor/Core/MemorySnapshotCacheData.cs:608-631 | a header followed by a zero bounds pointer and a 4-byte length yields that length |
| LegacyTypeResolver.GetManagedTypeInfoFromAddr | Editor/MemorySnapshotCacheData.cs:446-460 | null once depth > 1 and for an address in no section; inside a section a failing pointer read raises; a pointer that is a type key returns that type; at depth 1 a miss gives null; at depth 0 a miss goes one hop further, where the same three outcomes apply (raise, the type under the second pointer, or null) |
| ObjectRecords.InspectAddress | Editor/Core/ManagedObjectCrawler.cs:54-80 | the record's address is the queried one; memoryBlock and offset come from the first dereference, and offset is 0 without a block; a type is set exactly when the first or second pointer is a known type, and the second wins; isArray holds exactly when the second lookup matched an array type |
| ObjectRecords.GcHandleRecords | Editor/Core/ManagedObjectCrawler.cs:28-42 | every record is for a GC-handle target in some section and is that address's own record, and every target in a section has a record |
| ObjectRecords.GcHandleRecordsFailure | Editor/Core/ManagedObjectCrawler.cs:28-42 | the GC-handle pass raises exactly when inspecting some handle target that lies in a section raises |
| ObjectRecords.FieldRecords | Editor/ManagedObjectCrawler.cs:48-56 | every record is the inspected record of a pointer read from a field of reference type at a non-negative offset, whether or not that pointer lies in a section; conversely every such field is read successfully and its pointer has a record; value-type fields and negative offsets contribute nothing |
| ObjectRecords.FieldRecordsFailure | Editor/ManagedObjectCrawler.cs:48-56 | one type's static fields raise exactly when, for some reference-typed field at a non-negative offset, the pointer read or the inspection of that pointer raises |
| ObjectRecords.TypeStaticRecords | Editor/ManagedObjectCrawler.cs:43-57 | a type without static bytes, with empty static bytes or without a static field list contributes nothing; every record is the inspected record of a pointer in a reference-typed static slot of the type, and every such slot's pointer has a record |
| ObjectRecords.TypeStaticRecordsFailure | Editor/ManagedObjectCrawler.cs:43-57 | one type's static pass raises exactly when one of its scanned slots raises |
| ObjectRecords.StaticRecords | Editor/ManagedObjectCrawler.cs:41-58 | every record of the static pass is the record of a pointer read from a reference-typed static slot of one of the types, and every such slot of every type has a record |
| ObjectRecords.StaticRecordsFailure | Editor/ManagedObjectCrawler.cs:41-58 | the static pass raises exactly when a scanned slot of some type raises |
| ObjectRecords.AddFirst | Editor/Core/ManagedObjectCrawler.cs:44-52 | adding records keeps every existing entry, adds exactly the new addresses, and stores under each new key a record with that address |
| ObjectRecords.AddFirstAppend | Editor/ManagedObjectCrawler.cs:19-26 | adding one batch of records and then another gives the same table as adding them together in that order |
| ObjectRecords.FirstWins | Editor/Core/ManagedObjectCrawler.cs:44-52 | the table's keys are the records' addresses and every value is a record with the key as its address |
| ObjectRecords.FirstWinsKeepsFirst | Editor/Core/ManagedObjectCrawler.cs:44-52 | when several records share an address, the table keeps the first one |
| ObjectRecords.FirstWinsExtends | Editor/ManagedObjectCrawler.cs:19-26 | later records never displace earlier ones, so static-field roots cannot replace a GC-handle record |
| ObjectRecords.CoreCrawl | Editor/Core/ManagedObjectCrawler.cs:19-25 | every key of the current crawl's table is a GC-handle target in some section; the crawl raises exactly when inspecting an in-section handle target raises |
| ObjectRecords.CoreCrawlTable | Editor/Core/ManagedObjectCrawler.cs:19-42 | the current crawl's keys are exactly the GC-handle targets in a section, and each value is the record of its key |
| ObjectRecords.EditorCrawl | Editor/ManagedObjectCrawler.cs:19-26 | every key of the older crawl's table is a GC-handle target in a section or a pointer read from a reference-typed static slot, and instance fields are never followed; the crawl raises exactly when an in-section handle target or a scanned static slot raises |
| ObjectRecords.EditorCrawlTable | Editor/ManagedObjectCrawler.cs:19-58 | on success the older table holds every GC-handle target that lies in a section and every pointer read from a reference-typed static slot of a type with non-empty static bytes and a static field list, and the value under each key is the record of that address |
| ObjectRecords.GcHandleRecordsFailurePersists | Editor/Core/ManagedObjectCrawler.cs:30-41 | an exception raised for one GC handle ends the whole pass with that exception |
| ObjectRecords.FieldRecordsFailurePersists | Editor/ManagedObjectCrawler.cs:48-56 | an exception raised for one static field ends the type's pass with that exception |
| ObjectRecords.StaticRecordsFailurePersists | Editor/ManagedObjectCrawler.cs:43-57 | an exception raised for one type ends the static pass with that exception |
| ObjectRecords.NullStaticSlotIsRecorded | Editor/ManagedObjectCrawler.cs:41-58 | a zero static slot gives a table entry at address 0, although 0 lies in no section |
| CacheData.NewManagedType | Editor/Core/MemorySnapshotCacheData.cs:410-422 | a type built from a description has its address, index and field indices, and no field lists yet |
| CacheData.MemorySnapshotCacheData.X16StrFormat | Editor/Core/MemorySnapshotCacheData.cs:168-178 | returns the pattern for the pointer size and leaves it cached, so every later call returns the same string |
| CacheData.MemorySnapshotCacheData.GetAddressStr | Editor/Core/MemorySnapshotCacheData.cs:180-183 | the address is formatted with the cached pattern: `0x` and hex digits denoting the address |
| CacheData.MemorySnapshotCacheData.CreateNativeObjects | Editor/Core/MemorySnapshotCacheData.cs:242-286 | the native objects are all the entries, sorted ascending by address; the same code at Editor/MemorySnapshotCacheData.cs:159-203 behaves the same |
| CacheData.MemorySnapshotCacheData.CreateNativeAllocation | Editor/Core/MemorySnapshotCacheData.cs:287-325 | the native allocations are all the entries, sorted ascending by address; the same code at Editor/MemorySnapshotCacheData.cs:204-242 behaves the same |
| CacheData.MemorySnapshotCacheData.CreateRootReferences | Editor/Core/MemorySnapshotCacheData.cs:326-351 | succeeds exactly when the ids are distinct; then each id maps to its entry; a repeated id fails with DuplicateKey; the same code at Editor/MemorySnapshotCacheData.cs:243-268 behaves the same |
| CacheData.MemorySnapshotCacheData.CreateMemoryRegion | Editor/Core/MemorySnapshotCacheData.cs:352-383 | the regions are the entries in snapshot order |
| CacheData.MemorySnapshotCacheData.CreateManagedTypes | Editor/Core/MemorySnapshotCacheData.cs:384-437 | the type list holds one new type per description; it succeeds exactly when type-info addresses and type indices are each distinct; then every type is found under its address and under its index, and each table value is a listed type stored under its own key |
| CacheData.MemorySnapshotCacheData.CreateManagedFieldInfos | Editor/Core/MemorySnapshotCacheData.cs:439-464 | the field list is the descriptions in snapshot order |
| CacheData.MemorySnapshotCacheData.ResolveManagedFieldType | Editor/Core/MemorySnapshotCacheData.cs:465-490 | a field whose type index is unknown fails with KeyNotFound and changes nothing; otherwise the list becomes the resolved types (each type's static and instance lists split its named fields as `ManagedTypes.ResolveType` states) and both tables hold the resolved versions, or the first out-of-range field index fails |
| CacheData.MemorySnapshotCacheData.CreateSortedManagedMemoryList | Editor/Core/MemorySnapshotCacheData.cs:514-537 | the merged list is a permutation of heap ++ stack, sorted ascending by start address |
| CacheData.MemorySnapshotCacheData.LoadNative | Editor/Core/MemorySnapshotCacheData.cs:193-199 | objects and allocations are sorted copies; it succeeds exactly when root-reference ids are distinct, and then the regions are copied |
| CacheData.MemorySnapshotCacheData.LoadTypes | Editor/Core/MemorySnapshotCacheData.cs:201-205 | completes exactly when type-info addresses and type indices are each distinct, every field's type index is carried by a type description and every field index is in range; on success the type list is the resolved descriptions, the field list is the field descriptions and the tables are consistent |
| CacheData.MemorySnapshotCacheData.LoadManaged | Editor/Core/MemorySnapshotCacheData.cs:201-214 | completes exactly when the types load; on success the types are loaded, the merged sections are sorted heap ++ stack and the GC handles are copied |
| CacheData.MemorySnapshotCacheData.Build | Editor/Core/MemorySnapshotCacheData.cs:193-214 | the constructor's steps in order; completes exactly when the root-reference ids are distinct and the types load; on success every table is built from the snapshot |
| CacheData.MemorySnapshotCacheData.Load | Editor/Core/MemorySnapshotCacheData.cs:185-214 | a fresh cache for the snapshot's virtual machine; completes exactly when the snapshot is loadable (distinct root ids, distinct type keys, described field types, in-range field indices); on success every table is built and the invariant holds |
| CacheData.CheckFieldTypes | Editor/Core/MemorySnapshotCacheData.cs:467-471 | the indexer loop passes exactly when every field's type index is a key, and otherwise fails with KeyNotFound for a missing index |
| CacheData.FieldTypesKnownIffDescribed | Editor/Core/MemorySnapshotCacheData.cs:432-436 | once the by-type-index table is built, a field's type index is a key exactly when some type description carries it |
| CacheData.ResolveTypes | Editor/Core/MemorySnapshotCacheData.cs:472-489 | the loop over the types returns ResolveAll's result, including the first failure |
| CacheData.ResolveAllFirstFailure | Editor/Core/MemorySnapshotCacheData.cs:472-489 | when the i-th type is the first that fails, the whole resolution fails with its fault |
| CacheData.ResolvedStaysValid | Editor/Core/MemorySnapshotCacheData.cs:465-490 | resolution keeps the tables pointing at listed types, and every static field list names field types the table knows |
| CoreCrawler.ManagedObjectCrawler.constructor | Editor/Core/ManagedObjectCrawler.cs:14-17 | the crawler holds the cache and an empty table |
| CoreCrawler.ManagedObjectCrawler.Execute | Editor/Core/ManagedObjectCrawler.cs:19-25 | returns a fresh table built from the GC handles alone: the current crawl, or the exception it raised |
| CoreCrawler.ManagedObjectCrawler.SetupFromGcHandle | Editor/Core/ManagedObjectCrawler.cs:28-42 | the foreach loop adds, first-wins, the records of the handles whose target lies in a section, or stops at the first exception |
| CoreCrawler.ManagedObjectCrawler.AddManagedObject | Editor/Core/ManagedObjectCrawler.cs:44-52 | returns true and inserts exactly when the address is new; otherwise returns false and leaves the table unchanged |
| CoreCrawler.ManagedObjectCrawler.GetManagedObjectInfoFromAddr | Editor/Core/ManagedObjectCrawler.cs:54-80 | the record built by the two dereferences is InspectAddress's record |
| CoreCrawler.LoadCacheData | Editor/Core/MemorySnapshotCacheData.cs:185-220 | a fresh cache; completes exactly when the snapshot is loadable and the current crawl does not raise; on success the sections and handles are loaded and managedObjectByAddr is the current crawl's table |
| EditorCrawler.ManagedObjectCrawler.constructor | Editor/ManagedObjectCrawler.cs:14-17 | the crawler holds the cache and an empty table |
| EditorCrawler.ManagedObjectCrawler.Execute | Editor/ManagedObjectCrawler.cs:19-26 | a fresh table filled from the GC handles and then from static fields: the older crawl, or the exception it raised |
| EditorCrawler.ManagedObjectCrawler.SetupFromGcHandle | Editor/ManagedObjectCrawler.cs:29-40 | adds, first-wins, the records of the handles whose target lies in a section, or stops at the first exception |
| EditorCrawler.ManagedObjectCrawler.SetupStaticField | Editor/ManagedObjectCrawler.cs:41-58 | adds, first-wins, the records of every type's static slots in type order, or stops at the first exception |
| EditorCrawler.ManagedObjectCrawler.SetupTypeStaticFields | Editor/ManagedObjectCrawler.cs:45-56 | skips a type without static bytes, with empty static bytes or without a static field list, and fields of value type or negative offset; adds, first-wins, the record of each other slot's pointer |
| EditorCrawler.ManagedObjectCrawler.AddManagedObject | Editor/ManagedObjectCrawler.cs:60-69 | null returns false; a known address returns false and leaves the table unchanged; otherwise inserts under the record's address and returns true |
| EditorCrawler.ManagedObjectCrawler.GetManagedObjectInfoFromAddr | Editor/ManagedObjectCrawler.cs:71-97 | the record built by the two dereferences is InspectAddress's record |
| SnapshotMap.NewMemoryInfo | Editor/MemorySnapshotMap.cs:17-23 | start and size are the arguments; the end is base + size modulo 2^64, so end - start = size without wrap and end < start with wrap |
| SnapshotMap.Entries | Editor/MemorySnapshotMap.cs:32-51 | one entry per source item, in order, each describing that item |
| SnapshotMap.MapEntriesDescribe | Editor/MemorySnapshotMap.cs:30-51 | the four lists together have regions + allocations + objects + sections entries, and every entry spans its object's base address and size |
| SnapshotMap.StartEndKeyIsLexicographic | Editor/MemorySnapshotMap.cs:52-59 | ordering by the key is ordering by start and then by end, and equal keys are exactly the pairs the comparator calls equal |
| SnapshotMap.SortedByKeyIsStartEndSorted | Editor/MemorySnapshotMap.cs:52-59 | a list sorted by the key is sorted by (start, end) |
| SnapshotMap.SortedEntries | Editor/MemorySnapshotMap.cs:52-59 | sorting keeps every entry describing its object and orders the list by (start, end) |
| SnapshotMap.CollectEntries | Editor/MemorySnapshotMap.cs:30-51 | the four foreach loops produce regions, then allocations, then native objects, then sections, each normalised |
| SnapshotMap.MemorySnapshotMap.constructor | Editor/MemorySnapshotMap.cs:28-60 | memoryLists is a permutation of the four normalised source lists, with their total length, sorted by (start, end), each entry describing its object |
| Nesting.NonEmpty | Editor/Core/MemorySnapshotToCsv.cs:258 | the entries that get a row are entries of the list with a non-zero size |
| Nesting.ClassifyNesting | Editor/Core/MemorySnapshotToCsv.cs:253-281 | the loop over lastEnd, lastIdx and idx writes exactly the rows of the classification; the same code at Editor/MemorySnapshotToCsv.cs:236-264 behaves the same |
| Nesting.StepKeepsNested | Editor/Core/MemorySnapshotToCsv.cs:256-281 | one iteration keeps the loop invariant: rows numbered consecutively, lastEnd the largest end so far, lastIdx the first row reaching it, and every parent as described |
| Nesting.ClassifyNested | Editor/Core/MemorySnapshotToCsv.cs:253-281 | the rows are the non-empty entries in order, numbered from 0; a row's parent is -1 exactly when no earlier row ends past its start, and otherwise an earlier row that ends past it with the largest end, the first to reach that end |
| Nesting.FirstRowHasNoParent | Editor/Core/MemorySnapshotToCsv.cs:253-269 | the first row's parent is -1 |
| Nesting.NonEmptyKeepsOrder | Editor/Core/MemorySnapshotToCsv.cs:258 | skipping zero-size entries keeps a start-sorted list sorted |
| Nesting.ParentContainsStart | Editor/Core/MemorySnapshotToCsv.cs:256-274 | on start-sorted input a row's parent comes earlier and its range contains the row's start |
| Nesting.ContainedRegionGetsParent | Editor/MemorySnapshotToCsv.cs:239-264 | entries (0, size 100) and (10, size 20) get rows idx 0 with parent -1 and idx 1 with parent 0 |
| CsvExport.Progress | Editor/Core/MemorySnapshotToCsv.cs:41-44 | a present callback receives the value once; without one nothing happens |
| CsvExport.NonZeroAddress | Editor/Core/MemorySnapshotToCsv.cs:208-210 | a record is listed exactly when it is one of the table's values and its address is not 0 |
| CsvExport.SaveManagedObjectList | Editor/Core/MemorySnapshotToCsv.cs:202-221 | one row per record with a non-zero address, in order, holding the formatted address and the type name when the type is known |
| CsvExport.ListedAreNonZeroKeys | Editor/Core/MemorySnapshotToCsv.cs:208-218 | for a crawler table, the listed records are exactly the entries under non-zero keys |
| CsvExport.StripSnapSuffix | Editor/MemorySnapshotToCsv.cs:20 | succeeds exactly when the name has at least 5 characters, and then drops the last 5 of them (a 5-character name gives ""); a shorter name fails with the negative start index |
| CsvExport.StripSnapRoundTrip | Editor/MemorySnapshotToCsv.cs:18-20 | the name of `<name>.snap` is `<name>` |

## Left out

- The Unity snapshot API is left out: `PackedMemorySnapshot.Load` and the columnar `GetEntries` copies. Their results are the `PackedSnapshot` record's sequences.
- CSV building, `System.IO` file and directory calls, and the type name printed through `GetType().Name` are left out. The model produces the rows as values instead.
- The editor windows and their dialogs are left out. They are UI only.
- `ManagedMemory.ReadString` is left out, because it depends on the platform's default encoding.
- `ManagedMemory.ReadInt`/`ReadUInt` are not modelled separately. They are the same BitConverter reads as `Words.ReadInt32` and `Words.ReadUnsigned`.
- The culture-sensitive type-list sort in `SaveManagedTypeList` and the other `Save*` reports are left out.
- The float percentages passed to `Progress` are left out, and so are the `Progress` calls inside the cache constructor. `Progress` itself is modelled.
- The commented-out multi-rank array length code is left out, because it is not part of the program.
- `BitConverter` is taken to be little-endian. Big-endian hosts are not modelled.
- `CreateNativeObjectType`, the `nativeTypes` list and `ManagedObjectInfo.GetHeaderSize` are left out. Nothing in the modelled core reads them.
- `CreateManagedMemory` and `CreateGCHandles` are plain copies, modelled as assignments of the snapshot's sequences.
- The unused counter `cnt` in `GetManagedMemory` and the capacity arguments of the `List` constructors are left out. They change no result.
- C# `int` overflow in `(minIdx + maxIdx) / 2` is not modelled. It needs more than 2^30 sections. The `(int)` cast of an offset inside a containing section cannot overflow, because byte arrays are shorter than 2^31 (`Segments.ContainedOffset`).
- LegacyTypeResolver.GetManagedTypeInfoFromAddr: the older `CreateManagedTypes` also returns on zero descriptions (`Editor/MemorySnapshotCacheData.cs` line 305) before it creates `managedTypeByAddr` (line 342). With no types, the `TryGetValue` at line 455 therefore throws a NullReferenceException for any address in a section whose pointer reads successfully. The model takes a map, so it returns null or follows the next hop instead.
- CacheData.MemorySnapshotCacheData.CreateManagedTypes: with zero type descriptions `Editor/Core/MemorySnapshotCacheData.cs` returns (line 388) before it creates `managedTypeByAddr` and `managedTypeByTypeIndex` (lines 425 and 432), so both stay null; the model gives empty maps instead. Two consequences are not modelled. With field descriptions but no types, `managedTypeByTypeIndex[...]` (line 469) throws a NullReferenceException, where the model fails with KeyNotFound. With no types, a GC handle inside a section makes `managedTypeByAddr.TryGetValue` (`Editor/Core/ManagedObjectCrawler.cs` line 67) throw, where the model returns a record. The other `Create*` methods allocate their collection before they return on zero entries, so they are modelled exactly.
- Dictionary enumeration order is not modelled: `SaveManagedObjectList` takes the table's values as a sequence in any order.
- The mutation of `ManagedType` objects shared between the list and both dictionaries is modelled by rebuilding the three collections (`ManagedTypes.ResolveTable`), not by aliasing. The `fieldType` back reference is the lookup `managedTypeByTypeIndex[typeIndex]`.
- Sorting.SortByKey: the model's insertion sort is stable, so it keeps elements with equal keys in input order, while `List.Sort` is unstable and promises no order among ties (the comparator at `Editor/MemorySnapshotMap.cs` line 58 returns 0 for equal ranges, leaving their order to `List.Sort`). Every contract that states a list equals `SortByKey(...)` therefore fixes a tie order the code does not guarantee: a heap section before a stack section with the same start; among map entries with the same (start, end), regions before native allocations, then native objects, then managed sections; and so which of two identical ranges becomes the other's parent in the nesting rows. Sortedness and the permutation property hold for any tie order.
- Nesting.ClassifyNesting: one method models both `SaveMergedMemoryImageInfo` loops. The two files differ only in how they print the addresses.
- CacheData.MemorySnapshotCacheData.GetAddressStr: requires a non-negative pointer size. With a negative one the cached pattern becomes `X-n`, which .NET's format parser treats differently, and that is not modelled. CsvExport.SaveManagedObjectList carries the same requirement.
- CoreCrawler.LoadCacheData: states the section list, the GC handles and the crawled table. For the rest of the tables it states only the cache invariant, not the full `Loaded` predicate that `CacheData.MemorySnapshotCacheData.Load` proves.
- EditorCrawler.ManagedObjectCrawler.Execute: requires the cache's type-table invariant, that every static field's type index is a key of the by-type-index table. Every constructed cache satisfies it, because `ResolveManagedFieldType` throws before a cache could break it.
