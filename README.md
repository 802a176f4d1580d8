# Memory scanner model

A Dafny model of the scanning engine of Memory-MCP's `MemoryScanner`.
`MemoryScanner` finds a process by executable name and walks its virtual
address space region by region. It reads each committed, readable region,
capped at `MAX_REGION_SIZE` bytes, and records every offset at which a
search value's bytes occur. It keeps those matches in a result store, the
field `found_addresses_`. Three more operations work on that store: a
listing in `0x`-prefixed upper-case hexadecimal, a filter that relabels
stored entries named by such strings, and a reset that clears it. The small
value-type codec of the types header is modelled with it.

Modules, following the program's structure:

- `Types`: the codec. It holds the constants `MAX_REGIONS`,
  `MAX_REGION_SIZE` and `BUFFER_SIZE`, the record types, bytes, and 64-bit
  addresses with wrap-around addition.
- `AddressText`: the display form of addresses. It covers writing them with
  `"0x" << std::hex << std::uppercase` and reading them back with
  `>> std::hex`, including leading whitespace, a sign, the `0x` prefix,
  text with no digits and overflow. An empty or all-blank string is the one
  input the model reads differently from the source (see "Left out").
- `Matcher`: the matching half of `scan_memory_region`. Non-string values
  use one exhaustive byte-wise search. `String` uses a narrow pass followed
  by a pass over the 16-bit little-endian `wchar_t` form. That form
  sign-extends bytes of `0x80` and above, since `char` is signed.
- `Regions`: the target's address space, seen through two abstract
  answers. One is the descriptor `VirtualQueryEx` reports for an address;
  the other is the bytes `ReadProcessMemory` can deliver. The module also
  holds the region walk of `get_memory_regions` and the capped read of one
  region.
- `Scanner`: the class `MemoryScanner`, whose one field is the result
  store, with its operations written as methods with loops. Each method is
  proved equal to a specification function, such as `ScanOutcome`,
  `Listing` or `FilterOutcome`. The lemmas state what those functions
  promise.

The operating system is an input: a `Host` holds the process snapshot and
the address space of every process `OpenProcess` succeeds on. A failed
snapshot is an empty list. Each operation is one atomic step on the store,
which is what the store mutex gives.

Two behaviours of the code are worth stating outright:

- `filter_addresses` does not narrow or update the store. It only reads
  it, and returns relabelled copies of the entries it finds.
  `FilterAddresses` has no `modifies` clause, so the store is provably left
  as it was.
- `scan_memory` closes the process handle only on the success path.
  Handles are not modelled (see below).

## Model

| member | source | states |
|---|---|---|
| Types.ConstantValues | src/types.h:26-28 | `MAX_REGIONS` is 1000, `MAX_REGION_SIZE` is 1048576 and `BUFFER_SIZE` is 4096 |
| Types.AddrAt | src/memory/memory_scanner.cpp:283 | `region_address + i` is the plain sum whenever that fits in 64 bits; when an offset below 2^64 carries the sum past 2^64 - 1, the result is the sum minus 2^64 |
| Types.TypeName | src/types.h:124-135 | every type's name is one of the seven tokens, and parsing it gives the type back |
| Types.ParseType | src/types.h:137-146 | any text other than the seven tokens falls back to `String` |
| Types.ParseRecognisedToken | src/types.h:137-146 | each recognised token is exactly the name of the type it parses to |
| Types.TypeNameInjective | src/types.h:124-135 | distinct types have distinct names |
| Types.FixedTokens | src/types.h:124-146 | `"string"`, `"int"` and `"float"` map to `String`, `Int` and `Float`, and back |
| Types.Decimal | src/memory/memory_scanner.cpp:80 | the count in a message is written as a non-empty run of decimal digits that reads back in base 10 as the count, with no leading zero unless the count is 0 |
| AddressText.HexDigits | src/memory/memory_scanner.cpp:108 | an address is written as at least one digit, every digit is `0-9` or upper-case `A-F`, and a non-zero address has no leading zero |
| AddressText.HexValueOfDigits | src/memory/memory_scanner.cpp:108 | the written digits, read in base 16, give the address back |
| AddressText.ParseDisplay | src/memory_scanner.cpp:106-134 | reading a listed string with `>> std::hex` gives back exactly the listed address |
| AddressText.DigitsRead | src/memory/memory_scanner.cpp:134-136 | a bare run of hexadecimal digits reads as its base-16 value, or as 2^64 - 1 when that value needs more than 64 bits |
| AddressText.SkipsLeadingSpace | src/memory/memory_scanner.cpp:134-136 | a blank before the text does not change what is read |
| AddressText.HexPrefixOptional | src/memory/memory_scanner.cpp:134-136 | a run of digits reads the same with or without a `0x` or `0X` prefix |
| AddressText.Negated | src/memory/memory_scanner.cpp:134-136 | the negation of `v` is the number that adds to `v` to give 0 modulo 2^64 |
| AddressText.MinusNegates | src/memory/memory_scanner.cpp:134-136 | a minus sign before digits whose value fits in 64 bits gives that value's negation modulo 2^64 |
| AddressText.MinusOne | src/memory/memory_scanner.cpp:134-136 | `"-1"` reads as the largest address, 2^64 - 1 |
| AddressText.NoDigitsReadsZero | src/memory/memory_scanner.cpp:134-136 | text whose first non-blank character is neither a digit nor a sign reads as 0 |
| Matcher.OccurrencesSpec | src/memory/memory_scanner.cpp:279-288 | an offset is reported iff the pattern occurs there, every reported match lies inside the bytes read, and offsets are strictly ascending |
| Matcher.ShortBufferNoOccurrences | src/memory/memory_scanner.cpp:280 | with the guard added, a buffer shorter than the value yields no offsets |
| Matcher.SignedChar | src/memory/memory_scanner.cpp:291-292 | a byte read as a signed `char` lies in `-128..127` and is congruent to the byte modulo 256 |
| Matcher.HighByte | src/memory/memory_scanner.cpp:291-293 | the byte and its high byte form the 16-bit encoding of the signed `char` value modulo 2^16, which is the sign extension `static_cast<wchar_t>` performs |
| Matcher.Widen | src/memory/memory_scanner.cpp:290-295 | the wide pattern is `2 * len` bytes; byte `2k` is the `k`-th char and byte `2k+1` its high byte |
| Matcher.WidenAscii | src/memory/memory_scanner.cpp:290-293 | on ASCII chars the wide form is each byte followed by a zero byte |
| Matcher.Tagged | src/memory/memory_scanner.cpp:282-286 | entry `k` is at `base + offsets[k]` and carries the requested value and type |
| Matcher.TaggedStep | src/memory/memory_scanner.cpp:280-288 | trying one more offset appends one entry exactly when the pattern occurs there |
| Matcher.OccurrenceAt | src/memory/memory_scanner.cpp:281 | every reported offset, read by position, is a match |
| Matcher.TaggedConcat | src/memory/memory_scanner.cpp:279-306 | in two tagged runs placed side by side, the second run's entries follow the first run's |
| Matcher.MatchBufferTags | src/memory/memory_scanner.cpp:279-325 | every entry of a region carries the requested value and type |
| Matcher.MatchBufferRaw | src/memory/memory_scanner.cpp:307-325 | for a non-string type, entry `k` is `base` plus the `k`-th occurrence of the raw value bytes, and the bytes match there |
| Matcher.MatchBufferString | src/memory/memory_scanner.cpp:279-306 | for `String`, all narrow hits come first in ascending order, then all wide hits in ascending order, each at `base + offset` |
| Matcher.WideGuard | src/memory/memory_scanner.cpp:295-296 | when fewer than `2 * len` bytes were read, the wide pass adds nothing |
| Matcher.UncheckedBoundOverruns | src/memory/memory_scanner.cpp:280 | the unguarded bound `bytes_read - len` on `size_t` wraps to at least `2^64 - len` when the buffer is shorter than the value |
| Matcher.NarrowExample | src/memory/memory_scanner.cpp:279-288 | "AB" occurs narrow only at offset 0 of `41 42 41 00 42 00` |
| Matcher.WideExample | src/memory/memory_scanner.cpp:290-306 | the wide form of "AB" is `41 00 42 00`, found only at offset 2 of that buffer |
| Matcher.DualWidthExample | src/memory/memory_scanner.cpp:279-306 | the whole string scan of that buffer gives `base` (narrow) followed by `base + 2` (wide) |
| Matcher.SameOffsetOccurrences | src/memory/memory_scanner.cpp:279-306 | in the buffer `41 00 00 00`, both the value `41 00` and its wide form `41 00 00 00` occur only at offset 0 |
| Matcher.SameOffsetTwice | src/memory/memory_scanner.cpp:279-306 | nothing is de-duplicated: the string scan of that buffer reports `base` twice |
| Regions.RegionsFromStep | src/memory/memory_scanner.cpp:238-250 | one walk step keeps the base if scannable, then stops if `base + size` wraps to 0, and otherwise continues strictly higher |
| Regions.WalkStep | src/memory/memory_scanner.cpp:238-250 | the walk's loop invariant survives one step |
| Regions.RegionsFromSound | src/memory/memory_scanner.cpp:239-244 | every collected base is that of a committed region protected RW, RO, ER or ERW, queried at or above the start address |
| Regions.RegionsFromAscending | src/memory/memory_scanner.cpp:238-250 | when the query at the start address and every query at a region's `base + size` report a region starting there, the collected bases are strictly ascending and none lies below the start |
| Regions.UnalignedQueryAccepted | src/memory/memory_scanner.cpp:238-250 | a snapshot whose query inside a page reports the page's base meets that precondition, and its walk collects both pages in order |
| Regions.ReadLength | src/memory/memory_scanner.cpp:267-270 | the read length is `min(RegionSize, MAX_REGION_SIZE)` |
| Regions.Prefix | src/memory/memory_scanner.cpp:272-277 | a read delivers a prefix of the available bytes, at most the requested length |
| Regions.ReadRegion | src/memory/memory_scanner.cpp:259-277 | a buffer exists iff the re-query succeeds, the region is committed and the read succeeds; it is a prefix of the contents and at most `min(RegionSize, MAX_REGION_SIZE)` bytes |
| Regions.RegionMatchesTags | src/memory/memory_scanner.cpp:255-328 | a failed re-query or read, or an uncommitted region, gives no matches; every match carries the requested value and type |
| Scanner.FirstMatchPidFound | src/memory/memory_scanner.cpp:201-209 | the pid returned is that of the first snapshot entry whose name equals the requested name exactly |
| Scanner.FirstMatchPidAbsent | src/memory/memory_scanner.cpp:210-214 | with no such entry the sentinel 0 is returned |
| Scanner.Capped | src/memory/memory_scanner.cpp:57-61 | the scanned regions are a prefix of the walk, all of it or exactly `MAX_REGIONS` |
| Scanner.GatherStep | src/memory/memory_scanner.cpp:63-65 | the region loop's invariant survives one region: non-empty results are appended, empty ones change nothing |
| Scanner.GatherTags | src/memory/memory_scanner.cpp:54-70 | every gathered entry carries the requested value and type |
| Scanner.GatherAppend | src/memory/memory_scanner.cpp:63-65 | gathering over two region lists concatenates their results |
| Scanner.ScanOutcomeSpec | src/memory/memory_scanner.cpp:28-80 | a scan succeeds iff the process is found and opened. On failure: no addresses, count 0, a non-empty message. On success: count is the length, and the addresses are the capped walk's matches with the requested value and type |
| Scanner.UnknownProcessFails | src/memory/memory_scanner.cpp:33-38 | a name no process carries makes the scan fail with nothing reported |
| Scanner.RegionCap | src/memory_scanner.cpp:52-77 | regions past the first `MAX_REGIONS` never reach the result |
| Scanner.Listed | src/memory/memory_scanner.cpp:106-110 | the listing holds exactly the requested number of display strings |
| Scanner.ListingSpec | src/memory/memory_scanner.cpp:95-119 | count is `min(|store|, max)` and equals the list's length. Entry `i` is `"0x"` followed by the upper-case, unpadded hex digits of `store[i].address`, and reads back to that address |
| Scanner.ListingEmpty | src/memory/memory_scanner.cpp:102-112 | an empty store lists nothing, whatever the limit |
| Scanner.FirstWithAddress | src/memory/memory_scanner.cpp:138-146 | the first stored entry at the address, or nothing iff no stored entry has that address |
| Scanner.FilteredStep | src/memory/memory_scanner.cpp:133-147 | one more input appends at most that input's pick |
| Scanner.FilteredSound | src/memory/memory_scanner.cpp:121-162 | every output entry is a stored entry relabelled with the new value and type; there are at most as many as inputs, and none from an empty store |
| Scanner.FilteredComplete | src/memory/memory_scanner.cpp:133-147 | an input's parsed address is stored iff the output has an entry at that address |
| Scanner.FilteredAllPresent | src/memory/memory_scanner.cpp:133-147 | when every input's address is stored, the output has one entry per input, in input order |
| Scanner.FilterListedPrefix | src/memory_scanner.cpp:104-144 | filtering with a listing's own strings returns the listed prefix of the store, relabelled |
| Scanner.MemoryScanner.constructor | src/memory/memory_scanner.cpp:14-16 | the store starts empty |
| Scanner.MemoryScanner.ScanMemory | src/memory/memory_scanner.cpp:22-93 | the response is `ScanOutcome`; on success the store is exactly the reported addresses, on failure it is unchanged |
| Scanner.MemoryScanner.ScanRegions | src/memory/memory_scanner.cpp:54-70 | the region loop yields the matches of the first `min(|regions|, MAX_REGIONS)` regions, concatenated in order |
| Scanner.MemoryScanner.AppendRegion | src/memory/memory_scanner.cpp:63-67 | one iteration scans region `i` and extends the gathered matches to the first `i + 1` regions |
| Scanner.MemoryScanner.GetAddresses | src/memory/memory_scanner.cpp:95-119 | the response is `Listing` of the store; the store is only read |
| Scanner.MemoryScanner.FilterAddresses | src/memory_scanner.cpp:119-160 | the response is `FilterOutcome` of the store; the store is only read |
| Scanner.MemoryScanner.FindFirst | src/memory/memory_scanner.cpp:138-146 | the inner loop finds `FirstWithAddress` |
| Scanner.MemoryScanner.Reset | src/memory/memory_scanner.cpp:164-183 | the store becomes empty, with success and the message "Scanner reset" |
| Scanner.MemoryScanner.FindProcessByName | src/memory/memory_scanner.cpp:185-215 | the loop returns `FirstMatchPid` of the snapshot |
| Scanner.MemoryScanner.GetMemoryRegions | src/memory/memory_scanner.cpp:233-253 | the walk from address 0 collects `RegionsFrom(query, 0)` |
| Scanner.MemoryScanner.ScanMemoryRegion | src/memory/memory_scanner.cpp:255-328 | one region's results are `RegionMatches` |
| Scanner.MemoryScanner.WidenValue | src/memory/memory_scanner.cpp:290-293 | the char-by-char copy builds `Widen(value)` |
| Scanner.MemoryScanner.ScanPass | src/memory/memory_scanner.cpp:280-288 | a `memcmp` pass records every occurrence of the pattern, in order |
| Scanner.MemoryScanner.CompareAt | src/memory/memory_scanner.cpp:309-315 | the byte-by-byte comparison succeeds iff the value occurs at that offset |
| Scanner.MemoryScanner.RawPass | src/memory/memory_scanner.cpp:307-325 | the non-string pass records every occurrence of the raw value bytes, in order |
| Scanner.ResetThenList | src/memory_scanner.cpp:93-181 | two resets both succeed, after which a listing succeeds with count 0 and no addresses |

## Left out

- Operating-system calls are inputs, not calls. The process snapshot is a
  list. `OpenProcess` succeeds exactly for the pids with an address space.
  `VirtualQueryEx` and `ReadProcessMemory` are the two maps of
  `AddressSpace`.
- The numeric codes and truncated-read counts of `ReadProcessMemory` are
  not modelled. A read that succeeds delivers a prefix of the available
  bytes.
- `Regions.RegionsFrom` and `Scanner.MemoryScanner.GetMemoryRegions`
  require the operating system's guarantee that a reported region contains
  the queried address and ends inside the address space. Nothing in the
  source checks this; the walk terminates because of it.
- Handles are not modelled: neither their closing on success nor the leak
  when an exception is thrown.
- The walk and the later re-query of each region read one snapshot.
  Changes in the target between them are not modelled.
- The mutex and concurrency are not modelled: each operation is one atomic
  step, which is what the mutex provides.
- Exceptions are not modelled, neither those from allocation nor those
  `fmt::print` throws when a write to standard error fails. So the model
  has no `catch` branch ("Scan error: ...", "Reset error: ..." and the
  like). It also omits exceptions from the logging calls outside the `try`
  blocks (src/memory/memory_scanner.cpp:23-25 and :122-123), which reach
  the caller. One effect is lost in particular: a logging failure at
  src/memory/memory_scanner.cpp:82-83 comes after the store was replaced
  (:74) and `success` was set (:79). The `catch` at :87-90 then returns
  `success = true` with a "Scan error: ..." message, and the handle is
  never closed.
- Logging to standard error is not modelled.
- UTF-8 conversion of process names is not modelled: names are compared as
  already-narrow strings.
- JSON serialisation and the transport layers are not modelled. The HTTP
  handlers print addresses as `"0x"` followed by decimal digits, which
  disagrees with the hexadecimal form of `get_addresses`; that code is not
  part of this model.
- `value_to_bytes`, `compare_memory`, `is_readable_memory` and
  `get_process_name` are declared in the header but defined nowhere: they
  are not part of this model.
- Types.TypeName: the `default: return "unknown"` branch of both
  `value_type_to_string` copies is unreachable for the seven enumerators
  and has no counterpart.
- Scanner.MemoryScanner.ScanMemory: the success message follows
  src/memory/memory_scanner.cpp:80. The other copy,
  src/memory_scanner.cpp:78, builds a different text around the same count.
- AddressText.ParseHex: an empty or all-blank string reads as 0 here. In
  the source, the stream reaches its end while skipping blanks, so no digits
  are read and `uintptr_t address` (src/memory/memory_scanner.cpp:134) is
  never assigned. The comparison at :139 then uses an indeterminate value,
  which the model cannot represent; the model's 0 matches a stored entry at
  address 0.
- AddressText.ParseHex: an input with a minus sign is negated modulo 2^64,
  following the `strtoull` rule. A value too large for 64 bits gives
  2^64 - 1.
- Types.AddrAt: `uintptr_t` is taken to be 64 bits wide. On a 32-bit
  build, the walk's `base + size` (src/memory/memory_scanner.cpp:247-249)
  and `region_address + i` (:283) wrap at 2^32 instead, which the model
  does not capture.
- Numeric value types are matched as the raw bytes of their text, as the
  source does. There is no floating-point logic.

## Findings

| source | as written | input that shows it | evidently intended | confidence | as-written member | corrected member |
|---|---|---|---|---|---|---|
| src/memory/memory_scanner.cpp:280 | The narrow string pass, and the non-string pass at :308, loop `i <= bytes_read - value.length()` on `size_t` with no guard. When the buffer is shorter than the value the bound wraps to about 2^64, so `memcmp` and `buffer[i + j]` read past the bytes read. | 1 byte read, a 4-byte value: the bound is 2^64 - 3 | No offsets at all when fewer bytes than the value's length were read, as the wide pass's guard at :296 does | not executed | Matcher.UncheckedBoundOverruns | Matcher.OccurrencesSpec |
