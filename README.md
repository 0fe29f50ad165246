# Module lookup of hazedumper-rs, in Dafny

This project models `src/memlib/module.rs` of hazedumper-rs. That file finds a
module (a loaded binary image) in another process by name and takes an owned
copy of the module's memory.

- `get` walks the Toolhelp32 module snapshot of the target process. It turns
  each entry's fixed-width UTF-16 name field into a string and strips `'\0'`
  from both ends. It stops at the first entry whose name equals the requested
  name exactly, and returns whatever reading that module gives.
- `Module::from_module_entry` allocates a zeroed buffer of `modBaseSize` bytes.
  It asks the process to copy the image into that buffer, and yields a
  `Module` only if the copy succeeds.
- `Module::find_pattern` hands the copied bytes to the signature matcher.

Files:

- `wrappers.dfy`: the `Option` type.
- `win.dfy` (module `Win`): the operating-system side. This covers the integer
  widths, the `MODULEENTRY32W` fields the lookup reads, and the snapshot walk
  as a class `ModuleWalk`. Its `First` and `Next` stand for `Module32FirstW`
  and `Module32NextW`. It also holds the target `Process` with its readable
  memory, and `ReadPtr` for `Process::read_ptr`.
- `names.dfy` (module `Names`): `TrimNul`, which is `trim_matches('\0')` on
  UTF-16 code units, with lemmas that pin it down completely.
- `module.dfy` (module `MemModule`): the `Module` value, `FromModuleEntry` and
  its specification `ModuleOf`, `FirstMatch`, the specification `Lookup`, and
  `Get`. `Get` is the imperative walk, proved to compute `Lookup`.
- `lookup_properties.dfy` (module `LookupProperties`): what callers can rely
  on, stated over `Lookup`.

Modelling choices:

- The snapshot handle is passed to `Get` as an `Option<Snapshot>`. `None`
  means that `SnapshotHandle::new` failed.
- A `Snapshot` is the sequence of records the walk hands out before
  `Module32FirstW` or `Module32NextW` reports failure. An empty sequence means
  the first-entry call failed. A walk cut short by an OS error is a shorter
  sequence.
- The process read succeeds exactly when every byte of `[base, base + size)`
  is in the process's readable memory. On success the buffer holds those
  bytes.
- Names are sequences of UTF-16 code units. The code unit 0 is the only one
  that decodes to `'\0'`, so trimming NULs on code units agrees with trimming
  them on the decoded string.
- `get` calls `trim_matches('\0')`, which strips NULs from both ends:
  leading NULs are removed too, and NULs inside the name are kept.

## Model

| member | source | states |
|---|---|---|
| `Win.ModuleWalk.First` | src/memlib/module.rs:66-68 | succeeds exactly when the snapshot has an entry, and then overwrites the record with the first entry; on failure the record is unchanged |
| `Win.ModuleWalk.Next` | src/memlib/module.rs:70-73 | succeeds exactly when an entry is left, and then overwrites the record with the entry after the last one handed out; on failure the record is unchanged |
| `Win.ReadPtr` | src/memlib/module.rs:53 | the copy into the buffer succeeds exactly when all `size` bytes at `base` are readable, and only then does the buffer hold exactly those bytes |
| `Names.TrimNul` | src/memlib/module.rs:84-86 | the trimmed name is no longer than the field and neither starts nor ends with a NUL |
| `Names.TrimNulIsInnerSlice` | src/memlib/module.rs:84-86 | the trimmed name is a contiguous slice of the field, with only NULs before and after it; the units in between, NULs included, are unchanged |
| `Names.TrimNulOfPadded` | src/memlib/module.rs:84-86 | a name with no NUL at either end, padded with any NULs on either side, trims back to exactly that name |
| `Names.TrimNulEmptyIffAllNul` | src/memlib/module.rs:84-86 | the trimmed name is empty if and only if the field holds only NULs |
| `Names.TrimNulKeepsUpToLastNonNul` | src/memlib/module.rs:84-86 | for a field not starting with NUL, the trimmed name is a prefix reaching at least to every unit that is not a NUL |
| `Names.TrimNulIdempotent` | src/memlib/module.rs:84-86 | trimming an already trimmed name changes nothing |
| `Win.ZeroEntry` | src/memlib/module.rs:35-42 | the starting record has base address 0, size 0 and a name field of 256 NUL units |
| `MemModule.EntryName` | src/memlib/module.rs:84-86 | the name compared is the field with its end NULs trimmed: no longer than the field, with no NUL at either end |
| `MemModule.Matches` | src/memlib/module.rs:88 | an entry matches only a name equal to its trimmed name; a requested name with a NUL at either end, or longer than the field, never matches |
| `MemModule.ModuleOf` | src/memlib/module.rs:45-58 | a module is produced if and only if the whole image is readable; it then carries the given name, `base == modBaseAddr`, `size == modBaseSize` and exactly `size` bytes of data |
| `MemModule.FromModuleEntry` | src/memlib/module.rs:45-58 | allocating the buffer and reading into it yields exactly `ModuleOf` of the entry: all or nothing, never a partial module |
| `MemModule.FirstMatch` | src/memlib/module.rs:83-95 | gives the position of an entry whose trimmed name equals the requested name with no earlier entry matching, and gives nothing if and only if no entry matches |
| `MemModule.Lookup` | src/memlib/module.rs:75-98 | nothing when the snapshot cannot be taken or its first-entry call fails; any module found carries the requested name and exactly `size` bytes |
| `MemModule.Get` | src/memlib/module.rs:75-98 | the loop over `Module32FirstW`/`Module32NextW` returns exactly `Lookup`; the invariant is that no entry handed out before the current one matched |
| `LookupProperties.LookupSelectsFirstMatch` | src/memlib/module.rs:88-90 | when entry `i` is the first whose trimmed name equals the request, the result is exactly `from_module_entry` of entry `i` |
| `LookupProperties.LookupFailsIff` | src/memlib/module.rs:75-98 | the lookup is empty if and only if the snapshot failed, no entry matches, or the first matching entry cannot be read |
| `LookupProperties.LookupResultIsFirstMatch` | src/memlib/module.rs:88-89 | a found module has the requested name, the base and size of the first matching entry, and a buffer of exactly `size` bytes |
| `LookupProperties.FirstMatchOfExtension` | src/memlib/module.rs:83-95 | once an entry matches, entries after it cannot change which entry is first to match |
| `LookupProperties.LookupStopsAtFirstMatch` | src/memlib/module.rs:88-90 | once an entry matches, the entries the walk would hand out after it do not change the result |
| `LookupProperties.ReadFailureIsNotRetried` | src/memlib/module.rs:88-90 | a read failure at the first matching entry makes the lookup empty, even when a later entry of the same name is readable |
| `LookupProperties.PaddedNameMatches` | src/memlib/module.rs:84-88 | a name field that holds the name followed by NUL padding matches that name |
| `LookupProperties.UnitsAfterInteriorNulAreKept` | src/memlib/module.rs:84-88 | a field holding a name, a NUL, then anything other than NULs does not match that name |
| `LookupProperties.CaseSensitiveLookup` | src/memlib/module.rs:88 | a module listed as "Kernel32.dll" is not found under "kernel32.dll", and is found under its exact name exactly when readable |
| `LookupProperties.FindPatternSeesOnlyData` | src/memlib/module.rs:60-62 | the signature search depends on the module's copied bytes only, not on its name, base or size |

`MemModule.Module.FindPattern` has no row of its own. Its body is the one-line
forwarding of `Module::find_pattern` (src/memlib/module.rs:60-62), and what that
forwarding promises is stated by `LookupProperties.FindPatternSeesOnlyData`.

## Left out

- `Module32FirstW`, `Module32NextW` and their `unsafe` wrappers are Win32 calls. They are modelled only as `ModuleWalk` over a sequence of records.
- `SnapshotHandle::new` and the release of the handle on drop are not modelled. This includes the process id and the `TH32CS_SNAPMODULE | TH32CS_SNAPMODULE32` flags. The outcome of acquiring the handle is a parameter of `Get`.
- `Process::read_ptr` is not part of this model. It is represented by `ReadPtr` over a map of readable addresses. What a failed copy leaves in the buffer is not modelled, because the buffer is dropped.
- `MODULEENTRY32W::new` appears only as the all-zero starting record. The `dwSize` field and the other fields the lookup never reads are not modelled.
- `MemModule.Matches`: names are compared as UTF-16 code units. The U+FFFD replacement that `String::from_utf16_lossy` makes for unpaired surrogates is not modelled. Two fields that differ only in unpaired surrogates compare equal in the source but not in the model.
- `findpattern::find_pattern` is not part of this model. `Module.FindPattern` passes the copied bytes to a matcher given as a parameter.
- The `Mode` enum is not modelled. It is a bare tag, and nothing in this file uses it.
- Address arithmetic is unbounded. `base + size` past the end of the address space is not treated specially. The model does not require the name field to be exactly 256 units wide.
