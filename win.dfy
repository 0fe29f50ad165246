/** The operating-system collaborators of the module lookup, reduced to what
    the lookup observes of them: the integer widths of the Win32 fields, the
    Toolhelp32 module record and the walk over a module snapshot
    (Module32FirstW / Module32NextW), and the target process whose memory is
    copied (`Process::read_ptr`). */
module Win {

  newtype u8 = x: int | 0 <= x < 0x100
  newtype u16 = x: int | 0 <= x < 0x1_0000
  newtype u32 = x: int | 0 <= x < 0x1_0000_0000
  newtype usize = x: int | 0 <= x < 0x1_0000_0000_0000_0000

  /** The UTF-16 code unit that decodes to '\0'; no other unit does. */
  const NUL: u16 := 0

  /** `szModule` is a fixed array of MAX_MODULE_NAME32 + 1 wide characters. */
  const MAX_MODULE_NAME32: nat := 255

  /** The fields of a MODULEENTRY32W record that the lookup reads: the base
      address and byte size of the image and the raw, NUL-padded name field. */
  datatype ModuleEntry = ModuleEntry(modBaseAddr: usize, modBaseSize: u32, szModule: seq<u16>)

  /** The record as `MODULEENTRY32W::new` leaves it: every modelled field
      zero (`dwSize`, which `new` sets, is not modelled). */
  function ZeroEntry(): (me: ModuleEntry)
    ensures me.modBaseAddr == 0 && me.modBaseSize == 0
    ensures |me.szModule| == MAX_MODULE_NAME32 + 1
    ensures forall i :: 0 <= i < |me.szModule| ==> me.szModule[i] == NUL
  {
    ModuleEntry(0, 0, seq(MAX_MODULE_NAME32 + 1, _ => NUL))
  }

  /** A module snapshot of one process, as far as walking it goes: the records
      that Module32FirstW and then Module32NextW hand out, in order, until one
      of the two calls reports failure. An empty sequence is a snapshot whose
      first-entry call fails. */
  datatype Snapshot = Snapshot(entries: seq<ModuleEntry>)

  /** The walk over a snapshot. Each call overwrites the caller's record `me`
      with the next entry, or leaves it as it was and returns false. */
  class ModuleWalk {
    const entries: seq<ModuleEntry>
    /** How many entries the walk has handed out so far. */
    var yielded: nat

    ghost predicate Valid()
      reads this
    {
      yielded <= |entries|
    }

    constructor (snapshot: Snapshot)
      ensures Valid()
      ensures entries == snapshot.entries && yielded == 0
    {
      entries := snapshot.entries;
      yielded := 0;
    }

    /** Module32FirstW: hands out the first entry of the snapshot. */
    method First(me: ModuleEntry) returns (ok: bool, me': ModuleEntry)
      requires Valid()
      modifies this
      ensures Valid()
      ensures ok <==> entries != []
      ensures ok ==> me' == entries[0] && yielded == 1
      ensures !ok ==> me' == me && yielded == old(yielded)
    {
      if entries == [] {
        ok, me' := false, me;
      } else {
        ok, me' := true, entries[0];
        yielded := 1;
      }
    }

    /** Module32NextW: hands out the entry after the last one handed out. */
    method Next(me: ModuleEntry) returns (ok: bool, me': ModuleEntry)
      requires Valid()
      modifies this
      ensures Valid()
      ensures ok <==> old(yielded) < |entries|
      ensures ok ==> me' == entries[old(yielded)] && yielded == old(yielded) + 1
      ensures !ok ==> me' == me && yielded == old(yielded)
    {
      if yielded < |entries| {
        ok, me' := true, entries[yielded];
        yielded := yielded + 1;
      } else {
        ok, me' := false, me;
      }
    }
  }

  /** A target process: its identifier and the bytes of its address space
      that a cross-process read can reach, by address. */
  datatype Process = Process(id: u32, memory: map<int, u8>)

  /** Every one of the `size` bytes starting at `base` can be read. */
  predicate Readable(p: Process, base: int, size: int)
  {
    forall a :: base <= a < base + size ==> a in p.memory
  }

  /** The `size` bytes of the target's memory starting at `base`. */
  function Span(p: Process, base: int, size: nat): (bytes: seq<u8>)
    requires Readable(p, base, size)
    ensures |bytes| == size
    ensures forall k :: 0 <= k < size ==> bytes[k] == p.memory[base + k]
  {
    seq(size, k requires 0 <= k < size => p.memory[base + k])
  }

  /** `Process::read_ptr`: copies `size` bytes at `base` in the target into
      `dst`. The copy is all or nothing: it reports success exactly when every
      byte could be read, and only then does `dst` hold them. */
  method ReadPtr(p: Process, dst: array<u8>, base: usize, size: usize) returns (ok: bool)
    requires dst.Length == size as int
    modifies dst
    ensures ok <==> Readable(p, base as int, size as int)
    ensures ok ==> dst[..] == Span(p, base as int, size as int)
  {
    if !Readable(p, base as int, size as int) {
      return false;
    }
    for k := 0 to size as int
      invariant forall j :: 0 <= j < k ==> dst[j] == p.memory[base as int + j]
    {
      dst[k] := p.memory[base as int + k];
    }
    ok := true;
  }
}
