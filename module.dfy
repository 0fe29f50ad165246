/** Finding a loaded module of a target process by name and taking an owned
    copy of its memory (`memlib::module`). */
module MemModule {
  import opened Wrappers
  import opened Win
  import opened Names

  /** One loaded image of the target, captured at lookup time: its name, base
      address and size as the snapshot reported them, and a copy of its bytes. */
  datatype Module = Module(name: seq<u16>, base: usize, size: usize, data: seq<u8>)
  {
    /** `Module::find_pattern`: the signature search runs over the copied bytes
        and nothing else. The matcher itself is not part of this model and is
        passed in. */
    function FindPattern(pattern: string, findPattern: (seq<u8>, string) -> Option<usize>): (r: Option<usize>)
    {
      findPattern(data, pattern)
    }
  }

  /** The name of an entry as the lookup compares it. */
  function EntryName(me: ModuleEntry): (name: seq<u16>)
    ensures |name| <= |me.szModule| && NoNulAtEnds(name)
  {
    TrimNul(me.szModule)
  }

  /** Exact, unit-for-unit (so case-sensitive) equality of the trimmed name.
      A requested name with a NUL at either end, or longer than the field, can
      never match. */
  predicate Matches(me: ModuleEntry, name: seq<u16>)
    ensures Matches(me, name) ==> NoNulAtEnds(name) && |name| <= |me.szModule|
  {
    EntryName(me) == name
  }

  /** What `Module::from_module_entry` produces for an entry: a module whose
      buffer is the whole image, or nothing when the image cannot be read. */
  function ModuleOf(me: ModuleEntry, name: seq<u16>, p: Process): (r: Option<Module>)
    ensures r.Some? <==> Readable(p, me.modBaseAddr as int, me.modBaseSize as int)
    ensures r.Some? ==> r.value.name == name && r.value.base == me.modBaseAddr
    ensures r.Some? ==> r.value.size as int == me.modBaseSize as int == |r.value.data|
  {
    var size := me.modBaseSize as int;
    if Readable(p, me.modBaseAddr as int, size) then
      Some(Module(name, me.modBaseAddr, size as usize, Span(p, me.modBaseAddr as int, size)))
    else
      None
  }

  /** `Module::from_module_entry`: allocates a zeroed buffer of the image's
      size and has the process copy the image into it; a failed copy yields no
      module at all. */
  method FromModuleEntry(me: ModuleEntry, name: seq<u16>, p: Process) returns (r: Option<Module>)
    ensures r == ModuleOf(me, name, p)
  {
    var size := me.modBaseSize as usize;
    var data := new u8[size as int](_ => 0);
    var ok := ReadPtr(p, data, me.modBaseAddr, size);
    if ok {
      return Some(Module(name, me.modBaseAddr, size, data[..]));
    }
    return None;
  }

  /** The position of the first entry, in walk order, whose name matches. */
  function FirstMatch(name: seq<u16>, entries: seq<ModuleEntry>): (r: Option<nat>)
    ensures r.Some? ==> r.value < |entries| && Matches(entries[r.value], name)
    ensures r.Some? ==> forall j :: 0 <= j < r.value ==> !Matches(entries[j], name)
    ensures r.None? <==> forall j :: 0 <= j < |entries| ==> !Matches(entries[j], name)
    decreases |entries|
  {
    if entries == [] then None
    else if Matches(entries[0], name) then Some(0)
    else
      match FirstMatch(name, entries[1..])
      case None => None
      case Some(k) => Some(k + 1)
  }

  /** What `get` returns: nothing without a snapshot; otherwise the module
      built from the first entry whose name matches, read or not, and nothing
      when no entry matches. */
  function Lookup(name: seq<u16>, snapshot: Option<Snapshot>, p: Process): (r: Option<Module>)
    ensures snapshot.None? ==> r.None?
    ensures snapshot.Some? && snapshot.value.entries == [] ==> r.None?
    ensures r.Some? ==> r.value.name == name && |r.value.data| == r.value.size as int
  {
    match snapshot
    case None => None
    case Some(s) =>
      match FirstMatch(name, s.entries)
      case None => None
      case Some(i) => ModuleOf(s.entries[i], EntryName(s.entries[i]), p)
  }

  /** `get`: walks the module snapshot of the process, trims each entry's name
      and stops at the first entry whose name equals `name`, returning whatever
      reading that module gives. `snapshot` is what acquiring the snapshot
      handle gave: None when the acquisition failed. */
  method Get(name: seq<u16>, snapshot: Option<Snapshot>, process: Process) returns (r: Option<Module>)
    ensures r == Lookup(name, snapshot, process)
  {
    if snapshot.None? {
      return None;
    }
    var walk := new ModuleWalk(snapshot.value);
    var me := ZeroEntry();
    var ok;
    ok, me := walk.First(me);
    if !ok {
      return None;
    }
    while true
      invariant walk.Valid() && walk.entries == snapshot.value.entries
      invariant 1 <= walk.yielded && me == walk.entries[walk.yielded - 1]
      invariant forall j :: 0 <= j < walk.yielded - 1 ==> !Matches(walk.entries[j], name)
      decreases |walk.entries| - walk.yielded
    {
      var s := EntryName(me);
      if name == s {
        r := FromModuleEntry(me, s, process);
        return;
      }
      ok, me := walk.Next(me);
      if !ok {
        break;
      }
    }
    return None;
  }
}
