/** What the module lookup promises its callers, stated over `Lookup`, the
    function that `MemModule.Get` is proved to compute. */
module LookupProperties {
  import opened Wrappers
  import opened Win
  import opened Names
  import opened MemModule

  /** The entry selected is the first one in walk order whose trimmed name
      equals the requested name, and the result is exactly what reading that
      entry's module gives. */
  lemma LookupSelectsFirstMatch(name: seq<u16>, entries: seq<ModuleEntry>, p: Process, i: nat)
    requires i < |entries| && Matches(entries[i], name)
    requires forall j :: 0 <= j < i ==> !Matches(entries[j], name)
    ensures Lookup(name, Some(Snapshot(entries)), p) == ModuleOf(entries[i], name, p)
  {
    var k := FirstMatch(name, entries);
    assert k.Some? by {
      assert Matches(entries[i], name);
    }
    assert Matches(entries[k.value], name);
  }

  /** The lookup comes back empty exactly when the snapshot could not be
      taken, when no entry's trimmed name equals the requested name, or when
      the first entry that does cannot be read. */
  lemma LookupFailsIff(name: seq<u16>, snapshot: Option<Snapshot>, p: Process)
    ensures Lookup(name, snapshot, p).None? <==>
      || snapshot.None?
      || (forall j :: 0 <= j < |snapshot.value.entries| ==> !Matches(snapshot.value.entries[j], name))
      || (exists i ::
            && 0 <= i < |snapshot.value.entries| && Matches(snapshot.value.entries[i], name)
            && (forall j :: 0 <= j < i ==> !Matches(snapshot.value.entries[j], name))
            && !Readable(p, snapshot.value.entries[i].modBaseAddr as int, snapshot.value.entries[i].modBaseSize as int))
  {
    if snapshot.Some? {
      var es := snapshot.value.entries;
      var k := FirstMatch(name, es);
      if k.Some? {
        forall i | 0 <= i < |es| && Matches(es[i], name) && (forall j :: 0 <= j < i ==> !Matches(es[j], name))
          ensures i == k.value
        {
          assert Matches(es[i], name) && Matches(es[k.value], name);
        }
      }
    }
  }

  /** A successful lookup returns a module named as requested whose base and
      size are those of a matching entry, with no earlier entry matching, and
      whose buffer holds exactly `size` bytes. */
  lemma LookupResultIsFirstMatch(name: seq<u16>, entries: seq<ModuleEntry>, p: Process)
    requires Lookup(name, Some(Snapshot(entries)), p).Some?
    ensures exists i ::
      && 0 <= i < |entries| && Matches(entries[i], name)
      && (forall j :: 0 <= j < i ==> !Matches(entries[j], name))
      && Lookup(name, Some(Snapshot(entries)), p).value.base == entries[i].modBaseAddr
      && Lookup(name, Some(Snapshot(entries)), p).value.size as int == entries[i].modBaseSize as int
    ensures Lookup(name, Some(Snapshot(entries)), p).value.name == name
    ensures |Lookup(name, Some(Snapshot(entries)), p).value.data| == Lookup(name, Some(Snapshot(entries)), p).value.size as int
  {
    var i := FirstMatch(name, entries).value;
    assert Matches(entries[i], name);
  }

  /** The first match in a prefix of the walk is the first match of the whole
      walk. */
  lemma {:induction false} FirstMatchOfExtension(name: seq<u16>, entries: seq<ModuleEntry>, rest: seq<ModuleEntry>)
    requires FirstMatch(name, entries).Some?
    ensures FirstMatch(name, entries + rest) == FirstMatch(name, entries)
    decreases |entries|
  {
    if !Matches(entries[0], name) {
      assert (entries + rest)[1..] == entries[1..] + rest;
      FirstMatchOfExtension(name, entries[1..], rest);
    }
  }

  /** Once an entry matches, the lookup never looks further: whatever the walk
      would have handed out after it changes nothing. */
  lemma LookupStopsAtFirstMatch(name: seq<u16>, entries: seq<ModuleEntry>, rest: seq<ModuleEntry>, p: Process)
    requires exists i :: 0 <= i < |entries| && Matches(entries[i], name)
    ensures Lookup(name, Some(Snapshot(entries + rest)), p) == Lookup(name, Some(Snapshot(entries)), p)
  {
    FirstMatchOfExtension(name, entries, rest);
  }

  /** A read failure at the first matching entry is final: the lookup is
      empty even when a later entry has the same name and could be read. */
  lemma ReadFailureIsNotRetried(name: seq<u16>, entries: seq<ModuleEntry>, p: Process, i: nat, j: nat)
    requires i < j < |entries|
    requires Matches(entries[i], name) && forall k :: 0 <= k < i ==> !Matches(entries[k], name)
    requires !Readable(p, entries[i].modBaseAddr as int, entries[i].modBaseSize as int)
    requires Matches(entries[j], name) && Readable(p, entries[j].modBaseAddr as int, entries[j].modBaseSize as int)
    ensures Lookup(name, Some(Snapshot(entries)), p) == None
  {
    LookupSelectsFirstMatch(name, entries, p, i);
  }

  /** A name field holding the name followed by any number of NULs matches it. */
  lemma PaddedNameMatches(name: seq<u16>, me: ModuleEntry, padding: nat)
    requires NoNulAtEnds(name)
    requires me.szModule == name + seq(padding, _ => NUL)
    ensures Matches(me, name)
  {
    assert me.szModule == [] + name + seq(padding, _ => NUL);
    TrimNulOfPadded([], name, seq(padding, _ => NUL));
  }

  /** Only the ends are trimmed: when a NUL inside the field is followed by
      anything but NULs, those units stay part of the name, and the field no
      longer matches the name in front of the NUL. */
  lemma UnitsAfterInteriorNulAreKept(name: seq<u16>, tail: seq<u16>, me: ModuleEntry)
    requires me.szModule == name + [NUL] + tail
    requires !AllNul(tail)
    ensures !Matches(me, name)
  {
    var s := me.szModule;
    var k :| 0 <= k < |tail| && tail[k] != NUL;
    assert s[|name| + 1 + k] == tail[k];
    if name == [] {
      // the field is not all NULs, so its trimmed name is not empty
      assert !AllNul(s);
      TrimNulEmptyIffAllNul(s);
    } else if name[0] != NUL {
      // the trimmed name reaches past the NUL after `name`
      assert s[0] == name[0];
      TrimNulKeepsUpToLastNonNul(s, |name| + 1 + k);
    }
  }

  /** `Module::find_pattern` looks at the copied bytes only: two modules with
      the same buffer give the same answer, whatever their name, base or size. */
  lemma FindPatternSeesOnlyData(m1: Module, m2: Module, pattern: string, findPattern: (seq<u8>, string) -> Option<usize>)
    requires m1.data == m2.data
    ensures m1.FindPattern(pattern, findPattern) == m2.FindPattern(pattern, findPattern)
  {
  }

  /** The UTF-16 encoding of text made of Basic Multilingual Plane characters. */
  function Wide(s: string): (w: seq<u16>)
    requires forall i :: 0 <= i < |s| ==> s[i] as int < 0x1_0000
    ensures |w| == |s|
  {
    seq(|s|, i requires 0 <= i < |s| => s[i] as int as u16)
  }

  /** Name comparison is case-sensitive: a module listed as "Kernel32.dll" is
      not found when "kernel32.dll" is asked for, and is found, when readable,
      under its exact name. */
  lemma CaseSensitiveLookup(p: Process)
    ensures
      var me := ModuleEntry(0x7FFE_0000, 0x1000, Wide("Kernel32.dll") + [NUL, NUL, NUL]);
      && Lookup(Wide("kernel32.dll"), Some(Snapshot([me])), p) == None
      && (Lookup(Wide("Kernel32.dll"), Some(Snapshot([me])), p).Some? <==> Readable(p, 0x7FFE_0000, 0x1000))
  {
    var listed := Wide("Kernel32.dll");
    var me := ModuleEntry(0x7FFE_0000, 0x1000, listed + [NUL, NUL, NUL]);
    assert NoNulAtEnds(listed);
    assert [NUL, NUL, NUL] == seq(3, _ => NUL);
    PaddedNameMatches(listed, me, 3);
    assert Wide("kernel32.dll")[0] != listed[0];
    LookupSelectsFirstMatch(listed, [me], p, 0);
  }
}
