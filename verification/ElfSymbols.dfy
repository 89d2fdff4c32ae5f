/**
 The symbols a module depends on, from its ELF file: undefined symbols of the symbol table (chapter 4, "Symbol Table",
 of the System V ABI gABI) with the checksums that the __versions section records for them.
 */
module ElfSymbols {
  import opened Text
  import opened Tokens

  const INT_MAX := 0x7FFF_FFFF
  const STT_REGISTER := 13
  const STB_WEAK := 2
  const VERLEN := 64

  datatype Section = Section(offset: nat, size: nat)

  /** A file whose section table has been read; a section at offset 0 is missing. */
  datatype Elf = Elf(mem: Str, x32: bool, msb: bool, sparc: bool, versions: Section, strtab: Section, symtab: Section)

  datatype Symbol = Symbol(nameOff: nat, section: nat, info: nat)

  datatype Binding = Weak | Undefined

  datatype Modversion = Modversion(crc: nat, bind: Binding, name: Str)

  /** Every section lies inside the file. */
  predicate IsElf(e: Elf) {
    && e.versions.offset + e.versions.size <= |e.mem|
    && e.strtab.offset + e.strtab.size <= |e.mem|
    && e.symtab.offset + e.symtab.size <= |e.mem|
  }

  type ValidElf = e: Elf | IsElf(e)
    witness Elf([], false, false, false, Section(0, 0), Section(0, 0), Section(0, 0))

  // ----- fields

  /** elf_get_uint */
  function Uint(b: Str, msb: bool): nat {
    if b == [] then 0
    else if msb then 0x100 * Uint(b[..|b| - 1], msb) + b[|b| - 1]
    else b[0] + 0x100 * Uint(b[1..], msb)
  }

  function Field(e: ValidElf, at: nat, size: nat): nat
    requires at + size <= |e.mem|
  {
    Uint(e.mem[at..at + size], e.msb)
  }

  function SymLen(e: ValidElf): nat { if e.x32 then 16 else 24 }

  function SymCount(e: ValidElf): nat { e.symtab.size / SymLen(e) }

  /** The i-th entry of the symbol table: name, section index and info at the offsets of the 32 or 64 bit layout. */
  function SymbolAt(e: ValidElf, i: nat): Symbol
    requires i < SymCount(e)
  {
    InTable(e.symtab.size, SymLen(e), i);
    var at := e.symtab.offset + i * SymLen(e);
    if e.x32 then Symbol(Field(e, at, 4), Field(e, at + 14, 2), Field(e, at + 12, 1))
    else Symbol(Field(e, at, 4), Field(e, at + 6, 2), Field(e, at + 4, 1))
  }

  lemma InTable(size: nat, len: nat, i: nat)
    requires 0 < len && i < size / len
    ensures i * len + len <= size
  {
    assert i + 1 <= size / len;
    assert (i + 1) * len <= size / len * len <= size;
  }

  /** The string at a position of the file. */
  function StringAt(e: ValidElf, at: nat): Str
    requires at <= |e.mem|
  {
    e.mem[at..TokenEnd(e.mem, at, {0})]
  }

  function NameOf(e: ValidElf, i: nat): Str
    requires i < SymCount(e) && SymbolAt(e, i).nameOff < e.strtab.size
  {
    StringAt(e, e.strtab.offset + SymbolAt(e, i).nameOff)
  }

  function CrcLen(e: ValidElf): nat { if e.x32 then 4 else 8 }

  /** How many records __versions has: none if it is missing or of the wrong size. */
  function VerCount(e: ValidElf): nat {
    if e.versions.offset == 0 || e.versions.size % VERLEN != 0 then 0 else e.versions.size / VERLEN
  }

  function VerCrc(e: ValidElf, j: nat): nat
    requires j < VerCount(e)
  {
    Field(e, e.versions.offset + j * VERLEN, CrcLen(e))
  }

  /** The name of a record, if it is terminated. */
  function VerName(e: ValidElf, j: nat): Option<Str>
    requires j < VerCount(e)
  {
    var at := e.versions.offset + j * VERLEN + CrcLen(e);
    var field := e.mem[at..at + VERLEN - CrcLen(e)];
    var n := TokenEnd(field, 0, {0});
    if n == |field| then None else Some(field[..n])
  }

  // ----- what is listed

  /** Undefined, and not a SPARC register. */
  predicate Wanted(e: ValidElf, i: nat)
    requires i < SymCount(e)
  {
    SymbolAt(e, i).section == 0 && !(e.sparc && SymbolAt(e, i).info % 16 == STT_REGISTER)
  }

  predicate NameInside(e: ValidElf, i: nat)
    requires i < SymCount(e)
  {
    Wanted(e, i) ==> SymbolAt(e, i).nameOff < e.strtab.size
  }

  function NameTests(e: ValidElf): nat -> bool {
    (i: nat) => i < SymCount(e) ==> NameInside(e, i)
  }

  /** The names of all wanted symbols lie in the string table. */
  predicate NamesInside(e: ValidElf) {
    All(NameTests(e), 1, SymCount(e))
  }

  /** The test holds from `from` up to but not including `n`. */
  predicate All(test: nat -> bool, from: nat, n: nat) {
    n <= from || (All(test, from, n - 1) && test(n - 1))
  }

  lemma {:induction false} AllBefore(test: nat -> bool, from: nat, i: nat, n: nat)
    requires i < n && All(test, from, n)
    ensures All(test, from, i) && (from <= i ==> test(i))
    decreases n
  {
    if i < n - 1 {
      if n > from {
        AllBefore(test, from, i, n - 1);
      }
    }
  }

  predicate Listed(e: ValidElf, i: nat)
    requires i < SymCount(e)
  {
    Wanted(e, i) && SymbolAt(e, i).nameOff < e.strtab.size && NameOf(e, i) != []
  }

  /** The first record with that name from `j` on, or the number of records. */
  function FirstRecord(e: ValidElf, name: Str, j: nat): (k: nat)
    requires j <= VerCount(e)
    ensures j <= k <= VerCount(e) && (k < VerCount(e) ==> VerName(e, k) == Some(name))
    ensures forall x :: j <= x < k ==> VerName(e, x) != Some(name)
    decreases VerCount(e) - j
  {
    if j == VerCount(e) || VerName(e, j) == Some(name) then j else FirstRecord(e, name, j + 1)
  }

  function CrcFor(e: ValidElf, name: Str): nat
  {
    var k := FirstRecord(e, name, 0);
    if k < VerCount(e) then VerCrc(e, k) else 0
  }

  function BindOf(e: ValidElf, i: nat): Binding
    requires i < SymCount(e)
  {
    if SymbolAt(e, i).info / 16 == STB_WEAK then Weak else Undefined
  }

  /** Some listed symbol before `n` has record `j` as its first. */
  predicate Claimed(e: ValidElf, n: nat, j: nat)
    requires n <= SymCount(e)
  {
    exists i :: 1 <= i < n && Listed(e, i) && FirstRecord(e, NameOf(e, i), 0) == j
  }

  /** The parts from `from` up to but not including `n`, joined. */
  function Joined<T>(parts: nat -> seq<T>, from: nat, n: nat): seq<T> {
    if n <= from then [] else Joined(parts, from, n - 1) + parts(n - 1)
  }

  lemma {:induction false} JoinedGrows<T>(parts: nat -> seq<T>, from: nat, i: nat, n: nat)
    requires i <= n
    ensures |Joined(parts, from, i)| <= |Joined(parts, from, n)|
    decreases n
  {
    if i < n {
      JoinedGrows(parts, from, i, n - 1);
    }
  }

  lemma JoinedNext<T>(parts: nat -> seq<T>, from: nat, n: nat, part: seq<T>)
    requires from <= n && parts(n) == part
    ensures Joined(parts, from, n + 1) == Joined(parts, from, n) + part
  {
  }

  function SymbolPart(e: ValidElf, i: nat): seq<Modversion> {
    if i < SymCount(e) && Listed(e, i) then [Modversion(CrcFor(e, NameOf(e, i)), BindOf(e, i), NameOf(e, i))] else []
  }

  function SymbolParts(e: ValidElf): nat -> seq<Modversion> {
    (i: nat) => SymbolPart(e, i)
  }

  /** The listed symbols in table order; entry 0 of the table is reserved. */
  function SymbolList(e: ValidElf): seq<Modversion> {
    Joined(SymbolParts(e), 1, SymCount(e))
  }

  function RecordPart(e: ValidElf, j: nat): seq<Modversion> {
    if j >= VerCount(e) || Claimed(e, SymCount(e), j) || VerName(e, j).None? then []
    else [Modversion(VerCrc(e, j), Undefined, VerName(e, j).value)]
  }

  function RecordParts(e: ValidElf): nat -> seq<Modversion> {
    (j: nat) => RecordPart(e, j)
  }

  /** The records that no symbol claims. */
  function RecordList(e: ValidElf): seq<Modversion> {
    Joined(RecordParts(e), 0, VerCount(e))
  }

  predicate RecordTerminated(e: ValidElf, j: nat)
    requires j < VerCount(e)
  {
    Claimed(e, SymCount(e), j) || VerName(e, j).Some?
  }

  function RecordTests(e: ValidElf): nat -> bool {
    (j: nat) => j < VerCount(e) ==> RecordTerminated(e, j)
  }

  predicate RecordsTerminated(e: ValidElf) {
    All(RecordTests(e), 0, VerCount(e))
  }

  function Dependencies(e: ValidElf): seq<Modversion>
  {
    SymbolList(e) + RecordList(e)
  }

  /** The file has the tables it needs, and they are in order. */
  predicate Readable(e: ValidElf)
  {
    && e.strtab.offset != 0 && e.symtab.offset != 0 && e.symtab.size % SymLen(e) == 0
    && NamesInside(e) && RecordsTerminated(e)
    && |Dependencies(e)| <= INT_MAX
  }

  // ----- reading

  /** kmod_elf_crc_find: the first record with the name and its checksum */
  method CrcFind(e: ValidElf, name: Str) returns (idx: Option<nat>, crc: nat)
    ensures crc == CrcFor(e, name)
    ensures var k := FirstRecord(e, name, 0); idx == if k < VerCount(e) then Some(k) else None
  {
    var i := 0;
    while i < VerCount(e)
      invariant i <= VerCount(e) && FirstRecord(e, name, 0) == FirstRecord(e, name, i)
    {
      if VerName(e, i) == Some(name) {
        return Some(i), VerCrc(e, i);
      }
      i := i + 1;
    }
    return None, 0;
  }

  /** The records claimed so far are marked, the checksums of the symbols so far noted. */
  ghost predicate Noted(e: ValidElf, n: nat, visited: seq<bool>, crcs: seq<nat>)
    requires n <= SymCount(e)
  {
    && |visited| == VerCount(e) && |crcs| == SymCount(e)
    && (forall j :: 0 <= j < |visited| ==> (visited[j] <==> Claimed(e, n, j)))
    && (forall i :: 1 <= i < n && Listed(e, i) ==> crcs[i] == CrcFor(e, NameOf(e, i)))
  }

  ghost function Notes(e: ValidElf, n: nat): iset<(seq<bool>, seq<nat>)>
    requires n <= SymCount(e)
  {
    iset p: (seq<bool>, seq<nat>) | Noted(e, n, p.0, p.1)
  }

  lemma ClaimedNext(e: ValidElf, n: nat, j: nat)
    requires 1 <= n < SymCount(e)
    ensures Claimed(e, n + 1, j) <==> Claimed(e, n, j) || (Listed(e, n) && FirstRecord(e, NameOf(e, n), 0) == j)
  {
  }

  lemma {:induction false} NotedNext(e: ValidElf, i: nat, visited: seq<bool>, crcs: seq<nat>,
                                     visited': seq<bool>, crcs': seq<nat>)
    requires 1 <= i < SymCount(e) && (visited, crcs) in Notes(e, i)
    requires !Listed(e, i) ==> visited' == visited && crcs' == crcs
    requires Listed(e, i) ==>
      var k := FirstRecord(e, NameOf(e, i), 0);
      && visited' == (if k < |visited| then visited[k := true] else visited)
      && i < |crcs| && crcs' == crcs[i := CrcFor(e, NameOf(e, i))]
    ensures (visited', crcs') in Notes(e, i + 1)
  {
    forall j | 0 <= j < |visited'| ensures visited'[j] <==> Claimed(e, i + 1, j) {
      ClaimedNext(e, i, j);
    }
  }

  lemma NotedStart(e: ValidElf, visited: seq<bool>, crcs: seq<nat>, n: nat)
    requires |visited| == VerCount(e) && |crcs| == SymCount(e) && forall j :: 0 <= j < |visited| ==> !visited[j]
    requires n <= 1 && n <= SymCount(e)
    ensures (visited, crcs) in Notes(e, n)
  {
  }

  /** One symbol of the first pass. */
  method NoteSymbol(e: ValidElf, i: nat, visited: array<bool>, crcs: array<nat>) returns (listed: nat)
    requires visited.Length == VerCount(e) && crcs.Length == SymCount(e) && 1 <= i < SymCount(e)
    requires (visited[..], crcs[..]) in Notes(e, i) && NameInside(e, i)
    modifies visited, crcs
    ensures (visited[..], crcs[..]) in Notes(e, i + 1) && listed == |SymbolPart(e, i)|
  {
    listed := 0;
    ghost var v, c := visited[..], crcs[..];
    if Wanted(e, i) && NameOf(e, i) != [] {
      listed := 1;
      var idx, crc := CrcFind(e, NameOf(e, i));
      if idx.Some? {
        visited[idx.value] := true;
      }
      crcs[i] := crc;
    }
    NotedNext(e, i, v, c, visited[..], crcs[..]);
  }

  /** The first pass over the symbols: count them, find their records. */
  method CountSymbols(e: ValidElf, visited: array<bool>, crcs: array<nat>) returns (ok: bool, count: nat)
    requires visited.Length == VerCount(e) && crcs.Length == SymCount(e)
    requires forall j :: 0 <= j < visited.Length ==> !visited[j]
    modifies visited, crcs
    ensures ok <==> NamesInside(e)
    ensures ok ==> count == |SymbolList(e)| && (visited[..], crcs[..]) in Notes(e, SymCount(e))
  {
    count := 0;
    var n := SymCount(e);
    var i := if n == 0 then 0 else 1;
    NotedStart(e, visited[..], crcs[..], i);
    while i < n
      invariant i <= n && (i == 0 <==> n == 0) && All(NameTests(e), 1, i)
      invariant count == |Joined(SymbolParts(e), 1, i)| && (visited[..], crcs[..]) in Notes(e, i)
    {
      ok, count := CountNext(e, i, visited, crcs, count);
      if !ok {
        return;
      }
      i := i + 1;
    }
    ok := true;
  }

  /** One symbol; not if its name lies outside the string table. */
  method CountNext(e: ValidElf, i: nat, visited: array<bool>, crcs: array<nat>, count: nat)
    returns (ok: bool, next: nat)
    requires visited.Length == VerCount(e) && crcs.Length == SymCount(e) && 1 <= i < SymCount(e)
    requires (visited[..], crcs[..]) in Notes(e, i)
    requires All(NameTests(e), 1, i) && count == |Joined(SymbolParts(e), 1, i)|
    modifies visited, crcs
    ensures if ok then All(NameTests(e), 1, i + 1) else !NamesInside(e)
    ensures ok ==> (visited[..], crcs[..]) in Notes(e, i + 1) && next == |Joined(SymbolParts(e), 1, i + 1)|
  {
    ok, next := NameInside(e, i), count;
    if !ok {
      NameOutside(e, i);
      return;
    }
    ghost var part := SymbolAhead(e, i);
    var listed := NoteSymbol(e, i, visited, crcs);
    next := count + listed;
  }

  /** The first pass over the records: count those not claimed, unless one has no end. */
  method CountRecords(e: ValidElf, visited: seq<bool>) returns (ok: bool, count: nat)
    requires visited in MarksOf(e)
    ensures ok <==> RecordsTerminated(e)
    ensures ok ==> count == |RecordList(e)|
  {
    count := 0;
    var i := 0;
    ghost var parts, tests := RecordParts(e), RecordTests(e);
    while i < VerCount(e)
      invariant i <= VerCount(e) && All(tests, 0, i) && count == |Joined(parts, 0, i)|
    {
      MarkAt(e, visited, i);
      if !visited[i] {
        if VerName(e, i).None? {
          NotTerminated(e, i);
          return false, count;
        }
        count := count + 1;
      }
      i := i + 1;
    }
    ok := true;
  }

  lemma NameOutside(e: ValidElf, i: nat)
    requires 1 <= i < SymCount(e) && !NameInside(e, i)
    ensures !NamesInside(e)
  {
    if NamesInside(e) {
      AllBefore(NameTests(e), 1, i, SymCount(e));
    }
  }

  lemma NotTerminated(e: ValidElf, j: nat)
    requires j < VerCount(e) && !RecordTerminated(e, j)
    ensures !RecordsTerminated(e)
  {
    if RecordsTerminated(e) {
      AllBefore(RecordTests(e), 0, j, VerCount(e));
    }
  }

  /** The marked records are the claimed ones. */
  ghost predicate Marks(e: ValidElf, visited: seq<bool>) {
    |visited| == VerCount(e) && forall j :: 0 <= j < |visited| ==> (visited[j] <==> Claimed(e, SymCount(e), j))
  }

  ghost function MarksOf(e: ValidElf): iset<seq<bool>> {
    iset visited: seq<bool> | Marks(e, visited)
  }

  lemma MarkAt(e: ValidElf, visited: seq<bool>, j: nat)
    requires visited in MarksOf(e) && j < VerCount(e)
    ensures j < |visited| && (visited[j] <==> Claimed(e, SymCount(e), j))
  {
  }

  /** Put an entry behind the first `count`. */
  method Push(a: array<Modversion>, count: nat, entry: Modversion)
    requires count < a.Length
    modifies a
    ensures a[..count + 1] == old(a[..count]) + [entry]
  {
    a[count] := entry;
  }

  method FillSymbol(e: ValidElf, i: nat, crc: nat, a: array<Modversion>, count: nat, ghost part: seq<Modversion>)
    returns (next: nat)
    requires i < SymCount(e) && NameInside(e, i) && part == SymbolPart(e, i) && count + |part| <= a.Length
    requires Listed(e, i) ==> crc == CrcFor(e, NameOf(e, i))
    modifies a
    ensures next == count + |part| && a[..next] == old(a[..count]) + part
  {
    next := count;
    if Wanted(e, i) && NameOf(e, i) != [] {
      Push(a, count, Modversion(crc, BindOf(e, i), NameOf(e, i)));
      next := count + 1;
    }
  }

  /** The checksums of the listed symbols. */
  ghost predicate Sums(e: ValidElf, crcs: seq<nat>) {
    |crcs| == SymCount(e) && forall i :: 1 <= i < |crcs| && Listed(e, i) ==> crcs[i] == CrcFor(e, NameOf(e, i))
  }

  ghost function SumsOf(e: ValidElf): iset<seq<nat>> {
    iset crcs: seq<nat> | Sums(e, crcs)
  }

  lemma SumAt(e: ValidElf, crcs: seq<nat>, i: nat)
    requires crcs in SumsOf(e) && 1 <= i < SymCount(e)
    ensures i < |crcs| && (Listed(e, i) ==> crcs[i] == CrcFor(e, NameOf(e, i)))
  {
  }

  /** The second pass over the symbols fills the array. */
  method FillSymbols(e: ValidElf, crcs: seq<nat>, a: array<Modversion>) returns (count: nat)
    requires NamesInside(e) && |SymbolList(e)| <= a.Length && crcs in SumsOf(e)
    modifies a
    ensures count <= a.Length && a[..count] == SymbolList(e)
  {
    count := 0;
    var n := SymCount(e);
    var i := if n == 0 then 0 else 1;
    while i < n
      invariant i <= n && (i == 0 <==> n == 0)
      invariant count <= a.Length && a[..count] == Joined(SymbolParts(e), 1, i)
    {
      count := FillNext(e, i, crcs, a, count);
      i := i + 1;
    }
  }

  method FillNext(e: ValidElf, i: nat, crcs: seq<nat>, a: array<Modversion>, count: nat) returns (next: nat)
    requires NamesInside(e) && |SymbolList(e)| <= a.Length && crcs in SumsOf(e) && 1 <= i < SymCount(e)
    requires count <= a.Length && a[..count] == Joined(SymbolParts(e), 1, i)
    modifies a
    ensures next <= a.Length && a[..next] == Joined(SymbolParts(e), 1, i + 1)
  {
    ghost var part := SymbolAhead(e, i);
    AllBefore(NameTests(e), 1, i, SymCount(e));
    SumAt(e, crcs, i);
    next := FillSymbol(e, i, crcs[i], a, count, part);
  }

  /** The part that symbol `i` adds, and that there is room for it. */
  lemma SymbolAhead(e: ValidElf, i: nat) returns (part: seq<Modversion>)
    requires 1 <= i < SymCount(e)
    ensures part == SymbolPart(e, i) && Joined(SymbolParts(e), 1, i + 1) == Joined(SymbolParts(e), 1, i) + part
    ensures |Joined(SymbolParts(e), 1, i)| + |part| <= |SymbolList(e)|
  {
    part := SymbolPart(e, i);
    JoinedNext(SymbolParts(e), 1, i, part);
    JoinedGrows(SymbolParts(e), 1, i + 1, SymCount(e));
  }

  method FillRecord(e: ValidElf, i: nat, visited: bool, a: array<Modversion>, count: nat, ghost part: seq<Modversion>)
    returns (next: nat)
    requires i < VerCount(e) && RecordTerminated(e, i) && visited == Claimed(e, SymCount(e), i)
    requires part == RecordPart(e, i) && count + |part| <= a.Length
    modifies a
    ensures next == count + |part| && a[..next] == old(a[..count]) + part
  {
    next := count;
    if !visited {
      Push(a, count, Modversion(VerCrc(e, i), Undefined, VerName(e, i).value));
      next := count + 1;
    }
  }

  /** The part that record `i` adds, and that there is room for it. */
  lemma RecordAhead(e: ValidElf, i: nat) returns (part: seq<Modversion>)
    requires i < VerCount(e)
    ensures part == RecordPart(e, i) && Joined(RecordParts(e), 0, i + 1) == Joined(RecordParts(e), 0, i) + part
    ensures |Joined(RecordParts(e), 0, i)| + |part| <= |RecordList(e)|
  {
    part := RecordPart(e, i);
    JoinedNext(RecordParts(e), 0, i, part);
    JoinedGrows(RecordParts(e), 0, i + 1, VerCount(e));
  }

  method FillNextRecord(e: ValidElf, i: nat, visited: seq<bool>, a: array<Modversion>, count: nat,
                        ghost front: seq<Modversion>)
    returns (next: nat)
    requires visited in MarksOf(e) && RecordsTerminated(e) && |front| + |RecordList(e)| == a.Length && i < VerCount(e)
    requires count <= a.Length && a[..count] == front + Joined(RecordParts(e), 0, i)
    modifies a
    ensures next <= a.Length && a[..next] == front + Joined(RecordParts(e), 0, i + 1)
  {
    ghost var part := RecordAhead(e, i);
    AllBefore(RecordTests(e), 0, i, VerCount(e));
    MarkAt(e, visited, i);
    next := FillRecord(e, i, visited[i], a, count, part);
  }

  /** The second pass over the records fills the rest. */
  method FillRecords(e: ValidElf, visited: seq<bool>, a: array<Modversion>, start: nat) returns (count: nat)
    requires visited in MarksOf(e) && RecordsTerminated(e) && start + |RecordList(e)| == a.Length
    modifies a
    ensures count == a.Length && a[..] == old(a[..start]) + RecordList(e)
  {
    count := start;
    var i := 0;
    ghost var front := a[..start];
    while i < VerCount(e)
      invariant i <= VerCount(e) && count <= a.Length && a[..count] == front + Joined(RecordParts(e), 0, i)
    {
      count := FillNextRecord(e, i, visited, a, count, front);
      i := i + 1;
    }
    assert a[..] == a[..count];
  }

  lemma NotedAll(e: ValidElf, visited: seq<bool>, crcs: seq<nat>)
    requires (visited, crcs) in Notes(e, SymCount(e))
    ensures visited in MarksOf(e) && crcs in SumsOf(e)
  {
  }

  /**
   kmod_elf_get_dependency_symbols: the undefined symbols in table order with their checksums, then the records
   that no symbol has claimed; the array is allocated for the number counted and filled exactly
   */
  method DependencySymbols(e: ValidElf) returns (err: int, a: array<Modversion>)
    ensures err == (if Readable(e) then |Dependencies(e)| else -EINVAL)
    ensures err >= 0 ==> a[..] == Dependencies(e)
  {
    a := new Modversion[0];
    err := -EINVAL;
    if e.strtab.offset == 0 || e.symtab.offset == 0 || e.symtab.size % SymLen(e) != 0 {
      return;
    }
    var visited := new bool[VerCount(e)](_ => false);
    var crcs := new nat[SymCount(e)](_ => 0);
    var ok, symbols := CountSymbols(e, visited, crcs);
    if !ok {
      return;
    }
    NotedAll(e, visited[..], crcs[..]);
    var records;
    ok, records := CountRecords(e, visited[..]);
    if !ok || symbols + records > INT_MAX {
      return;
    }
    a := new Modversion[symbols + records](_ => Modversion(0, Undefined, []));
    var count := FillSymbols(e, crcs[..], a);
    count := FillRecords(e, visited[..], a, count);
    err := count;
  }
}
