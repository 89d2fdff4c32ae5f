/**
 ELF files as they are written: symbol table entries of either width and byte order (chapter 4, "Symbol Table", of the
 System V ABI gABI), the strings they name, and the records of the __versions section. What the reader makes of them.
 */
module ElfImage {
  import opened Text
  import opened Tokens
  import opened ElfSymbols

  // ----- numbers

  /** A number in `n` bytes. */
  function Bytes(x: nat, n: nat, msb: bool): (b: Str)
    ensures |b| == n
  {
    if n == 0 then []
    else if msb then Bytes(x / 0x100, n - 1, msb) + [x % 0x100]
    else [x % 0x100] + Bytes(x / 0x100, n - 1, msb)
  }

  /** `n` bytes are enough. */
  predicate Fits(x: nat, n: nat) {
    if n == 0 then x == 0 else Fits(x / 0x100, n - 1)
  }

  lemma {:induction false} UintBytes(x: nat, n: nat, msb: bool)
    requires Fits(x, n)
    ensures Uint(Bytes(x, n, msb), msb) == x
    decreases n
  {
    if n > 0 {
      var b, rest := Bytes(x, n, msb), Bytes(x / 0x100, n - 1, msb);
      UintBytes(x / 0x100, n - 1, msb);
      assert if msb then b[..n - 1] == rest else b[1..] == rest;
    }
  }

  // ----- symbols

  /** An entry of the symbol table, and the name at `nameOff` in the string table. */
  datatype Sym = Sym(name: Str, nameOff: nat, value: nat, size: nat, bind: nat, kind: nat, other: Byte, section: nat)

  predicate ProperSym(s: Sym, x32: bool) {
    && IsCString(s.name) && Fits(s.nameOff, 4) && s.bind < 16 && s.kind < 16 && Fits(s.section, 2)
    && Fits(s.value, if x32 then 4 else 8) && Fits(s.size, if x32 then 4 else 8)
  }

  /** The entry in the layout of Elf32_Sym or Elf64_Sym. */
  function SymImage(s: Sym, x32: bool, msb: bool): (b: Str)
    requires ProperSym(s, x32)
    ensures |b| == if x32 then 16 else 24
  {
    if x32 then
      Bytes(s.nameOff, 4, msb) + Bytes(s.value, 4, msb) + Bytes(s.size, 4, msb)
      + [s.bind * 16 + s.kind, s.other] + Bytes(s.section, 2, msb)
    else
      Bytes(s.nameOff, 4, msb) + [s.bind * 16 + s.kind, s.other] + Bytes(s.section, 2, msb)
      + Bytes(s.value, 8, msb) + Bytes(s.size, 8, msb)
  }

  lemma SymParts(s: Sym, x32: bool, msb: bool)
    requires ProperSym(s, x32)
    ensures var b, info := SymImage(s, x32, msb), s.bind * 16 + s.kind;
            && b[..4] == Bytes(s.nameOff, 4, msb)
            && (if x32 then b[14..16] == Bytes(s.section, 2, msb) && b[12] == info
                else b[6..8] == Bytes(s.section, 2, msb) && b[4] == info)
  {
  }

  lemma SubSlice(s: Str, at: nat, m: nat, k: nat, l: nat)
    requires at + m <= |s| && k <= l <= m
    ensures s[at..at + m][k..l] == s[at + k..at + l]
  {
    var inner, outer := s[at..at + m][k..l], s[at + k..at + l];
    forall j | 0 <= j < l - k ensures inner[j] == outer[j] {
      assert s[at..at + m][k + j] == s[at + k + j];
    }
  }

  lemma SliceWithin(s: Str, at: nat, b: Str, k: nat, l: nat)
    requires at + |b| <= |s| && s[at..at + |b|] == b && k <= l <= |b|
    ensures s[at + k..at + l] == b[k..l]
  {
    SubSlice(s, at, |b|, k, l);
  }

  lemma {:induction false} FieldRead(e: ValidElf, at: nat, b: Str, k: nat, x: nat, n: nat)
    requires at + |b| <= |e.mem| && e.mem[at..at + |b|] == b && k + n <= |b| && b[k..k + n] == Bytes(x, n, e.msb)
    requires Fits(x, n)
    ensures Field(e, at + k, n) == x
  {
    SliceWithin(e.mem, at, b, k, k + n);
    UintBytes(x, n, e.msb);
  }

  /** Where an entry stands, it is read back. */
  lemma {:induction false} SymRead(e: ValidElf, i: nat, at: nat, s: Sym)
    requires i < SymCount(e) && at == e.symtab.offset + i * SymLen(e) && ProperSym(s, e.x32)
    requires at + SymLen(e) <= |e.mem| && e.mem[at..at + SymLen(e)] == SymImage(s, e.x32, e.msb)
    ensures SymbolAt(e, i) == Symbol(s.nameOff, s.section, s.bind * 16 + s.kind)
  {
    var b, info := SymImage(s, e.x32, e.msb), s.bind * 16 + s.kind;
    SymParts(s, e.x32, e.msb);
    FieldRead(e, at, b, 0, s.nameOff, 4);
    if e.x32 {
      FieldRead(e, at, b, 14, s.section, 2);
      InfoRead(e, at, b, 12, info);
    } else {
      FieldRead(e, at, b, 6, s.section, 2);
      InfoRead(e, at, b, 4, info);
    }
  }

  lemma InfoRead(e: ValidElf, at: nat, b: Str, k: nat, info: nat)
    requires at + |b| <= |e.mem| && e.mem[at..at + |b|] == b && k < |b| && b[k] == info
    ensures Field(e, at + k, 1) == info
  {
    InfoByte(info, e.msb);
    assert b[k..k + 1] == [info];
    FieldRead(e, at, b, k, info, 1);
  }

  lemma InfoByte(info: nat, msb: bool)
    requires info < 256
    ensures Bytes(info, 1, msb) == [info] && Fits(info, 1)
  {
    assert Bytes(info / 0x100, 0, msb) == [];
  }

  /** What the entry says about the symbol. */
  lemma SymMeaning(e: ValidElf, i: nat, s: Sym)
    requires i < SymCount(e) && ProperSym(s, e.x32)
    requires SymbolAt(e, i) == Symbol(s.nameOff, s.section, s.bind * 16 + s.kind)
    ensures Wanted(e, i) <==> s.section == 0 && !(e.sparc && s.kind == 13)
    ensures BindOf(e, i) == if s.bind == 2 then Weak else Undefined
  {
    Nibbles(s.bind, s.kind);
  }

  lemma Nibbles(a: nat, b: nat)
    requires b < 16
    ensures (a * 16 + b) / 16 == a && (a * 16 + b) % 16 == b
  {
  }

  // ----- records

  datatype Version = Version(crc: nat, name: Str)

  predicate ProperVersion(v: Version, x32: bool) {
    var n := if x32 then 4 else 8;
    Fits(v.crc, n) && IsCString(v.name) && |v.name| < 64 - n
  }

  /** The checksum, the name and zeros up to 64 bytes. */
  function VersionImage(v: Version, x32: bool, msb: bool): (b: Str)
    requires ProperVersion(v, x32)
    ensures |b| == 64
  {
    var n := if x32 then 4 else 8;
    Bytes(v.crc, n, msb) + Padded(v.name, 64 - n)
  }

  function Padded(name: Str, n: nat): (b: Str)
    requires |name| < n
    ensures |b| == n && b[..|name|] == name && b[|name|] == 0
  {
    name + seq(n - |name|, _ => 0)
  }

  lemma VersionParts(v: Version, x32: bool, msb: bool, n: nat)
    requires ProperVersion(v, x32) && n == if x32 then 4 else 8
    ensures var b := VersionImage(v, x32, msb); b[0..n] == Bytes(v.crc, n, msb) && b[n..64] == Padded(v.name, 64 - n)
  {
  }

  lemma {:induction false} VersionRead(e: ValidElf, j: nat, at: nat, v: Version)
    requires j < VerCount(e) && at == e.versions.offset + j * VERLEN && ProperVersion(v, e.x32)
    requires at + 64 <= |e.mem| && e.mem[at..at + 64] == VersionImage(v, e.x32, e.msb)
    ensures VerCrc(e, j) == v.crc && VerName(e, j) == Some(v.name)
  {
    VersionCrc(e, at, v, CrcLen(e));
    VersionName(e, at, v, CrcLen(e));
    PaddedEnd(v.name, 64 - CrcLen(e));
  }

  lemma {:induction false} VersionCrc(e: ValidElf, at: nat, v: Version, n: nat)
    requires ProperVersion(v, e.x32) && n == CrcLen(e)
    requires at + 64 <= |e.mem| && e.mem[at..at + 64] == VersionImage(v, e.x32, e.msb)
    ensures Field(e, at, n) == v.crc
  {
    VersionParts(v, e.x32, e.msb, n);
    FieldRead(e, at, VersionImage(v, e.x32, e.msb), 0, v.crc, n);
  }

  lemma {:induction false} VersionName(e: ValidElf, at: nat, v: Version, n: nat)
    requires ProperVersion(v, e.x32) && n == CrcLen(e)
    requires at + 64 <= |e.mem| && e.mem[at..at + 64] == VersionImage(v, e.x32, e.msb)
    ensures e.mem[at + n..at + 64] == Padded(v.name, 64 - n)
  {
    VersionParts(v, e.x32, e.msb, n);
    SliceWithin(e.mem, at, VersionImage(v, e.x32, e.msb), n, 64);
  }

  lemma PaddedEnd(name: Str, n: nat)
    requires |name| < n && IsCString(name)
    ensures TokenEnd(Padded(name, n), 0, {0}) == |name|
  {
    NameEnd(Padded(name, n), 0, name);
  }

  lemma NameEnd(s: Str, at: nat, name: Str)
    requires IsCString(name) && at + |name| < |s| && s[at..at + |name|] == name && s[at + |name|] == 0
    ensures TokenEnd(s, at, {0}) == at + |name|
  {
    forall k | at <= k < at + |name| ensures s[k] !in {0} {
      assert s[k] == name[k - at];
    }
    EndUnique(s, at, {0}, at + |name|);
  }

  // ----- files

  /** Symbol `i` stands in the symbol table, and its name in the string table. */
  ghost predicate HasSym(e: ValidElf, i: nat, s: Sym) {
    var at, name := e.symtab.offset + i * SymLen(e), e.strtab.offset + s.nameOff;
    && ProperSym(s, e.x32) && at + SymLen(e) <= |e.mem| && e.mem[at..at + SymLen(e)] == SymImage(s, e.x32, e.msb)
    && s.nameOff < e.strtab.size
    && name + |s.name| < |e.mem| && e.mem[name..name + |s.name|] == s.name && e.mem[name + |s.name|] == 0
  }

  ghost predicate HasVersion(e: ValidElf, j: nat, v: Version) {
    var at := e.versions.offset + j * VERLEN;
    ProperVersion(v, e.x32) && at + 64 <= |e.mem| && e.mem[at..at + 64] == VersionImage(v, e.x32, e.msb)
  }

  /** The file holds these symbols and records, one after the other; without records it may lack their section. */
  ghost predicate Image(e: ValidElf, syms: seq<Sym>, vers: seq<Version>) {
    && e.strtab.offset != 0 && e.symtab.offset != 0 && e.symtab.size == |syms| * SymLen(e)
    && (if e.versions.offset == 0 then vers == [] else e.versions.size == |vers| * VERLEN)
    && (forall i :: 0 <= i < |syms| ==> HasSym(e, i, syms[i]))
    && (forall j :: 0 <= j < |vers| ==> HasVersion(e, j, vers[j]))
  }

  lemma Whole(n: nat, len: nat)
    requires len == 16 || len == 24 || len == 64
    ensures n * len / len == n && n * len % len == 0
  {
    assert n * 16 / 16 == n && n * 24 / 24 == n && n * 64 / 64 == n;
    assert n * 16 % 16 == 0 && n * 24 % 24 == 0 && n * 64 % 64 == 0;
  }

  /** What the reader finds for a symbol. */
  ghost predicate Reads(e: ValidElf, i: nat, s: Sym) {
    && i < SymCount(e)
    && (Wanted(e, i) <==> s.section == 0 && !(e.sparc && s.kind == 13))
    && BindOf(e, i) == (if s.bind == 2 then Weak else Undefined)
    && SymbolAt(e, i).nameOff < e.strtab.size && NameOf(e, i) == s.name
  }

  lemma {:induction false} SymKnown(e: ValidElf, i: nat, s: Sym)
    requires HasSym(e, i, s) && i < SymCount(e)
    ensures Reads(e, i, s)
  {
    SymStored(e, i, s);
    SymMeaning(e, i, s);
    NameKnown(e, e.strtab.offset + s.nameOff, s.name);
  }

  lemma {:induction false} SymStored(e: ValidElf, i: nat, s: Sym)
    requires HasSym(e, i, s) && i < SymCount(e)
    ensures SymbolAt(e, i) == Symbol(s.nameOff, s.section, s.bind * 16 + s.kind)
  {
    SymRead(e, i, e.symtab.offset + i * SymLen(e), s);
  }

  lemma {:induction false} NameKnown(e: ValidElf, at: nat, name: Str)
    requires IsCString(name) && at + |name| < |e.mem| && e.mem[at..at + |name|] == name && e.mem[at + |name|] == 0
    ensures StringAt(e, at) == name
  {
    NameEnd(e.mem, at, name);
  }

  lemma {:induction false} CountsKnown(e: ValidElf, syms: seq<Sym>, vers: seq<Version>)
    requires Image(e, syms, vers)
    ensures SymCount(e) == |syms| && VerCount(e) == |vers| && e.symtab.size % SymLen(e) == 0
  {
    Whole(|syms|, SymLen(e));
    Whole(|vers|, VERLEN);
  }

  lemma {:induction false} VersionKnown(e: ValidElf, syms: seq<Sym>, vers: seq<Version>, j: nat)
    requires Image(e, syms, vers) && j < |vers|
    ensures VerCount(e) == |vers| && VerCrc(e, j) == vers[j].crc && VerName(e, j) == Some(vers[j].name)
  {
    CountsKnown(e, syms, vers);
    assert HasVersion(e, j, vers[j]);
    VersionRead(e, j, e.versions.offset + j * VERLEN, vers[j]);
  }

  // ----- the list

  /** The positions where the test holds, in order. */
  ghost function Chosen(test: nat -> bool, from: nat, n: nat): (at: seq<nat>)
    ensures forall i: nat :: i in at <==> from <= i < n && test(i)
    ensures forall a, b :: 0 <= a < b < |at| ==> at[a] < at[b]
  {
    if n <= from then []
    else
      var at := Chosen(test, from, n - 1);
      assert forall a :: 0 <= a < |at| ==> at[a] in at;
      if test(n - 1) then at + [n - 1] else at
  }

  /** The entries are those at the positions. */
  ghost predicate Matches<T>(parts: nat -> seq<T>, at: seq<nat>, list: seq<T>) {
    |list| == |at| && forall k :: 0 <= k < |at| ==> parts(at[k]) == [list[k]]
  }

  lemma MatchesNext<T>(parts: nat -> seq<T>, at: seq<nat>, list: seq<T>, n: nat, part: seq<T>)
    requires Matches(parts, at, list) && parts(n) == part && |part| == 1
    ensures Matches(parts, at + [n], list + part)
  {
  }

  /** One entry for each position at which there is one. */
  lemma {:induction false} JoinedChosen<T>(parts: nat -> seq<T>, test: nat -> bool, from: nat, n: nat)
    requires forall i: nat :: from <= i < n ==> |parts(i)| == if test(i) then 1 else 0
    ensures Matches(parts, Chosen(test, from, n), Joined(parts, from, n))
    decreases n
  {
    if n > from {
      JoinedChosen(parts, test, from, n - 1);
      if test(n - 1) {
        MatchesNext(parts, Chosen(test, from, n - 1), Joined(parts, from, n - 1), n - 1, parts(n - 1));
      } else {
        assert Joined(parts, from, n) == Joined(parts, from, n - 1) + [];
      }
    }
  }

  /** The symbol is one that another module has to provide. */
  predicate Missing(s: Sym, sparc: bool) {
    s.section == 0 && !(sparc && s.kind == 13) && s.name != []
  }

  /** Entry 0 of the table is reserved. */
  function MissingAt(e: ValidElf, syms: seq<Sym>): nat -> bool {
    (i: nat) => i < |syms| && Missing(syms[i], e.sparc)
  }

  /** The checksum recorded first for a name, 0 if there is none. */
  function Checksum(vers: seq<Version>, name: Str): nat {
    if vers == [] then 0 else if vers[0].name == name then vers[0].crc else Checksum(vers[1..], name)
  }

  lemma {:induction false} ChecksumFirst(vers: seq<Version>, name: Str, k: nat)
    requires k <= |vers| && (k < |vers| ==> vers[k].name == name) && forall x :: 0 <= x < k ==> vers[x].name != name
    ensures Checksum(vers, name) == if k < |vers| then vers[k].crc else 0
    decreases k
  {
    if k > 0 {
      ChecksumFirst(vers[1..], name, k - 1);
    }
  }

  /** Record `j` is the first one for the name of a missing symbol. */
  ghost predicate Used(e: ValidElf, syms: seq<Sym>, vers: seq<Version>, j: nat) {
    exists i :: 1 <= i < |syms| && Missing(syms[i], e.sparc) && IsFirst(vers, syms[i].name, j)
  }

  ghost predicate IsFirst(vers: seq<Version>, name: Str, j: nat) {
    j < |vers| && vers[j].name == name && forall x :: 0 <= x < j ==> vers[x].name != name
  }

  lemma {:induction false} FirstKnown(e: ValidElf, syms: seq<Sym>, vers: seq<Version>, name: Str, k: nat)
    requires Image(e, syms, vers) && VerCount(e) == |vers| && k == FirstRecord(e, name, 0)
    ensures k <= |vers| && (k < |vers| ==> vers[k].name == name) && forall x :: 0 <= x < k ==> vers[x].name != name
  {
    forall x | 0 <= x <= k && x < |vers| ensures VerName(e, x) == Some(vers[x].name) {
      VersionKnown(e, syms, vers, x);
    }
  }

  lemma {:induction false} CrcKnown(e: ValidElf, syms: seq<Sym>, vers: seq<Version>, name: Str)
    requires Image(e, syms, vers)
    ensures CrcFor(e, name) == Checksum(vers, name)
  {
    CountsKnown(e, syms, vers);
    var k := FirstRecord(e, name, 0);
    FirstKnown(e, syms, vers, name, k);
    ChecksumFirst(vers, name, k);
    if k < |vers| {
      VersionKnown(e, syms, vers, k);
    }
  }

  /** The entry for a symbol. */
  function SymEntry(s: Sym, vers: seq<Version>): Modversion {
    Modversion(Checksum(vers, s.name), if s.bind == 2 then Weak else Undefined, s.name)
  }

  lemma {:induction false} PartKnown(e: ValidElf, syms: seq<Sym>, vers: seq<Version>, i: nat)
    requires Image(e, syms, vers) && i < |syms| == SymCount(e)
    ensures NameInside(e, i) && (Listed(e, i) <==> Missing(syms[i], e.sparc))
    ensures SymbolPart(e, i) == if Missing(syms[i], e.sparc) then [SymEntry(syms[i], vers)] else []
  {
    assert HasSym(e, i, syms[i]);
    SymKnown(e, i, syms[i]);
    CrcKnown(e, syms, vers, syms[i].name);
  }

  lemma {:induction false} ClaimedKnown(e: ValidElf, syms: seq<Sym>, vers: seq<Version>, i: nat, j: nat)
    requires Image(e, syms, vers) && 1 <= i < |syms| == SymCount(e) && j < |vers| == VerCount(e)
    ensures Listed(e, i) && FirstRecord(e, NameOf(e, i), 0) == j <==>
            Missing(syms[i], e.sparc) && IsFirst(vers, syms[i].name, j)
  {
    assert HasSym(e, i, syms[i]);
    SymKnown(e, i, syms[i]);
    FirstKnown(e, syms, vers, syms[i].name, FirstRecord(e, syms[i].name, 0));
  }

  lemma {:induction false} UsedKnown(e: ValidElf, syms: seq<Sym>, vers: seq<Version>, j: nat)
    requires Image(e, syms, vers) && |syms| == SymCount(e) && j < |vers| == VerCount(e)
    ensures Claimed(e, SymCount(e), j) <==> Used(e, syms, vers, j)
  {
    forall i | 1 <= i < |syms|
      ensures Listed(e, i) && FirstRecord(e, NameOf(e, i), 0) == j <==>
              Missing(syms[i], e.sparc) && IsFirst(vers, syms[i].name, j)
    {
      ClaimedKnown(e, syms, vers, i, j);
    }
  }

  /** The records that no missing symbol uses. */
  ghost function UnusedAt(e: ValidElf, syms: seq<Sym>, vers: seq<Version>): nat -> bool {
    (j: nat) => j < |vers| && !Used(e, syms, vers, j)
  }

  function VersionEntry(v: Version): Modversion {
    Modversion(v.crc, Undefined, v.name)
  }

  lemma {:induction false} RecordKnown(e: ValidElf, syms: seq<Sym>, vers: seq<Version>, j: nat)
    requires Image(e, syms, vers) && |syms| == SymCount(e) && j < |vers| == VerCount(e)
    ensures RecordTerminated(e, j)
    ensures RecordPart(e, j) == if Used(e, syms, vers, j) then [] else [VersionEntry(vers[j])]
  {
    VersionKnown(e, syms, vers, j);
    UsedKnown(e, syms, vers, j);
  }

  lemma {:induction false} AllHold(test: nat -> bool, from: nat, n: nat)
    requires forall i: nat :: from <= i < n ==> test(i)
    ensures All(test, from, n)
    decreases n
  {
    if n > from {
      AllHold(test, from, n - 1);
    }
  }

  /** The entries for the symbols at these positions. */
  ghost predicate AreSyms(syms: seq<Sym>, vers: seq<Version>, at: seq<nat>, list: seq<Modversion>) {
    |list| == |at| && forall k :: 0 <= k < |at| ==> at[k] < |syms| && list[k] == SymEntry(syms[at[k]], vers)
  }

  /** The entries for the records at these positions. */
  ghost predicate AreVersions(vers: seq<Version>, at: seq<nat>, list: seq<Modversion>) {
    |list| == |at| && forall k :: 0 <= k < |at| ==> at[k] < |vers| && list[k] == VersionEntry(vers[at[k]])
  }

  /** The symbols in the list are the missing ones, in table order. */
  lemma {:induction false} SymbolsListed(e: ValidElf, syms: seq<Sym>, vers: seq<Version>, at: seq<nat>)
    requires Image(e, syms, vers) && |syms| == SymCount(e) && at == Chosen(MissingAt(e, syms), 1, |syms|)
    ensures NamesInside(e) && AreSyms(syms, vers, at, SymbolList(e))
  {
    forall i: nat | 1 <= i < |syms|
      ensures NameTests(e)(i) && |SymbolParts(e)(i)| == if MissingAt(e, syms)(i) then 1 else 0
    {
      PartKnown(e, syms, vers, i);
    }
    AllHold(NameTests(e), 1, |syms|);
    JoinedChosen(SymbolParts(e), MissingAt(e, syms), 1, |syms|);
    forall k | 0 <= k < |at| ensures at[k] < |syms| && SymbolList(e)[k] == SymEntry(syms[at[k]], vers) {
      assert at[k] in at;
      PartKnown(e, syms, vers, at[k]);
      assert SymbolParts(e)(at[k]) == [SymbolList(e)[k]];
    }
  }

  lemma {:induction false} RecordsListed(e: ValidElf, syms: seq<Sym>, vers: seq<Version>, at: seq<nat>)
    requires Image(e, syms, vers) && |syms| == SymCount(e) && |vers| == VerCount(e)
    requires at == Chosen(UnusedAt(e, syms, vers), 0, |vers|)
    ensures RecordsTerminated(e) && AreVersions(vers, at, RecordList(e))
  {
    forall j: nat | j < |vers|
      ensures RecordTests(e)(j) && |RecordParts(e)(j)| == if UnusedAt(e, syms, vers)(j) then 1 else 0
    {
      RecordKnown(e, syms, vers, j);
    }
    AllHold(RecordTests(e), 0, |vers|);
    JoinedChosen(RecordParts(e), UnusedAt(e, syms, vers), 0, |vers|);
    forall k | 0 <= k < |at| ensures at[k] < |vers| && RecordList(e)[k] == VersionEntry(vers[at[k]]) {
      assert at[k] in at;
      RecordKnown(e, syms, vers, at[k]);
      assert RecordParts(e)(at[k]) == [RecordList(e)[k]];
    }
  }

  lemma {:induction false} DependenciesKnown(e: ValidElf, syms: seq<Sym>, vers: seq<Version>,
                                             at: seq<nat>, rest: seq<nat>)
    requires Image(e, syms, vers)
    requires at == Chosen(MissingAt(e, syms), 1, |syms|) && rest == Chosen(UnusedAt(e, syms, vers), 0, |vers|)
    ensures |Dependencies(e)| == |at| + |rest| && (Readable(e) <==> |at| + |rest| <= INT_MAX)
    ensures AreSyms(syms, vers, at, Dependencies(e)[..|at|]) && AreVersions(vers, rest, Dependencies(e)[|at|..])
  {
    CountsKnown(e, syms, vers);
    SymbolsListed(e, syms, vers, at);
    RecordsListed(e, syms, vers, rest);
    Halves(SymbolList(e), RecordList(e));
  }

  lemma Halves<T>(a: seq<T>, b: seq<T>)
    ensures (a + b)[..|a|] == a && (a + b)[|a|..] == b
  {
  }

  /** From a written file: the missing symbols in table order, then the records that none of them uses. */
  method ReadImage(e: ValidElf, ghost syms: seq<Sym>, ghost vers: seq<Version>)
    returns (err: int, list: seq<Modversion>)
    requires Image(e, syms, vers)
    ensures var at, rest := Chosen(MissingAt(e, syms), 1, |syms|), Chosen(UnusedAt(e, syms, vers), 0, |vers|);
            && err == (if |at| + |rest| <= INT_MAX then |at| + |rest| else -EINVAL)
            && (err < 0 || (
              && |list| == |at| + |rest|
              && AreSyms(syms, vers, at, list[..|at|]) && AreVersions(vers, rest, list[|at|..])))
  {
    DependenciesKnown(e, syms, vers, Chosen(MissingAt(e, syms), 1, |syms|), Chosen(UnusedAt(e, syms, vers), 0, |vers|));
    var a;
    err, a := DependencySymbols(e);
    list := a[..];
  }
}
