/** The list of configuration files: sorted by name, and for each name the file that was found first. */
module ConfFiles {
  import opened Text
  import opened CircularList
  import opened Depline

  datatype ConfFile = ConfFile(name: Str, path: Str, single: bool)

  predicate SortedNames(fs: seq<ConfFile>) {
    forall i, j :: 0 <= i < j < |fs| ==> Less(fs[i].name, fs[j].name)
  }

  /** A file in its place, unless its name is taken. */
  function Insert(fs: seq<ConfFile>, f: ConfFile): seq<ConfFile> {
    if fs == [] || Less(f.name, fs[0].name) then [f] + fs
    else if f.name == fs[0].name then fs
    else [fs[0]] + Insert(fs[1..], f)
  }

  /** The entry for a name. */
  function Entry(fs: seq<ConfFile>, name: Str): Option<ConfFile> {
    if fs == [] then None else if fs[0].name == name then Some(fs[0]) else Entry(fs[1..], name)
  }

  lemma {:induction false} NotBefore(fs: seq<ConfFile>, name: Str)
    requires SortedNames(fs) && (fs == [] || Less(name, fs[0].name))
    ensures Entry(fs, name) == None
  {
    if fs != [] {
      LessIrreflexive(name);
      if |fs| > 1 {
        LessTransitive(name, fs[0].name, fs[1].name);
      }
      NotBefore(fs[1..], name);
    }
  }

  /** A name keeps its file; a new name gets this one. */
  lemma {:induction false} InsertEntry(fs: seq<ConfFile>, f: ConfFile, name: Str)
    requires SortedNames(fs)
    ensures Entry(Insert(fs, f), name)
         == if Entry(fs, name).Some? then Entry(fs, name) else if name == f.name then Some(f) else None
  {
    if fs == [] || Less(f.name, fs[0].name) {
      assert ([f] + fs)[1..] == fs;
      NotBefore(fs, f.name);
    } else if f.name != fs[0].name {
      var r := [fs[0]] + Insert(fs[1..], f);
      assert r[1..] == Insert(fs[1..], f);
      InsertEntry(fs[1..], f, name);
    }
  }

  lemma {:induction false} InsertMember(fs: seq<ConfFile>, f: ConfFile)
    ensures forall x :: x in Insert(fs, f) ==> x == f || x in fs
  {
    if !(fs == [] || Less(f.name, fs[0].name)) && f.name != fs[0].name {
      InsertMember(fs[1..], f);
    }
  }

  lemma {:induction false} InsertSortedNames(fs: seq<ConfFile>, f: ConfFile)
    requires SortedNames(fs)
    ensures SortedNames(Insert(fs, f))
  {
    var r := Insert(fs, f);
    if fs == [] {
    } else if Less(f.name, fs[0].name) {
      forall j | 0 < j < |r| ensures Less(f.name, r[j].name) {
        if j > 1 {
          LessTransitive(f.name, fs[0].name, fs[j - 1].name);
        }
      }
    } else if f.name != fs[0].name {
      LessTotal(f.name, fs[0].name);
      InsertSortedNames(fs[1..], f);
      InsertMember(fs[1..], f);
      var rest := Insert(fs[1..], f);
      forall j | 0 <= j < |rest| ensures Less(fs[0].name, rest[j].name) {
        assert rest[j] in rest;
      }
    }
  }

  // ----- runs

  function InsertAll(added: seq<ConfFile>): seq<ConfFile> {
    if added == [] then [] else Insert(InsertAll(added[..|added| - 1]), added[|added| - 1])
  }

  /** The list after any run of insertions: strictly sorted, with the first file inserted under each name. */
  lemma {:induction false} FirstFileWins(added: seq<ConfFile>, name: Str)
    ensures SortedNames(InsertAll(added)) && Entry(InsertAll(added), name) == Entry(added, name)
  {
    if added != [] {
      var front, last := added[..|added| - 1], added[|added| - 1];
      FirstFileWins(front, name);
      InsertEntry(InsertAll(front), last, name);
      InsertSortedNames(InsertAll(front), last);
      EntryAppend(front, last, name);
      assert added == front + [last];
    }
  }

  lemma {:induction false} EntryAppend(fs: seq<ConfFile>, f: ConfFile, name: Str)
    ensures Entry(fs + [f], name)
         == if Entry(fs, name).Some? then Entry(fs, name) else if name == f.name then Some(f) else None
  {
    if fs == [] {
      assert fs + [f] == [f];
    } else {
      assert (fs + [f])[1..] == fs[1..] + [f];
      EntryAppend(fs[1..], f, name);
    }
  }

  // ----- on the list

  /** Where the scan stops. */
  predicate IsPlace(fs: seq<ConfFile>, name: Str, k: nat) {
    && k <= |fs| && (forall i :: 0 <= i < k ==> Less(fs[i].name, name))
    && (k < |fs| ==> name == fs[k].name || Less(name, fs[k].name))
  }

  lemma {:induction false} InsertAt(fs: seq<ConfFile>, f: ConfFile, k: nat)
    requires IsPlace(fs, f.name, k)
    ensures Insert(fs, f) == if k < |fs| && fs[k].name == f.name then fs else fs[..k] + [f] + fs[k..]
  {
    if k > 0 {
      LessNotBack(fs[0].name, f.name);
      InsertAt(fs[1..], f, k - 1);
      OneFurther(fs, f, k);
    } else if fs != [] && fs[0].name == f.name {
      LessIrreflexive(f.name);
    }
  }

  lemma OneFurther(fs: seq<ConfFile>, f: ConfFile, k: nat)
    requires 0 < k <= |fs|
    ensures [fs[0]] + fs[1..] == fs
    ensures [fs[0]] + (fs[1..][..k - 1] + [f] + fs[1..][k - 1..]) == fs[..k] + [f] + fs[k..]
    ensures k < |fs| ==> fs[1..][k - 1] == fs[k]
  {
    assert fs[..k] == [fs[0]] + fs[1..][..k - 1] && fs[k..] == fs[1..][k - 1..];
  }

  lemma LessNotBack(a: Str, b: Str)
    requires Less(a, b)
    ensures !Less(b, a) && a != b
  {
    LessIrreflexive(a);
    if Less(b, a) {
      LessTransitive(a, b, a);
    }
  }

  /** conf_files_insert_sorted */
  method InsertSorted(list: ListNode?<ConfFile>, path: Str, name: Option<Str>, ghost nodes: seq<ListNode<ConfFile>>)
    returns (err: int, r: ListNode?<ConfFile>, ghost nodes': seq<ListNode<ConfFile>>)
    requires IsList(list, nodes) && SortedNames(DataOf(nodes))
    modifies nodes
    ensures IsList(r, nodes')
    ensures var f := ConfFile(if name.Some? then name.value else Basename(path), path, name.None?);
            && DataOf(nodes') == Insert(DataOf(nodes), f)
            && err == if Entry(DataOf(nodes), f.name).Some? then -EEXIST else 0
  {
    var f := ConfFile(if name.Some? then name.value else Basename(path), path, name.None?);
    ghost var fs := DataOf(nodes);
    var pos;
    ghost var k;
    pos, k := Scan(list, f.name, nodes);
    InsertAt(fs, f, k);
    PlaceEntry(fs, f.name, k);
    if pos != null && pos.data.name == f.name {
      return -EEXIST, list, nodes;
    }
    err := 0;
    r, nodes' := PutAt(list, pos, f, nodes, k);
  }

  /** A new node in front of the k-th, at the end if there is none. */
  method PutAt(list: ListNode?<ConfFile>, pos: ListNode?<ConfFile>, f: ConfFile,
               ghost nodes: seq<ListNode<ConfFile>>, ghost k: nat)
    returns (r: ListNode?<ConfFile>, ghost nodes': seq<ListNode<ConfFile>>)
    requires IsList(list, nodes) && k <= |nodes| && pos == if k < |nodes| then nodes[k] else null
    modifies nodes
    ensures IsList(r, nodes') && DataOf(nodes') == DataOf(nodes)[..k] + [f] + DataOf(nodes)[k..]
  {
    ghost var node;
    if pos == null {
      r, node := Append(list, f, nodes);
      nodes' := nodes + [node];
    } else if pos == list {
      r := Prepend(list, f, nodes);
      nodes' := [r] + nodes;
    } else {
      var before := InsertBefore(pos, f, nodes, k);
      r, nodes' := list, nodes[..k] + [before] + nodes[k..];
    }
  }

  lemma {:induction false} PlaceEntry(fs: seq<ConfFile>, name: Str, k: nat)
    requires SortedNames(fs) && IsPlace(fs, name, k)
    ensures Entry(fs, name).Some? <==> k < |fs| && fs[k].name == name
  {
    if k > 0 {
      LessNotBack(fs[0].name, name);
      PlaceEntry(fs[1..], name, k - 1);
    } else if fs != [] && fs[0].name != name {
      NotBefore(fs, name);
    }
  }

  /** The first node whose name is not smaller. */
  method Scan(list: ListNode?<ConfFile>, name: Str, ghost nodes: seq<ListNode<ConfFile>>)
    returns (pos: ListNode?<ConfFile>, ghost k: nat)
    requires IsList(list, nodes) && SortedNames(DataOf(nodes))
    ensures IsPlace(DataOf(nodes), name, k) && pos == if k < |nodes| then nodes[k] else null
  {
    pos, k := list, 0;
    while pos != null && Less(pos.data.name, name)
      invariant k <= |nodes| && pos == (if k < |nodes| then nodes[k] else null)
      invariant forall i :: 0 <= i < k ==> Less(DataOf(nodes)[i].name, name)
      decreases |nodes| - k
    {
      pos := Next(list, pos, nodes, k);
      k := k + 1;
    }
    if pos != null {
      LessTotal(pos.data.name, name);
    }
  }
}
