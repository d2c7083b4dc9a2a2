/**
 The RAMFS node table with its file buffers. Names follow RamfsTree; file bodies live in
 buffers that may be larger than the file and hold stale bytes beyond its size, and are
 proved to behave as plain byte strings.
 */
module Ramfs {
  import opened Machine
  import opened RamfsTree

  const MAX_NODES: nat := 32
  const FILE_MAX: nat := 8192
  const TOTAL_MAX: nat := 32768
  const IO_MAX: nat := 4096

  // ------------------------------------------------------ files as byte strings

  function Zeros(n: nat): (r: seq<byte>)
    ensures |r| == n && forall j :: 0 <= j < n ==> r[j] == 0
  {
    seq(n, _ => 0)
  }

  /** The contents after a truncate to `n` bytes: cut, or zero-extended. */
  function Resized(c: seq<byte>, n: nat): seq<byte> {
    if n <= |c| then c[..n] else c + Zeros(n - |c|)
  }

  /** The contents after `input` is written at `offset`; a gap reads as zeros. */
  function Overwritten(c: seq<byte>, offset: nat, input: seq<byte>): seq<byte> {
    Resized(c, offset) + input + if offset + |input| <= |c| then c[offset + |input|..] else []
  }

  /** What a read of `length` bytes at `offset` delivers. */
  function Slice(c: seq<byte>, offset: nat, length: nat): (r: seq<byte>)
    ensures |r| <= length
  {
    if |c| <= offset then [] else if |c| - offset < length then c[offset..] else c[offset..offset + length]
  }

  /** A read sees what the last write put there, the old bytes elsewhere, and zeros in a gap. */
  lemma WriteThenRead(c: seq<byte>, offset: nat, input: seq<byte>, j: nat)
    ensures Slice(Overwritten(c, offset, input), offset, |input|) == input
    ensures var r := Overwritten(c, offset, input);
      && |r| == (if |c| < offset + |input| then offset + |input| else |c|)
      && (j < |r| ==> r[j] == if offset <= j < offset + |input| then input[j - offset] else if j < |c| then c[j] else 0)
  {
    assert Resized(c, offset) == if offset <= |c| then c[..offset] else c + Zeros(offset - |c|);
  }

  /** The calls that change the contents of one file. A write of nothing changes nothing. */
  datatype Change = TruncateTo(size: nat) | WriteAt(offset: nat, input: seq<byte>)

  function Changed(c: seq<byte>, change: Change): seq<byte> {
    match change
    case TruncateTo(size) => Resized(c, size)
    case WriteAt(offset, input) => if input == [] then c else Overwritten(c, offset, input)
  }

  /** The contents after all of `changes`. */
  function AfterAll(c: seq<byte>, changes: seq<Change>): seq<byte>
    decreases |changes|
  {
    if changes == [] then c else AfterAll(Changed(c, changes[0]), changes[1..])
  }

  /** The change is a write that stores byte `j`. */
  predicate Stores(change: Change, j: nat) {
    change.WriteAt? && change.offset <= j < change.offset + |change.input|
  }

  lemma {:induction false} BlankStaysBlank(c: seq<byte>, changes: seq<Change>, j: nat)
    requires j < |c| ==> c[j] == 0
    requires forall k :: 0 <= k < |changes| ==> !Stores(changes[k], j)
    ensures j < |AfterAll(c, changes)| ==> AfterAll(c, changes)[j] == 0
    decreases |changes|
  {
    if changes != [] {
      if changes[0].WriteAt? {
        WriteThenRead(c, changes[0].offset, changes[0].input, j);
      }
      assert !Stores(changes[0], j);
      BlankStaysBlank(Changed(c, changes[0]), changes[1..], j);
    }
  }

  /**
   Bytes cut off by a truncate never come back: through any run of truncates and writes, byte
   `j` at or past the cut is missing or zero until a write of the run stores it.
   */
  lemma CutBytesStayCut(c: seq<byte>, cut: nat, changes: seq<Change>, j: nat)
    requires cut <= j && forall k :: 0 <= k < |changes| ==> !Stores(changes[k], j)
    ensures var r := AfterAll(Resized(c, cut), changes);
      && (j < |r| ==> r[j] == 0)
      && forall offset, length :: 0 <= offset <= j && j - offset < |Slice(r, offset, length)| ==> Slice(r, offset, length)[j - offset] == 0
  {
    BlankStaysBlank(Resized(c, cut), changes, j);
  }

  lemma SliceOfBody(body: seq<byte>, size: nat, offset: nat, length: nat, n: nat)
    requires offset < size <= |body| && n == if size - offset < length then size - offset else length
    ensures body[offset..offset + n] == Slice(body[..size], offset, length)
  {}

  // ------------------------------------------------------------------ storage

  /** A slot of the table: what names it, and its body when it is a regular file. */
  datatype Node = Node(entry: Entry, data: array?<byte>, size: nat)

  function Capacity(n: Node): nat {
    if n.data == null then 0 else n.data.Length
  }

  ghost predicate NodeOk(n: Node) {
    && n.size <= Capacity(n) <= FILE_MAX
    && (n.data != null ==> 0 < n.data.Length)
    && (n.entry.Vacant? || n.entry.kind == Directory ==> n.data == null)
  }

  /** The capacity of the first `i` slots. */
  function TotalCapacity(ns: seq<Node>, i: nat): nat
    requires i <= |ns|
  {
    if i == 0 then 0 else TotalCapacity(ns, i - 1) + Capacity(ns[i - 1])
  }

  lemma {:induction false} CapacityUpdate(ns: seq<Node>, x: nat, n: Node, i: nat)
    requires x < |ns| && i <= |ns|
    ensures TotalCapacity(ns[x := n], i)
         == TotalCapacity(ns, i) + if x < i then Capacity(n) - Capacity(ns[x]) else 0
  {
    if 0 < i {
      CapacityUpdate(ns, x, n, i - 1);
    }
  }

  ghost predicate Separate(ns: seq<Node>) {
    forall i, j :: 0 <= i < j < |ns| && ns[i].data != null ==> ns[i].data != ns[j].data
  }

  ghost predicate StorageOk(ns: seq<Node>) {
    && (forall i :: 0 <= i < |ns| ==> NodeOk(ns[i]))
    && Separate(ns)
    && TotalCapacity(ns, |ns|) <= TOTAL_MAX
  }

  function Entries(ns: seq<Node>): (t: Table)
    ensures |t| == |ns| && forall i :: 0 <= i < |t| ==> t[i] == ns[i].entry
  {
    seq(|ns|, i requires 0 <= i < |ns| => ns[i].entry)
  }

  lemma EntriesUpdate(ns: seq<Node>, x: nat, n: Node)
    requires x < |ns|
    ensures Entries(ns[x := n]) == Entries(ns)[x := n.entry]
  {}

  /** Replacing one slot by an acceptable one with a buffer of its own, within the total. */
  lemma StorageUpdate(ns: seq<Node>, x: nat, n: Node)
    requires StorageOk(ns) && x < |ns| && NodeOk(n)
    requires n.data != null ==> forall j :: 0 <= j < |ns| && j != x ==> ns[j].data != n.data
    requires TotalCapacity(ns, |ns|) - Capacity(ns[x]) + Capacity(n) <= TOTAL_MAX
    ensures StorageOk(ns[x := n])
  {
    CapacityUpdate(ns, x, n, |ns|);
  }

  lemma RelabelOk(ns: seq<Node>, x: nat, n: Node)
    requires StorageOk(ns) && x < |ns| && ns[x].entry.Entry? && n.entry.Entry? && n.entry.kind == ns[x].entry.kind
    requires n == ns[x].(entry := n.entry)
    ensures NodeOk(n)
  {}

  lemma EmptyOk(e: Entry)
    ensures NodeOk(Node(e, null, 0))
  {}

  /** Create in the order of its questions. */
  lemma CreateIs(n: Names, dir: nat, name: string, kind: Kind)
    requires 1 < |n.table|
    ensures Create(n, dir, name, kind)
         == if CheckDirectory(n.table, dir) != Ok then Change(CheckDirectory(n.table, dir), n)
            else if ValidateName(name) != Ok then Change(ValidateName(name), n)
            else if FindChild(n.table, dir, name, 1) < |n.table| then Change(AlreadyExists, n)
            else if FindVacant(n.table, 1) == |n.table| then Change(NoSpace, n)
            else if n.nextId == ID_LIMIT then Change(Overflow, n)
            else
              var slot := FindVacant(n.table, 1);
              Change(Ok, Names(n.table[slot := Entry(n.nextId, kind, dir, name, 0)], n.nextId + 1))
  {
    hide CheckDirectory, ValidateName, FindChild, FindVacant;
  }

  // ------------------------------------------------------------- byte loops

  method ZeroBytes(a: array<byte>, at: nat, length: nat)
    requires at + length <= a.Length
    modifies a
    ensures a[..] == old(a[..at]) + Zeros(length) + old(a[at + length..])
  {
    for k := 0 to length
      invariant forall j :: 0 <= j < a.Length && !(at <= j < at + k) ==> a[j] == old(a[j])
      invariant forall j :: at <= j < at + k ==> a[j] == 0
    {
      a[at + k] := 0;
    }
  }

  method CopyBytes(a: array<byte>, at: nat, source: array<byte>, from: nat, length: nat)
    requires a != source && at + length <= a.Length && from + length <= source.Length
    modifies a
    ensures a[..] == old(a[..at]) + source[from..from + length] + old(a[at + length..])
  {
    for k := 0 to length
      invariant forall j :: 0 <= j < a.Length && !(at <= j < at + k) ==> a[j] == old(a[j])
      invariant forall j :: at <= j < at + k ==> a[j] == source[from + j - at]
    {
      a[at + k] := source[from + k];
    }
  }

  function Max(a: nat, b: nat): nat { if a < b then b else a }

  /** Zeroing the gap and copying the input in place is Overwritten on the live part. */
  lemma WrittenBody(body: seq<byte>, size: nat, offset: nat, input: seq<byte>, zeroed: seq<byte>, after: seq<byte>)
    requires size <= |body| && offset + |input| <= |body|
    requires zeroed == if size < offset then body[..size] + Zeros(offset - size) + body[offset..] else body
    requires after == zeroed[..offset] + input + zeroed[offset + |input|..]
    ensures |after| == |body|
    ensures after[..Max(size, offset + |input|)] == Overwritten(body[..size], offset, input)
  {
    var r := Overwritten(body[..size], offset, input);
    var n := Max(size, offset + |input|);
    forall j | 0 <= j < n ensures j < |r| && r[j] == after[j] {
      WriteThenRead(body[..size], offset, input, j);
    }
    WriteThenRead(body[..size], offset, input, 0);
  }

  /** The byte stores of ramfs_write into a body whose live part is its first `size` bytes. */
  method StoreBytes(target: array<byte>, size: nat, offset: nat, input: array<byte>, length: nat)
    requires target != input && size <= target.Length && offset + length <= target.Length && length <= input.Length
    modifies target
    ensures target[..Max(size, offset + length)] == Overwritten(old(target[..size]), offset, input[..length])
  {
    ghost var body := target[..];
    if size < offset {
      ZeroBytes(target, size, offset - size);
    }
    ghost var zeroed := target[..];
    CopyBytes(target, offset, input, 0, length);
    WrittenBody(body, size, offset, input[..length], zeroed, target[..]);
  }

  // ------------------------------------------------------------- file system

  class FileSystem {
    const nodes: array<Node>
    var nextId: nat

    ghost predicate Valid()
      reads this, nodes
    {
      nodes.Length == MAX_NODES && WellFormed(State()) && StorageOk(nodes[..])
    }

    ghost function State(): Names
      reads this, nodes
    {
      Names(Entries(nodes[..]), nextId)
    }

    lemma ValidIs()
      ensures Valid() <==> nodes.Length == MAX_NODES && WellFormed(State()) && StorageOk(nodes[..])
      ensures State() == Names(Entries(nodes[..]), nextId)
      ensures 1 < MAX_NODES
    {
      hide WellFormed, StorageOk, Entries;
    }

    lemma EmptyContent(i: nat)
      requires i < nodes.Length && nodes[i].data == null && nodes[i].size == 0
      ensures nodes[i].size <= Capacity(nodes[i]) && Content(i) == []
    {}

    /** The bytes of file `i`. */
    ghost function Content(i: nat): seq<byte>
      requires i < nodes.Length && nodes[i].size <= Capacity(nodes[i])
      reads nodes, nodes[i].data
    {
      if nodes[i].data == null then [] else nodes[i].data[..nodes[i].size]
    }

    constructor ()
      ensures Valid() && fresh(nodes) && State() == Fresh(MAX_NODES)
    {
      nodes := new Node[MAX_NODES](i => Node(if i == 0 then Entry(1, Directory, ROOT, "", 0) else Vacant, null, 0));
      nextId := 2;
      new;
      FreshWellFormed(MAX_NODES);
      assert Entries(nodes[..]) == Fresh(MAX_NODES).table;
      EmptyCapacity(nodes[..], MAX_NODES);
    }

    // ------------------------------------------------------------- searches

    method FindChildSlot(dir: nat, name: string) returns (k: nat)
      requires nodes.Length == MAX_NODES
      ensures k == FindChild(State().table, dir, name, 1)
    {
      k := 1;
      while k < nodes.Length
        invariant 1 <= k <= nodes.Length
        invariant FindChild(State().table, dir, name, 1) == FindChild(State().table, dir, name, k)
      {
        var e := nodes[k].entry;
        if e.Entry? && e.parent == dir && e.name == name {
          return;
        }
        k := k + 1;
      }
    }

    method FindVacantSlot() returns (k: nat)
      requires nodes.Length == MAX_NODES
      ensures k == FindVacant(State().table, 1)
    {
      k := 1;
      while k < nodes.Length
        invariant 1 <= k <= nodes.Length
        invariant FindVacant(State().table, 1) == FindVacant(State().table, k)
      {
        if nodes[k].entry.Vacant? {
          return;
        }
        k := k + 1;
      }
    }

    method DirectoryHasChildren(dir: nat) returns (found: bool)
      requires nodes.Length == MAX_NODES
      ensures found == HasChild(State().table, dir, 1)
    {
      var k := 1;
      while k < nodes.Length
        invariant 1 <= k <= nodes.Length
        invariant HasChild(State().table, dir, 1) == HasChild(State().table, dir, k)
      {
        if nodes[k].entry.Entry? && nodes[k].entry.parent == dir {
          return true;
        }
        k := k + 1;
      }
      return false;
    }

    predicate IsDirectoryNode(i: nat)
      reads nodes
    {
      i < nodes.Length && nodes[i].entry.Entry? && nodes[i].entry.kind == Directory
    }

    method DirectoryCheck(dir: nat) returns (result: Result)
      ensures result == CheckDirectory(State().table, dir)
    {
      if nodes.Length <= dir || nodes[dir].entry.Vacant? {
        return Corrupt;
      }
      return if nodes[dir].entry.kind != Directory then NotDirectory else Ok;
    }

    /** Store one slot; the buffers stay separate and within the total. */
    method PutNode(x: nat, node: Node)
      requires StorageOk(nodes[..]) && x < nodes.Length && NodeOk(node)
      requires node.data != null ==> forall j :: 0 <= j < nodes.Length && j != x ==> nodes[j].data != node.data
      requires TotalCapacity(nodes[..], nodes.Length) - Capacity(nodes[x]) + Capacity(node) <= TOTAL_MAX
      modifies nodes
      ensures StorageOk(nodes[..]) && nodes[x] == node
      ensures forall j :: 0 <= j < nodes.Length && j != x ==> nodes[j] == old(nodes[j])
      ensures Entries(nodes[..]) == old(Entries(nodes[..]))[x := node.entry]
    {
      ghost var ns := nodes[..];
      StorageUpdate(ns, x, node);
      EntriesUpdate(ns, x, node);
      nodes[x] := node;
      assert nodes[..] == ns[x := node];
    }

    /** Store one slot that keeps its buffer, or gives it up. */
    method PutEntry(x: nat, node: Node)
      requires StorageOk(nodes[..]) && x < nodes.Length && NodeOk(node)
      requires node.data == nodes[x].data || node.data == null
      modifies nodes
      ensures StorageOk(nodes[..]) && nodes[x] == node
      ensures forall j :: 0 <= j < nodes.Length && j != x ==> nodes[j] == old(nodes[j])
      ensures Entries(nodes[..]) == old(Entries(nodes[..]))[x := node.entry]
    {
      assert Separate(nodes[..]);
      assert nodes[..][x] == nodes[x];
      forall j | 0 <= j < nodes.Length && j != x && node.data != null ensures nodes[j].data != node.data {
        assert nodes[..][j].data != nodes[..][x].data;
      }
      PutNode(x, node);
    }

    // ----------------------------------------------------------- name space

    /** ramfs_create and ramfs_mkdir. */
    method CreateNode(dir: nat, name: string, kind: Kind) returns (result: Result, slot: nat)
      requires Valid()
      modifies this`nextId, nodes
      ensures Valid() && Change(result, State()) == old(Create(State(), dir, name, kind))
      ensures forall i :: 0 <= i < nodes.Length && (result != Ok || i != slot) ==> nodes[i] == old(nodes[i])
      ensures result == Ok ==> slot < nodes.Length && old(nodes[slot].entry).Vacant? && Content(slot) == []
    {
      hide *;
      slot := 0;
      ValidIs();
      CreateKeeps(State(), dir, name, kind);
      CreateIs(State(), dir, name, kind);
      result := DirectoryCheck(dir);
      if result != Ok {
        return;
      }
      result := ValidateName(name);
      if result != Ok {
        return;
      }
      var existing := FindChildSlot(dir, name);
      if existing < nodes.Length {
        return AlreadyExists, 0;
      }
      slot := FindVacantSlot();
      if slot == nodes.Length {
        return NoSpace, 0;
      }
      if nextId == ID_LIMIT {
        return Overflow, 0;
      }
      EmptyOk(Entry(nextId, kind, dir, name, 0));
      PutEntry(slot, Node(Entry(nextId, kind, dir, name, 0), null, 0));
      nextId := nextId + 1;
      ValidIs();
      EmptyContent(slot);
    }

    /** ramfs_unlink and ramfs_rmdir, with ramfs_remove_node. */
    method RemoveNode(dir: nat, name: string, kind: Kind) returns (result: Result, slot: nat)
      requires Valid()
      modifies nodes
      ensures Valid() && Change(result, State()) == old(Remove(State(), dir, name, kind))
      ensures forall i :: 0 <= i < nodes.Length && (result != Ok || i != slot) ==> nodes[i] == old(nodes[i])
      ensures result == Ok ==> slot < nodes.Length && nodes[slot] == Node(Vacant, null, 0)
    {
      slot := 0;
      RemoveKeeps(State(), dir, name, kind);
      hide WellFormed, StorageOk, HasChild, FindChild, ValidateName;
      result := DirectoryCheck(dir);
      if result != Ok {
        return;
      }
      result := ValidateName(name);
      if result != Ok {
        return;
      }
      slot := FindChildSlot(dir, name);
      if slot == nodes.Length {
        return NotFound, 0;
      }
      if nodes[slot].entry.kind != kind {
        return if kind == Regular then NotRegular else NotDirectory, 0;
      }
      if kind == Directory {
        var children := DirectoryHasChildren(slot);
        if children {
          return NotEmpty, 0;
        }
      }
      if nodes[slot].entry.refs != 0 {
        return Busy, 0;
      }
      PutEntry(slot, Node(Vacant, null, 0));
      return Ok, slot;
    }

    /** ramfs_validate_rename_cycle: a walk of at most MAX_NODES steps. */
    method ValidateRenameCycle(source: nat, newDir: nat) returns (result: Result)
      requires nodes.Length == MAX_NODES && source < nodes.Length && nodes[source].entry.Entry?
      ensures result == CheckCycle(State().table, source, newDir)
    {
      if nodes[source].entry.kind != Directory {
        return Ok;
      }
      var cursor: nat, steps: nat := newDir, 0;
      while steps < MAX_NODES
        invariant steps <= MAX_NODES
        invariant CheckCycle(State().table, source, newDir) == Walk(State().table, source, cursor, MAX_NODES - steps)
      {
        if cursor == source {
          return InvalidArgument;
        }
        if cursor == ROOT {
          return Ok;
        }
        var up := if cursor < nodes.Length && nodes[cursor].entry.Entry? then nodes[cursor].entry.parent else ROOT;
        if !IsDirectoryNode(up) {
          return Corrupt;
        }
        cursor, steps := up, steps + 1;
      }
      return Corrupt;
    }

    method RenameNode(oldDir: nat, oldName: string, newDir: nat, newName: string) returns (result: Result)
      requires Valid()
      modifies nodes
      ensures Valid() && Change(result, State()) == old(Rename(State(), oldDir, oldName, newDir, newName))
      ensures forall i :: 0 <= i < nodes.Length ==>
                nodes[i].data == old(nodes[i].data) && nodes[i].size == old(nodes[i].size)
    {
      RenameKeeps(State(), oldDir, oldName, newDir, newName);
      hide WellFormed, StorageOk, FindChild, Walk, ValidateName;
      if !IsDirectoryNode(oldDir) || !IsDirectoryNode(newDir) {
        return NotDirectory;
      }
      result := ValidateName(oldName);
      if result != Ok {
        return;
      }
      result := ValidateName(newName);
      if result != Ok {
        return;
      }
      var source := FindChildSlot(oldDir, oldName);
      if source == nodes.Length {
        return NotFound;
      }
      var collision := FindChildSlot(newDir, newName);
      if collision < nodes.Length {
        return if collision == source && oldDir == newDir then Ok else AlreadyExists;
      }
      result := ValidateRenameCycle(source, newDir);
      if result != Ok {
        return;
      }
      var node := nodes[source].(entry := nodes[source].entry.(parent := newDir, name := newName));
      RelabelOk(nodes[..], source, node);
      PutEntry(source, node);
    }

    // -------------------------------------------------------------- contents

    /** The checks read, write and truncate make on their node. */
    method RegularCheck(i: nat) returns (result: Result)
      ensures result == if !Occupied(State().table, i) then Corrupt
                        else if State().table[i].kind != Regular then NotRegular else Ok
    {
      if nodes.Length <= i || nodes[i].entry.Vacant? {
        return Corrupt;
      }
      return if nodes[i].entry.kind != Regular then NotRegular else Ok;
    }

    ghost predicate Foreign(buffer: array<byte>)
      reads nodes
    {
      forall i :: 0 <= i < nodes.Length ==> nodes[i].data != buffer
    }

    ghost function ReadVerdict(i: nat, length: nat): Result
      reads nodes
    {
      if nodes.Length <= i || nodes[i].entry.Vacant? then Corrupt
      else if nodes[i].entry.kind != Regular then NotRegular
      else if IO_MAX < length then InvalidArgument
      else Ok
    }

    /** ramfs_read into `buffer`. */
    method ReadNode(i: nat, offset: u64, buffer: array<byte>, length: nat) returns (result: Result, transferred: nat)
      requires Valid() && length <= buffer.Length && Foreign(buffer)
      modifies buffer
      ensures result == old(ReadVerdict(i, length))
      ensures transferred == if result == Ok then old(|Slice(Content(i), offset, length)|) else 0
      ensures buffer[transferred..] == old(buffer[..])[transferred..]
      ensures result == Ok ==> buffer[..transferred] == old(Slice(Content(i), offset, length))
    {
      assert i < nodes.Length ==> NodeOk(nodes[..][i]);
      hide WellFormed, StorageOk;
      transferred := 0;
      result := RegularCheck(i);
      if result != Ok {
        return;
      }
      if IO_MAX < length {
        return InvalidArgument, 0;
      }
      var node := nodes[i];
      if node.size <= offset || length == 0 {
        return;
      }
      var available := node.size - offset;
      transferred := if available < length then available else length;
      SliceOfBody(node.data[..], node.size, offset, length, transferred);
      assert node.data[..][..node.size] == Content(i);
      hide Slice;
      CopyBytes(buffer, 0, node.data, offset, transferred);
    }

    /** ramfs_current_capacity. */
    method CurrentCapacity() returns (total: nat)
      ensures total == TotalCapacity(nodes[..], nodes.Length)
    {
      total := 0;
      for k := 0 to nodes.Length
        invariant total == TotalCapacity(nodes[..], k)
      {
        total := total + Capacity(nodes[..][k]);
      }
    }

    /** Whether file `i` can be given `required` bytes of capacity. */
    ghost predicate CanHold(i: nat, required: nat, heapOk: bool)
      requires i < nodes.Length
      reads nodes
    {
      || required <= Capacity(nodes[i])
      || (&& required <= FILE_MAX && heapOk
          && TotalCapacity(nodes[..], nodes.Length) - Capacity(nodes[i]) + required <= TOTAL_MAX)
    }

    /** ramfs_prepare_capacity; `heapOk` is whether kmalloc would succeed. */
    method PrepareCapacity(i: nat, required: nat, heapOk: bool)
      returns (result: Result, replacement: array?<byte>)
      requires Valid() && i < nodes.Length
      ensures result == if CanHold(i, required, heapOk) then Ok else NoSpace
      ensures replacement == null <==> result != Ok || required <= Capacity(nodes[i])
      ensures replacement != null ==> fresh(replacement) && replacement.Length == required
      ensures replacement != null ==> replacement[..] == Content(i) + Zeros(required - nodes[i].size)
    {
      hide WellFormed;
      var node := nodes[..][i];
      CapacityUpdate(nodes[..], i, Node(Vacant, null, 0), nodes.Length);
      if required <= Capacity(node) {
        return Ok, null;
      }
      if FILE_MAX < required {
        return NoSpace, null;
      }
      var total := CurrentCapacity();
      var withoutOld := total - Capacity(node);
      if TOTAL_MAX - withoutOld < required || !heapOk {
        return NoSpace, null;
      }
      var replaced := new byte[required];
      ZeroBytes(replaced, 0, required);
      if node.data != null && node.size != 0 {
        CopyBytes(replaced, 0, node.data, 0, node.size);
      }
      assert replaced[..] == Content(i) + Zeros(required - node.size);
      return Ok, replaced;
    }

    ghost function DataOf(i: nat): set<object>
      reads nodes
    {
      if i < nodes.Length && nodes[i].data != null then {nodes[i].data} else {}
    }

    /** Every file but `x` reads as before, and every name is as before. */
    twostate predicate OthersKept(x: nat)
      reads this, nodes, set i | 0 <= i < nodes.Length && nodes[i].data != null :: nodes[i].data
    {
      && State() == old(State())
      && forall i :: 0 <= i < nodes.Length && i != x && nodes[i].size <= Capacity(nodes[i]) ==>
           nodes[i] == old(nodes[i]) && Content(i) == old(Content(i))
    }

    /** What ramfs_write answers, decided before anything is changed. */
    ghost function WriteVerdict(i: nat, offset: nat, length: nat, heapOk: bool): Result
      reads this, nodes
    {
      if nodes.Length <= i || nodes[i].entry.Vacant? then Corrupt
      else if nodes[i].entry.kind != Regular then NotRegular
      else if IO_MAX < length then InvalidArgument
      else if length == 0 then Ok
      else if U64_LIMIT <= offset + length then Overflow
      else if FILE_MAX < offset + length then NoSpace
      else if !CanHold(i, Max(offset + length, nodes[i].size), heapOk) then NoSpace
      else Ok
    }

    /** The final stores of write and truncate: the new body and its size. */
    method Install(i: nat, target: array<byte>, size: nat)
      requires Valid() && i < nodes.Length && nodes[i].entry.Entry? && nodes[i].entry.kind == Regular
      requires 0 < target.Length <= FILE_MAX && size <= target.Length
      requires forall j :: 0 <= j < nodes.Length && j != i ==> nodes[j].data != target
      requires TotalCapacity(nodes[..], nodes.Length) - Capacity(nodes[i]) + target.Length <= TOTAL_MAX
      modifies nodes
      ensures Valid() && OthersKept(i)
      ensures nodes[i] == old(nodes[i]).(data := target, size := size)
    {
      hide WellFormed;
      ghost var t := State().table;
      PutNode(i, nodes[i].(data := target, size := size));
      assert State().table == t;
    }

    /** ramfs_write of `length` bytes of `input`. */
    method WriteNode(i: nat, offset: u64, input: array<byte>, length: nat, heapOk: bool)
      returns (result: Result, transferred: nat)
      requires Valid() && length <= input.Length && Foreign(input)
      modifies nodes, DataOf(i)
      ensures Valid() && OthersKept(i)
      ensures result == old(WriteVerdict(i, offset, length, heapOk))
      ensures result == Ok && 0 < length ==>
                transferred == length && Content(i) == Overwritten(old(Content(i)), offset, input[..length])
      ensures result != Ok || length == 0 ==> transferred == 0 && nodes[..] == old(nodes[..])
      ensures (result != Ok || length == 0) && i < nodes.Length ==> Content(i) == old(Content(i))
    {
      hide WellFormed;
      transferred := 0;
      result := RegularCheck(i);
      if result != Ok {
        return;
      }
      if IO_MAX < length {
        return InvalidArgument, 0;
      }
      if length == 0 {
        return;
      }
      if U64_LIMIT - 1 - offset < length {
        return Overflow, 0;
      }
      var end := offset + length;
      if FILE_MAX < end {
        return NoSpace, 0;
      }
      var node := nodes[..][i];
      var newSize := if node.size < end then end else node.size;
      var replacement;
      result, replacement := PrepareCapacity(i, newSize, heapOk);
      if result != Ok {
        return;
      }
      var target := if replacement != null then replacement else node.data;
      assert target[..node.size] == Content(i);
      StoreBytes(target, node.size, offset, input, length);
      Install(i, target, newSize);
      transferred := length;
    }

    /** What ramfs_truncate answers. */
    ghost function TruncateVerdict(i: nat, size: nat, heapOk: bool): Result
      reads this, nodes
    {
      if nodes.Length <= i || nodes[i].entry.Vacant? then Corrupt
      else if nodes[i].entry.kind != Regular then NotRegular
      else if FILE_MAX < size then NoSpace
      else if size == 0 || size <= nodes[i].size || CanHold(i, size, heapOk) then Ok
      else NoSpace
    }

    /** Changing only the size, or dropping the body with it. */
    method Shrink(i: nat, size: nat)
      requires Valid() && i < nodes.Length && size <= nodes[i].size
      modifies nodes
      ensures Valid() && OthersKept(i)
      ensures Content(i) == old(Content(i))[..size]
    {
      hide WellFormed;
      ghost var t := State().table;
      assert NodeOk(nodes[..][i]);
      var node := nodes[i].(size := size);
      if size == 0 {
        node := node.(data := null);
      }
      PutEntry(i, node);
      assert State().table == t;
    }

    method TruncateNode(i: nat, size: nat, heapOk: bool) returns (result: Result)
      requires Valid()
      modifies nodes, DataOf(i)
      ensures Valid() && OthersKept(i)
      ensures result == old(TruncateVerdict(i, size, heapOk))
      ensures result == Ok ==> Content(i) == Resized(old(Content(i)), size)
      ensures result != Ok ==> nodes[..] == old(nodes[..])
      ensures result != Ok && i < nodes.Length ==> Content(i) == old(Content(i))
    {
      hide WellFormed;
      result := RegularCheck(i);
      if result != Ok {
        return;
      }
      if FILE_MAX < size {
        return NoSpace;
      }
      var node := nodes[..][i];
      if size == 0 || size <= node.size {
        Shrink(i, size);
        return;
      }
      var replacement;
      result, replacement := PrepareCapacity(i, size, heapOk);
      if result != Ok {
        return;
      }
      var target := if replacement != null then replacement else node.data;
      assert target[..node.size] == Content(i);
      ZeroBytes(target, node.size, size - node.size);
      Install(i, target, size);
    }

    /** ramfs_readdir: the index-th live child in slot order. */
    method ReadDirectory(dir: nat, index: nat) returns (result: Result, slot: nat)
      requires Valid()
      ensures result == if CheckDirectory(State().table, dir) != Ok then CheckDirectory(State().table, dir)
                        else if index < |Children(State().table, dir, 1)| then Ok else NotFound
      ensures result == Ok ==> slot == Children(State().table, dir, 1)[index]
    {
      hide WellFormed, StorageOk;
      slot := 1;
      result := DirectoryCheck(dir);
      if result != Ok {
        return;
      }
      var live := 0;
      ghost var all := Children(State().table, dir, 1);
      while slot < nodes.Length
        invariant 1 <= slot <= nodes.Length && live <= index
        invariant live <= |all| && all[live..] == Children(State().table, dir, slot)
      {
        if nodes[slot].entry.Entry? && nodes[slot].entry.parent == dir {
          if live == index {
            return;
          }
          live := live + 1;
        }
        slot := slot + 1;
      }
      return NotFound, slot;
    }
  }

  /** The slots whose parent is `dir`, in slot order from `i` on. */
  function Children(t: Table, dir: nat, i: nat): seq<nat>
    requires i <= |t|
    decreases |t| - i
  {
    if i == |t| then []
    else (if t[i].Entry? && t[i].parent == dir then [i] else []) + Children(t, dir, i + 1)
  }


  lemma {:induction false} EmptyCapacity(ns: seq<Node>, i: nat)
    requires i <= |ns| && forall j :: 0 <= j < |ns| ==> ns[j].data == null
    ensures TotalCapacity(ns, i) == 0
  {
    if 0 < i {
      EmptyCapacity(ns, i - 1);
    }
  }

  /** A directory listing names every child exactly once, and nothing else. */
  lemma {:induction false} ChildrenExact(t: Table, dir: nat, i: nat)
    requires i <= |t|
    ensures forall s :: s in Children(t, dir, i) <==> i <= s < |t| && t[s].Entry? && t[s].parent == dir
    ensures forall a, b :: 0 <= a < b < |Children(t, dir, i)| ==> Children(t, dir, i)[a] < Children(t, dir, i)[b]
    decreases |t| - i
  {
    if i < |t| {
      ChildrenExact(t, dir, i + 1);
      var rest := Children(t, dir, i + 1);
      assert forall b :: 0 <= b < |rest| ==> rest[b] in rest;
    }
  }
}
