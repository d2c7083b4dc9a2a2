/**
 What creating, removing and renaming do to the name space and when they are refused, and which
 reads, writes and truncates a file system serves, said of nodes, names and sizes alone.
 */
module RamfsLaws {
  import opened Machine
  import opened RamfsTree
  import opened Ramfs

  predicate Legal(name: string) {
    1 <= |name| <= 255 && name != "." && name != ".." && forall i :: 0 <= i < |name| ==> name[i] != '/' && name[i] != '\0'
  }

  lemma LegalIs(name: string)
    ensures ValidateName(name) == Ok <==> Legal(name)
    ensures ValidateName(name) == NameTooLong <==> 255 < |name|
    ensures ValidateName(name) in {Ok, NameTooLong, InvalidArgument}
  {}

  /** Node `i`, not the root, is called `name` in directory `dir`. */
  predicate Called(t: Table, dir: nat, name: string, i: nat) {
    0 < i < |t| && t[i].Entry? && t[i].parent == dir && t[i].name == name
  }

  ghost predicate Exists(t: Table, dir: nat, name: string) {
    exists i :: Called(t, dir, name, i)
  }

  ghost predicate Childless(t: Table, i: nat) {
    forall j :: 0 <= j < |t| && t[j].Entry? ==> t[j].parent != i
  }

  lemma FindIs(t: Table, dir: nat, name: string)
    requires 0 < |t|
    ensures var k := FindChild(t, dir, name, 1);
      && (k < |t| ==> Called(t, dir, name, k))
      && (Exists(t, dir, name) <==> k < |t|)
  {
    var k := FindChild(t, dir, name, 1);
    assert k < |t| ==> IsChild(t, dir, name, k) && Called(t, dir, name, k);
    if Exists(t, dir, name) {
      var i :| Called(t, dir, name, i);
      assert IsChild(t, dir, name, i);
    }
  }

  /** Siblings have different names, so a name says which node is meant. */
  lemma CalledOnce(n: Names, dir: nat, name: string, i: nat, j: nat)
    requires WellFormed(n) && Called(n.table, dir, name, i) && Called(n.table, dir, name, j)
    ensures i == j
  {
    hide ParentsLive, IdsFresh, Rooted;
  }

  /** In a directory, under a legal name. */
  predicate Asked(t: Table, dir: nat, name: string) {
    dir < |t| && t[dir].Entry? && t[dir].kind == Directory && Legal(name)
  }

  /** Creating takes one vacant slot for a node with an id never used before, and changes nothing else. */
  lemma CreateExactly(n: Names, dir: nat, name: string, kind: Kind)
    requires WellFormed(n)
    ensures var r := Create(n, dir, name, kind);
      && (r.result == Ok <==>
            && Asked(n.table, dir, name) && !Exists(n.table, dir, name) && n.nextId != 0xffff_ffff_ffff_ffff
            && exists i :: 0 < i < |n.table| && n.table[i].Vacant?)
      && (r.result == AlreadyExists <==> Asked(n.table, dir, name) && Exists(n.table, dir, name))
      && (r.result != Ok ==> r.after == n)
      && (r.result == Ok ==> exists i :: Made(n, r.after, i, Entry(n.nextId, kind, dir, name, 0)))
  {
    assert IsDirectory(n.table, ROOT);
    LegalIs(name);
    FindIs(n.table, dir, name);
    var slot := FindVacant(n.table, 1);
    assert slot < |n.table| ==> n.table[slot].Vacant?;
    hide WellFormed, ValidateName, Legal, FindChild, Exists;
    var r := Create(n, dir, name, kind);
    assert r.result == Ok ==> Made(n, r.after, slot, Entry(n.nextId, kind, dir, name, 0));
  }

  ghost predicate Made(n: Names, r: Names, i: nat, e: Entry) {
    0 < i < |n.table| && n.table[i].Vacant? && r == Names(n.table[i := e], n.nextId + 1)
  }

  /** Removing takes exactly the child of that name, if it is of the right kind, empty and not held by anybody. */
  lemma RemoveExactly(n: Names, dir: nat, name: string, kind: Kind, i: nat)
    requires WellFormed(n) && Asked(n.table, dir, name) && Called(n.table, dir, name, i)
    ensures Remove(n, dir, name, kind)
         == if n.table[i].kind != kind then Change(if kind == Regular then NotRegular else NotDirectory, n)
            else if !Childless(n.table, i) then Change(NotEmpty, n)
            else if n.table[i].refs != 0 then Change(Busy, n)
            else Change(Ok, n.(table := n.table[i := Vacant]))
  {
    assert IsDirectory(n.table, ROOT);
    LegalIs(name);
    FindIs(n.table, dir, name);
    CalledOnce(n, dir, name, i, FindChild(n.table, dir, name, 1));
    ChildlessIs(n, i);
    hide WellFormed, ValidateName, Legal, FindChild, Exists, Childless, HasChild;
  }

  lemma ChildlessIs(n: Names, i: nat)
    requires WellFormed(n) && 0 < i < |n.table| && n.table[i].Entry?
    ensures n.table[i].kind == Directory ==> (Childless(n.table, i) <==> !HasChild(n.table, i, 1))
    ensures n.table[i].kind == Regular ==> Childless(n.table, i)
  {
    HasChildIff(n.table, i, 1);
    hide NamesUnique, IdsFresh, Rooted;
  }

  /** Without such a child, or out of order, a removal changes nothing. */
  lemma RemoveRefused(n: Names, dir: nat, name: string, kind: Kind)
    requires WellFormed(n) && !(Asked(n.table, dir, name) && Exists(n.table, dir, name))
    ensures var r := Remove(n, dir, name, kind);
      r.after == n && r.result != Ok && (Asked(n.table, dir, name) <==> r.result == NotFound)
  {
    assert IsDirectory(n.table, ROOT);
    LegalIs(name);
    FindIs(n.table, dir, name);
    hide WellFormed, ValidateName, Legal, FindChild, Exists;
  }

  /** A node somebody holds stays the node it is through every call but the one that lets it go. */
  ghost predicate Stays(t: Table, u: Table, i: nat) {
    i < |t| && i < |u| && t[i].Entry? && u[i].Entry? && u[i].id == t[i].id && u[i].kind == t[i].kind && u[i].refs == t[i].refs
  }

  lemma HeldStays(n: Names, call: Call, i: nat)
    requires 0 < |n.table| && Occupied(n.table, i) && n.table[i].refs != 0
    requires call.RefsCall? ==> call.node != i
    ensures Stays(n.table, Step(n, call).table, i)
    ensures call.RemoveCall? ==> Step(n, call).table[i] == n.table[i]
  {
    hide ValidateName, CheckCycle;
  }

  /** Over every run a node that somebody holds is neither removed nor replaced. */
  lemma {:induction false} HeldStaysForever(n: Names, calls: seq<Call>, i: nat)
    requires 0 < |n.table| && Occupied(n.table, i) && n.table[i].refs != 0
    requires forall k :: 0 <= k < |calls| ==> !(calls[k].RefsCall? && calls[k].node == i)
    ensures Stays(n.table, Run(n, calls).table, i)
    decreases |calls|
  {
    if calls != [] {
      HeldStays(n, calls[0], i);
      HeldStaysForever(Step(n, calls[0]), calls[1..], i);
      hide Step;
    }
  }

  /** Renaming moves exactly the child of the old name, unless another node has the new one or the move makes a loop. */
  lemma RenameExactly(n: Names, oldDir: nat, oldName: string, newDir: nat, newName: string, i: nat)
    requires WellFormed(n) && Asked(n.table, oldDir, oldName) && Asked(n.table, newDir, newName)
    requires Called(n.table, oldDir, oldName, i)
    ensures Rename(n, oldDir, oldName, newDir, newName)
         == if exists j :: j != i && Called(n.table, newDir, newName, j) then Change(AlreadyExists, n)
            else if !Called(n.table, newDir, newName, i) && IsAncestor(n.table, i, newDir) then Change(InvalidArgument, n)
            else Change(Ok, n.(table := n.table[i := n.table[i].(parent := newDir, name := newName)]))
  {
    hide WellFormed, ValidateName, Legal, FindChild, CheckCycle, IsAncestor, Called, Exists;
    var t := n.table;
    LegalIs(oldName);
    LegalIs(newName);
    FindIs(t, oldDir, oldName);
    FindIs(t, newDir, newName);
    assert Exists(t, oldDir, oldName) by {
      WitnessOf(t, oldDir, oldName, i);
    }
    CalledOnce(n, oldDir, oldName, i, FindChild(t, oldDir, oldName, 1));
    CycleIs(n, oldDir, oldName, newDir, i);
    var k := FindChild(t, newDir, newName, 1);
    WitnessOf(t, newDir, newName, i);
    if k < |t| {
      forall j | Called(t, newDir, newName, j) ensures j == k {
        CalledOnce(n, newDir, newName, j, k);
      }
      if k == i {
        SameNode(t, newDir, newName, i);
      }
    } else {
      forall j ensures !Called(t, newDir, newName, j) {
        WitnessOf(t, newDir, newName, j);
      }
    }
  }

  lemma WitnessOf(t: Table, dir: nat, name: string, i: nat)
    ensures Called(t, dir, name, i) ==> Exists(t, dir, name)
  {}

  lemma SameNode(t: Table, dir: nat, name: string, i: nat)
    requires Called(t, dir, name, i)
    ensures i < |t| && t[i].Entry? && t[i].parent == dir && t[i := t[i].(parent := dir, name := name)] == t
  {}

  lemma CycleIs(n: Names, dir: nat, name: string, newDir: nat, i: nat)
    requires WellFormed(n) && Called(n.table, dir, name, i) && IsDirectory(n.table, newDir)
    ensures 0 < i < |n.table| && Occupied(n.table, i)
    ensures CheckCycle(n.table, i, newDir) == if IsAncestor(n.table, i, newDir) then InvalidArgument else Ok
  {
    CheckCycleExact(n.table, i, newDir);
  }

  /** With no such child, or out of order, a rename changes nothing. */
  lemma RenameRefused(n: Names, oldDir: nat, oldName: string, newDir: nat, newName: string)
    requires WellFormed(n)
    requires !(Asked(n.table, oldDir, oldName) && Asked(n.table, newDir, newName) && Exists(n.table, oldDir, oldName))
    ensures var r := Rename(n, oldDir, oldName, newDir, newName);
      && r.after == n && r.result != Ok
      && (Asked(n.table, oldDir, oldName) && Asked(n.table, newDir, newName) <==> r.result == NotFound)
  {
    assert IsDirectory(n.table, ROOT);
    LegalIs(oldName);
    LegalIs(newName);
    FindIs(n.table, oldDir, oldName);
    hide WellFormed, ValidateName, Legal, FindChild, Exists;
  }

  // --------------------------------------------------------------------- files

  /** A read delivers the bytes from the offset on, as many as asked for and present. */
  lemma SliceBytes(c: seq<byte>, offset: nat, length: nat)
    ensures |Slice(c, offset, length)| == if |c| <= offset then 0 else if length <= |c| - offset then length else |c| - offset
    ensures forall j :: 0 <= j < |Slice(c, offset, length)| ==> Slice(c, offset, length)[j] == c[offset + j]
  {}

  /** A truncate leaves that many bytes: the old ones, then zeros. */
  lemma ResizedBytes(c: seq<byte>, size: nat)
    ensures |Resized(c, size)| == size
    ensures forall j :: 0 <= j < size ==> Resized(c, size)[j] == if j < |c| then c[j] else 0
  {}

  ghost predicate IsFile(fs: FileSystem, i: nat)
    reads fs.nodes
  {
    i < fs.nodes.Length && fs.nodes[i].entry.Entry? && fs.nodes[i].entry.kind == Regular
  }

  /** The file's buffer can hold `size` bytes, or a larger one is to be had within 32 KiB for all files. */
  ghost predicate Grows(fs: FileSystem, i: nat, size: nat, heapOk: bool)
    requires i < fs.nodes.Length
    reads fs.nodes
  {
    || size <= Capacity(fs.nodes[i])
    || (heapOk && TotalCapacity(fs.nodes[..], fs.nodes.Length) + size <= 32 * 1024 + Capacity(fs.nodes[i]))
  }

  /** The reads and writes served: at most 4096 bytes of a regular file, which never grows beyond 8192. */
  lemma IoServed(fs: FileSystem, i: nat, offset: nat, length: nat, heapOk: bool)
    requires fs.Valid()
    ensures fs.ReadVerdict(i, length) == Ok <==> IsFile(fs, i) && length <= 4096
    ensures fs.WriteVerdict(i, offset, length, heapOk) == Ok
       <==> && IsFile(fs, i) && length <= 4096
            && (length == 0
                || (offset + length <= 8192
                    && Grows(fs, i, if fs.nodes[i].size < offset + length then offset + length else fs.nodes[i].size, heapOk)))
  {
    FileBound(fs, i);
    hide WellFormed, StorageOk;
  }

  lemma FileBound(fs: FileSystem, i: nat)
    requires fs.Valid()
    ensures IsFile(fs, i) ==> fs.nodes[i].size <= Capacity(fs.nodes[i]) <= 8192
  {
    assert IsFile(fs, i) ==> NodeOk(fs.nodes[..][i]);
    hide WellFormed;
  }

  lemma TruncateServed(fs: FileSystem, i: nat, size: nat, heapOk: bool)
    requires fs.Valid()
    ensures fs.TruncateVerdict(i, size, heapOk) == Ok <==> IsFile(fs, i) && size <= 8192 && Grows(fs, i, size, heapOk)
  {
    FileBound(fs, i);
    hide WellFormed, StorageOk;
  }
}
