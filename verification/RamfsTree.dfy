/**
 The RAMFS name space: a table of nodes with parent pointers. What create, unlink, rmdir and
 rename do to the table, and why it always stays a tree under the root in slot 0.
 */
module RamfsTree {
  import opened Machine

  const ROOT: nat := 0
  const NAME_MAX: nat := 255
  const ID_LIMIT: nat := U64_LIMIT - 1

  datatype Kind = Directory | Regular

  datatype Entry =
    | Vacant
    | Entry(id: nat, kind: Kind, parent: nat, name: string, refs: nat)

  type Table = seq<Entry>

  datatype Result =
    | Ok | InvalidArgument | NameTooLong | NotFound | NotDirectory | NotRegular | NoSpace
    | AlreadyExists | NotEmpty | Busy | Overflow | Corrupt

  datatype Names = Names(table: Table, nextId: nat)
  datatype Change = Change(result: Result, after: Names)

  // ------------------------------------------------------------------ shape

  predicate Occupied(t: Table, i: nat) {
    i < |t| && t[i].Entry?
  }

  predicate IsDirectory(t: Table, i: nat) {
    Occupied(t, i) && t[i].kind == Directory
  }

  function Parent(t: Table, i: nat): nat {
    if Occupied(t, i) then t[i].parent else ROOT
  }

  /** The node `k` steps up from `i`; the root is its own parent. */
  function Up(t: Table, i: nat, k: nat): nat
    decreases k
  {
    if k == 0 then i else Up(t, Parent(t, i), k - 1)
  }

  ghost predicate Rooted(t: Table) {
    forall i :: 0 <= i < |t| && t[i].Entry? ==> ReachesRoot(t, i)
  }

  ghost predicate ReachesRoot(t: Table, i: nat) {
    exists k: nat :: Up(t, i, k) == ROOT
  }

  /** `a` is `i` or one of the directories above it. */
  ghost predicate IsAncestor(t: Table, a: nat, i: nat) {
    exists k: nat :: Up(t, i, k) == a
  }

  predicate NameOk(name: string) {
    ValidateName(name) == Ok
  }

  ghost predicate ParentsLive(t: Table) {
    && IsDirectory(t, ROOT) && t[ROOT].parent == ROOT
    && forall i :: 0 <= i < |t| && t[i].Entry? ==> IsDirectory(t, t[i].parent)
  }

  ghost predicate NamesUnique(t: Table) {
    && (forall i :: 0 < i < |t| && t[i].Entry? ==> NameOk(t[i].name))
    && forall i, j :: 0 < i < j < |t| && t[i].Entry? && t[j].Entry? && t[i].parent == t[j].parent
         ==> t[i].name != t[j].name
  }

  ghost predicate IdsFresh(t: Table, nextId: nat) {
    && nextId <= ID_LIMIT
    && (forall i :: 0 <= i < |t| && t[i].Entry? ==> 0 < t[i].id < nextId)
    && forall i, j :: 0 <= i < j < |t| && t[i].Entry? && t[j].Entry? ==> t[i].id != t[j].id
  }

  /** A rooted tree with unique sibling names and unique, never reused ids. */
  ghost predicate WellFormed(n: Names) {
    ParentsLive(n.table) && NamesUnique(n.table) && IdsFresh(n.table, n.nextId) && Rooted(n.table)
  }

  // ------------------------------------------------------------- operations

  function ValidateName(name: string): Result {
    if name == "" then InvalidArgument
    else if NAME_MAX < |name| then NameTooLong
    else if name == "." || name == ".." then InvalidArgument
    else if '/' in name || '\0' in name then InvalidArgument
    else Ok
  }

  predicate IsChild(t: Table, dir: nat, name: string, i: nat) {
    Occupied(t, i) && t[i].parent == dir && t[i].name == name
  }

  /** The child of `dir` called `name`, from slot `i` on; |t| when there is none. */
  function FindChild(t: Table, dir: nat, name: string, i: nat): (k: nat)
    requires i <= |t|
    ensures i <= k <= |t|
    ensures k < |t| ==> IsChild(t, dir, name, k)
    ensures forall j :: i <= j < k ==> !IsChild(t, dir, name, j)
    decreases |t| - i
  {
    if i == |t| || IsChild(t, dir, name, i) then i else FindChild(t, dir, name, i + 1)
  }

  function FindVacant(t: Table, i: nat): (k: nat)
    requires i <= |t|
    ensures i <= k <= |t|
    ensures k < |t| ==> t[k].Vacant?
    ensures forall j :: i <= j < k ==> t[j].Entry?
    decreases |t| - i
  {
    if i == |t| || t[i].Vacant? then i else FindVacant(t, i + 1)
  }

  predicate HasChild(t: Table, dir: nat, i: nat)
    requires i <= |t|
    decreases |t| - i
  {
    i < |t| && ((t[i].Entry? && t[i].parent == dir) || HasChild(t, dir, i + 1))
  }

  /** How every directory argument is checked, rename excepted. */
  function CheckDirectory(t: Table, dir: nat): Result {
    if !Occupied(t, dir) then Corrupt else if t[dir].kind != Directory then NotDirectory else Ok
  }

  function Create(n: Names, dir: nat, name: string, kind: Kind): Change
    requires 0 < |n.table|
  {
    var t := n.table;
    if CheckDirectory(t, dir) != Ok then Change(CheckDirectory(t, dir), n)
    else if ValidateName(name) != Ok then Change(ValidateName(name), n)
    else if FindChild(t, dir, name, 1) < |t| then Change(AlreadyExists, n)
    else
      var slot := FindVacant(t, 1);
      if slot == |t| then Change(NoSpace, n)
      else if n.nextId == ID_LIMIT then Change(Overflow, n)
      else Change(Ok, Names(t[slot := Entry(n.nextId, kind, dir, name, 0)], n.nextId + 1))
  }

  /** unlink (kind == Regular) and rmdir (kind == Directory). */
  function Remove(n: Names, dir: nat, name: string, kind: Kind): Change
    requires 0 < |n.table|
  {
    var t := n.table;
    if CheckDirectory(t, dir) != Ok then Change(CheckDirectory(t, dir), n)
    else if ValidateName(name) != Ok then Change(ValidateName(name), n)
    else
      var i := FindChild(t, dir, name, 1);
      if i == |t| then Change(NotFound, n)
      else if t[i].kind != kind then Change(if kind == Regular then NotRegular else NotDirectory, n)
      else if kind == Directory && HasChild(t, i, 1) then Change(NotEmpty, n)
      else if t[i].refs != 0 then Change(Busy, n)
      else Change(Ok, n.(table := t[i := Vacant]))
  }

  /** The bounded walk from the target directory towards the root. */
  function Walk(t: Table, source: nat, cursor: nat, steps: nat): Result
    decreases steps
  {
    if steps == 0 then Corrupt
    else if cursor == source then InvalidArgument
    else if cursor == ROOT then Ok
    else if !IsDirectory(t, Parent(t, cursor)) then Corrupt
    else Walk(t, source, Parent(t, cursor), steps - 1)
  }

  function CheckCycle(t: Table, source: nat, newDir: nat): Result
    requires Occupied(t, source)
  {
    if t[source].kind != Directory then Ok else Walk(t, source, newDir, |t|)
  }

  function Moved(t: Table, source: nat, newDir: nat, newName: string): Table
    requires Occupied(t, source)
  {
    t[source := t[source].(parent := newDir, name := newName)]
  }

  function Rename(n: Names, oldDir: nat, oldName: string, newDir: nat, newName: string): Change
    requires 0 < |n.table|
  {
    var t := n.table;
    if !IsDirectory(t, oldDir) || !IsDirectory(t, newDir) then Change(NotDirectory, n)
    else if ValidateName(oldName) != Ok then Change(ValidateName(oldName), n)
    else if ValidateName(newName) != Ok then Change(ValidateName(newName), n)
    else
      var source := FindChild(t, oldDir, oldName, 1);
      if source == |t| then Change(NotFound, n)
      else
        var collision := FindChild(t, newDir, newName, 1);
        if collision < |t| then
          Change(if collision == source && oldDir == newDir then Ok else AlreadyExists, n)
        else if CheckCycle(t, source, newDir) != Ok then Change(CheckCycle(t, source, newDir), n)
        else Change(Ok, n.(table := Moved(t, source, newDir, newName)))
  }

  // ------------------------------------------------------------ parent chains

  lemma {:induction false} UpAdd(t: Table, i: nat, a: nat, b: nat)
    ensures Up(t, i, a + b) == Up(t, Up(t, i, a), b)
    decreases a
  {
    if 0 < a {
      UpAdd(t, Parent(t, i), a - 1, b);
    }
  }

  /** Once at the root, a chain stays there. */
  lemma {:induction false} UpRoot(t: Table, k: nat)
    requires ParentsLive(t)
    ensures Up(t, ROOT, k) == ROOT
  {
    if 0 < k {
      UpRoot(t, k - 1);
    }
  }

  lemma {:induction false} UpOccupied(t: Table, i: nat, k: nat)
    requires ParentsLive(t) && Occupied(t, i)
    ensures Occupied(t, Up(t, i, k)) && (0 < k ==> IsDirectory(t, Up(t, i, k)))
    decreases k
  {
    if 0 < k {
      UpOccupied(t, Parent(t, i), k - 1);
    }
  }

  /** The number of steps from `i` to the root. */
  ghost function Depth(t: Table, i: nat): (d: nat)
    requires ReachesRoot(t, i)
    ensures Up(t, i, d) == ROOT && forall k: nat :: k < d ==> Up(t, i, k) != ROOT
  {
    var k: nat :| Up(t, i, k) == ROOT;
    Least(t, i, k)
  }

  ghost function Least(t: Table, i: nat, k: nat): (d: nat)
    requires Up(t, i, k) == ROOT
    ensures d <= k && Up(t, i, d) == ROOT && forall j: nat :: j < d ==> Up(t, i, j) != ROOT
    decreases k
  {
    if j: nat :| j < k && Up(t, i, j) == ROOT then Least(t, i, j) else k
  }

  /** Before the root no node repeats on a chain. */
  lemma ChainDistinct(t: Table, i: nat, a: nat, b: nat)
    requires ReachesRoot(t, i) && a < b <= Depth(t, i)
    ensures Up(t, i, a) != Up(t, i, b)
  {
    var d := Depth(t, i);
    UpAdd(t, i, a, d - b);
    UpAdd(t, i, b, d - b);
  }

  lemma {:induction false} BoundedSet(s: set<nat>, n: nat)
    requires forall x :: x in s ==> x < n
    ensures |s| <= n
  {
    if n == 0 {
      assert s == {};
    } else {
      BoundedSet(s - {n - 1}, n - 1);
    }
  }

  ghost function Chain(t: Table, i: nat, k: nat): set<nat> {
    if k == 0 then {i} else Chain(t, i, k - 1) + {Up(t, i, k)}
  }

  lemma {:induction false} ChainMember(t: Table, i: nat, k: nat, x: nat) returns (j: nat)
    requires x in Chain(t, i, k)
    ensures j <= k && x == Up(t, i, j)
  {
    if 0 < k && x in Chain(t, i, k - 1) {
      j := ChainMember(t, i, k - 1, x);
    } else {
      j := k;
    }
  }

  lemma {:induction false} ChainSize(t: Table, i: nat, k: nat)
    requires ReachesRoot(t, i) && k <= Depth(t, i)
    ensures |Chain(t, i, k)| == k + 1
  {
    if 0 < k {
      ChainSize(t, i, k - 1);
      var before := Chain(t, i, k - 1);
      forall x | x in before ensures x != Up(t, i, k) {
        var j := ChainMember(t, i, k - 1, x);
        ChainDistinct(t, i, j, k);
      }
    }
  }

  /** By pigeonhole, every node of a tree is fewer than |t| steps from the root. */
  lemma DepthBounded(t: Table, i: nat)
    requires ParentsLive(t) && Occupied(t, i) && ReachesRoot(t, i)
    ensures Depth(t, i) < |t|
  {
    ChainSize(t, i, Depth(t, i));
    var chain := Chain(t, i, Depth(t, i));
    forall x | x in chain ensures x < |t| {
      var j := ChainMember(t, i, Depth(t, i), x);
      UpOccupied(t, i, j);
    }
    BoundedSet(chain, |t|);
  }

  // ------------------------------------------------------------- the walk

  lemma {:induction false} WalkFrom(t: Table, source: nat, newDir: nat, k: nat)
    requires ParentsLive(t) && Occupied(t, newDir) && ReachesRoot(t, newDir) && source != ROOT
    requires k <= Depth(t, newDir) && k <= |t| && forall j: nat :: j < k ==> Up(t, newDir, j) != source
    ensures Walk(t, source, Up(t, newDir, k), |t| - k)
         == if IsAncestor(t, source, newDir) then InvalidArgument else Ok
    decreases |t| - k
  {
    DepthBounded(t, newDir);
    var cursor := Up(t, newDir, k);
    if cursor == source {
      assert IsAncestor(t, source, newDir);
    } else if cursor == ROOT {
      forall j: nat ensures Up(t, newDir, j) != source {
        if k <= j {
          UpAdd(t, newDir, k, j - k);
          UpRoot(t, j - k);
        }
      }
    } else {
      UpOccupied(t, newDir, k + 1);
      UpAdd(t, newDir, k, 1);
      assert Up(t, cursor, 1) == Parent(t, cursor);
      WalkFrom(t, source, newDir, k + 1);
    }
  }

  /**
   On a well-formed table the bounded walk never reports corruption: it refuses exactly the
   moves of a directory into itself or below itself.
   */
  lemma CheckCycleExact(t: Table, source: nat, newDir: nat)
    requires ParentsLive(t) && Rooted(t) && Occupied(t, source) && source != ROOT && IsDirectory(t, newDir)
    ensures CheckCycle(t, source, newDir) == if IsAncestor(t, source, newDir) then InvalidArgument else Ok
  {
    assert ReachesRoot(t, newDir);
    WalkFrom(t, source, newDir, 0);
    assert Up(t, newDir, 0) == newDir;
    forall k: nat ensures Up(t, newDir, k) == source ==> IsDirectory(t, source) {
      UpOccupied(t, newDir, k);
    }
  }

  // --------------------------------------------------------------- keeping

  /** A chain that avoids the one changed node is the same in both tables. */
  lemma {:induction false} UpSame(t: Table, u: Table, x: nat, i: nat, k: nat)
    requires forall y: nat :: y != x ==> Parent(t, y) == Parent(u, y)
    requires forall j: nat :: j < k ==> Up(t, i, j) != x
    ensures Up(u, i, k) == Up(t, i, k)
    decreases k
  {
    if 0 < k {
      assert Up(t, i, 0) == i;
      forall j: nat | j < k - 1 ensures Up(t, Parent(t, i), j) != x {
        assert Up(t, i, j + 1) == Up(t, Parent(t, i), j);
      }
      UpSame(t, u, x, Parent(t, i), k - 1);
    }
  }

  lemma {:induction false} UpRerooted(t: Table, u: Table, x: nat, i: nat, k: nat)
    requires forall y: nat :: y != x ==> Parent(t, y) == Parent(u, y)
    requires Up(t, i, k) == ROOT && ReachesRoot(u, x)
    ensures ReachesRoot(u, i)
    decreases k
  {
    if i == ROOT {
      assert Up(u, i, 0) == ROOT;
    } else if i != x {
      UpRerooted(t, u, x, Parent(t, i), k - 1);
      var m: nat :| Up(u, Parent(t, i), m) == ROOT;
      assert Up(u, i, m + 1) == ROOT;
    }
  }

  /** Changing one node's parent keeps everything rooted as soon as that node is. */
  lemma RerootedAll(t: Table, u: Table, x: nat)
    requires forall y: nat :: y != x ==> Parent(t, y) == Parent(u, y)
    requires Rooted(t) && ReachesRoot(u, x)
    requires forall i :: 0 <= i < |u| && u[i].Entry? && i != x ==> Occupied(t, i)
    ensures Rooted(u)
  {
    forall i | 0 <= i < |u| && u[i].Entry? ensures ReachesRoot(u, i) {
      if i != x {
        assert ReachesRoot(t, i);
        var k: nat :| Up(t, i, k) == ROOT;
        UpRerooted(t, u, x, i, k);
      }
    }
  }

  lemma ReachesAbove(t: Table, u: Table, x: nat, newDir: nat)
    requires forall y: nat :: y != x ==> Parent(t, y) == Parent(u, y)
    requires ReachesRoot(t, newDir) && !IsAncestor(t, x, newDir) && Parent(u, x) == newDir
    ensures ReachesRoot(u, x)
  {
    var k: nat :| Up(t, newDir, k) == ROOT;
    UpSame(t, u, x, newDir, k);
    assert Up(u, x, k + 1) == ROOT;
  }

  /** A name that lookup does not find can be given to any node. */
  lemma NamedKeeps(t: Table, x: nat, e: Entry)
    requires NamesUnique(t) && 0 < x < |t| && e.Entry?
    requires NameOk(e.name) && FindChild(t, e.parent, e.name, 1) == |t|
    ensures NamesUnique(t[x := e])
  {
    forall j | 1 <= j < |t| && t[j].Entry? && t[j].parent == e.parent ensures t[j].name != e.name {
      assert !IsChild(t, e.parent, e.name, j);
    }
  }

  /** A node may hang under any live directory as long as its own kind stays. */
  lemma ParentsUpdated(t: Table, x: nat, e: Entry)
    requires ParentsLive(t) && x < |t| && e.Entry? && IsDirectory(t, e.parent)
    requires t[x].Entry? ==> e.kind == t[x].kind
    requires x == ROOT ==> e.parent == ROOT
    ensures ParentsLive(t[x := e])
  {
    var u := t[x := e];
    forall i | 0 <= i < |u| && u[i].Entry? ensures IsDirectory(u, u[i].parent) {
      assert i != x ==> IsDirectory(t, t[i].parent);
    }
  }

  lemma VacatedKeeps(t: Table, nextId: nat, x: nat)
    requires ParentsLive(t) && NamesUnique(t) && IdsFresh(t, nextId) && 0 < x < |t|
    requires forall i :: 0 <= i < |t| && t[i].Entry? ==> t[i].parent != x
    ensures ParentsLive(t[x := Vacant]) && NamesUnique(t[x := Vacant]) && IdsFresh(t[x := Vacant], nextId)
  {
    var u := t[x := Vacant];
    forall i | 0 <= i < |u| && u[i].Entry? ensures IsDirectory(u, u[i].parent) {
      assert IsDirectory(t, t[i].parent);
    }
  }

  lemma IdsUpdated(t: Table, nextId: nat, x: nat, e: Entry)
    requires IdsFresh(t, nextId) && x < |t| && e.Entry?
    ensures t[x].Entry? && e.id == t[x].id ==> IdsFresh(t[x := e], nextId)
    ensures 0 < e.id == nextId < ID_LIMIT ==> IdsFresh(t[x := e], nextId + 1)
  {}

  lemma MovedKeeps(n: Names, source: nat, newDir: nat, newName: string)
    requires WellFormed(n) && Occupied(n.table, source) && source != ROOT && IsDirectory(n.table, newDir)
    requires NameOk(newName) && FindChild(n.table, newDir, newName, 1) == |n.table|
    requires !IsAncestor(n.table, source, newDir)
    ensures WellFormed(n.(table := Moved(n.table, source, newDir, newName)))
  {
    var t := n.table;
    var u := Moved(t, source, newDir, newName);
    NamedKeeps(t, source, u[source]);
    ParentsUpdated(t, source, u[source]);
    IdsUpdated(t, n.nextId, source, u[source]);
    hide NamesUnique, ParentsLive, IdsFresh;
    assert ReachesRoot(t, newDir);
    ReachesAbove(t, u, source, newDir);
    RerootedAll(t, u, source);
  }

  /** The move rename refuses would cut the directory, and all below it, off the root. */
  lemma CycleLosesRoot(t: Table, source: nat, newDir: nat, newName: string)
    requires ParentsLive(t) && Occupied(t, source) && source != ROOT && IsAncestor(t, source, newDir)
    ensures !Rooted(Moved(t, source, newDir, newName))
  {
    var k: nat :| Up(t, newDir, k) == source;
    k := FirstHit(t, source, newDir, k);
    var u := Moved(t, source, newDir, newName);
    forall j: nat | j <= k ensures Up(u, source, j + 1) == Up(t, newDir, j) {
      UpSame(t, u, source, newDir, j);
    }
    forall j: nat ensures Up(u, source, j) != ROOT {
      Looping(t, u, source, newDir, k, j);
    }
    assert u[source].Entry? && !ReachesRoot(u, source);
  }

  lemma {:induction false} FirstHit(t: Table, a: nat, i: nat, k: nat) returns (m: nat)
    requires Up(t, i, k) == a
    ensures Up(t, i, m) == a && forall j: nat :: j < m ==> Up(t, i, j) != a
    decreases k
  {
    if j: nat :| j < k && Up(t, i, j) == a {
      m := FirstHit(t, a, i, j);
    } else {
      m := k;
    }
  }

  lemma {:induction false} Looping(t: Table, u: Table, source: nat, newDir: nat, k: nat, j: nat)
    requires ParentsLive(t) && source != ROOT && Up(t, newDir, k) == source
    requires forall m: nat :: m <= k ==> Up(u, source, m + 1) == Up(t, newDir, m)
    ensures Up(u, source, j) != ROOT
    decreases j
  {
    if j == 0 {
    } else if j <= k + 1 {
      assert Up(u, source, (j - 1) + 1) == Up(t, newDir, j - 1);
      UpAdd(t, newDir, j - 1, k - (j - 1));
      UpRoot(t, k - (j - 1));
    } else {
      assert Up(u, source, k + 1) == source;
      UpAdd(u, source, k + 1, j - (k + 1));
      Looping(t, u, source, newDir, k, j - (k + 1));
    }
  }

  lemma CreateKeeps(n: Names, dir: nat, name: string, kind: Kind)
    requires WellFormed(n)
    ensures WellFormed(Create(n, dir, name, kind).after)
  {
    assert Occupied(n.table, ROOT);
    hide NamesUnique, ParentsLive, IdsFresh, Rooted;
    var r := Create(n, dir, name, kind);
    if r.result == Ok {
      var t, u := n.table, r.after.table;
      var slot := FindVacant(t, 1);
      NamedKeeps(t, slot, u[slot]);
      ParentsUpdated(t, slot, u[slot]);
      IdsUpdated(t, n.nextId, slot, u[slot]);
      CreatedRooted(t, u, slot, dir);
    }
  }

  lemma CreatedRooted(t: Table, u: Table, slot: nat, dir: nat)
    requires ParentsLive(t) && Rooted(t) && IsDirectory(t, dir) && 0 < slot < |t| && t[slot].Vacant?
    requires |u| == |t| && u[slot].Entry? && u[slot].parent == dir && u == t[slot := u[slot]]
    ensures Rooted(u)
  {
    forall k: nat ensures Up(t, dir, k) != slot {
      UpOccupied(t, dir, k);
    }
    assert ReachesRoot(t, dir);
    ReachesAbove(t, u, slot, dir);
    RerootedAll(t, u, slot);
  }

  lemma {:induction false} HasChildIff(t: Table, dir: nat, i: nat)
    requires i <= |t|
    ensures HasChild(t, dir, i) <==> exists j :: i <= j < |t| && t[j].Entry? && t[j].parent == dir
    decreases |t| - i
  {
    if i < |t| {
      HasChildIff(t, dir, i + 1);
    }
  }

  lemma NoChildren(t: Table, x: nat)
    requires ParentsLive(t) && Occupied(t, x) && x != ROOT
    requires t[x].kind == Directory ==> !HasChild(t, x, 1)
    ensures forall i :: 0 <= i < |t| && t[i].Entry? ==> t[i].parent != x
  {
    HasChildIff(t, x, 1);
  }

  lemma RemovedRooted(t: Table, x: nat)
    requires Rooted(t) && x < |t|
    ensures Rooted(t[x := Vacant])
  {
    var u := t[x := Vacant];
    assert Up(u, x, 1) == Up(u, ROOT, 0) == ROOT;
    RerootedAll(t, u, x);
  }

  lemma RemoveKeeps(n: Names, dir: nat, name: string, kind: Kind)
    requires WellFormed(n)
    ensures WellFormed(Remove(n, dir, name, kind).after)
  {
    var r := Remove(n, dir, name, kind);
    if r.result == Ok {
      var t, u := n.table, r.after.table;
      var x := FindChild(t, dir, name, 1);
      NoChildren(t, x);
      VacatedKeeps(t, n.nextId, x);
      RemovedRooted(t, x);
    }
  }

  lemma RenameKeeps(n: Names, oldDir: nat, oldName: string, newDir: nat, newName: string)
    requires WellFormed(n)
    ensures WellFormed(Rename(n, oldDir, oldName, newDir, newName).after)
  {
    var t := n.table;
    var source := FindChild(t, oldDir, oldName, 1);
    if Rename(n, oldDir, oldName, newDir, newName).after != n {
      CheckCycleExact(t, source, newDir);
      MovedKeeps(n, source, newDir, newName);
    }
  }

  /**
   rename, once its arguments are in order and the target name is free: it succeeds exactly
   when the move would leave every node connected to the root, and fails as an invalid
   argument otherwise. It is never reported as corruption.
   */
  lemma RenameExact(n: Names, oldDir: nat, oldName: string, newDir: nat, newName: string)
    requires WellFormed(n) && IsDirectory(n.table, oldDir) && IsDirectory(n.table, newDir)
    requires NameOk(oldName) && NameOk(newName)
    requires FindChild(n.table, oldDir, oldName, 1) < |n.table|
    requires FindChild(n.table, newDir, newName, 1) == |n.table|
    ensures var r := Rename(n, oldDir, oldName, newDir, newName);
      var u := Moved(n.table, FindChild(n.table, oldDir, oldName, 1), newDir, newName);
      r == if Rooted(u) then Change(Ok, n.(table := u)) else Change(InvalidArgument, n)
  {
    var source := FindChild(n.table, oldDir, oldName, 1);
    CheckCycleExact(n.table, source, newDir);
    if IsAncestor(n.table, source, newDir) {
      CycleLosesRoot(n.table, source, newDir, newName);
    } else {
      MovedKeeps(n, source, newDir, newName);
    }
  }

  // ------------------------------------------------------------------ runs

  datatype Call =
    | CreateCall(dir: nat, name: string, kind: Kind)
    | RemoveCall(dir: nat, name: string, kind: Kind)
    | RenameCall(dir: nat, name: string, newDir: nat, newName: string)
    | RefsCall(node: nat, refs: nat)

  /** RefsCall stands for the VFS retaining or releasing a node. */
  function Step(n: Names, call: Call): (r: Names)
    requires 0 < |n.table|
    ensures |r.table| == |n.table|
  {
    match call
    case CreateCall(dir, name, kind) => Create(n, dir, name, kind).after
    case RemoveCall(dir, name, kind) => Remove(n, dir, name, kind).after
    case RenameCall(dir, name, newDir, newName) => Rename(n, dir, name, newDir, newName).after
    case RefsCall(i, refs) =>
      if Occupied(n.table, i) then n.(table := n.table[i := n.table[i].(refs := refs)]) else n
  }

  function Run(n: Names, calls: seq<Call>): (r: Names)
    requires 0 < |n.table|
    ensures |r.table| == |n.table|
    decreases |calls|
  {
    if calls == [] then n else Run(Step(n, calls[0]), calls[1..])
  }

  lemma {:induction false} UpEqual(t: Table, u: Table, i: nat, k: nat)
    requires forall y: nat :: Parent(t, y) == Parent(u, y)
    ensures Up(u, i, k) == Up(t, i, k)
    decreases k
  {
    if 0 < k {
      UpEqual(t, u, Parent(t, i), k - 1);
    }
  }

  lemma RefsNames(t: Table, i: nat, e: Entry)
    requires NamesUnique(t) && Occupied(t, i) && e.Entry? && t[i] == e.(refs := t[i].refs)
    ensures NamesUnique(t[i := e])
  {}

  lemma RootedSame(t: Table, u: Table)
    requires Rooted(t) && |u| == |t|
    requires forall y :: 0 <= y < |t| ==> (t[y].Entry? <==> u[y].Entry?) && (t[y].Entry? ==> t[y].parent == u[y].parent)
    ensures Rooted(u)
  {
    forall y: nat ensures Parent(t, y) == Parent(u, y) {}
    forall j | 0 <= j < |u| && u[j].Entry? ensures ReachesRoot(u, j) {
      assert ReachesRoot(t, j);
      var k: nat :| Up(t, j, k) == ROOT;
      UpEqual(t, u, j, k);
    }
  }

  lemma RefsKeep(n: Names, i: nat, e: Entry, u: Table)
    requires WellFormed(n) && Occupied(n.table, i)
    requires e.Entry? && n.table[i] == e.(refs := n.table[i].refs) && u == n.table[i := e]
    ensures WellFormed(Names(u, n.nextId))
  {
    assert IsDirectory(n.table, e.parent) && (i == ROOT ==> e.parent == ROOT);
    hide NamesUnique, IdsFresh, ParentsLive, Rooted;
    ParentsUpdated(n.table, i, e);
    IdsUpdated(n.table, n.nextId, i, e);
    RefsNames(n.table, i, e);
    RootedSame(n.table, u);
  }

  /** Whatever is called in whatever order, the name space stays a rooted tree. */
  lemma {:induction false} RunKeeps(n: Names, calls: seq<Call>)
    requires WellFormed(n)
    ensures WellFormed(Run(n, calls))
    decreases |calls|
  {
    if calls != [] {
      assert Occupied(n.table, ROOT);
      hide WellFormed;
      match calls[0] {
        case CreateCall(dir, name, kind) => CreateKeeps(n, dir, name, kind);
        case RemoveCall(dir, name, kind) => RemoveKeeps(n, dir, name, kind);
        case RenameCall(dir, name, newDir, newName) => RenameKeeps(n, dir, name, newDir, newName);
        case RefsCall(i, refs) =>
          if Occupied(n.table, i) {
            var e := n.table[i].(refs := refs);
            RefsKeep(n, i, e, n.table[i := e]);
          }
      }
      RunKeeps(Step(n, calls[0]), calls[1..]);
    }
  }

  /** A fresh file system of `slots` nodes: the root alone. */
  function Fresh(slots: nat): Names
    requires 0 < slots
  {
    Names([Entry(1, Directory, ROOT, "", 0)] + seq(slots - 1, i => Vacant), 2)
  }

  lemma FreshWellFormed(slots: nat)
    requires 0 < slots
    ensures WellFormed(Fresh(slots))
  {
    assert Up(Fresh(slots).table, ROOT, 0) == ROOT;
  }
}
