/**
 Canonical paths: a working directory is a stack of component names, and a path moves it.
 The character buffer the kernel edits is in module WorkingDirectory.
 */
module PathSpec {
  import opened Machine

  const PATH_MAX: nat := 1024
  const NAME_MAX: nat := 255

  // ---------------------------------------------------------------- components

  /** The end of the name that `i` lies in: the next slash, or the end of the path. */
  function NameEnd(path: string, i: nat): (n: nat)
    requires i <= |path|
    ensures i <= n <= |path| && (n < |path| ==> path[n] == '/')
    ensures forall j :: i <= j < n ==> path[j] != '/'
    decreases |path| - i
  {
    if i == |path| || path[i] == '/' then i else NameEnd(path, i + 1)
  }

  /** The names between the slashes. */
  function Components(path: string): (names: seq<string>)
    ensures forall k :: 0 <= k < |names| ==> names[k] != "" && '/' !in names[k]
    decreases |path|
  {
    if path == "" then []
    else if path[0] == '/' then Components(path[1..])
    else [path[..NameEnd(path, 0)]] + Components(path[NameEnd(path, 0)..])
  }

  /** The text of a stack of names. */
  function Render(stack: seq<string>): (text: string) {
    if stack == [] then "/" else Tail(stack)
  }

  function Tail(stack: seq<string>): string {
    if stack == [] then "" else Tail(stack[..|stack| - 1]) + "/" + stack[|stack| - 1]
  }

  predicate GoodName(name: string) {
    0 < |name| <= NAME_MAX && '/' !in name && '\0' !in name && name != "." && name != ".."
  }

  ghost predicate GoodStack(stack: seq<string>) {
    (forall k :: 0 <= k < |stack| ==> GoodName(stack[k])) && |Render(stack)| <= PATH_MAX
  }

  // -------------------------------------------------------------------- moving

  /** One component: "." stays, ".." goes up and stays at the root, a name goes down if it fits. */
  function Move(stack: seq<string>, name: string): Option<seq<string>> {
    if name == "." then Some(stack)
    else if name == ".." then Some(if stack == [] then [] else stack[..|stack| - 1])
    else if 0 < |name| <= NAME_MAX && |Render(stack + [name])| <= PATH_MAX then Some(stack + [name])
    else None
  }

  function Walk(stack: seq<string>, names: seq<string>): Option<seq<string>>
    decreases |names|
  {
    if names == [] then Some(stack)
    else
      match Move(stack, names[0])
      case None => None
      case Some(next) => Walk(next, names[1..])
  }

  predicate Absolute(path: string) {
    path != "" && path[0] == '/'
  }

  /** The directory `path` names, seen from `cwd`; None when it does not fit. */
  function Resolve(cwd: seq<string>, path: string): Option<seq<string>> {
    Walk(if Absolute(path) then [] else cwd, Components(path))
  }

  // ---------------------------------------------------------------- properties

  lemma {:induction false} TailLength(stack: seq<string>)
    requires forall k :: 0 <= k < |stack| ==> stack[k] != ""
    ensures if stack == [] then Tail(stack) == "" else 2 <= |Tail(stack)| && Tail(stack)[0] == '/'
  {
    if stack != [] {
      TailLength(stack[..|stack| - 1]);
    }
  }

  lemma RenderAppend(stack: seq<string>, name: string)
    requires (forall k :: 0 <= k < |stack| ==> stack[k] != "") && name != ""
    ensures Render(stack + [name]) == (if stack == [] then "" else Render(stack)) + "/" + name
    ensures 1 <= |Render(stack)| && Render(stack)[0] == '/' && (|Render(stack)| == 1 <==> stack == [])
  {
    assert (stack + [name])[..|stack|] == stack;
    TailLength(stack);
  }

  /** Moving keeps a stack canonical. */
  lemma MoveKeeps(stack: seq<string>, name: string)
    requires GoodStack(stack) && name != "" && '/' !in name && '\0' !in name && Move(stack, name).Some?
    ensures GoodStack(Move(stack, name).value)
  {
    if name == ".." && stack != [] {
      RenderAppend(stack[..|stack| - 1], stack[|stack| - 1]);
      assert stack[..|stack| - 1] + [stack[|stack| - 1]] == stack;
    }
  }

  lemma {:induction false} WalkKeeps(stack: seq<string>, names: seq<string>)
    requires GoodStack(stack) && Walk(stack, names).Some?
    requires forall k :: 0 <= k < |names| ==> names[k] != "" && '/' !in names[k] && '\0' !in names[k]
    ensures GoodStack(Walk(stack, names).value)
    decreases |names|
  {
    if names != [] {
      MoveKeeps(stack, names[0]);
      WalkKeeps(Move(stack, names[0]).value, names[1..]);
    }
  }

  lemma {:induction false} ComponentsClean(path: string)
    requires '\0' !in path
    ensures forall k :: 0 <= k < |Components(path)| ==> '\0' !in Components(path)[k]
    decreases |path|
  {
    if path != "" {
      if path[0] == '/' {
        ComponentsClean(path[1..]);
      } else {
        ComponentsClean(path[NameEnd(path, 0)..]);
      }
    }
  }

  /** Whatever the path, the new working directory is canonical. */
  lemma ResolveCanonical(cwd: seq<string>, path: string)
    requires GoodStack(cwd) && '\0' !in path && Resolve(cwd, path).Some?
    ensures GoodStack(Resolve(cwd, path).value)
  {
    ComponentsClean(path);
    WalkKeeps(if Absolute(path) then [] else cwd, Components(path));
  }

  lemma {:induction false} NameEndJoin(a: string, b: string, i: nat)
    requires i <= |a|
    ensures NameEnd(a + "/" + b, i) == NameEnd(a, i)
    decreases |a| - i
  {
    if i < |a| && a[i] != '/' {
      NameEndJoin(a, b, i + 1);
    }
  }

  /** A slash separates the names of one part from the names of the other. */
  lemma {:induction false} ComponentsJoin(a: string, b: string)
    ensures Components(a + "/" + b) == Components(a) + Components(b)
    decreases |a|
  {
    var path := a + "/" + b;
    if a == "" {
      assert path[1..] == b;
    } else if a[0] == '/' {
      ComponentsJoin(a[1..], b);
      assert path[1..] == a[1..] + "/" + b;
    } else {
      var n := NameEnd(a, 0);
      NameEndJoin(a, b, 0);
      assert 0 < n;
      ComponentsJoin(a[n..], b);
      assert path[n..] == a[n..] + "/" + b && path[..n] == a[..n];
    }
  }

  lemma {:induction false} NameEndWhole(name: string, i: nat)
    requires '/' !in name && i <= |name|
    ensures NameEnd(name, i) == |name|
    decreases |name| - i
  {
    if i < |name| {
      NameEndWhole(name, i + 1);
    }
  }

  lemma ComponentsName(name: string)
    requires name != "" && '/' !in name
    ensures Components(name) == [name]
  {
    NameEndWhole(name, 0);
    assert name[|name|..] == "" && name[..|name|] == name;
  }

  /** The names in a rendered stack are the stack. */
  lemma {:induction false} ComponentsTail(stack: seq<string>)
    requires forall k :: 0 <= k < |stack| ==> stack[k] != "" && '/' !in stack[k]
    ensures Components(Tail(stack)) == stack
  {
    if stack != [] {
      var init, name := stack[..|stack| - 1], stack[|stack| - 1];
      ComponentsTail(init);
      ComponentsName(name);
      ComponentsJoin(Tail(init), name);
    }
  }

  lemma ComponentsRender(stack: seq<string>)
    requires GoodStack(stack)
    ensures Components(Render(stack)) == stack
  {
    ComponentsTail(stack);
    assert stack == [] ==> Components("/") == Components("");
  }

  /** Different stacks have different texts. */
  lemma RenderInjective(a: seq<string>, b: seq<string>)
    requires GoodStack(a) && GoodStack(b) && Render(a) == Render(b)
    ensures a == b
  {
    ComponentsRender(a);
    ComponentsRender(b);
  }

  lemma {:induction false} PrefixFits(stack: seq<string>, k: nat)
    requires GoodStack(stack) && k <= |stack|
    ensures GoodStack(stack[..k])
    decreases |stack| - k
  {
    if k < |stack| {
      PrefixFits(stack, k + 1);
      assert stack[..k + 1][..k] == stack[..k] && stack[..k] + [stack[k]] == stack[..k + 1];
      RenderAppend(stack[..k], stack[k]);
    } else {
      assert stack[..k] == stack;
    }
  }

  /** Walking down the names of a canonical stack ends at that stack. */
  lemma {:induction false} WalkDown(stack: seq<string>, k: nat)
    requires GoodStack(stack) && k <= |stack|
    ensures Walk(stack[..k], stack[k..]) == Some(stack)
    decreases |stack| - k
  {
    hide Render, Move, GoodStack;
    if k == |stack| {
      assert stack[..k] == stack;
    } else {
      MoveDown(stack, k);
      assert stack[k..][1..] == stack[k + 1..];
      WalkDown(stack, k + 1);
    }
  }

  lemma MoveDown(stack: seq<string>, k: nat)
    requires GoodStack(stack) && k < |stack|
    ensures Move(stack[..k], stack[k]) == Some(stack[..k + 1])
  {
    PrefixFits(stack, k + 1);
    assert stack[..k] + [stack[k]] == stack[..k + 1];
    assert GoodName(stack[k]);
    hide Render;
  }

  /** Canonicalising a canonical path, from anywhere, gives it back. */
  lemma CanonicalIsFixed(cwd: seq<string>, stack: seq<string>)
    requires GoodStack(stack)
    ensures Resolve(cwd, Render(stack)) == Some(stack)
  {
    ComponentsRender(stack);
    WalkDown(stack, 0);
    TailLength(stack);
    assert stack[..0] == [] && stack[0..] == stack;
  }

  ghost predicate NoDoubleSlash(text: string) {
    forall i :: 0 <= i < |text| - 1 ==> !(text[i] == '/' && text[i + 1] == '/')
  }

  lemma {:induction false} TailSingleSlashes(stack: seq<string>)
    requires forall k :: 0 <= k < |stack| ==> stack[k] != "" && '/' !in stack[k]
    ensures NoDoubleSlash(Tail(stack))
    ensures stack != [] ==> Tail(stack) != "" && Tail(stack)[|Tail(stack)| - 1] != '/'
  {
    if stack != [] {
      var init, name := Tail(stack[..|stack| - 1]), stack[|stack| - 1];
      TailSingleSlashes(stack[..|stack| - 1]);
      var text := init + "/" + name;
      assert Tail(stack) == text && text[|text| - 1] == name[|name| - 1];
      forall i | 0 <= i < |text| - 1 ensures !(text[i] == '/' && text[i + 1] == '/') {
        assert |init| <= i ==> text[i + 1] == name[i - |init|];
      }
    }
  }

  /** The text of a canonical directory: one leading slash, no other empty part, none at the end. */
  lemma CanonicalText(stack: seq<string>)
    requires GoodStack(stack)
    ensures var text := Render(stack);
      && 0 < |text| <= PATH_MAX && text[0] == '/'
      && (text[|text| - 1] == '/' <==> text == "/")
      && NoDoubleSlash(text)
      && forall name :: name in Components(text) ==> name != "." && name != ".."
  {
    ComponentsRender(stack);
    TailSingleSlashes(stack);
    TailLength(stack);
    if stack != [] {
      var name := stack[|stack| - 1];
      assert GoodName(name);
      assert Render(stack)[|Render(stack)| - 1] == name[|name| - 1];
    }
  }

  lemma {:induction false} WalkJoin(stack: seq<string>, a: seq<string>, b: seq<string>)
    ensures Walk(stack, a + b) == match Walk(stack, a) case None => None case Some(mid) => Walk(mid, b)
    decreases |a|
  {
    if a == [] {
      assert a + b == b;
    } else {
      assert (a + b)[1..] == a[1..] + b;
      if Move(stack, a[0]).Some? {
        WalkJoin(Move(stack, a[0]).value, a[1..], b);
      }
    }
  }

  /** Going to `a` and from there to a relative `b` is going to "a/b". */
  lemma ResolveJoin(cwd: seq<string>, a: string, b: string)
    requires a != "" && !Absolute(b)
    ensures Resolve(cwd, a + "/" + b) == match Resolve(cwd, a) case None => None case Some(mid) => Resolve(mid, b)
  {
    ComponentsJoin(a, b);
    WalkJoin(if Absolute(a) then [] else cwd, Components(a), Components(b));
  }

  lemma {:induction false} WalkOne(stack: seq<string>, name: string)
    ensures Walk(stack, [name]) == Move(stack, name)
  {
    hide Move;
    var names := [name];
    assert names[0] == name && names[1..] == [];
    if Move(stack, name).Some? {
      var next := Move(stack, name).value;
      assert Walk(next, []) == Some(next);
      assert Walk(stack, names) == Walk(next, names[1..]);
    }
  }

  /** Going to one name: down, if name and text are not too long for VFS_PATH_MAX. */
  lemma StepDown(cwd: seq<string>, name: string)
    requires GoodStack(cwd) && name != "" && '/' !in name && name != "." && name != ".."
    ensures Resolve(cwd, name)
         == if |name| <= 255 && (if cwd == [] then 0 else |Render(cwd)|) + 1 + |name| <= 1024 then Some(cwd + [name]) else None
  {
    ComponentsName(name);
    WalkOne(cwd, name);
    RenderAppend(cwd, name);
    hide Render;
  }

  /** "." and the empty path stay, ".." goes up one name and no further than the root, "/" goes to the root. */
  lemma StepUp(cwd: seq<string>)
    ensures Resolve(cwd, "") == Some(cwd) && Resolve(cwd, ".") == Some(cwd) && Resolve(cwd, "/") == Some([])
    ensures Resolve([], "..") == Some([])
    ensures forall name :: Resolve(cwd + [name], "..") == Some(cwd)
  {
    ComponentsName(".");
    ComponentsName("..");
    WalkOne(cwd, ".");
    WalkOne([], "..");
    assert Components("/") == Components("") by {
      assert "/"[1..] == "";
    }
    forall name ensures Resolve(cwd + [name], "..") == Some(cwd) {
      WalkOne(cwd + [name], "..");
      assert (cwd + [name])[..|cwd|] == cwd;
    }
  }

  /** Down and up again is nowhere. */
  lemma DownAndUp(cwd: seq<string>, name: string)
    requires GoodStack(cwd) && GoodName(name) && |Render(cwd + [name])| <= PATH_MAX
    ensures Resolve(cwd, name + "/..") == Some(cwd)
  {
    hide Render, Resolve;
    assert forall k :: 0 <= k < |cwd| ==> GoodName(cwd[k]) && cwd[k] != "";
    RenderAppend(cwd, name);
    StepDown(cwd, name);
    ResolveJoin(cwd, name, "..");
    assert name + "/" + ".." == name + "/..";
    StepUp(cwd);
    assert Resolve(cwd + [name], "..") == Some(cwd);
  }
}
