/**
 A process's working directory as the kernel keeps it: a text buffer with a length, edited in
 place while the path is scanned. Tied to PathSpec.
 */
module WorkingDirectory {
  import opened Machine
  import opened PathSpec

  /** The first `length` characters of the buffer are the text of `stack`, and a NUL ends them. */
  ghost predicate Shows(output: array<char>, length: nat, stack: seq<string>)
    reads output
  {
    && output.Length == PATH_MAX + 1 && GoodStack(stack)
    && length == |Render(stack)| && output[..length] == Render(stack) && output[length] == '\0'
  }

  /** syscall_cwd_pop. */
  method CwdPop(output: array<char>, length: nat, ghost stack: seq<string>) returns (shorter: nat)
    requires Shows(output, length, stack)
    modifies output
    ensures Shows(output, shorter, if stack == [] then [] else stack[..|stack| - 1])
  {
    RootOr(stack);
    if length <= 1 {
      output[1] := '\0';
      return 1;
    }
    ghost var init, name := stack[..|stack| - 1], stack[|stack| - 1];
    PrefixFits(stack, |stack| - 1);
    LastName(stack);
    hide Render, GoodStack;
    shorter := length;
    while shorter > 1 && output[shorter - 1] != '/'
      invariant length - |name| <= shorter <= length
    {
      shorter := shorter - 1;
    }
    if shorter > 1 {
      shorter := shorter - 1;
    }
    output[shorter] := '\0';
    assert output[..shorter] == Render(stack)[..shorter];
  }

  /** syscall_cwd_append; on failure the buffer is worth nothing. */
  method CwdAppend(output: array<char>, length: nat, name: string, ghost stack: seq<string>) returns (longer: Option<nat>)
    requires Shows(output, length, stack)
    requires '/' !in name && '\0' !in name && name != "." && name != ".."
    modifies output
    ensures longer.Some? <==> 0 < |name| <= NAME_MAX && |Render(stack + [name])| <= PATH_MAX
    ensures longer.Some? ==> Shows(output, longer.value, stack + [name])
  {
    hide Render, GoodStack;
    RootOr(stack);
    if name != "" {
      AppendedIs(stack, name);
    }
    if |name| == 0 || NAME_MAX < |name| {
      return None;
    }
    if length > 1 && length >= PATH_MAX {
      return None;
    }
    var at := length;
    if at > 1 {
      output[at] := '/';
      at := at + 1;
    }
    if |name| > PATH_MAX - at {
      return None;
    }
    for i := 0 to |name|
      invariant output[..at] == Render(stack + [name])[..at]
      invariant forall j :: 0 <= j < i ==> output[at + j] == name[j]
    {
      output[at + i] := name[i];
    }
    output[at + |name|] := '\0';
    assert output[..at + |name|] == output[..at] + name;
    return Some(at + |name|);
  }

  lemma RootOr(stack: seq<string>)
    requires GoodStack(stack)
    ensures 1 <= |Render(stack)| && Render(stack)[0] == '/' && (|Render(stack)| == 1 <==> stack == [])
    ensures GoodStack([]) && Render([]) == "/"
  {
    TailLength(stack);
  }

  /** The text ends in a slash and the last name. */
  lemma LastName(stack: seq<string>)
    requires GoodStack(stack) && stack != []
    ensures var init, name, text := stack[..|stack| - 1], stack[|stack| - 1], Render(stack);
      var at := |text| - |name|;
      && 1 <= at && text[at..] == name && text[at - 1] == '/' && '/' !in name && name != ""
      && (if init == [] then at == 1 && Render(init) == text[..1] else 1 < at - 1 && Render(init) == text[..at - 1])
  {
    var init, name := stack[..|stack| - 1], stack[|stack| - 1];
    PrefixFits(stack, |stack| - 1);
    RenderAppend(init, name);
    assert init + [name] == stack && GoodName(name);
    RootOr(init);
  }

  lemma AppendedIs(stack: seq<string>, name: string)
    requires GoodStack(stack) && name != ""
    ensures Render(stack + [name]) == (if stack == [] then "" else Render(stack)) + "/" + name
    ensures GoodName(name) && |Render(stack + [name])| <= PATH_MAX ==> GoodStack(stack + [name])
  {
    RenderAppend(stack, name);
  }

  /** syscall_text_length: the characters before the NUL, at most `limit`. */
  method TextLength(text: array<char>, limit: nat) returns (n: nat)
    requires limit <= text.Length
    ensures n <= limit && (n < limit ==> text[n] == '\0') && forall j :: 0 <= j < n ==> text[j] != '\0'
  {
    n := 0;
    while n < limit && text[n] != '\0'
      invariant n <= limit && forall j :: 0 <= j < n ==> text[j] != '\0'
    {
      n := n + 1;
    }
  }

  /** process_get_cwd_text into the output buffer. */
  method CopyCwd(cwd: array<char>, output: array<char>)
    requires cwd != output && cwd.Length == output.Length
    modifies output
    ensures output[..] == cwd[..]
  {
    for i := 0 to cwd.Length
      invariant output[..i] == cwd[..i]
    {
      output[i] := cwd[i];
    }
  }

  /** Where the scan starts: at the root, or at the process's own directory. */
  method StartText(cwd: array<char>, path: string, output: array<char>, ghost current: nat, ghost here: seq<string>)
    returns (length: nat, index: nat)
    requires Shows(cwd, current, here) && output.Length == PATH_MAX + 1 && cwd != output
    modifies output
    ensures Shows(output, length, if Absolute(path) then [] else here)
    ensures index == (if Absolute(path) then 1 else 0) <= |path| && Components(path[index..]) == Components(path)
  {
    RootOr(here);
    CleanText(here);
    hide Render, GoodStack;
    if |path| != 0 && path[0] == '/' {
      output[0] := '/';
      output[1] := '\0';
      return 1, 1;
    }
    CopyCwd(cwd, output);
    assert output[..current] == cwd[..current] && output[current] == '\0';
    assert forall j :: 0 <= j < current ==> output[j] == Render(here)[j];
    length := TextLength(output, PATH_MAX);
    FirstNul(output[..], length, current);
    assert path[0..] == path;
    return length, 0;
  }

  /** The first NUL of a text is where it ends. */
  lemma FirstNul(text: seq<char>, n: nat, m: nat)
    requires n <= PATH_MAX && m <= PATH_MAX < |text|
    requires (forall j :: 0 <= j < n ==> text[j] != '\0') && (n < PATH_MAX ==> text[n] == '\0')
    requires (forall j :: 0 <= j < m ==> text[j] != '\0') && text[m] == '\0'
    ensures n == m
  {}

  lemma {:induction false} CleanTail(stack: seq<string>)
    requires forall k :: 0 <= k < |stack| ==> '\0' !in stack[k]
    ensures '\0' !in Tail(stack)
  {
    if stack != [] {
      CleanTail(stack[..|stack| - 1]);
    }
  }

  lemma CleanText(stack: seq<string>)
    requires GoodStack(stack)
    ensures '\0' !in Render(stack)
  {
    CleanTail(stack);
  }

  /** The next name of the path: skip slashes, then take characters up to a slash or the end. */
  method NextName(path: string, from: nat) returns (start: nat, end: nat)
    requires from <= |path|
    ensures from <= start <= end <= |path|
    ensures start == |path| ==> Components(path[from..]) == []
    ensures start < |path| ==>
      start < end && '/' !in path[start..end] && Components(path[from..]) == [path[start..end]] + Components(path[end..])
  {
    start := from;
    while start < |path| && path[start] == '/'
      invariant from <= start <= |path| && Components(path[from..]) == Components(path[start..])
    {
      assert path[start..][1..] == path[start + 1..];
      start := start + 1;
    }
    end := start;
    if start == |path| {
      return;
    }
    while end < |path| && path[end] != '/'
      invariant start <= end <= |path| && NameEnd(path[start..], 0) == NameEnd(path[start..], end - start)
    {
      end := end + 1;
    }
    assert NameEnd(path[start..], 0) == end - start;
    assert path[start..][..end - start] == path[start..end] && path[start..][end - start..] == path[end..];
  }

  /**
   syscall_build_canonical_cwd. It succeeds exactly when every step fits, and then the buffer
   shows the directory the path names.
   */
  method BuildCanonicalCwd(cwd: array<char>, path: string, output: array<char>, ghost current: nat, ghost here: seq<string>)
    returns (length: Option<nat>)
    requires Shows(cwd, current, here) && output.Length == PATH_MAX + 1 && cwd != output && '\0' !in path
    modifies output
    ensures length.Some? <==> Resolve(here, path).Some?
    ensures length.Some? ==> Shows(output, length.value, Resolve(here, path).value)
  {
    hide Shows, Move, Components, Render;
    var n, index := StartText(cwd, path, output, current, here);
    ghost var stack := if Absolute(path) then [] else here;
    while index < |path|
      invariant index <= |path| && Shows(output, n, stack)
      invariant Walk(stack, Components(path[index..])) == Resolve(here, path)
      decreases |path| - index
    {
      var start, end := NextName(path, index);
      if start == |path| {
        index := start;
        NoName();
        break;
      }
      var name := path[start..end];
      WalkStep(stack, name, Components(path[end..]));
      MoveIs(stack, name);
      index := end;
      if end - start == 1 && path[start] == '.' {
        assert name == ".";
        continue;
      }
      if end - start == 2 && path[start] == '.' && path[start + 1] == '.' {
        assert name == "..";
        n := CwdPop(output, n, stack);
        stack := if stack == [] then [] else stack[..|stack| - 1];
        continue;
      }
      assert |name| == end - start && name[0] == path[start] && (|name| == 2 ==> name[1] == path[start + 1]);
      assert name != "." && name != "..";
      var longer := CwdAppend(output, n, name, stack);
      if longer.None? {
        return None;
      }
      n := longer.value;
      stack := stack + [name];
    }
    assert path[index..] == "";
    NoName();
    return Some(n);
  }

  lemma NoName()
    ensures Components("") == []
  {}

  lemma WalkStep(stack: seq<string>, name: string, rest: seq<string>)
    ensures Walk(stack, [name] + rest) == match Move(stack, name) case None => None case Some(next) => Walk(next, rest)
  {
    assert ([name] + rest)[1..] == rest;
  }

  lemma MoveIs(stack: seq<string>, name: string)
    ensures Move(stack, name)
         == if name == "." then Some(stack)
            else if name == ".." then Some(if stack == [] then [] else stack[..|stack| - 1])
            else if 0 < |name| <= NAME_MAX && |Render(stack + [name])| <= PATH_MAX then Some(stack + [name]) else None
  {}
}
