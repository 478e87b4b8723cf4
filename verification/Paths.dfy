/** The three path normalisers: into a bounded buffer (initrd.c), in place (file_view.c), and
    without a leading slash (posix.c). */
module Paths {
  import opened PathSpec

  const PATH_MAX := 4096

  datatype Outcome = Resolved(path: string) | Invalid | NoMemory

  /** Where a walk starts: at the root for an absolute path. */
  function Start(stack: seq<string>, path: string): seq<string>
  {
    if path != "" && path[0] == '/' then [] else stack
  }

  // ---------- the buffer ----------

  lemma RenderSnoc(stack: seq<string>, name: string)
    ensures Render(stack + [name]) == (if stack == [] then "/" else Render(stack) + "/") + name
  {
    SlashedSnoc(stack, name);
  }

  lemma {:induction false} RenderLength(stack: seq<string>)
    requires Names(stack)
    ensures |Render(stack)| == 1 <==> stack == []
  {
    if stack != [] { assert |Render(stack)| == 1 + |stack[0]| + |Slashed(stack[1..])|; }
  }

  /** Drops the last name of a canonical path. */
  method Up(out: array<char>, length: nat, ghost stack: seq<string>) returns (n: nat)
    requires Names(stack) && length <= out.Length && out[..length] == Render(stack)
    ensures n <= length && out[..n] == Render(Enter(stack, ".."))
  {
    ghost var k := if stack == [] then 0 else |Slashed(stack[..|stack| - 1])|;
    LastSlash(stack);
    assert forall i | 0 <= i < length :: out[i] == Render(stack)[i];
    n := length;
    while n > 1 && out[n - 1] != '/'
      invariant k < n <= length
    {
      n := n - 1;
    }
    assert n == k + 1;
    if n > 1 { n := n - 1; }
    assert out[..n] == out[..length][..n];
  }

  /** The last slash of a canonical path is the one before its last name. */
  lemma LastSlash(stack: seq<string>)
    requires Names(stack)
    ensures stack == [] ==> Render(stack) == "/"
    ensures stack != [] ==>
              var s, front := Render(stack), stack[..|stack| - 1];
              var k := |Slashed(front)|;
              && k + 1 < |s| && s[k] == '/' && s[..k] == Slashed(front) && (k == 0 <==> front == [])
              && forall i | k < i < |s| :: s[i] != '/'
  {
    if stack != [] {
      var front, last := stack[..|stack| - 1], stack[|stack| - 1];
      assert stack == front + [last] && Name(last);
      SlashedSnoc(front, last);
      var s, k := Render(stack), |Slashed(front)|;
      assert s == Slashed(front) + "/" + last;
      assert forall i | k < i < |s| :: s[i] == last[i - k - 1] && last[i - k - 1] in last;
      if front != [] { assert Slashed(front) == "/" + front[0] + Slashed(front[1..]); }
    }
  }

  method Copy(out: array<char>, length: nat, name: string) returns (n: nat)
    requires length + |name| <= out.Length
    modifies out
    ensures n == length + |name| && out[..n] == old(out[..length]) + name
  {
    forall i | 0 <= i < |name| {
      out[length + i] := name[i];
    }
    n := length + |name|;
  }

  /** Appends a name to a canonical path. */
  method Down(out: array<char>, length: nat, name: string, ghost stack: seq<string>) returns (n: nat)
    requires Names(stack + [name]) && length <= out.Length && out[..length] == Render(stack)
    requires |Render(stack + [name])| <= out.Length
    modifies out
    ensures n <= out.Length && out[..n] == Render(stack + [name])
  {
    hide Render;
    assert Names(stack) by { assert forall i | 0 <= i < |stack| :: (stack + [name])[i] == stack[i]; }
    RenderSnoc(stack, name);
    RenderLength(stack);
    n := length;
    if length != 1 {
      out[n] := '/';
      n := n + 1;
    }
    ghost var front := out[..n];
    assert front == if stack == [] then "/" else Render(stack) + "/";
    n := Copy(out, n, name);
  }

  // ---------- the bounded normaliser ----------

  /** Somewhere along the walk the canonical path gets longer than max. */
  predicate TooLong(stack: seq<string>, path: string, max: nat)
    decreases |path|
  {
    var n := NameEnd(path);
    var next := Enter(stack, path[..n]);
    |Render(next)| > max || (n < |path| && TooLong(next, path[n + 1..], max))
  }

  lemma TooLongSlash(stack: seq<string>, s: string, max: nat)
    requires s != "" && s[0] == '/' && |Render(stack)| <= max
    ensures TooLong(stack, s, max) <==> TooLong(stack, s[1..], max)
  {
    assert NameEnd(s) == 0 && s[..0] == "";
  }

  lemma TooLongName(stack: seq<string>, name: string, rest: string, max: nat)
    requires '/' !in name && (rest == "" || rest[0] == '/')
    ensures TooLong(stack, name + rest, max) <==>
            var next := Enter(stack, name); |Render(next)| > max || TooLong(next, rest, max)
  {
    NameEndOf(name, rest);
    var next := Enter(stack, name);
    if rest == "" {
      assert name + rest == name && name[..|name|] == name;
    } else {
      assert (name + rest)[..|name|] == name && (name + rest)[|name| + 1..] == rest[1..];
      if |Render(next)| <= max { TooLongSlash(next, rest, max); }
    }
  }

  lemma {:induction false} TooLongNext(stack: seq<string>, path: string, offset: nat, start: nat, end: nat, max: nat)
    requires offset <= start <= end <= |path| && |Render(stack)| <= max
    requires forall i | offset <= i < start :: path[i] == '/'
    requires forall i | start <= i < end :: path[i] != '/'
    requires end < |path| ==> path[end] == '/'
    ensures TooLong(stack, path[offset..], max) <==>
            var next := Enter(stack, path[start..end]); |Render(next)| > max || TooLong(next, path[end..], max)
    decreases start - offset
  {
    hide TooLong, Render, Enter;
    if offset < start {
      TooLongSlash(stack, path[offset..], max);
      assert path[offset..][1..] == path[offset + 1..];
      TooLongNext(stack, path, offset + 1, start, end, max);
    } else {
      TooLongName(stack, path[start..end], path[end..], max);
      assert path[offset..] == path[start..end] + path[end..];
    }
  }

  lemma UpShorter(stack: seq<string>)
    requires Names(stack)
    ensures |Render(Enter(stack, ".."))| <= |Render(stack)|
  {
    LastSlash(stack);
  }

  /** A path whose length and base leave room is never too long. */
  lemma {:induction false} ShortFits(stack: seq<string>, path: string, max: nat)
    requires Names(stack) && |Render(stack)| + 1 + |path| <= max
    ensures !TooLong(stack, path, max)
    decreases |path|
  {
    var n := NameEnd(path);
    var name := path[..n];
    var next := Enter(stack, name);
    if name == ".." { UpShorter(stack); } else { RenderSnoc(stack, name); }
    if n < |path| { ShortFits(next, path[n + 1..], max); }
  }

  /** Skips slashes, then runs over a name. */
  method NextName(path: string, offset: nat) returns (start: nat, end: nat)
    requires offset <= |path|
    ensures offset <= start <= end <= |path|
    ensures forall i | offset <= i < start :: path[i] == '/'
    ensures forall i | start <= i < end :: path[i] != '/'
    ensures end < |path| ==> path[end] == '/' && start < end
    ensures offset < |path| ==> offset < end
  {
    start := offset;
    while start < |path| && path[start] == '/'
      invariant offset <= start <= |path|
      invariant forall i | offset <= i < start :: path[i] == '/'
    {
      start := start + 1;
    }
    end := start;
    while end < |path| && path[end] != '/'
      invariant start <= end <= |path|
      invariant forall i | start <= i < end :: path[i] != '/'
    {
      end := end + 1;
    }
  }

  /** One name: skipped, a step up, or appended if it fits. */
  method EnterBounded(output: array<char>, length: nat, name: string, ghost at: seq<string>)
    returns (ok: bool, n: nat)
    requires output.Length == PATH_MAX + 1 && length <= PATH_MAX && '/' !in name
    requires Names(at) && output[..length] == Render(at)
    modifies output
    ensures ok <==> |Render(Enter(at, name))| <= PATH_MAX
    ensures ok ==> n <= PATH_MAX && Names(Enter(at, name)) && output[..n] == Render(Enter(at, name))
  {
    hide Render;
    ok, n := true, length;
    if name == "" || name == "." { return; }
    if name == ".." {
      UpShorter(at);
      n := Up(output, length, at);
    } else {
      RenderSnoc(at, name);
      RenderLength(at);
      NoNames();
      var separator := if length == 1 then 0 else 1;
      if length + separator > PATH_MAX || |name| > PATH_MAX - (length + separator) { return false, length; }
      n := Down(output, length, name, at);
    }
  }

  lemma NoNames()
    ensures Render([]) == "/"
  {
  }

  lemma EndOfWalk()
    ensures forall stack :: Walk(stack, "") == stack
    ensures forall stack, max: nat :: TooLong(stack, "", max) <==> |Render(stack)| > max
  {
  }

  /** resolve_path of the initrd, against the canonical path of a directory: the canonical path
      the walk leads to, refused exactly if the input is empty, has a NUL or is longer than
      PATH_MAX, or the output gets longer than that on the way. */
  method ResolvePath(base: string, path: string, ghost stack: seq<string>) returns (r: Outcome)
    requires Names(stack) && base == Render(stack)
    ensures r != NoMemory ==>
              (r.Invalid? <==>
               || path == "" || |path| > PATH_MAX || '\0' in path
               || |Render(Start(stack, path))| > PATH_MAX || TooLong(Start(stack, path), path, PATH_MAX))
    ensures r.Resolved? ==> r.path == Render(Walk(Start(stack, path), path)) && |r.path| <= PATH_MAX
  {
    hide TooLong, Walk, Render;
    if path == "" || |path| > PATH_MAX || '\0' in path { return Invalid; }
    ghost var at := Start(stack, path);
    var granted: bool := *;
    if !granted { return NoMemory; }
    var output := new char[PATH_MAX + 1];
    var length: nat;
    if path[0] == '/' {
      output[0] := '/';
      length := 1;
      NoNames();
    } else {
      if |base| > PATH_MAX { return Invalid; }
      length := Copy(output, 0, base);
      assert output[..0] + base == base;
    }
    assert output[..length] == Render(at);
    EndOfWalk();
    var offset := 0;
    while offset < |path|
      invariant offset <= |path| && length <= PATH_MAX && Names(at) && output[..length] == Render(at)
      invariant Walk(Start(stack, path), path) == Walk(at, path[offset..])
      invariant TooLong(Start(stack, path), path, PATH_MAX) <==> TooLong(at, path[offset..], PATH_MAX)
    {
      var start, end := NextName(path, offset);
      var name := path[start..end];
      WalkNext(at, path, offset, start, end);
      TooLongNext(at, path, offset, start, end, PATH_MAX);
      offset := end;
      var ok;
      ok, length := EnterBounded(output, length, name, at);
      if !ok { return Invalid; }
      at := Enter(at, name);
    }
    assert path[offset..] == "";
    r := Resolved(output[..length]);
  }

  // ---------- the in-place normaliser ----------

  /** A C string: what comes before the first NUL. */
  function CString(s: string): (c: string)
    ensures c <= s && '\0' !in c && (c != s ==> s[|c|] == '\0')
  {
    if s == "" || s[0] == '\0' then "" else [s[0]] + CString(s[1..])
  }

  lemma {:induction false} CStringWhole(s: string)
    requires '\0' !in s
    ensures CString(s) == s
  {
    if s != "" {
      assert s[0] in s;
      CStringWhole(s[1..]);
    }
  }

  /** Moves n characters down, front to back. */
  method CopyDown(a: array<char>, write: nat, part: nat, n: nat)
    requires write <= part && part + n <= a.Length
    modifies a
    ensures a[write..write + n] == old(a[part..part + n])
    ensures a[..write] == old(a[..write]) && a[part + n..] == old(a[part + n..])
  {
    for i := 0 to n
      invariant forall k | write <= k < write + i :: a[k] == old(a[part + k - write])
      invariant forall k | part + i <= k < a.Length :: a[k] == old(a[k])
      invariant forall k | 0 <= k < write :: a[k] == old(a[k])
    {
      a[write + i] := a[part + i];
    }
  }

  /** What has been written for a place: nothing yet, or its canonical path. */
  ghost predicate Written(s: string, at: seq<string>)
  {
    (s == "" && at == []) || s == Render(at)
  }

  /** Appends the name that starts at part; the write cursor stays behind the name's end. */
  method DownInPlace(a: array<char>, write: nat, part: nat, n: nat, ghost at: seq<string>) returns (next: nat)
    requires write < part && part + n <= a.Length && Names(at) && Written(a[..write], at) && Name(a[part..part + n])
    modifies a
    ensures next <= part + n && a[..next] == Render(at + [old(a[part..part + n])])
    ensures a[part + n..] == old(a[part + n..])
  {
    hide Render, Written, Names, Name;
    ghost var name, rest := a[part..part + n], a[part + n..];
    RenderSnoc(at, name);
    next := AddSlash(a, write, at);
    assert a[part..part + n] == a[part..][..n] == name && a[part + n..] == a[part..][n..] == rest;
    CopyDown(a, next, part, n);
    assert a[..next + n] == a[..next] + a[next..next + n];
    next := next + n;
  }

  /** A slash behind a canonical path that does not end in one. */
  method AddSlash(a: array<char>, write: nat, ghost at: seq<string>) returns (next: nat)
    requires write < a.Length && Names(at) && Written(a[..write], at)
    modifies a
    ensures next <= write + 1 && a[..next] == if at == [] then "/" else Render(at) + "/"
    ensures a[write + 1..] == old(a[write + 1..])
    ensures forall k | write < k <= a.Length :: a[k..] == old(a[k..])
  {
    RenderEnd(at);
    NoNames();
    hide Render;
    next := write;
    assert write > 0 ==> a[write - 1] == a[..write][write - 1];
    if next == 0 || a[next - 1] != '/' {
      a[next] := '/';
      next := next + 1;
    }
  }

  /** Only the root's canonical path ends in a slash. */
  lemma RenderEnd(at: seq<string>)
    requires Names(at)
    ensures Render(at)[|Render(at)| - 1] == '/' <==> at == []
  {
    LastSlash(at);
  }

  /** One name: skipped, a step up, or appended. */
  method EnterInPlace(a: array<char>, write: nat, part: nat, end: nat, ghost at: seq<string>) returns (next: nat)
    requires write < part <= end <= a.Length && Names(at) && Written(a[..write], at)
    requires forall i | part <= i < end :: a[i] != '/'
    modifies a
    ensures next <= end && Names(Enter(at, old(a[part..end]))) && Written(a[..next], Enter(at, old(a[part..end])))
    ensures forall i | end <= i < a.Length :: a[i] == old(a[i])
  {
    hide Render;
    next := write;
    var count := end - part;
    ghost var name := a[part..end];
    if count == 0 || (count == 1 && a[part] == '.') {
      assert Enter(at, name) == at;
    } else if count == 2 && a[part] == '.' && a[part + 1] == '.' {
      assert name == "..";
      if next > 1 {
        next := Up(a, next, at);
      } else {
        ShortAtRoot(at, a[..next]);
      }
    } else {
      assert Name(name) by {
        assert count == 1 ==> name[0] != '.';
        assert count == 2 ==> name[0] != '.' || name[1] != '.';
      }
      next := DownInPlace(a, next, part, count, at);
      assert forall i | end <= i < a.Length :: a[i] == a[end..][i - end];
    }
  }

  /** Finds the next name of the unread part of the buffer. */
  method NextPart(a: array<char>, scan: nat, ghost path: string) returns (part: nat, end: nat)
    requires scan < |path| < a.Length && path[scan] == '/' && '\0' !in path
    requires a[|path|] == '\0' && forall i | scan <= i < |path| :: a[i] == path[i]
    ensures scan < part <= end <= |path|
    ensures forall i | scan <= i < part :: path[i] == '/'
    ensures forall i | part <= i < end :: path[i] != '/'
    ensures end < |path| ==> path[end] == '/'
  {
    assert forall i | 0 <= i < |path| :: path[i] in path;
    part := scan;
    while a[part] == '/'
      invariant scan <= part <= |path|
      invariant forall i | scan <= i < part :: path[i] == '/'
      decreases |path| - part
    {
      part := part + 1;
    }
    end := part;
    while a[end] != '\0' && a[end] != '/'
      invariant part <= end <= |path|
      invariant forall i | part <= i < end :: path[i] != '/'
      decreases |path| - end
    {
      end := end + 1;
    }
  }

  /** The loop of directory_open: the canonical path replaces the C string in the buffer. */
  method NormaliseInPlace(a: array<char>, ghost path: string) returns (n: nat)
    requires path != "" && path[0] == '/' && '\0' !in path
    requires |path| < a.Length && a[..|path|] == path && a[|path|] == '\0'
    modifies a
    ensures n < a.Length && a[..n] == Render(Walk([], path)) && a[n] == '\0'
    ensures n <= |path|
  {
    hide Walk, Render;
    EndOfWalk();
    NoNames();
    var scan: nat, write: nat := 0, 0;
    ghost var at, L := [], |path|;
    assert path[0..] == path;
    assert forall i | 0 <= i < L :: path[i] in path;
    while a[scan] != '\0'
      invariant write <= scan <= L && (scan < L ==> path[scan] == '/')
      invariant forall i | scan <= i < L :: a[i] == path[i]
      invariant a[L] == '\0'
      invariant Names(at) && Written(a[..write], at)
      invariant Walk([], path) == Walk(at, path[scan..])
      decreases L - scan
    {
      ghost var offset := scan;
      var part;
      part, scan := NextPart(a, scan, path);
      WalkNext(at, path, offset, part, scan);
      ghost var name := path[part..scan];
      assert a[part..scan] == name;
      write := EnterInPlace(a, write, part, scan, at);
      at := Enter(at, name);
    }
    assert path[scan..] == "";
    n := write;
    if n == 0 {
      a[n] := '/';
      n := n + 1;
    }
    assert a[..n] == Render(at);
    a[n] := '\0';
  }

  lemma ShortAtRoot(at: seq<string>, s: string)
    requires Names(at) && Written(s, at) && |s| <= 1
    ensures at == []
  {
    RenderLength(at);
  }

  lemma {:induction false} CStringConcat(s: string, t: string)
    requires '\0' !in s
    ensures CString(s + t) == s + CString(t)
  {
    if s == "" {
      assert s + t == t && "" + CString(t) == CString(t);
    } else {
      assert s[0] in s && (s + t)[1..] == s[1..] + t;
      CStringConcat(s[1..], t);
    }
  }

  lemma WalkFromBase(stack: seq<string>, path: string)
    requires Names(stack)
    ensures Walk([], Render(stack) + "/" + path) == Walk(stack, path)
  {
    WalkConcat([], Render(stack), path);
    WalkRender(stack);
  }

  /** The path directory_open looks up, against the canonical path of its node. */
  method CandidatePath(base: string, path: string, ghost stack: seq<string>) returns (r: string)
    requires Names(stack) && base == Render(stack) && '\0' !in base && path != ""
    ensures r == Render(Walk(Start(stack, path), CString(path)))
  {
    hide Walk, Render, CString;
    var absolute := path[0] == '/';
    var length := (if absolute then 0 else |base| + 1) + |path|;
    var candidate := new char[length + 1];
    ghost var text;
    if absolute {
      text := path;
      var n := Copy(candidate, 0, path);
      assert candidate[..0] + path == path;
      assert text[0] == '/';
      CStringStart(path);
    } else {
      text := base + "/" + path;
      var n := Copy(candidate, 0, base);
      assert candidate[..0] + base == base;
      candidate[n] := '/';
      n := n + 1;
      assert candidate[..n] == base + "/";
      n := Copy(candidate, n, path);
      assert '\0' !in base + "/";
      CStringConcat(base + "/", path);
      WalkFromBase(stack, CString(path));
    }
    candidate[length] := '\0';
    assert candidate[..length] == text;
    ghost var c := CString(text);
    assert candidate[..|c|] == text[..|c|] == c && candidate[|c|] == '\0' by {
      assert c != text ==> text[|c|] == '\0';
    }
    var n := NormaliseInPlace(candidate, c);
    r := candidate[..n];
  }

  lemma CStringStart(s: string)
    requires s != "" && s[0] != '\0'
    ensures CString(s) != "" && CString(s)[0] == s[0]
  {
  }

  // ---------- the rootless normaliser ----------

  /** The last slash of a relative path is the one before its last name. */
  lemma LastRelativeSlash(stack: seq<string>)
    requires Names(stack)
    ensures stack != [] ==>
              var s, front := Relative(stack), stack[..|stack| - 1];
              var k := |Relative(front)|;
              && s != "" && k < |s| && s[..k] == Relative(front)
              && (front != [] ==> k > 0 && s[k] == '/')
              && forall i | (if front == [] then 0 else k + 1) <= i < |s| :: s[i] != '/'
  {
    LastSlash(stack);
    if stack != [] {
      var front, last := stack[..|stack| - 1], stack[|stack| - 1];
      assert stack == front + [last] && Name(last);
      RelativeSnoc(front, last);
      assert forall i | 0 <= i < |last| :: last[i] in last;
      if front != [] { RenderLength(front); }
    }
  }

  method UpRelative(out: array<char>, length: nat, ghost stack: seq<string>) returns (n: nat)
    requires Names(stack) && length <= out.Length && out[..length] == Relative(stack)
    ensures n <= length && out[..n] == Relative(Enter(stack, ".."))
  {
    hide Relative;
    LastRelativeSlash(stack);
    NoRelative(stack);
    ghost var front := Enter(stack, "..");
    ghost var k := if front == [] then 0 else |Relative(front)| + 1;
    assert forall i | 0 <= i < length :: out[i] == Relative(stack)[i];
    n := length;
    while n != 0 && out[n - 1] != '/'
      invariant k <= n <= length
    {
      n := n - 1;
    }
    assert n == k;
    if n != 0 { n := n - 1; }
    assert out[..n] == out[..length][..n];
  }

  lemma NoRelative(stack: seq<string>)
    requires Names(stack)
    ensures Relative([]) == "" && (Relative(stack) == "" <==> stack == [])
  {
    LastRelativeSlash(stack);
  }

  /** normalize_components: walks on from what the buffer holds; it grows by at most one
      character more than the input. */
  method NormalizeComponents(out: array<char>, used: nat, input: string, ghost start: seq<string>) returns (n: nat)
    requires Names(start) && used + 1 + |input| <= out.Length && out[..used] == Relative(start)
    modifies out
    ensures n <= (if used == 0 then 0 else used + 1) + |input|
    ensures Names(Walk(start, input)) && out[..n] == Relative(Walk(start, input))
  {
    hide Walk, Relative;
    EndOfWalk();
    n := used;
    ghost var at := start;
    ghost var slack := if used == 0 then 0 else used + 1;
    var position: nat := 0;
    assert input[0..] == input;
    while position < |input|
      invariant position <= |input| && n <= out.Length && Names(at) && out[..n] == Relative(at)
      invariant Walk(start, input) == Walk(at, input[position..])
      invariant n <= slack + position
      invariant position == 0 ==> n == used
      invariant 0 < position < |input| ==> input[position] == '/'
    {
      var first, end := NextName(input, position);
      WalkNext(at, input, position, first, end);
      n := EnterRelative(out, n, input[first..end], at);
      at := Enter(at, input[first..end]);
      position := end;
    }
    assert input[position..] == "";
  }

  method EnterRelative(out: array<char>, length: nat, name: string, ghost at: seq<string>) returns (n: nat)
    requires length + 1 + |name| <= out.Length && '/' !in name
    requires Names(at) && out[..length] == Relative(at)
    modifies out
    ensures n <= (if length == 0 then 0 else length + 1) + |name| || n <= length
    ensures n <= out.Length && Names(Enter(at, name)) && out[..n] == Relative(Enter(at, name))
  {
    hide Relative;
    n := length;
    if name == "" || name == "." { return; }
    if name == ".." {
      n := UpRelative(out, length, at);
    } else {
      RelativeSnoc(at, name);
      NoRelative(at);
      if n != 0 {
        out[n] := '/';
        n := n + 1;
      }
      assert out[..n] == if at == [] then "" else Relative(at) + "/";
      n := Copy(out, n, name);
    }
  }

  /** normalize_beneath_root: base and path are both relative to the root; the buffer of
      base + path + 2 characters is enough. */
  method NormalizeBeneathRoot(base: string, path: string) returns (r: string)
    ensures var st := Walk(Walk([], base), path);
            Names(st) && r == if st == [] then "." else Relative(st)
  {
    hide Walk, Relative;
    var normalized := new char[|base| + |path| + 2];
    NoRelative([]);
    assert normalized[..0] == Relative([]);
    var used := NormalizeComponents(normalized, 0, base, []);
    used := NormalizeComponents(normalized, used, path, Walk([], base));
    NoRelative(Walk(Walk([], base), path));
    if used == 0 {
      normalized[used] := '.';
      used := used + 1;
    }
    normalized[used] := '\0';
    r := normalized[..used];
    assert used == 1 ==> r == [normalized[0]];
  }

  // ---------- they agree ----------

  /** For NUL-free paths and a canonical base all three compute the same walk: the rootless
      result is the canonical path without its slash, and resolving a result changes nothing. */
  lemma Agree(stack: seq<string>, path: string)
    requires Names(stack) && '\0' !in path
    ensures var st := Walk(Start(stack, path), path);
            && Names(st)
            && Render(st) == "/" + Relative(st)
            && Render(Walk(Start(stack, path), CString(path))) == Render(st)
            && Walk(Walk([], Relative(stack)), path) == Walk(stack, path)
            && (forall other :: Walk(Start(other, Render(st)), Render(st)) == st)
            && Walk([], Relative(st)) == st
  {
    hide Walk, Render, Relative, CString, Names;
    CStringWhole(path);
    WalkNames(Start(stack, path), path);
    var st := Walk(Start(stack, path), path);
    WalkRelative([], stack);
    WalkRelative([], st);
    assert [] + stack == stack && [] + st == st;
    RenderRelative(st);
    WalkRender(st);
  }
}
