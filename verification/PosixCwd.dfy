/** The working directory of a POSIX view whose root is a directory of the initrd. */
module PosixCwd {
  import opened Bytes
  import opened PathSpec
  import opened Paths

  /** What opening a directory comes to. */
  datatype Opened = Granted | Missing | Denied

  datatype Call = Call(path: string, answer: Opened)

  datatype Errno = Success | NoEntry | NoAccess | BadArgument

  // ---------- path_beneath ----------

  /** path_beneath: where the part below the root starts. */
  function Beneath(path: string, root: string): Option<nat>
  {
    if |path| < |root| then None
    else if root == "/" && path[0] == '/' then Some(1)
    else if path[..|root|] != root then None
    else if |path| == |root| then Some(|root|)
    else if path[|root|] != '/' then None
    else Some(|root| + 1)
  }

  lemma {:induction false} SlashedPrefix(x: seq<string>, r: seq<string>, rest: string)
    requires Names(x) && Names(r) && Slashed(x) == Slashed(r) + rest && (rest == "" || rest[0] == '/')
    ensures r <= x
    decreases |r|
  {
    hide NameEnd, Slashed;
    if r != [] {
      SlashedCons(r);
      SlashFirst(x);
      var tail := Slashed(r[1..]) + rest;
      SlashFirst(x[1..]);
      SlashFirst(r[1..]);
      SlashedCons(x);
      SlashedCons(r);
      assert "/" + (r[0] + Slashed(r[1..])) + rest == "/" + (r[0] + tail);
      SameFirst("/", x[0] + Slashed(x[1..]), r[0] + tail);
      FirstName(x[0], Slashed(x[1..]), r[0], tail);
      SlashedPrefix(x[1..], r[1..], rest);
      assert x == [x[0]] + x[1..] && r == [r[0]] + r[1..];
    }
  }

  lemma SameFirst(a: string, s: string, t: string)
    requires a + s == a + t
    ensures s == t
  {
    assert s == (a + s)[|a|..] && t == (a + t)[|a|..];
  }

  /** A name in front of a slash or the end is determined. */
  lemma FirstName(a: string, s: string, b: string, t: string)
    requires '/' !in a && '/' !in b && a + s == b + t
    requires (s == "" || s[0] == '/') && (t == "" || t[0] == '/')
    ensures a == b && s == t
  {
    NameEndOf(a, s);
    NameEndOf(b, t);
    assert a == (a + s)[..|a|] && b == (b + t)[..|b|];
    SameFirst(a, s, t);
  }

  /** For canonical paths the string test decides containment, and what follows the offset is
      the path relative to the root. */
  lemma BeneathIff(x: seq<string>, r: seq<string>)
    requires Names(x) && Names(r)
    ensures Beneath(Render(x), Render(r)).Some? <==> r <= x
    ensures r <= x ==>
              var k := Beneath(Render(x), Render(r)).value;
              k <= |Render(x)| && Render(x)[k..] == Relative(x[|r|..])
  {
    hide Beneath, Render, Relative;
    if r <= x {
      BeneathRelative(x, r);
    } else if Beneath(Render(x), Render(r)).Some? {
      BeneathPrefix(x, r);
    }
  }

  lemma BeneathPrefix(x: seq<string>, r: seq<string>)
    requires Names(x) && Names(r) && Beneath(Render(x), Render(r)).Some?
    ensures r <= x
  {
    hide Slashed, Beneath, Names;
    if r != [] {
      var rest := BeneathRest(x, r);
      SlashedPrefix(x, r, rest);
    }
  }

  /** A path beneath another starts with it, up to a slash or the end. */
  lemma BeneathRest(x: seq<string>, r: seq<string>) returns (rest: string)
    requires Names(x) && Names(r) && r != [] && Beneath(Render(x), Render(r)).Some?
    ensures Slashed(x) == Slashed(r) + rest && (rest == "" || rest[0] == '/')
  {
    RenderLength(r);
    hide Slashed, Names;
    var s, t := Render(x), Render(r);
    rest := s[|t|..];
    assert s == t + rest;
    RenderSlashed(x, r, rest);
  }

  lemma RenderSlashed(x: seq<string>, r: seq<string>, rest: string)
    requires Names(x) && Names(r) && r != [] && Render(x) == Render(r) + rest
    ensures Slashed(x) == Slashed(r) + rest
  {
    RenderLength(r);
  }

  lemma BeneathRelative(x: seq<string>, r: seq<string>)
    requires Names(x) && Names(r) && r <= x
    ensures var k := Beneath(Render(x), Render(r));
            k.Some? && k.value <= |Render(x)| && Render(x)[k.value..] == Relative(x[|r|..])
  {
    var t := x[|r|..];
    assert x == r + t;
    RenderLength(r);
    if r == [] {
      assert t == x;
    } else {
      SlashedConcat(r, t);
      SlashFirst(t);
      assert Relative(t) == if t == [] then "" else Slashed(t)[1..];
      assert Render(x) == Slashed(x) && Render(r) == Slashed(r);
      hide Slashed, Render, Relative, Names;
      BeneathTail(Render(x), Render(r), Slashed(t));
    }
  }

  lemma BeneathTail(path: string, root: string, tail: string)
    requires |root| > 1 && path == root + tail && (tail == "" || tail[0] == '/')
    ensures var k := Beneath(path, root);
            && k.Some? && k.value <= |path|
            && path[k.value..] == if tail == "" then "" else tail[1..]
  {
    assert path[..|root|] == root;
  }

  // ---------- where a call leads ----------

  function OrDot(place: seq<string>): string
  {
    if place == [] then "." else Relative(place)
  }

  /** The directory a change_directory opens: the path is walked below the root, from the
      working directory if that is there, and the result is looked up from the root as a C
      string; a working directory elsewhere is the base itself. */
  function Target(root: seq<string>, cwd: seq<string>, path: string): seq<string>
  {
    if (path != "" && path[0] == '/') || root <= cwd then
      var place := if root <= cwd then cwd[|root|..] else [];
      Walk(root, CString(OrDot(Walk(Start(place, path), path))))
    else
      Walk(cwd, CString(path))
  }

  predicate NulFree(stack: seq<string>)
  {
    forall i | 0 <= i < |stack| :: '\0' !in stack[i]
  }

  lemma {:induction false} WalkNulFree(stack: seq<string>, path: string)
    requires NulFree(stack) && '\0' !in path
    ensures NulFree(Walk(stack, path))
    decreases |path|
  {
    var n := NameEnd(path);
    assert forall c | c in path[..n] :: c in path;
    if n < |path| {
      assert forall c | c in path[n + 1..] :: c in path;
      WalkNulFree(Enter(stack, path[..n]), path[n + 1..]);
    }
  }

  lemma {:induction false} SlashedNulFree(stack: seq<string>)
    requires NulFree(stack)
    ensures '\0' !in Slashed(stack)
  {
    if stack != [] { SlashedNulFree(stack[1..]); }
  }

  lemma OrDotNulFree(place: seq<string>)
    requires NulFree(place)
    ensures '\0' !in OrDot(place)
  {
    SlashedNulFree(place);
  }

  lemma WalkOrDot(root: seq<string>, place: seq<string>)
    requires Names(place)
    ensures Walk(root, OrDot(place)) == root + place
  {
    if place == [] {
      assert NameEnd(".") == 1 && root + [] == root;
    } else {
      WalkRelative(root, place);
    }
  }

  /** A path without NULs leads to a place at or below the root: to the root followed by the
      path's own root-clamped walk. */
  lemma TargetBelow(root: seq<string>, place: seq<string>, path: string)
    requires Names(root) && Names(place) && NulFree(place) && '\0' !in path
    ensures Target(root, root + place, path) == root + Walk(Start(place, path), path)
  {
    assert (root + place)[|root|..] == place && root <= root + place;
    var st := Walk(Start(place, path), path);
    WalkNames(Start(place, path), path);
    WalkNulFree(Start(place, path), path);
    OrDotNulFree(st);
    CStringWhole(OrDot(st));
    WalkOrDot(root, st);
  }

  /** From a working directory outside the root, an absolute path still leads below the root, and a
      relative one anywhere it says. */
  lemma TargetOutside(root: seq<string>, cwd: seq<string>, path: string)
    requires Names(root) && !(root <= cwd) && '\0' !in path
    ensures Target(root, cwd, path) ==
            if path != "" && path[0] == '/' then root + Walk([], path) else Walk(cwd, path)
  {
    if path != "" && path[0] == '/' {
      var st := Walk([], path);
      WalkNames([], path);
      WalkNulFree([], path);
      OrDotNulFree(st);
      CStringWhole(OrDot(st));
      WalkOrDot(root, st);
    } else {
      CStringWhole(path);
    }
  }

  // ---------- exactly when it does not ----------

  /** A walk stays below where it started if what it walks is names. */
  lemma WalkStays(root: seq<string>, place: seq<string>, tail: string)
    requires Names(root) && Names(place) && '/' !in tail
    ensures root <= Walk(root, CutPath(place, tail)) <==> (place != [] || tail != ".." || root == [])
  {
    hide Walk, NameEnd, Slashed, Relative;
    if place == [] {
      WalkLast(root, tail);
    } else {
      WalkRelative(root, place);
      WalkConcat(root, Relative(place), tail);
      WalkLast(root + place, tail);
      assert Enter(root + place, "..") == root + place[..|place| - 1];
    }
  }

  lemma WalkLast(stack: seq<string>, name: string)
    requires '/' !in name
    ensures Walk(stack, name) == Enter(stack, name)
  {
    NameEndOf(name, "");
    assert name + "" == name && name[..|name|] == name;
  }

  /** Whole names and then a cut one. */
  function CutPath(place: seq<string>, tail: string): string
  {
    if place == [] then tail else Relative(place) + "/" + tail
  }

  /** Cutting a canonical relative path at its first NUL leaves whole names and a part of one. */
  lemma {:induction false} CutRelative(place: seq<string>) returns (kept: seq<string>, tail: string)
    requires Names(place)
    ensures Names(kept) && '/' !in tail && CString(OrDot(place)) == CutPath(kept, tail)
    decreases |place|
  {
    hide CString, Relative;
    if place == [] {
      kept, tail := [], ".";
      CStringWhole(".");
    } else {
      var front, last := place[..|place| - 1], place[|place| - 1];
      assert place == front + [last] && Name(last);
      RelativeSnoc(front, last);
      kept, tail := [], CString(last);
      assert forall c | c in tail :: c in last;
      if front != [] {
        var s := Relative(front) + "/";
        if '\0' in Relative(front) {
          kept, tail := CutRelative(front);
          assert '\0' in s;
          CStringPrefix(Relative(front), "/" + last);
          assert Relative(front) + ("/" + last) == s + last;
        } else {
          kept := front;
          CStringConcat(s, last);
        }
      }
    }
  }

  lemma {:induction false} CStringPrefix(s: string, t: string)
    requires '\0' in s
    ensures CString(s + t) == CString(s)
  {
    if s[0] != '\0' {
      assert '\0' in s[1..];
      assert (s + t)[1..] == s[1..] + t;
      CStringPrefix(s[1..], t);
    }
  }

  /** From below the root, a call leads out if and only if the root is not "/" and the walked
      path, read as a C string, is "..": its first name is ".." followed by a NUL. */
  lemma TargetBelowIff(root: seq<string>, place: seq<string>, path: string)
    requires Names(root) && Names(place)
    ensures root <= Target(root, root + place, path) <==>
            (root == [] || CString(OrDot(Walk(Start(place, path), path))) != "..")
  {
    assert (root + place)[|root|..] == place && root <= root + place;
    var st := Walk(Start(place, path), path);
    WalkNames(Start(place, path), path);
    var kept, tail := CutRelative(st);
    WalkStays(root, kept, tail);
    CutIsUp(kept, tail);
  }

  lemma CutIsUp(kept: seq<string>, tail: string)
    requires Names(kept)
    ensures CutPath(kept, tail) == ".." <==> (kept == [] && tail == "..")
  {
    if kept != [] {
      var k := |Relative(kept)|;
      assert CutPath(kept, tail)[k] == '/';
    }
  }

  /** For instance, from a root "/posix". */
  lemma NulLeadsOut()
    ensures Target(["posix"], ["posix"], ['.', '.', '\0']) == []
  {
    var path, root := ['.', '.', '\0'], ["posix"];
    var none: seq<string> := [];
    assert Start(none, path) == none && root[|root|..] == none;
    WalkLast(none, path);
    assert Relative([path]) == path by {
      assert Slashed([path]) == "/" + path + Slashed([path][1..]) && [path][1..] == none;
    }
    assert CString(path) == ".." by {
      assert path[1..] == ['.', '\0'] && path[1..][1..] == ['\0'];
      assert CString(['\0']) == "" && CString(['.', '\0']) == "." + CString(['\0']);
    }
    WalkLast(root, "..");
    assert root[..0] == none && none + [path] == [path];
    assert Enter(none, path) == [path] && OrDot([path]) == path;
    assert Target(root, root, path) == Walk(root, CString(OrDot(Walk(none, path))));
  }

  // ---------- runs ----------

  /** The working directory after a change_directory, when opening succeeds or not. */
  function Chdir(root: seq<string>, cwd: seq<string>, path: string, answer: Opened): seq<string>
  {
    if path != "" && answer == Granted then Target(root, cwd, path) else cwd
  }

  /** What get_cwd gives. */
  function CwdOf(root: seq<string>, cwd: seq<string>): string
  {
    if root <= cwd then Render(cwd[|root|..]) else "(unknown)"
  }

  /** The working directory is at or below the root before the run and after each call. */
  ghost predicate StaysBelow(root: seq<string>, cwd: seq<string>, calls: seq<Call>)
    decreases |calls|
  {
    root <= cwd &&
    (calls == [] || StaysBelow(root, Chdir(root, cwd, calls[0].path, calls[0].answer), calls[1..]))
  }

  /** A successful call whose walked path is, as a C string, "..". */
  predicate LeadsOut(root: seq<string>, cwd: seq<string>, call: Call)
    requires root <= cwd
  {
    && root != [] && call.path != "" && call.answer == Granted
    && CString(OrDot(Walk(Start(cwd[|root|..], call.path), call.path))) == ".."
  }

  ghost predicate NoneLeadsOut(root: seq<string>, cwd: seq<string>, calls: seq<Call>)
    decreases |calls|
  {
    || calls == []
    || (&& root <= cwd && !LeadsOut(root, cwd, calls[0])
        && NoneLeadsOut(root, Chdir(root, cwd, calls[0].path, calls[0].answer), calls[1..]))
  }

  /** Once at or below the root, the working directory stays there over a run of calls, with any
      paths, if and only if no call of the run leads out. */
  lemma {:induction false} RunBelowIff(root: seq<string>, place: seq<string>, calls: seq<Call>)
    requires Names(root) && Names(place)
    ensures StaysBelow(root, root + place, calls) <==> NoneLeadsOut(root, root + place, calls)
    decreases |calls|
  {
    assert (root + place)[|root|..] == place && root <= root + place;
    if calls != [] {
      var next := Chdir(root, root + place, calls[0].path, calls[0].answer);
      TargetBelowIff(root, place, calls[0].path);
      ChdirNames(root, root + place, calls[0]);
      if root <= next {
        assert next == root + next[|root|..];
        RunBelowIff(root, next[|root|..], calls[1..]);
      }
    }
  }

  lemma ChdirNames(root: seq<string>, cwd: seq<string>, call: Call)
    requires Names(root) && Names(cwd)
    ensures Names(Chdir(root, cwd, call.path, call.answer))
  {
    var place := if root <= cwd then cwd[|root|..] else [];
    WalkNames(root, CString(OrDot(Walk(Start(place, call.path), call.path))));
    WalkNames(cwd, CString(call.path));
  }

  /** In particular over every run of calls with paths free of NULs. */
  lemma {:induction false} RunBelow(root: seq<string>, place: seq<string>, calls: seq<Call>)
    requires Names(root) && Names(place) && NulFree(place)
    requires forall i | 0 <= i < |calls| :: '\0' !in calls[i].path
    ensures StaysBelow(root, root + place, calls)
    decreases |calls|
  {
    if calls != [] {
      var path := calls[0].path;
      TargetBelow(root, place, path);
      WalkNames(Start(place, path), path);
      WalkNulFree(Start(place, path), path);
      var next := if path != "" && calls[0].answer == Granted then Walk(Start(place, path), path) else place;
      assert Chdir(root, root + place, path, calls[0].answer) == root + next;
      RunBelow(root, next, calls[1..]);
    }
  }

  // ---------- the view ----------

  class View {
    const root: string
    var cwd: string
    ghost const rootStack: seq<string>
    ghost var cwdStack: seq<string>

    /** Both handles are on directories with canonical paths. */
    ghost predicate Valid()
      reads this
    {
      && Names(rootStack) && NulFree(rootStack) && root == Render(rootStack)
      && Names(cwdStack) && NulFree(cwdStack) && cwd == Render(cwdStack)
    }

    constructor (root: string, ghost stack: seq<string>)
      requires Names(stack) && NulFree(stack) && root == Render(stack)
      ensures Valid() && rootStack == cwdStack == stack
    {
      this.root, cwd := root, root;
      rootStack, cwdStack := stack, stack;
    }

    /** resolve_path: the path to look up, and the directory to look it up from. */
    method Resolve(path: string) returns (base: string, relative: string, ghost stack: seq<string>)
      requires Valid() && path != ""
      ensures Names(stack) && NulFree(stack) && base == Render(stack) && relative != ""
      ensures Walk(Start(stack, relative), CString(relative)) == Target(rootStack, cwdStack, path)
      ensures path[0] == '/' || rootStack <= cwdStack ==> stack == rootStack && Start(stack, relative) == stack
    {
      hide Walk, Relative, CString;
      var absolute := path[0] == '/';
      var offset := Beneath(cwd, root);
      BeneathIff(cwdStack, rootStack);
      if absolute || offset.Some? {
        var below := if absolute || offset.None? then "" else cwd[offset.value..];
        relative := NormalizeBeneathRoot(below, path);
        base, stack := root, rootStack;
        BelowPlace(rootStack, cwdStack, path);
        NotAbsolute(Walk(Walk([], below), path));
      } else {
        base, stack, relative := cwd, cwdStack, path;
      }
    }

    method ChangeDirectory(path: string, opens: string -> Opened) returns (error: Errno)
      requires Valid()
      modifies this
      ensures Valid()
      ensures error == BadArgument <==> path == ""
      ensures path != "" ==>
                var answer := opens(Render(Target(rootStack, old(cwdStack), path)));
                && (error == Success <==> answer == Granted)
                && (error == NoEntry <==> answer == Missing)
                && cwdStack == Chdir(rootStack, old(cwdStack), path, answer)
      ensures path == "" ==> cwdStack == old(cwdStack)
    {
      hide Walk, Target, Render, CString;
      if path == "" { return BadArgument; }
      var base, relative, stack := Resolve(path);
      RenderNulFree(stack);
      var candidate := CandidatePath(base, relative, stack);
      var answer := opens(candidate);
      if answer == Missing { return NoEntry; }
      if answer == Denied { return NoAccess; }
      TargetClean(stack, relative);
      cwd := candidate;
      cwdStack := Target(rootStack, cwdStack, path);
      error := Success;
    }

    method GetCwd() returns (path: string)
      requires Valid()
      ensures path == CwdOf(rootStack, cwdStack)
    {
      hide Render, Relative;
      var offset := Beneath(cwd, root);
      BeneathIff(cwdStack, rootStack);
      if offset.None? { return "(unknown)"; }
      path := "/" + cwd[offset.value..];
      RenderRelative(cwdStack[|rootStack|..]);
    }
  }

  lemma RenderNulFree(stack: seq<string>)
    requires NulFree(stack)
    ensures '\0' !in Render(stack)
  {
    SlashedNulFree(stack);
  }

  lemma NotAbsolute(st: seq<string>)
    requires Names(st)
    ensures OrDot(st) != "" && OrDot(st)[0] != '/'
  {
    if st != [] {
      assert Relative(st) == st[0] + Slashed(st[1..]) && st[0][0] in st[0];
    }
  }

  lemma TargetClean(stack: seq<string>, relative: string)
    requires Names(stack) && NulFree(stack)
    ensures var st := Walk(Start(stack, relative), CString(relative)); Names(st) && NulFree(st)
  {
    WalkNames(Start(stack, relative), CString(relative));
    WalkNulFree(Start(stack, relative), CString(relative));
  }

  /** Walking from the part of the working directory below the root. */
  lemma BelowPlace(root: seq<string>, cwd: seq<string>, path: string)
    requires Names(cwd) && path != "" && (path[0] == '/' || root <= cwd)
    ensures var place := if root <= cwd then cwd[|root|..] else [];
            var below := if path[0] == '/' then "" else Relative(place);
            && Walk(Walk([], below), path) == Walk(Start(place, path), path)
            && Target(root, cwd, path) == Walk(root, CString(OrDot(Walk(Start(place, path), path))))
  {
    if path[0] == '/' {
      assert Walk([], "") == [];
    } else {
      var place := cwd[|root|..];
      WalkRelative([], place);
      assert [] + place == place;
    }
  }

  /** After a successful change to a NUL-free path, get_cwd gives the path as normalised from the
      directory it was given in. */
  lemma CwdAfterChdir(root: seq<string>, place: seq<string>, path: string)
    requires Names(root) && Names(place) && NulFree(place) && path != "" && '\0' !in path
    ensures CwdOf(root, Chdir(root, root + place, path, Granted)) == Render(Walk(Start(place, path), path))
  {
    TargetBelow(root, place, path);
    var st := Walk(Start(place, path), path);
    assert (root + st)[|root|..] == st && root <= root + st;
  }

  /** Changing to the directory that get_cwd names changes nothing. */
  lemma CwdIsFixed(root: seq<string>, place: seq<string>)
    requires Names(root) && Names(place) && NulFree(place)
    ensures CwdOf(root, root + place) == Render(place)
    ensures Target(root, root + place, CwdOf(root, root + place)) == root + place
  {
    assert (root + place)[|root|..] == place && root <= root + place;
    RenderNulFree(place);
    TargetBelow(root, place, Render(place));
    WalkRender(place);
  }
}
