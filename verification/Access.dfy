/** Permission to reach and execute a file of the initrd, checked once by the initrd itself and
    once by the credential view. */
module Access {
  import opened Bytes
  import opened PathSpec
  import opened Paths
  import opened InitrdSpec

  datatype Code = Fine | InvalidArgument | NotFound | AccessDenied | OutOfMemory

  datatype Identity = Identity(uid: nat, gid: nat, admin: bool)

  const SEARCH := 1   // the search bit of a directory, the execute bit of a file

  // ---------- one entry ----------

  predicate Bit(n: nat, weight: nat)
    requires weight > 0
  {
    n / weight % 2 == 1
  }

  /** entry_allows and mode_allows: an administrator needs execute permission from somebody,
      anyone else every requested bit from their class. */
  predicate Allows(e: Entry, id: Identity, requested: nat)
  {
    if id.admin || id.uid == 0 then
      Bit(requested, 1) ==> Bit(e.mode, 1) || Bit(e.mode, 8) || Bit(e.mode, 64)
    else
      var granted :=
        if id.uid == e.uid then e.mode / 64 % 8 else if id.gid == e.gid then e.mode / 8 % 8 else e.mode % 8;
      && (Bit(requested, 1) ==> Bit(granted, 1))
      && (Bit(requested, 2) ==> Bit(granted, 2))
      && (Bit(requested, 4) ==> Bit(granted, 4))
  }

  /** For searching or executing, it is the execute bit of the first class that applies, the
      owner's, the group's or the others', that counts; for an administrator, any of the three. */
  lemma AllowsSearch(e: Entry, id: Identity)
    ensures Allows(e, id, SEARCH) <==>
            if id.admin || id.uid == 0 then Bit(e.mode, 64) || Bit(e.mode, 8) || Bit(e.mode, 1)
            else if id.uid == e.uid then Bit(e.mode, 64)
            else if id.gid == e.gid then Bit(e.mode, 8)
            else Bit(e.mode, 1)
  {
    LowBit(e.mode / 64);
    LowBit(e.mode / 8);
    LowBit(e.mode);
    assert Bit(SEARCH, 1) && !Bit(SEARCH, 2) && !Bit(SEARCH, 4);
  }

  lemma LowBit(n: nat)
    ensures Bit(n % 8, 1) <==> n % 2 == 1
  {
    assert n == 2 * (4 * (n / 8)) + n % 8;
  }

  function FirstMatch(entries: seq<Entry>, path: string, directory: bool): Option<Entry>
  {
    if entries == [] then None
    else if entries[0].directory == directory && entries[0].path == path then Some(entries[0])
    else FirstMatch(entries[1..], path, directory)
  }

  /** find_entry */
  function Find(entries: seq<Entry>, path: string, directory: bool): Option<Entry>
  {
    if path == "" || path[0] != '/' then None else FirstMatch(entries, path, directory)
  }

  /** Whether one directory may be searched. */
  function SearchEntry(found: Option<Entry>, id: Identity): Code
  {
    if found.None? then NotFound else if Allows(found.value, id, SEARCH) then Fine else AccessDenied
  }

  // ---------- the directories on the way ----------

  /** The ends of the names that a loop from i stops at before the end of the path. */
  function Ends(path: string, i: nat): seq<nat>
    decreases |path| - i
  {
    if i >= |path| then []
    else if path[i] == '/' then Ends(path, i + 1)
    else
      var end := i + NameEnd(path[i..]);
      if end == |path| then [] else [end] + Ends(path, end)
  }

  /** They are the slashes that directly follow a name. */
  predicate EndsName(path: string, e: nat)
  {
    0 < e < |path| && path[e] == '/' && path[e - 1] != '/'
  }

  lemma {:induction false} EndsMeaning(path: string, i: nat, e: nat)
    requires 0 < i && (i < |path| ==> path[i - 1] == '/' || path[i] == '/')
    ensures e in Ends(path, i) <==> e > i && EndsName(path, e)
    decreases |path| - i
  {
    hide NameEnd;
    if i < |path| {
      if path[i] == '/' {
        EndsMeaning(path, i + 1, e);
      } else {
        var end := i + NameEnd(path[i..]);
        NameRange(path, i, end);
        assert i < e < end ==> !EndsName(path, e);
        if end < |path| {
          EndsMeaning(path, end, e);
          assert e in Ends(path, i) <==> e == end || e in Ends(path, end);
        }
      }
    }
  }

  lemma NameRange(path: string, i: nat, end: nat)
    requires i < |path| && path[i] != '/' && end == i + NameEnd(path[i..])
    ensures i < end <= |path| && (end < |path| ==> EndsName(path, end))
    ensures forall k | i <= k < end :: path[k] != '/'
  {
    var s := path[i..];
    assert s[0] == path[i];
    assert forall k | i <= k < end :: path[k] == s[k - i];
    assert end < |path| ==> s[end - i] == path[end];
  }

  /** The first directory on the way that fails its check. */
  function SearchAll(path: string, ends: seq<nat>, check: string -> Code): Code
  {
    if ends == [] then Fine
    else if ends[0] > |path| then InvalidArgument
    else
      var r := check(path[..ends[0]]);
      if r != Fine then r else SearchAll(path, ends[1..], check)
  }

  lemma {:induction false} SearchAllIff(path: string, ends: seq<nat>, check: string -> Code)
    requires forall e: nat | e in ends :: e <= |path|
    ensures SearchAll(path, ends, check) == Fine <==> forall e: nat | e in ends :: check(path[..e]) == Fine
  {
    if ends != [] {
      assert ends[0] in ends && forall e: nat | e in ends[1..] :: e in ends;
      SearchAllIff(path, ends[1..], check);
      assert forall e: nat | e in ends :: e == ends[0] || e in ends[1..];
    }
  }

  // ---------- check_execute ----------

  function SearchInitrd(entries: seq<Entry>, id: Identity): string -> Code
  {
    prefix => SearchEntry(Find(entries, prefix, true), id)
  }

  /** facet_initrd_check_execute on a C string. */
  function CheckExecute(entries: seq<Entry>, path: string, id: Identity): Code
  {
    if path == "" || path[0] != '/' || |path| > PATH_MAX then InvalidArgument
    else
      var root := Find(entries, "/", true);
      if root.None? || !Allows(root.value, id, SEARCH) then AccessDenied
      else
        var r := SearchAll(path, Ends(path, 1), SearchInitrd(entries, id));
        if r != Fine then r else SearchEntry(Find(entries, path, false), id)
  }

  ghost predicate MaySearch(entries: seq<Entry>, path: string, id: Identity)
  {
    var found := Find(entries, path, true);
    found.Some? && Allows(found.value, id, SEARCH)
  }

  /** Execution is allowed if and only if the root and every prefix of the path that ends in a
      name before a slash are directories granting search, and the path is a file granting
      execute. */
  lemma CheckExecuteIff(entries: seq<Entry>, path: string, id: Identity)
    ensures CheckExecute(entries, path, id) == Fine <==>
            && path != "" && path[0] == '/' && |path| <= PATH_MAX
            && MaySearch(entries, "/", id)
            && (forall e: nat | EndsName(path, e) :: MaySearch(entries, path[..e], id))
            && var file := Find(entries, path, false);
               file.Some? && Allows(file.value, id, SEARCH)
  {
    hide Allows, Find;
    if path != "" && path[0] == '/' {
      forall e: nat
        ensures e in Ends(path, 1) <==> EndsName(path, e)
      {
        EndsMeaning(path, 1, e);
      }
      SearchAllIff(path, Ends(path, 1), SearchInitrd(entries, id));
    }
  }

  // ---------- the credential view ----------

  /** Where the last name starts. */
  function LastStart(path: string): (n: nat)
    ensures n <= |path|
  {
    if path == "" || path[|path| - 1] == '/' then |path| else LastStart(path[..|path| - 1])
  }

  /** path_requires_directory */
  predicate RequiresDirectory(path: string)
    requires path != ""
  {
    path[|path| - 1] == '/' || path[LastStart(path)..] in {".", ".."}
  }

  datatype Opening = Node(entry: Entry) | Failure(code: Code)

  /** resolve_path refuses the path. */
  predicate Refused(path: string)
  {
    path == "" || |path| > PATH_MAX || '\0' in path || TooLong([], path, PATH_MAX)
  }

  /** facet_initrd_open_node, from the root. */
  function OpenNode(entries: seq<Entry>, path: string, directory: bool): Opening
  {
    if Refused(path) then Failure(InvalidArgument)
    else
      var found :=
        if RequiresDirectory(path) && !directory then None else Find(entries, Render(Walk([], path)), directory);
      if found.None? then Failure(NotFound) else Node(found.value)
  }

  function SearchView(entries: seq<Entry>, id: Identity): string -> Code
  {
    prefix =>
      var node := OpenNode(entries, prefix, true);
      if node.Failure? then node.code else if Allows(node.entry, id, SEARCH) then Fine else AccessDenied
  }

  /** check_search: the directories on the way, and the path itself if asked for. */
  function CheckSearch(entries: seq<Entry>, path: string, includeTarget: bool, id: Identity): Code
  {
    if path == "" || path[0] != '/' then InvalidArgument
    else
      var check := SearchView(entries, id);
      var root := check("/");
      if root != Fine then root
      else
        var r := SearchAll(path, Ends(path, 1), check);
        if r == Fine && includeTarget && |path| > 1 then check(path) else r
  }

  // ---------- the two checks agree on canonical paths ----------

  /** A prefix of a canonical path that ends in a name is the canonical path of an ancestor. */
  lemma {:induction false} CanonicalPrefix(stack: seq<string>, e: nat) returns (k: nat)
    requires Names(stack) && EndsName(Render(stack), e)
    ensures 0 < k < |stack| && Render(stack)[..e] == Render(stack[..k])
    decreases |stack|
  {
    LastSlash(stack);
    assert stack != [];
    var s, front := Render(stack), stack[..|stack| - 1];
    var n := |Slashed(front)|;
    assert e <= n;
    if e == n {
      k := |front|;
    } else {
      assert s[e] == s[..n][e] && s[e - 1] == s[..n][e - 1];
      k := CanonicalPrefix(front, e);
      assert front[..k] == stack[..k] && s[..e] == s[..n][..e];
    }
  }

  lemma {:induction false} SlashedNotTooLong(stack: seq<string>, names: seq<string>, max: nat)
    requires Names(stack) && Names(names) && |Render(stack + names)| <= max
    ensures !TooLong(stack, Slashed(names), max)
    decreases |names|
  {
    hide TooLong, Render, Slashed;
    if names == [] {
      assert stack + names == stack && Slashed(names) == "" by { SlashFirst(names); }
      EndOfWalk();
    } else {
      var next, rest := stack + [names[0]], Slashed(names[1..]);
      assert next + names[1..] == stack + names;
      SlashedNotTooLong(next, names[1..], max);
      SlashedCons(names);
      SlashFirst(names[1..]);
      assert Slashed(names)[1..] == names[0] + rest;
      RenderShrinks(stack, names);
      TooLongSlash(stack, Slashed(names), max);
      TooLongName(stack, names[0], rest, max);
    }
  }

  lemma RenderShrinks(stack: seq<string>, names: seq<string>)
    requires Names(stack) && Names(names) && names != []
    ensures |Render(stack)| <= |Render(stack + names)| && |Render(stack + [names[0]])| <= |Render(stack + names)|
  {
    SlashedConcat(stack, names);
    SlashedConcat(stack, [names[0]]);
    assert [names[0]][1..] == [];
  }

  lemma {:induction false} NamesPrefix(stack: seq<string>, k: nat)
    requires Names(stack) && k <= |stack|
    ensures Names(stack[..k]) && |Render(stack[..k])| <= |Render(stack)|
    ensures Render(stack[..k]) == "/" || Render(stack[..k]) <= Render(stack)
  {
    SlashedConcat(stack[..k], stack[k..]);
    assert stack == stack[..k] + stack[k..];
  }

  /** Opening a canonical path is looking it up. */
  lemma OpenCanonical(entries: seq<Entry>, stack: seq<string>, directory: bool)
    requires Names(stack) && |Render(stack)| <= PATH_MAX && '\0' !in Render(stack) && (directory || stack != [])
    ensures var found := Find(entries, Render(stack), directory);
            OpenNode(entries, Render(stack), directory) == if found.None? then Failure(NotFound) else Node(found.value)
  {
    hide TooLong, Walk, Find;
    WalkRender(stack);
    if stack == [] {
      RootNotTooLong();
    } else {
      assert [] + stack == stack;
      SlashedNotTooLong([], stack, PATH_MAX);
      if !directory { NameLast(stack); }
    }
  }

  lemma RootNotTooLong()
    ensures !TooLong([], "/", PATH_MAX)
  {
    TooLongSlash([], "/", PATH_MAX);
    EndOfWalk();
  }

  lemma {:induction false} LastStartAt(s: string, k: nat)
    requires k < |s| && s[k] == '/' && forall i | k < i < |s| :: s[i] != '/'
    ensures LastStart(s) == k + 1
    decreases |s|
  {
    if k + 1 < |s| { LastStartAt(s[..|s| - 1], k); }
  }

  lemma NameLast(stack: seq<string>)
    requires Names(stack) && stack != []
    ensures !RequiresDirectory(Render(stack))
  {
    LastSlash(stack);
    var s, front, last := Render(stack), stack[..|stack| - 1], stack[|stack| - 1];
    assert stack == front + [last] && Name(last);
    SlashedSnoc(front, last);
    var k := |Slashed(front)|;
    LastStartAt(s, k);
    assert s[k + 1..] == last;
  }

  lemma SearchesAgree(entries: seq<Entry>, stack: seq<string>, id: Identity)
    requires Names(stack) && |Render(stack)| <= PATH_MAX && '\0' !in Render(stack)
    ensures SearchView(entries, id)(Render(stack)) == SearchInitrd(entries, id)(Render(stack))
  {
    OpenCanonical(entries, stack, true);
  }

  lemma {:induction false} SearchAllSame(path: string, ends: seq<nat>, f: string -> Code, g: string -> Code)
    requires forall e: nat | e in ends && e <= |path| :: f(path[..e]) == g(path[..e])
    ensures SearchAll(path, ends, f) == SearchAll(path, ends, g)
  {
    if ends != [] && ends[0] <= |path| {
      assert ends[0] in ends && forall e: nat | e in ends[1..] :: e in ends;
      SearchAllSame(path, ends[1..], f, g);
    }
  }

  /** For canonical paths that are not too long, the initrd lets a file be executed if and only if
      the view's own search passes and the path is a file granting execute; and the view opens
      that very file. */
  lemma ExecuteIffSearch(entries: seq<Entry>, stack: seq<string>, id: Identity)
    requires Names(stack) && stack != [] && '\0' !in Render(stack) && |Render(stack)| <= PATH_MAX
    ensures var path, file := Render(stack), Find(entries, Render(stack), false);
            && (CheckExecute(entries, path, id) == Fine <==>
                CheckSearch(entries, path, false, id) == Fine && file.Some? && Allows(file.value, id, SEARCH))
            && (file.Some? ==> OpenNode(entries, path, false) == Node(file.value))
  {
    hide Allows, Find, OpenNode, Ends, SearchAll;
    var path := Render(stack);
    OpenCanonical(entries, stack, false);
    var f, g := SearchView(entries, id), SearchInitrd(entries, id);
    var none: seq<string> := [];
    SearchesAgree(entries, none, id);
    forall e: nat | e in Ends(path, 1) && e <= |path|
      ensures f(path[..e]) == g(path[..e])
    {
      EndsMeaning(path, 1, e);
      var k := CanonicalPrefix(stack, e);
      NamesPrefix(stack, k);
      assert forall c | c in path[..e] :: c in path;
      SearchesAgree(entries, stack[..k], id);
    }
    SearchAllSame(path, Ends(path, 1), f, g);
  }

  // ---------- the loops ----------

  method FindEntry(entries: seq<Entry>, path: string, directory: bool) returns (r: Option<Entry>)
    ensures r == Find(entries, path, directory)
  {
    if path == "" || path[0] != '/' { return None; }
    assert entries[0..] == entries;
    for i := 0 to |entries|
      invariant FirstMatch(entries, path, directory) == FirstMatch(entries[i..], path, directory)
    {
      var e := entries[i];
      assert entries[i..][0] == e && entries[i..][1..] == entries[i + 1..];
      if e.directory == directory && e.path == path { return Some(e); }
    }
    assert entries[|entries|..] == [];
    r := None;
  }

  lemma {:induction false} EndsNext(path: string, i: nat, start: nat, end: nat)
    requires i <= start <= end <= |path|
    requires forall k | i <= k < start :: path[k] == '/'
    requires forall k | start <= k < end :: path[k] != '/'
    requires end < |path| ==> path[end] == '/' && start < end
    ensures Ends(path, i) == if end == |path| then [] else [end] + Ends(path, end)
    decreases start - i
  {
    hide NameEnd;
    if i < start {
      EndsNext(path, i + 1, start, end);
    } else if start < |path| {
      var name, rest := path[start..end], path[end..];
      assert path[start..] == name + rest;
      NameEndOf(name, rest);
    }
  }

  /** facet_initrd_check_execute; the prefix buffer may not be granted. */
  method Execute(entries: seq<Entry>, path: string, id: Identity) returns (r: Code)
    ensures r == OutOfMemory || r == CheckExecute(entries, path, id)
  {
    hide Find, Allows, Ends;
    if path == "" || path[0] != '/' || |path| > PATH_MAX { return InvalidArgument; }
    var root := FindEntry(entries, "/", true);
    if root.None? || !Allows(root.value, id, SEARCH) { return AccessDenied; }
    var granted: bool := *;
    if !granted { return OutOfMemory; }
    ghost var check := SearchInitrd(entries, id);
    ghost var all := SearchAll(path, Ends(path, 1), check);
    NoEnds(path);
    var i := 1;
    while i < |path|
      invariant 1 <= i <= |path| && all == SearchAll(path, Ends(path, i), check)
    {
      var start, end := NextName(path, i);
      EndsNext(path, i, start, end);
      if end == |path| { break; }
      assert ([end] + Ends(path, end))[1..] == Ends(path, end);
      var directory := FindEntry(entries, path[..end], true);
      if directory.None? { return NotFound; }
      if !Allows(directory.value, id, SEARCH) { return AccessDenied; }
      i := end;
    }
    assert all == Fine;
    var file := FindEntry(entries, path, false);
    if file.None? { return NotFound; }
    r := if Allows(file.value, id, SEARCH) then Fine else AccessDenied;
  }

  lemma NoEnds(path: string)
    ensures Ends(path, |path|) == []
  {
  }

  /** facet_initrd_open_node from the root. */
  method Open(entries: seq<Entry>, path: string, directory: bool) returns (r: Opening)
    ensures r == Failure(OutOfMemory) || r == OpenNode(entries, path, directory)
  {
    hide Find, TooLong, Walk, LastStart;
    NoNames();
    var resolved := ResolvePath("/", path, []);
    assert Start([], path) == [];
    if resolved == NoMemory { return Failure(OutOfMemory); }
    if resolved == Invalid { return Failure(InvalidArgument); }
    var found := None;
    if !(RequiresDirectory(path) && !directory) {
      found := FindEntry(entries, resolved.path, directory);
    }
    r := if found.None? then Failure(NotFound) else Node(found.value);
  }

  method SearchOne(entries: seq<Entry>, prefix: string, id: Identity) returns (r: Code)
    ensures r == OutOfMemory || r == SearchView(entries, id)(prefix)
  {
    var node := Open(entries, prefix, true);
    r := if node.Failure? then node.code else if Allows(node.entry, id, SEARCH) then Fine else AccessDenied;
  }

  /** check_search */
  method Search(entries: seq<Entry>, path: string, includeTarget: bool, id: Identity) returns (r: Code)
    ensures r == OutOfMemory || r == CheckSearch(entries, path, includeTarget, id)
  {
    hide SearchView, Ends;
    if path == "" || path[0] != '/' { return InvalidArgument; }
    ghost var check := SearchView(entries, id);
    r := SearchOne(entries, "/", id);
    if r != Fine { return; }
    ghost var all := SearchAll(path, Ends(path, 1), check);
    NoEnds(path);
    var i := 1;
    ghost var reached := false;
    while r == Fine && i < |path|
      invariant 1 <= i <= |path| && r == Fine
      invariant !reached ==> all == SearchAll(path, Ends(path, i), check)
      invariant reached <==> includeTarget && |path| > 1 && i == |path|
      invariant reached ==> all == Fine && check(path) == Fine
      decreases |path| - i
    {
      var start, end := NextName(path, i);
      EndsNext(path, i, start, end);
      if end == |path| && !includeTarget { break; }
      assert end < |path| ==> ([end] + Ends(path, end))[1..] == Ends(path, end);
      assert end == |path| ==> path[..end] == path;
      r := SearchOne(entries, path[..end], id);
      if r != Fine { return; }
      i := end;
      reached := end == |path|;
    }
  }
}
