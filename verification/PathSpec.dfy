/** What a path means: a walk over directory names that drops "" and ".", and on ".." goes
    up, but never above the root. */
module PathSpec {

  /** A component's end: the first slash, or the end of the string. */
  function NameEnd(s: string): (n: nat)
    ensures n <= |s| && (n < |s| ==> s[n] == '/')
    ensures forall i | 0 <= i < n :: s[i] != '/'
  {
    if s == "" || s[0] == '/' then 0 else 1 + NameEnd(s[1..])
  }

  /** One component. */
  function Enter(stack: seq<string>, name: string): seq<string>
  {
    if name == "" || name == "." then stack
    else if name == ".." then if stack == [] then [] else stack[..|stack| - 1]
    else stack + [name]
  }

  function Walk(stack: seq<string>, path: string): seq<string>
    decreases |path|
  {
    var n := NameEnd(path);
    if n == |path| then Enter(stack, path) else Walk(Enter(stack, path[..n]), path[n + 1..])
  }

  /** A name that can be an entry of a directory. */
  predicate Name(s: string)
  {
    s != "" && s != "." && s != ".." && '/' !in s
  }

  predicate Names(stack: seq<string>)
  {
    forall i | 0 <= i < |stack| :: Name(stack[i])
  }

  /** Each name with a slash in front. */
  function Slashed(stack: seq<string>): string
  {
    if stack == [] then "" else "/" + stack[0] + Slashed(stack[1..])
  }

  /** The canonical absolute path. */
  function Render(stack: seq<string>): (s: string)
    ensures s != "" && s[0] == '/'
  {
    if stack == [] then "/" else Slashed(stack)
  }

  /** The canonical path relative to the root; empty for the root itself. */
  function Relative(stack: seq<string>): string
  {
    if stack == [] then "" else Slashed(stack)[1..]
  }

  // ---------- laws ----------

  /** The two canonical forms of a place. */
  lemma RenderRelative(stack: seq<string>)
    ensures Render(stack) == "/" + Relative(stack)
  {
  }

  lemma NameEndOf(name: string, rest: string)
    requires '/' !in name && (rest == "" || rest[0] == '/')
    ensures NameEnd(name + rest) == |name|
  {
    var n := NameEnd(name + rest);
    assert forall i | 0 <= i < |name| :: (name + rest)[i] == name[i] && name[i] in name;
    assert rest != "" ==> (name + rest)[|name|] == '/';
  }

  lemma {:induction false} WalkNames(stack: seq<string>, path: string)
    requires Names(stack)
    ensures Names(Walk(stack, path))
    decreases |path|
  {
    var n := NameEnd(path);
    if n < |path| { WalkNames(Enter(stack, path[..n]), path[n + 1..]); }
  }

  /** Walking on from where a walk ended. */
  lemma {:induction false} WalkConcat(stack: seq<string>, a: string, b: string)
    ensures Walk(stack, a + "/" + b) == Walk(Walk(stack, a), b)
    decreases |a|
  {
    var n := NameEnd(a);
    if n == |a| {
      NameEndOf(a, "/" + b);
      assert a + "/" + b == a + ("/" + b) && (a + ("/" + b))[..n] == a && (a + ("/" + b))[n + 1..] == b;
    } else {
      var rest := a[n + 1..] + "/" + b;
      assert a + "/" + b == a[..n] + ("/" + rest);
      NameEndOf(a[..n], "/" + rest);
      assert (a[..n] + ("/" + rest))[..n] == a[..n] && (a[..n] + ("/" + rest))[n + 1..] == rest;
      WalkConcat(Enter(stack, a[..n]), a[n + 1..], b);
    }
  }

  lemma SlashedCons(x: seq<string>)
    requires x != []
    ensures Slashed(x) == "/" + (x[0] + Slashed(x[1..]))
  {
  }

  lemma SlashFirst(x: seq<string>)
    ensures Slashed(x) == "" <==> x == []
    ensures x != [] ==> Slashed(x)[0] == '/'
  {
  }

  lemma {:induction false} SlashedSnoc(stack: seq<string>, name: string)
    ensures Slashed(stack + [name]) == Slashed(stack) + "/" + name
  {
    if stack == [] {
      assert [name][1..] == [];
    } else {
      SlashedSnoc(stack[1..], name);
      assert (stack + [name])[1..] == stack[1..] + [name];
      assert "/" + stack[0] + (Slashed(stack[1..]) + "/" + name) == "/" + stack[0] + Slashed(stack[1..]) + "/" + name;
    }
  }

  /** A slash-separated list of names walks to itself. */
  lemma {:induction false} WalkSlashed(stack: seq<string>, names: seq<string>)
    requires Names(names)
    ensures Walk(stack, Slashed(names)) == stack + names
    decreases |names|
  {
    if names != [] {
      var front, last := names[..|names| - 1], names[|names| - 1];
      assert names == front + [last];
      SlashedSnoc(front, last);
      WalkConcat(stack, Slashed(front), last);
      WalkSlashed(stack, front);
      assert Walk(stack + front, last) == stack + front + [last] by {
        NameEndOf(last, "");
        assert last + "" == last;
      }
    }
  }

  /** Resolving a canonical path gives it back. */
  lemma WalkRender(stack: seq<string>)
    requires Names(stack)
    ensures Walk([], Render(stack)) == stack
  {
    if stack == [] {
      assert NameEnd("/") == 0 && "/"[1..] == "";
    } else {
      WalkSlashed([], stack);
      assert [] + stack == stack;
    }
  }

  lemma WalkRelative(stack: seq<string>, names: seq<string>)
    requires Names(names)
    ensures Walk(stack, Relative(names)) == stack + names
  {
    if names == [] {
      assert stack + [] == stack;
    } else {
      WalkSlashed(stack, names);
      assert Slashed(names) == "" + "/" + Relative(names);
      WalkConcat(stack, "", Relative(names));
    }
  }

  /** Different places have different canonical paths. */
  lemma RenderInjective(s: seq<string>, t: seq<string>)
    requires Names(s) && Names(t) && Render(s) == Render(t)
    ensures s == t
  {
    WalkRender(s);
    WalkRender(t);
  }

  lemma {:induction false} SlashedConcat(s: seq<string>, t: seq<string>)
    ensures Slashed(s + t) == Slashed(s) + Slashed(t)
  {
    if s == [] {
      assert [] + t == t;
    } else {
      SlashedConcat(s[1..], t);
      assert (s + t)[1..] == s[1..] + t;
      assert "/" + s[0] + (Slashed(s[1..]) + Slashed(t)) == "/" + s[0] + Slashed(s[1..]) + Slashed(t);
    }
  }

  lemma RelativeSnoc(stack: seq<string>, name: string)
    ensures Relative(stack + [name]) == if stack == [] then name else Relative(stack) + "/" + name
  {
    SlashedSnoc(stack, name);
  }

  lemma WalkSlash(stack: seq<string>, s: string)
    requires s != "" && s[0] == '/'
    ensures Walk(stack, s) == Walk(stack, s[1..])
  {
    assert NameEnd(s) == 0 && s[..0] == "";
  }

  lemma WalkName(stack: seq<string>, name: string, rest: string)
    requires '/' !in name && (rest == "" || rest[0] == '/')
    ensures Walk(stack, name + rest) == Walk(Enter(stack, name), rest)
  {
    NameEndOf(name, rest);
    if rest == "" {
      assert name + rest == name;
    } else {
      assert (name + rest)[..|name|] == name && (name + rest)[|name| + 1..] == rest[1..];
      WalkSlash(Enter(stack, name), rest);
    }
  }

  /** A loop that skips slashes to `start` and then runs over a name to `end` has walked that
      far. */
  lemma {:induction false} WalkNext(stack: seq<string>, path: string, offset: nat, start: nat, end: nat)
    requires offset <= start <= end <= |path|
    requires forall i | offset <= i < start :: path[i] == '/'
    requires forall i | start <= i < end :: path[i] != '/'
    requires end < |path| ==> path[end] == '/'
    ensures Walk(stack, path[offset..]) == Walk(Enter(stack, path[start..end]), path[end..])
    decreases start - offset
  {
    if offset < start {
      WalkSlash(stack, path[offset..]);
      assert path[offset..][1..] == path[offset + 1..];
      WalkNext(stack, path, offset + 1, start, end);
    } else {
      WalkName(stack, path[start..end], path[end..]);
      assert path[offset..] == path[start..end] + path[end..];
    }
  }
}
