/** validate_required: the nested loops that accept a configuration and resolve its references. */
module ConfigValidate {
  import opened Bytes
  import opened ConfigSpec

  // ---------- loops over names ----------

  predicate UniqueTo(names: seq<string>, n: nat)
    requires n <= |names|
  {
    forall i, j | 0 <= i < j < n :: names[i] != names[j]
  }

  /** Whether names[i] occurs before i. */
  method SeenBefore(names: seq<string>, i: nat) returns (seen: bool)
    requires i < |names|
    ensures seen <==> exists j | 0 <= j < i :: names[j] == names[i]
  {
    for j := 0 to i
      invariant forall k | 0 <= k < j :: names[k] != names[i]
    {
      if names[i] == names[j] { return true; }
    }
    seen := false;
  }

  lemma UniqueStep(names: seq<string>, i: nat)
    requires i < |names| && UniqueTo(names, i)
    ensures UniqueTo(names, i + 1) <==> !exists j | 0 <= j < i :: names[j] == names[i]
  {
  }

  method Find(names: seq<string>, name: string) returns (r: Option<nat>)
    ensures r.None? <==> name !in names
    ensures r.Some? ==> r.value < |names| && names[r.value] == name
  {
    for i := 0 to |names|
      invariant name !in names[..i]
    {
      if name == names[i] { return Some(i); }
      assert names[..i + 1] == names[..i] + [names[i]];
    }
    assert names[..|names|] == names;
    r := None;
  }

  // ---------- the sections ----------

  method CheckSinks(c: Config) returns (ok: bool)
    ensures ok <==> (forall i | 0 <= i < |c.sinks| :: SinkOk(c.sinks[i])) && Unique(SinkNames(c))
  {
    var names := SinkNames(c);
    for i := 0 to |c.sinks|
      invariant (forall k | 0 <= k < i :: SinkOk(c.sinks[k])) && UniqueTo(names, i)
    {
      if !c.sinks[i].complete || c.sinks[i].name == "" || c.sinks[i].kind == "" { return false; }
      UniqueStep(names, i);
      var seen := SeenBefore(names, i);
      if seen { return false; }
    }
    ok := true;
  }

  method CheckTerminalNames(terminals: seq<string>) returns (ok: bool)
    ensures ok <==> (forall j | 0 <= j < |terminals| :: TerminalNameOk(terminals[j])) && Unique(terminals)
  {
    for j := 0 to |terminals|
      invariant (forall k | 0 <= k < j :: TerminalNameOk(terminals[k])) && UniqueTo(terminals, j)
    {
      if terminals[j] == "" || '.' in terminals[j] { return false; }
      UniqueStep(terminals, j);
      var seen := SeenBefore(terminals, j);
      if seen { return false; }
    }
    ok := true;
  }

  method CheckSeats(c: Config) returns (ok: bool)
    ensures ok <==> SeatsOk(c)
  {
    var names := SeatNames(c);
    for i := 0 to |c.seats|
      invariant (forall k | 0 <= k < i :: SeatOk(c.seats[k])) && UniqueTo(names, i)
    {
      var s := c.seats[i];
      if !s.complete || s.name == "" || s.server == "" || s.server[0] != '/' || '.' in s.name { return false; }
      UniqueStep(names, i);
      var seen := SeenBefore(names, i);
      if seen { return false; }
      var good := CheckTerminalNames(s.terminals);
      if !good { return false; }
    }
    ok := true;
  }

  method CheckSources(c: Config) returns (ok: bool)
    ensures ok <==> (forall i | 0 <= i < |c.sources| :: SourceOk(c.sources[i])) && Unique(SourceNames(c))
  {
    var names := SourceNames(c);
    for i := 0 to |c.sources|
      invariant (forall k | 0 <= k < i :: SourceOk(c.sources[k])) && UniqueTo(names, i)
    {
      if !c.sources[i].complete || c.sources[i].name == "" || c.sources[i].kind == "" { return false; }
      UniqueStep(names, i);
      var seen := SeenBefore(names, i);
      if seen { return false; }
    }
    ok := true;
  }

  /** valid_password_hash: strchr for the dollar behind the salt. */
  method CheckHash(hash: string) returns (ok: bool)
    ensures ok <==> HashOk(hash)
  {
    if |hash| < 3 || hash[..3] != "$5$" { return false; }
    var d := 3;
    while d < |hash| && hash[d] != '$'
      invariant 3 <= d <= |hash| && '$' !in hash[3..d]
    {
      assert hash[3..d + 1] == hash[3..d] + [hash[d]];
      d := d + 1;
    }
    ok := d < |hash| && d != 3 && d + 1 < |hash|;
    if !ok {
      forall e | 3 < e < |hash| - 1
        ensures !(hash[e] == '$' && '$' !in hash[3..e])
      {
        assert d < e ==> hash[3..e][d - 3] == hash[d];
        assert e < d ==> hash[3..d][e - 3] == hash[e];
      }
    }
  }

  method CheckUser(u: User) returns (ok: bool)
    ensures ok <==> UserOk(u)
  {
    hide HashOk;
    var hashed := CheckHash(u.hash);
    if !u.complete || u.name == "" || !hashed { return false; }
    if u.home == "" || u.home[0] != '/' { return false; }
    ok := (u.nativeShell.Some? ==> u.nativeShell.value != "" && u.nativeShell.value[0] == '/')
       && (u.posixShell.Some? ==> u.posixShell.value != "" && u.posixShell.value[0] == '/');
  }

  method CheckUsers(users: seq<User>) returns (ok: bool)
    ensures ok <==> UsersOk(users)
  {
    hide UserOk;
    var names := UserNames(users);
    var rootFound := false;
    for i := 0 to |users|
      invariant (forall k | 0 <= k < i :: UserOk(users[k]) && RootOk(users[k])) && UniqueTo(names, i)
      invariant rootFound <==> "root" in names[..i]
    {
      var u := users[i];
      var good := CheckUser(u);
      if !good { return false; }
      UniqueStep(names, i);
      var seen := SeenBefore(names, i);
      if seen { return false; }
      assert names[..i + 1] == names[..i] + [u.name];
      if u.name == "root" {
        if !u.admin || u.uid != 0 || u.gid != 0 || u.hash != ROOT_HASH { return false; }
        rootFound := true;
      }
    }
    assert names[..|users|] == names;
    ok := rootFound;
  }

  method CheckDomainUsers(c: Config, d: Domain) returns (ok: bool)
    ensures ok <==> DomainUsersOk(c, d)
  {
    hide UserOk;
    var names := UserNames(d.users);
    for j := 0 to |d.users|
      invariant forall k | 0 <= k < j :: UserOk(d.users[k]) && d.users[k].name !in UserNames(c.users)
      invariant UniqueTo(names, j)
    {
      var good := CheckUser(d.users[j]);
      if !good { return false; }
      var global := Find(UserNames(c.users), d.users[j].name);
      if global.Some? { return false; }
      UniqueStep(names, j);
      var seen := SeenBefore(names, j);
      if seen { return false; }
    }
    ok := true;
  }

  /** A domain's logging sinks, by position. */
  method ResolveSinks(c: Config, d: Domain) returns (ok: bool, ks: seq<nat>)
    ensures ok <==> SinkUsesOk(c, d)
    ensures ok ==> SinksResolved(c, d, ks)
  {
    ks := [];
    for j := 0 to |d.sinks|
      invariant |ks| == j && forall k | 0 <= k < j :: ks[k] < |c.sinks| && c.sinks[ks[k]].name == d.sinks[k]
      invariant (forall k | 0 <= k < j :: d.sinks[k] in SinkNames(c)) && UniqueTo(d.sinks, j)
    {
      var k := Find(SinkNames(c), d.sinks[j]);
      if k.None? { return false, ks; }
      UniqueStep(d.sinks, j);
      var seen := SeenBefore(d.sinks, j);
      if seen { return false, ks; }
      ks := ks + [k.value];
    }
    ok := true;
  }

  // ---------- terminals ----------

  method FindDot(s: string) returns (n: nat)
    ensures n == DotAt(s)
  {
    n := 0;
    assert s[0..] == s;
    while n < |s| && s[n] != '.'
      invariant n <= |s| && DotAt(s) == n + DotAt(s[n..])
    {
      assert s[n..][1..] == s[n + 1..];
      n := n + 1;
    }
  }

  /** The seat and terminal a reference names. The loop over seats goes on after a match, but
      seat names are unique. */
  method ResolveReference(c: Config, reference: string) returns (r: Option<Place>)
    requires SeatsOk(c)
    ensures r.Some? ==> Names(c, reference, r.value)
    ensures r.None? ==> forall p: Place :: !Names(c, reference, p)
  {
    hide DotAt;
    forall p: Place | Names(c, reference, p)
      ensures SplitsAt(c, reference, p, DotAt(reference))
    {
      NamesSplits(c, reference, p);
    }
    var dot := FindDot(reference);
    if dot == |reference| || dot == 0 || dot + 1 == |reference| || '.' in reference[dot + 1..] { return None; }
    var seatName, terminalName := reference[..dot], reference[dot + 1..];
    assert reference == seatName + "." + terminalName;
    r := None;
    for k := 0 to |c.seats|
      invariant r.Some? ==> Names(c, reference, r.value)
      invariant r.None? ==> forall p: Place | p.seat < k :: !Names(c, reference, p)
    {
      if c.seats[k].name == seatName {
        var m := Find(c.seats[k].terminals, terminalName);
        if m.Some? { r := Some(Place(k, m.value)); }
      }
    }
  }

  /** The dot of a reference that names a place is the one between seat and terminal. */
  predicate SplitsAt(c: Config, reference: string, p: Place, dot: nat)
    requires Names(c, reference, p)
  {
    && 0 < dot < |reference| - 1 && '.' !in reference[dot + 1..]
    && c.seats[p.seat].name == reference[..dot]
    && c.seats[p.seat].terminals[p.terminal] == reference[dot + 1..]
  }

  lemma NamesSplits(c: Config, reference: string, p: Place)
    requires SeatsOk(c) && Names(c, reference, p)
    ensures SplitsAt(c, reference, p, DotAt(reference))
  {
    hide DotAt;
    var s := c.seats[p.seat];
    assert SeatOk(s) && TerminalNameOk(s.terminals[p.terminal]);
    var rest := "." + s.terminals[p.terminal];
    assert reference == s.name + rest;
    DotAtOf(s.name, rest);
    assert reference[|s.name| + 1..] == s.terminals[p.terminal] && reference[..|s.name|] == s.name;
  }

  /** Whether a place has been assigned before. */
  method Taken(earlier: seq<seq<Place>>, own: seq<Place>, p: Place) returns (taken: bool)
    ensures taken <==> p in own || exists k | 0 <= k < |earlier| :: p in earlier[k]
  {
    for k := 0 to |earlier|
      invariant forall i | 0 <= i < k :: p !in earlier[i]
    {
      for l := 0 to |earlier[k]|
        invariant p !in earlier[k][..l]
      {
        if earlier[k][l] == p { return true; }
        assert earlier[k][..l + 1] == earlier[k][..l] + [earlier[k][l]];
      }
      assert earlier[k][..|earlier[k]|] == earlier[k];
    }
    for l := 0 to |own|
      invariant p !in own[..l]
    {
      if own[l] == p { return true; }
      assert own[..l + 1] == own[..l] + [own[l]];
    }
    assert own[..|own|] == own;
    taken := false;
  }

  ghost predicate IsTaken(earlier: seq<seq<Place>>, own: seq<Place>, p: Place)
  {
    p in own || exists k | 0 <= k < |earlier| :: p in earlier[k]
  }

  /** The places of a domain's first terminals. */
  predicate PlacesTo(c: Config, d: Domain, ps: seq<Place>)
  {
    && |ps| <= |d.terminals|
    && forall j | 0 <= j < |ps| ::
         d.terminals[j].reference.Some? && Names(c, d.terminals[j].reference.value, ps[j])
  }

  ghost predicate EarlierResolved(c: Config, earlier: seq<seq<Place>>)
  {
    |earlier| <= |c.domains| && forall k | 0 <= k < |earlier| :: PlacesResolved(c, c.domains[k], earlier[k])
  }

  /** Comparing indices is comparing references. */
  lemma TakenIff(c: Config, i: nat, j: nat, earlier: seq<seq<Place>>, own: seq<Place>, p: Place)
    requires SeatsOk(c) && i < |c.domains| && j < |c.domains[i].terminals|
    requires |earlier| == i && |own| == j && EarlierResolved(c, earlier) && PlacesTo(c, c.domains[i], own)
    requires c.domains[i].terminals[j].reference.Some? && Names(c, c.domains[i].terminals[j].reference.value, p)
    ensures IsTaken(earlier, own, p) <==> !NewReference(c, i, j)
  {
    hide Names;
    var d := c.domains[i];
    var r := d.terminals[j].reference;
    if IsTaken(earlier, own, p) {
      if p in own {
        var l :| 0 <= l < |own| && own[l] == p;
        SamePlace(c, d.terminals[l].reference.value, r.value, own[l], p);
      } else {
        var k :| 0 <= k < |earlier| && p in earlier[k];
        var l :| 0 <= l < |earlier[k]| && earlier[k][l] == p;
        assert PlacesResolved(c, c.domains[k], earlier[k]);
        SamePlace(c, c.domains[k].terminals[l].reference.value, r.value, earlier[k][l], p);
      }
    }
    if !NewReference(c, i, j) {
      var k: nat, l: nat :| k <= i && l < |c.domains[k].terminals| && (k < i || l < j)
                            && c.domains[k].terminals[l].reference == r;
      if k < i { assert PlacesResolved(c, c.domains[k], earlier[k]); }
      SamePlace(c, r.value, r.value, if k < i then earlier[k][l] else own[l], p);
    }
  }

  method CheckAssignment(c: Config, d: Domain, a: Assignment) returns (ok: bool)
    requires d.personality != Vm
    ensures ok <==> AssignmentShape(d, a) && (a.runAs.Some? ==> KnownUser(c, d, a.runAs.value))
  {
    var expected := if d.personality == Native
                    then a.reference.Some? && a.view && a.process.Some? && a.device.None?
                    else a.reference.Some? && !a.view && a.process.None? && a.device.Some?;
    if !expected { return false; }
    if a.reference.value == "" || a.process == Some("") || a.device == Some("") { return false; }
    if a.runAs.Some? {
      var global := Find(UserNames(c.users), a.runAs.value);
      var local := Find(UserNames(d.users), a.runAs.value);
      if global.None? && local.None? { return false; }
    }
    ok := true;
  }

  method DeviceSeen(d: Domain, j: nat) returns (seen: bool)
    requires j < |d.terminals|
    ensures seen <==> exists k | 0 <= k < j :: d.terminals[k].device == d.terminals[j].device
  {
    for k := 0 to j
      invariant forall l | 0 <= l < k :: d.terminals[l].device != d.terminals[j].device
    {
      if d.terminals[j].device == d.terminals[k].device { return true; }
    }
    seen := false;
  }

  /** Everything about terminal j of domain i. */
  ghost predicate TerminalOk(c: Config, i: nat, j: nat)
    requires i < |c.domains| && j < |c.domains[i].terminals|
  {
    var d := c.domains[i];
    && AssignmentOk(c, d, d.terminals[j]) && NewReference(c, i, j)
    && (d.personality == Posix ==> forall k | 0 <= k < j :: d.terminals[k].device != d.terminals[j].device)
  }

  /** One terminal of a domain: checked, resolved, and compared with those before it. */
  method ResolveTerminal(c: Config, i: nat, j: nat, earlier: seq<seq<Place>>, own: seq<Place>)
    returns (r: Option<Place>)
    requires SeatsOk(c) && i < |c.domains| && c.domains[i].personality != Vm && j < |c.domains[i].terminals|
    requires |earlier| == i && |own| == j && EarlierResolved(c, earlier) && PlacesTo(c, c.domains[i], own)
    ensures r.Some? <==> TerminalOk(c, i, j)
    ensures r.Some? ==> Names(c, c.domains[i].terminals[j].reference.value, r.value) && !IsTaken(earlier, own, r.value)
  {
    hide Names, AssignmentShape, KnownUser, SeatsOk, NewReference;
    var d := c.domains[i];
    var a := d.terminals[j];
    var good := CheckAssignment(c, d, a);
    if !good { return None; }
    if d.personality == Posix {
      var seen := DeviceSeen(d, j);
      if seen { return None; }
    }
    assert a.reference.Some? by { ShapeHasReference(d, a); }
    r := ResolveReference(c, a.reference.value);
    if r.None? { return; }
    TakenIff(c, i, j, earlier, own, r.value);
    var taken := Taken(earlier, own, r.value);
    if taken { return None; }
  }

  lemma ShapeHasReference(d: Domain, a: Assignment)
    requires AssignmentShape(d, a)
    ensures a.reference.Some?
  {
  }

  method ResolveTerminals(c: Config, i: nat, earlier: seq<seq<Place>>) returns (ok: bool, ps: seq<Place>)
    requires SeatsOk(c) && i < |c.domains| && c.domains[i].personality != Vm
    requires |earlier| == i && EarlierResolved(c, earlier)
    ensures ok <==> forall j: nat | j < |c.domains[i].terminals| :: TerminalOk(c, i, j)
    ensures ok ==> PlacesResolved(c, c.domains[i], ps)
    ensures ok ==> forall j | 0 <= j < |ps| :: !IsTaken(earlier, ps[..j], ps[j])
  {
    hide Names, SeatsOk, AssignmentOk, NewReference;
    var d := c.domains[i];
    ps := [];
    for j := 0 to |d.terminals|
      invariant |ps| == j && PlacesTo(c, d, ps)
      invariant forall l: nat | l < j :: TerminalOk(c, i, l)
      invariant forall l | 0 <= l < |ps| :: !IsTaken(earlier, ps[..l], ps[l])
    {
      var p := ResolveTerminal(c, i, j, earlier, ps);
      if p.None? { return false, ps; }
      TerminalHasReference(c, i, j);
      var next := ps + [p.value];
      assert next[..j] == ps && forall l | 0 <= l < j :: next[..l] == ps[..l] && next[l] == ps[l];
      ps := next;
    }
    ok := true;
  }

  lemma TerminalHasReference(c: Config, i: nat, j: nat)
    requires i < |c.domains| && j < |c.domains[i].terminals| && TerminalOk(c, i, j)
    ensures c.domains[i].terminals[j].reference.Some?
  {
  }

  // ---------- domains ----------

  /** What one domain must satisfy, given those before it. */
  ghost predicate DomainFits(c: Config, i: nat)
    requires i < |c.domains|
  {
    && DomainOk(c, c.domains[i]) && NewReferences(c, i)
    && forall j | 0 <= j < i ::
         && c.domains[j].initrd != c.domains[i].initrd && c.domains[j].id != c.domains[i].id
         && c.domains[j].name != c.domains[i].name
  }

  method CheckAgainstEarlier(c: Config, i: nat) returns (ok: bool)
    requires i < |c.domains|
    ensures ok <==> forall j | 0 <= j < i ::
                      && c.domains[j].initrd != c.domains[i].initrd && c.domains[j].id != c.domains[i].id
                      && c.domains[j].name != c.domains[i].name
  {
    for j := 0 to i
      invariant forall k | 0 <= k < j ::
                  && c.domains[k].initrd != c.domains[i].initrd && c.domains[k].id != c.domains[i].id
                  && c.domains[k].name != c.domains[i].name
    {
      var d, e := c.domains[i], c.domains[j];
      if d.initrd == e.initrd || d.id == e.id || d.name == e.name { return false; }
    }
    ok := true;
  }

  lemma TerminalsMakeDomain(c: Config, i: nat)
    requires i < |c.domains|
    ensures var d := c.domains[i];
            (forall j: nat | j < |d.terminals| :: TerminalOk(c, i, j)) <==>
            && (forall j | 0 <= j < |d.terminals| :: AssignmentOk(c, d, d.terminals[j]))
            && DevicesDistinct(d) && NewReferences(c, i)
  {
    hide AssignmentOk, NewReference;
    var d := c.domains[i];
    if forall j: nat | j < |d.terminals| :: TerminalOk(c, i, j) {
      forall j: nat | j < |d.terminals|
        ensures AssignmentOk(c, d, d.terminals[j]) && NewReference(c, i, j)
      {
        assert TerminalOk(c, i, j);
      }
      forall j: nat, k: nat | k < j < |d.terminals| && d.personality == Posix
        ensures d.terminals[j].device != d.terminals[k].device
      {
        assert TerminalOk(c, i, j);
      }
    }
  }

  datatype Resolved = Resolved(sinks: seq<nat>, places: seq<Place>, source: nat)

  /** One turn of the loop over domains. */
  method ResolveDomain(c: Config, i: nat, earlier: seq<seq<Place>>) returns (r: Option<Resolved>)
    requires SeatsOk(c) && i < |c.domains| && |earlier| == i && EarlierResolved(c, earlier)
    ensures r.Some? <==> DomainFits(c, i)
    ensures r.Some? ==>
              && SinksResolved(c, c.domains[i], r.value.sinks) && PlacesResolved(c, c.domains[i], r.value.places)
              && SourceResolved(c, c.domains[i], r.value.source)
              && forall j | 0 <= j < |r.value.places| :: !IsTaken(earlier, r.value.places[..j], r.value.places[j])
  {
    hide SeatsOk, DomainUsersOk, SinkUsesOk, SinksResolved, PlacesResolved;
    hide TerminalOk, AssignmentOk, NewReferences, IsTaken;
    var d := c.domains[i];
    TerminalsMakeDomain(c, i);
    if !d.complete || d.name == "" || d.initrd == "" || '/' in d.initrd { return None; }
    var isNew := CheckAgainstEarlier(c, i);
    if !isNew { return None; }
    var users := CheckDomainUsers(c, d);
    if !users || d.personality == Vm { return None; }
    var sinksOk, sinks := ResolveSinks(c, d);
    if !sinksOk || d.sinks == [] || d.terminals == [] { return None; }
    if d.personality == Native && d.pid1.Some? { return None; }
    if d.personality == Posix && (d.pid1.None? || d.pid1.value == "") { return None; }
    var terminalsOk, places := ResolveTerminals(c, i, earlier);
    if !terminalsOk { return None; }
    var source := 0;
    if d.source.Some? {
      var k := Find(SourceNames(c), d.source.value);
      if k.None? { return None; }
      source := k.value;
    }
    r := Some(Resolved(sinks, places, source));
  }

  // ---------- the whole ----------

  class Validator {
    const config: Config
    var indices: Indices

    constructor (config: Config)
      ensures this.config == config
    {
      this.config := config;
      indices := Indices(0, [], [], [], []);
    }

    /** What the loop over domains has established after n of them. */
    ghost predicate DomainsTo(n: nat)
      reads this
    {
      && n <= |config.domains| && |indices.sinks| == |indices.places| == |indices.sources| == n
      && (forall i: nat | i < n :: DomainFits(config, i))
      && (forall i: nat | i < n ::
            && SinksResolved(config, config.domains[i], indices.sinks[i])
            && PlacesResolved(config, config.domains[i], indices.places[i])
            && SourceResolved(config, config.domains[i], indices.sources[i]))
      && PlacesDistinct(indices.places)
    }

    method ResolveDomains() returns (ok: bool, roots: nat)
      requires SeatsOk(config)
      modifies this
      ensures ok <==> forall i: nat | i < |config.domains| :: DomainFits(config, i)
      ensures ok ==> DomainsTo(|config.domains|)
      ensures ok ==> roots <= 1 && (roots == 1 <==> HasDomain(config, 0))
      ensures ok && roots == 1 ==> indices.root < |config.domains| && config.domains[indices.root].id == 0
    {
      hide SeatsOk, DomainOk, SinksResolved, PlacesResolved, SourceResolved, NewReferences, IsTaken;
      indices := Indices(0, [], [], [], []);
      roots := 0;
      for i := 0 to |config.domains|
        invariant DomainsTo(i) && roots <= 1
        invariant roots == 1 ==> indices.root < i && config.domains[indices.root].id == 0
        invariant roots == 0 ==> forall j | 0 <= j < i :: config.domains[j].id != 0
      {
        assert EarlierResolved(config, indices.places);
        var r := ResolveDomain(config, i, indices.places);
        if r.None? { return false, roots; }
        PlacesGrow(indices.places, r.value.places);
        if config.domains[i].id == 0 {
          assert DomainFits(config, i);
          assert roots != 1;
          roots := roots + 1;
          indices := indices.(root := i);
        }
        indices := indices.(sinks := indices.sinks + [r.value.sinks], places := indices.places + [r.value.places],
                            sources := indices.sources + [r.value.source]);
      }
      ok := true;
    }

    method ResolveProviders() returns (ok: bool)
      modifies this
      ensures ok <==> forall i | 0 <= i < |config.sources| :: HasDomain(config, config.sources[i].provider)
      ensures ok ==> && |indices.providers| == |config.sources|
                     && (forall i | 0 <= i < |config.sources| ::
                           && indices.providers[i] < |config.domains|
                           && config.domains[indices.providers[i]].id == config.sources[i].provider)
      ensures indices.(providers := []) == old(indices).(providers := [])
    {
      var found: seq<nat> := [];
      for i := 0 to |config.sources|
        invariant |found| == i && indices == old(indices)
        invariant forall k | 0 <= k < i :: HasDomain(config, config.sources[k].provider)
        invariant forall k | 0 <= k < i ::
                    found[k] < |config.domains| && config.domains[found[k]].id == config.sources[k].provider
      {
        var j := FindId(config, config.sources[i].provider);
        if j == |config.domains| { return false; }
        found := found + [j];
      }
      indices := indices.(providers := found);
      ok := true;
    }

    /** validate_required: succeeds exactly on acceptable configurations, and then every index
        points at the object its reference names. */
    method ValidateRequired() returns (ok: bool)
      modifies this
      ensures ok <==> Acceptable(config)
      ensures ok ==> Closed(config, indices)
    {
      hide DomainOk, SinksResolved, PlacesResolved, SourceResolved, PlacesDistinct, SeatsOk, UsersOk, SinkOk, SourceOk;
      AcceptableDomains(config);
      if !config.facetSeen || config.version != 1 { return false; }
      ok := CheckSinks(config);
      if !ok { return; }
      ok := CheckSeats(config);
      if !ok { return; }
      ok := CheckSources(config);
      if !ok { return; }
      ok := CheckUsers(config.users);
      if !ok { return; }
      if config.domains == [] { return false; }
      var roots;
      ok, roots := ResolveDomains();
      if !ok { return; }
      if roots != 1 { return false; }
      ok := ResolveProviders();
      if !ok { return; }
      assert DistinctIds(config);
      ok := config.seatInitrd.Some? && config.seatInitrd.value != "";
    }
  }

  method FindId(c: Config, id: nat) returns (j: nat)
    ensures j <= |c.domains| && (j < |c.domains| ==> c.domains[j].id == id)
    ensures j == |c.domains| ==> forall i | 0 <= i < |c.domains| :: c.domains[i].id != id
  {
    j := 0;
    while j < |c.domains|
      invariant j <= |c.domains| && forall i | 0 <= i < j :: c.domains[i].id != id
    {
      if c.domains[j].id == id { return; }
      j := j + 1;
    }
  }

  lemma PlacesGrow(places: seq<seq<Place>>, ps: seq<Place>)
    requires PlacesDistinct(places) && forall j | 0 <= j < |ps| :: !IsTaken(places, ps[..j], ps[j])
    ensures PlacesDistinct(places + [ps])
  {
    var all := places + [ps];
    forall i: nat, j: nat | i < |all| && j < |all[i]|
      ensures NewPlace(all, i, j)
    {
      if i < |places| {
        assert NewPlace(places, i, j);
      } else {
        assert !IsTaken(places, ps[..j], ps[j]);
        assert forall l | 0 <= l < j :: ps[..j][l] == ps[l];
      }
    }
  }

  /** The conditions on single domains and between them, put together. */
  lemma AcceptableDomains(c: Config)
    ensures (forall i: nat | i < |c.domains| :: DomainFits(c, i)) <==>
            && (forall i | 0 <= i < |c.domains| :: DomainOk(c, c.domains[i]))
            && (forall i: nat | i < |c.domains| :: NewReferences(c, i))
            && Unique(Initrds(c)) && DistinctIds(c) && Unique(DomainNames(c))
  {
    hide DomainOk, NewReferences;
    if forall i: nat | i < |c.domains| :: DomainFits(c, i) {
      forall i: nat | i < |c.domains|
        ensures DomainOk(c, c.domains[i]) && NewReferences(c, i)
      {
        assert DomainFits(c, i);
      }
      forall i: nat, j: nat | i < j < |c.domains|
        ensures c.domains[i].initrd != c.domains[j].initrd && c.domains[i].id != c.domains[j].id
        ensures c.domains[i].name != c.domains[j].name
      {
        assert DomainFits(c, j);
      }
    }
    if Unique(Initrds(c)) && DistinctIds(c) && Unique(DomainNames(c)) {
      forall i: nat, j: nat | j < i < |c.domains|
        ensures c.domains[j].initrd != c.domains[i].initrd && c.domains[j].id != c.domains[i].id
        ensures c.domains[j].name != c.domains[i].name
      {
        assert Initrds(c)[j] != Initrds(c)[i] && DomainNames(c)[j] != DomainNames(c)[i];
      }
    }
  }
}
