/** A parsed configuration, what makes it acceptable, and what its references resolve to. In
    each record `complete` says that all required keys were given. */
module ConfigSpec {
  import opened Bytes

  datatype Personality = Native | Posix | Vm

  datatype Sink = Sink(complete: bool, name: string, kind: string)

  datatype Seat = Seat(complete: bool, name: string, server: string, terminals: seq<string>)

  datatype Source = Source(complete: bool, name: string, kind: string, provider: nat)

  datatype User = User(
    complete: bool, name: string, hash: string, admin: bool, uid: nat, gid: nat,
    home: string, nativeShell: Option<string>, posixShell: Option<string>)

  /** A terminal of a domain; `view` says whether that key was given. */
  datatype Assignment = Assignment(
    reference: Option<string>, view: bool, process: Option<string>, device: Option<string>, runAs: Option<string>)

  datatype Domain = Domain(
    complete: bool, id: nat, name: string, personality: Personality, source: Option<string>,
    pid1: Option<string>, initrd: string, users: seq<User>, sinks: seq<string>, terminals: seq<Assignment>)

  datatype Config = Config(
    facetSeen: bool, version: nat, seatInitrd: Option<string>, sinks: seq<Sink>, seats: seq<Seat>,
    sources: seq<Source>, users: seq<User>, domains: seq<Domain>)

  // ---------- names ----------

  predicate Unique(names: seq<string>)
  {
    forall i, j | 0 <= i < j < |names| :: names[i] != names[j]
  }

  /** The first position of a name. */
  function IndexOf(names: seq<string>, name: string): (r: Option<nat>)
    ensures r.Some? ==> r.value < |names| && names[r.value] == name
    ensures r.Some? <==> name in names
  {
    if names == [] then None
    else if names[0] == name then Some(0)
    else
      var r := IndexOf(names[1..], name);
      if r.None? then None else Some(r.value + 1)
  }

  function SinkNames(c: Config): (r: seq<string>)
    ensures |r| == |c.sinks| && forall i | 0 <= i < |r| :: r[i] == c.sinks[i].name
  {
    seq(|c.sinks|, i requires 0 <= i < |c.sinks| => c.sinks[i].name)
  }

  function SeatNames(c: Config): (r: seq<string>)
    ensures |r| == |c.seats| && forall i | 0 <= i < |r| :: r[i] == c.seats[i].name
  {
    seq(|c.seats|, i requires 0 <= i < |c.seats| => c.seats[i].name)
  }

  function SourceNames(c: Config): (r: seq<string>)
    ensures |r| == |c.sources| && forall i | 0 <= i < |r| :: r[i] == c.sources[i].name
  {
    seq(|c.sources|, i requires 0 <= i < |c.sources| => c.sources[i].name)
  }

  function UserNames(users: seq<User>): (r: seq<string>)
    ensures |r| == |users| && forall i | 0 <= i < |r| :: r[i] == users[i].name
  {
    seq(|users|, i requires 0 <= i < |users| => users[i].name)
  }

  function DomainNames(c: Config): (r: seq<string>)
    ensures |r| == |c.domains| && forall i | 0 <= i < |r| :: r[i] == c.domains[i].name
  {
    seq(|c.domains|, i requires 0 <= i < |c.domains| => c.domains[i].name)
  }

  function Initrds(c: Config): (r: seq<string>)
    ensures |r| == |c.domains| && forall i | 0 <= i < |r| :: r[i] == c.domains[i].initrd
  {
    seq(|c.domains|, i requires 0 <= i < |c.domains| => c.domains[i].initrd)
  }

  // ---------- sinks, seats, sources, users ----------

  predicate SinkOk(s: Sink)
  {
    s.complete && s.name != "" && s.kind != ""
  }

  predicate TerminalNameOk(t: string)
  {
    t != "" && '.' !in t
  }

  predicate SeatOk(s: Seat)
  {
    && s.complete && s.name != "" && s.server != "" && s.server[0] == '/' && '.' !in s.name
    && (forall j | 0 <= j < |s.terminals| :: TerminalNameOk(s.terminals[j])) && Unique(s.terminals)
  }

  predicate SourceOk(s: Source)
  {
    s.complete && s.name != "" && s.kind != ""
  }

  predicate Absolute(path: string)
  {
    path != "" && path[0] == '/'
  }

  /** valid_password_hash: "$5$", a salt, "$" and a digest. */
  predicate HashOk(hash: string)
  {
    && |hash| >= 3 && hash[..3] == "$5$"
    && exists d | 3 < d < |hash| - 1 :: hash[d] == '$' && '$' !in hash[3..d]
  }

  predicate UserOk(u: User)
  {
    && u.complete && u.name != "" && HashOk(u.hash) && Absolute(u.home)
    && (u.nativeShell.Some? ==> Absolute(u.nativeShell.value))
    && (u.posixShell.Some? ==> Absolute(u.posixShell.value))
  }

  const ROOT_HASH := "$5$facet$j7FgoXidvJl10CTaW0nguGP3ZnvKnqS3/IHmDVliPQ9"

  predicate RootOk(u: User)
  {
    u.name == "root" ==> u.admin && u.uid == 0 && u.gid == 0 && u.hash == ROOT_HASH
  }

  predicate UsersOk(users: seq<User>)
  {
    && (forall i | 0 <= i < |users| :: UserOk(users[i]) && RootOk(users[i]))
    && Unique(UserNames(users)) && "root" in UserNames(users)
  }

  // ---------- terminal references ----------

  /** The first dot, or the end. */
  function DotAt(s: string): (n: nat)
    ensures n <= |s| && '.' !in s[..n] && (n < |s| ==> s[n] == '.')
  {
    if s == "" || s[0] == '.' then 0
    else
      var n := DotAt(s[1..]);
      assert s[..1 + n] == [s[0]] + s[1..][..n];
      1 + n
  }

  lemma {:induction false} DotAtOf(a: string, rest: string)
    requires '.' !in a && (rest == "" || rest[0] == '.')
    ensures DotAt(a + rest) == |a|
  {
    if a == "" {
      assert a + rest == rest;
    } else {
      assert a[0] in a && (a + rest)[1..] == a[1..] + rest;
      DotAtOf(a[1..], rest);
    }
  }

  datatype Place = Place(seat: nat, terminal: nat)

  /** The place is what the reference names. */
  predicate Names(c: Config, reference: string, p: Place)
  {
    && p.seat < |c.seats| && p.terminal < |c.seats[p.seat].terminals|
    && reference == c.seats[p.seat].name + "." + c.seats[p.seat].terminals[p.terminal]
  }

  predicate SeatsOk(c: Config)
  {
    (forall i | 0 <= i < |c.seats| :: SeatOk(c.seats[i])) && Unique(SeatNames(c))
  }

  lemma SplitUnique(a: string, b: string, x: string, y: string)
    requires '.' !in a && '.' !in x && a + "." + b == x + "." + y
    ensures a == x && b == y
  {
    DotAtOf(a, "." + b);
    DotAtOf(x, "." + y);
    assert a + "." + b == a + ("." + b) && x + "." + y == x + ("." + y);
    var s := a + "." + b;
    assert a == s[..|a|] == x && b == s[|a| + 1..] == y;
  }

  /** A reference names at most one place. */
  lemma NamesUnique(c: Config, reference: string, p: Place, q: Place)
    requires SeatsOk(c) && Names(c, reference, p) && Names(c, reference, q)
    ensures p == q
  {
    var s, t := c.seats[p.seat], c.seats[q.seat];
    assert SeatOk(s) && SeatOk(t);
    SplitUnique(s.name, s.terminals[p.terminal], t.name, t.terminals[q.terminal]);
    assert SeatNames(c)[p.seat] == SeatNames(c)[q.seat];
  }

  /** Two references name the same place only if they are the same. */
  lemma SamePlace(c: Config, r: string, s: string, p: Place, q: Place)
    requires SeatsOk(c) && Names(c, r, p) && Names(c, s, q)
    ensures p == q <==> r == s
  {
    if r == s { NamesUnique(c, r, p, q); }
  }

  // ---------- domains ----------

  predicate KnownUser(c: Config, d: Domain, name: string)
  {
    name in UserNames(c.users) || name in UserNames(d.users)
  }

  /** The keys of a terminal that its domain's personality asks for, none of them empty. */
  predicate AssignmentShape(d: Domain, a: Assignment)
  {
    && a.reference.Some? && a.reference.value != ""
    && (if d.personality == Native then a.view && a.process.Some? && a.device.None?
        else !a.view && a.process.None? && a.device.Some?)
    && (a.process.Some? ==> a.process.value != "") && (a.device.Some? ==> a.device.value != "")
  }

  ghost predicate AssignmentOk(c: Config, d: Domain, a: Assignment)
  {
    && AssignmentShape(d, a)
    && (a.runAs.Some? ==> KnownUser(c, d, a.runAs.value))
    && exists p :: Names(c, a.reference.value, p)
  }

  predicate DomainUsersOk(c: Config, d: Domain)
  {
    && (forall j | 0 <= j < |d.users| :: UserOk(d.users[j]) && d.users[j].name !in UserNames(c.users))
    && Unique(UserNames(d.users))
  }

  predicate SinkUsesOk(c: Config, d: Domain)
  {
    (forall j | 0 <= j < |d.sinks| :: d.sinks[j] in SinkNames(c)) && Unique(d.sinks)
  }

  predicate DevicesDistinct(d: Domain)
  {
    d.personality == Posix ==>
      forall j, k | 0 <= k < j < |d.terminals| :: d.terminals[j].device != d.terminals[k].device
  }

  predicate DomainShape(d: Domain)
  {
    && d.complete && d.name != "" && d.initrd != "" && '/' !in d.initrd && d.personality != Vm
    && d.sinks != [] && d.terminals != []
    && (d.personality == Native ==> d.pid1.None?)
    && (d.personality == Posix ==> d.pid1.Some? && d.pid1.value != "")
  }

  ghost predicate DomainOk(c: Config, d: Domain)
  {
    && DomainShape(d) && DomainUsersOk(c, d) && SinkUsesOk(c, d)
    && (forall j | 0 <= j < |d.terminals| :: AssignmentOk(c, d, d.terminals[j]))
    && DevicesDistinct(d)
    && (d.source.Some? ==> d.source.value in SourceNames(c))
  }

  predicate DistinctIds(c: Config)
  {
    forall i, j | 0 <= j < i < |c.domains| :: c.domains[i].id != c.domains[j].id
  }

  /** Terminal j of domain i is none of those before it, in its own domain or an earlier one. */
  ghost predicate NewReference(c: Config, i: nat, j: nat)
    requires i < |c.domains| && j < |c.domains[i].terminals|
  {
    forall k: nat, l: nat | k <= i && l < |c.domains[k].terminals| && (k < i || l < j) ::
      c.domains[k].terminals[l].reference != c.domains[i].terminals[j].reference
  }

  ghost predicate NewReferences(c: Config, i: nat)
    requires i < |c.domains|
  {
    forall j: nat | j < |c.domains[i].terminals| :: NewReference(c, i, j)
  }

  predicate HasDomain(c: Config, id: nat)
  {
    exists j | 0 <= j < |c.domains| :: c.domains[j].id == id
  }

  ghost predicate Acceptable(c: Config)
  {
    && c.facetSeen && c.version == 1
    && (forall i | 0 <= i < |c.sinks| :: SinkOk(c.sinks[i])) && Unique(SinkNames(c))
    && SeatsOk(c)
    && (forall i | 0 <= i < |c.sources| :: SourceOk(c.sources[i])) && Unique(SourceNames(c))
    && UsersOk(c.users)
    && (forall i | 0 <= i < |c.domains| :: DomainOk(c, c.domains[i]))
    && (forall i: nat | i < |c.domains| :: NewReferences(c, i))
    && Unique(Initrds(c)) && DistinctIds(c) && Unique(DomainNames(c))
    && HasDomain(c, 0)
    && (forall i | 0 <= i < |c.sources| :: HasDomain(c, c.sources[i].provider))
    && c.seatInitrd.Some? && c.seatInitrd.value != ""
  }

  // ---------- resolved references ----------

  /** The index fields that validation fills in. */
  datatype Indices = Indices(
    root: nat, sinks: seq<seq<nat>>, places: seq<seq<Place>>, sources: seq<nat>, providers: seq<nat>)

  predicate SinksResolved(c: Config, d: Domain, ks: seq<nat>)
  {
    |ks| == |d.sinks| && forall j | 0 <= j < |ks| :: ks[j] < |c.sinks| && c.sinks[ks[j]].name == d.sinks[j]
  }

  predicate PlacesResolved(c: Config, d: Domain, ps: seq<Place>)
  {
    && |ps| == |d.terminals|
    && forall j | 0 <= j < |ps| ::
         d.terminals[j].reference.Some? && Names(c, d.terminals[j].reference.value, ps[j])
  }

  predicate SourceResolved(c: Config, d: Domain, k: nat)
  {
    d.source.Some? ==> k < |c.sources| && c.sources[k].name == d.source.value
  }

  /** No place is assigned twice. */
  ghost predicate NewPlace(places: seq<seq<Place>>, i: nat, j: nat)
    requires i < |places| && j < |places[i]|
  {
    forall k: nat, l: nat | k <= i && l < |places[k]| && (k < i || l < j) :: places[k][l] != places[i][j]
  }

  ghost predicate PlacesDistinct(places: seq<seq<Place>>)
  {
    forall i: nat, j: nat | i < |places| && j < |places[i]| :: NewPlace(places, i, j)
  }

  /** Every reference of the configuration points at the object it names. */
  ghost predicate Closed(c: Config, x: Indices)
  {
    && x.root < |c.domains| && (forall i | 0 <= i < |c.domains| :: c.domains[i].id == 0 <==> i == x.root)
    && |x.sinks| == |x.places| == |x.sources| == |c.domains| && |x.providers| == |c.sources|
    && (forall i | 0 <= i < |c.domains| ::
          && SinksResolved(c, c.domains[i], x.sinks[i])
          && PlacesResolved(c, c.domains[i], x.places[i])
          && SourceResolved(c, c.domains[i], x.sources[i]))
    && PlacesDistinct(x.places)
    && (forall i | 0 <= i < |c.sources| ::
          x.providers[i] < |c.domains| && c.domains[x.providers[i]].id == c.sources[i].provider)
  }
}
