/** Method numbering in the interface compiler, and dispatch by number in the runtime. */
module MethodIds {
  import CodecSpec
  import opened StubSpec

  const MAX_METHODS := 128
  const FIRST_OWN_ID := 100

  datatype Method = Method(id: nat, name: string, returnType: string, params: seq<Param>)

  /** The id of method i when the first g methods come from IGenericObject. */
  function IdOf(i: nat, g: nat): nat
  {
    if i < g then i else FIRST_OWN_ID + (i - g)
  }

  /** The numbering gives no id twice exactly if there are at most 100 generic methods or no
      others. */
  lemma IdsDistinct(count: nat, g: nat)
    requires g <= count
    ensures (forall i: nat, j: nat | i < j < count :: IdOf(i, g) != IdOf(j, g)) <==> (g <= FIRST_OWN_ID || g == count)
  {
    if g > FIRST_OWN_ID && g < count {
      assert IdOf(FIRST_OWN_ID, g) == IdOf(g, g);
    }
  }

  predicate PointersOnlyOut(params: seq<Param>)
  {
    forall p | p in params :: p.ty == Base(CodecSpec.LocalPtr) ==> p.direction == Out
  }

  datatype Header = Header(name: string, uuid: string, uuidAuto: bool)

  predicate Identified(h: Header)
  {
    h.name != "" && (h.uuid != "" || h.uuidAuto)
  }

  /** What validate accepts of the methods. */
  predicate Acceptable(methods: seq<Method>, g: nat)
  {
    && (forall i | 0 <= i < |methods| ::
          && methods[i].id == IdOf(i, g) && methods[i].returnType == "FacetResult"
          && PointersOnlyOut(methods[i].params))
    && g <= FIRST_OWN_ID
    && (g != 0 ==> methods != [] && methods[0].name == "getInterface")
  }

  function Numbered(methods: seq<Method>, g: nat): (r: seq<Method>)
    ensures |r| == |methods|
    ensures forall i | 0 <= i < |methods| :: r[i] == methods[i].(id := IdOf(i, g))
  {
    seq(|methods|, i requires 0 <= i < |methods| => methods[i].(id := IdOf(i, g)))
  }

  /** The first method with the id, or the number of methods if there is none. */
  function Dispatched(methods: seq<Method>, id: nat): (found: nat)
    ensures found <= |methods| && (found < |methods| ==> methods[found].id == id)
    ensures forall i | 0 <= i < found :: methods[i].id != id
  {
    if methods == [] || methods[0].id == id then 0 else 1 + Dispatched(methods[1..], id)
  }

  /** find_method */
  method FindMethod(methods: seq<Method>, id: nat) returns (found: nat)
    ensures found == Dispatched(methods, id)
    ensures found <= |methods| && (found < |methods| ==> methods[found].id == id)
    ensures forall i | 0 <= i < found :: methods[i].id != id
  {
    hide Dispatched;
    found := 0;
    while found < |methods|
      invariant found <= |methods|
      invariant forall i | 0 <= i < found :: methods[i].id != id
    {
      if methods[found].id == id { return; }
      found := found + 1;
    }
  }

  /** In an accepted interface every method is the one its id dispatches to. */
  lemma DispatchReaches(methods: seq<Method>, g: nat, i: nat)
    requires Acceptable(methods, g) && g <= |methods| && i < |methods|
    ensures Dispatched(methods, methods[i].id) == i
  {
    hide Dispatched;
    var found := Dispatched(methods, methods[i].id);
    assert found <= i;
    assert methods[i].id == IdOf(i, g) && methods[found].id == IdOf(found, g);
  }

  class Context {
    const header: Header
    const methods: array<Method>
    var count: nat
    var generic: nat

    ghost predicate Valid()
      reads this
    {
      count <= methods.Length == MAX_METHODS
    }

    ghost function View(): seq<Method>
      requires Valid()
      reads this, methods
    {
      methods[..count]
    }

    constructor (header: Header, declared: seq<Method>)
      requires |declared| <= MAX_METHODS
      ensures Valid() && View() == declared && this.header == header && fresh(methods)
    {
      this.header := header;
      methods := new Method[MAX_METHODS](i => if 0 <= i < |declared| then declared[i] else Method(0, "", "", []));
      count, generic := |declared|, 0;
      new;
      assert methods[..count] == declared;
    }

    /** Puts the generic methods in front of the declared ones. */
    method ImportGeneric(imported: seq<Method>) returns (ok: bool)
      requires Valid()
      modifies this, methods
      ensures Valid()
      ensures ok <==> |imported| + old(count) <= MAX_METHODS
      ensures ok ==> View() == imported + old(View()) && generic == |imported|
      ensures !ok ==> View() == old(View()) && generic == old(generic)
    {
      if |imported| > MAX_METHODS || |imported| + count > MAX_METHODS { return false; }
      PutInFront(imported);
      count := count + |imported|;
      generic := |imported|;
      ok := true;
    }

    method PutInFront(imported: seq<Method>)
      requires Valid() && |imported| + count <= MAX_METHODS
      modifies methods
      ensures methods[..|imported| + count] == imported + old(methods[..count])
    {
      var n := |imported|;
      MoveUp(n);
      ghost var moved := methods[n..];
      assert moved[..count] == methods[n..n + count];
      PutFirst(imported);
      assert methods[n..] == moved;
      assert methods[..n + count] == methods[..n] + methods[n..][..count];
    }

    /** The memmove of the declared methods. */
    method MoveUp(n: nat)
      requires Valid() && n + count <= MAX_METHODS
      modifies methods
      ensures methods[n..n + count] == old(methods[..count])
    {
      forall i | 0 <= i < count {
        methods[n + i] := methods[i];
      }
    }

    /** The memcpy of the imported ones. */
    method PutFirst(imported: seq<Method>)
      requires Valid() && |imported| <= MAX_METHODS
      modifies methods
      ensures methods[..|imported|] == imported && methods[|imported|..] == old(methods[|imported|..])
    {
      forall i | 0 <= i < |imported| {
        methods[i] := imported[i];
      }
    }

    method AssignIds(g: nat)
      requires Valid()
      modifies this, methods
      ensures Valid() && count == old(count) && generic == g
      ensures View() == Numbered(old(View()), g)
    {
      generic := g;
      for i := 0 to count
        invariant count == old(count) && generic == g
        invariant forall j | 0 <= j < i :: methods[j] == old(methods[j]).(id := IdOf(j, g))
        invariant forall j | i <= j < count :: methods[j] == old(methods[j])
      {
        methods[i] := methods[i].(id := if i < g then i else FIRST_OWN_ID + (i - g));
      }
    }

    method Validate() returns (ok: bool)
      requires Valid() && generic <= count
      ensures ok <==> Identified(header) && Acceptable(View(), generic)
    {
      if header.name == "" || (header.uuid == "" && !header.uuidAuto) { return false; }
      for i := 0 to count
        invariant forall j | 0 <= j < i ::
                    && methods[j].id == IdOf(j, generic) && methods[j].returnType == "FacetResult"
                    && PointersOnlyOut(methods[j].params)
      {
        var m := methods[i];
        assert View()[i] == m;
        var expected := if i < generic then i else FIRST_OWN_ID + (i - generic);
        if m.id != expected || m.returnType != "FacetResult" { return false; }
        for k := 0 to |m.params|
          invariant forall j | 0 <= j < k :: m.params[j].ty == Base(CodecSpec.LocalPtr) ==> m.params[j].direction == Out
        {
          if m.params[k].ty == Base(CodecSpec.LocalPtr) && m.params[k].direction != Out {
            assert m.params[k] in m.params;
            return false;
          }
        }
      }
      if generic > 100 { return false; }
      if generic != 0 && methods[0].name != "getInterface" { return false; }
      ok := true;
    }

    /** The compiler's path for an ordinary interface: number and validate IGenericObject,
        import its methods, number and validate the whole. */
    method Compile(base: Context) returns (ok: bool)
      requires Valid() && base.Valid() && base != this && base.methods != methods
      modifies this, methods, base, base.methods
      ensures Valid()
      ensures var g := old(base.count);
              ok <==> && Identified(base.header) && Identified(header)
                      && Acceptable(Numbered(old(base.View()), g), g) && g + old(count) <= MAX_METHODS
                      && Acceptable(Numbered(old(base.View()) + old(View()), g), g)
      ensures ok ==> View() == Numbered(old(base.View()) + old(View()), old(base.count))
    {
      var g := base.count;
      base.AssignIds(g);
      ok := base.Validate();
      if !ok { return; }
      ok := ImportGeneric(base.methods[..g]);
      if !ok { return; }
      AssignIds(g);
      assert View() == Numbered(old(base.View()) + old(View()), g);
      ok := Validate();
    }
  }

  /** What the compiler accepts is numbered so that dispatch works, and the generic methods have
      the same ids in every interface. */
  lemma CompiledDispatch(base: seq<Method>, own: seq<Method>, i: nat)
    requires Acceptable(Numbered(base + own, |base|), |base|) && i < |base + own|
    ensures var all := Numbered(base + own, |base|);
            && all[i].name == (base + own)[i].name
            && (i < |base| ==> all[i] == Numbered(base, |base|)[i])
            && forall j | 0 <= j < |all| && all[j].id == all[i].id :: j == i
  {
  }
}
