/**
 The access rights of a running context (types/src/access_rights.rs): a map that is
 extended, granted to and taken from, and what its answers say about its history.
 */
module ContextRights {
  import opened Bytes

  datatype Right = Read | Write | Add

  type Addr = Bytes
  type Rights = set<Right>
  type Known = map<Addr, Rights>

  datatype URef = URef(addr: Addr, rights: Rights)

  datatype GrantedAccess = PreExisting | Granted(addr: Addr, newlyGranted: Rights)

  function At(m: Known, a: Addr): Rights {
    if a in m then m[a] else {}
  }

  /** Union at one address; the address is known from then on. */
  function With(m: Known, u: URef): Known {
    m[u.addr := At(m, u.addr) + u.rights]
  }

  function WithAll(m: Known, us: seq<URef>): Known {
    if us == [] then m else With(WithAll(m, us[..|us| - 1]), us[|us| - 1])
  }

  /** Difference at one address; an unknown address stays unknown. */
  function Without(m: Known, a: Addr, rights: Rights): Known {
    if a in m then m[a := m[a] - rights] else m
  }

  /** The check: the address is known and every right asked for is held. */
  predicate Has(m: Known, u: URef) {
    u.addr in m && u.rights <= m[u.addr]
  }

  // ---- extending ----

  lemma {:induction false} WithAllHolds(m: Known, us: seq<URef>, a: Addr, r: Right)
    ensures a in WithAll(m, us) <==> a in m || exists u :: u in us && u.addr == a
    ensures r in At(WithAll(m, us), a) <==> r in At(m, a) || exists u :: u in us && u.addr == a && r in u.rights
  {
    if us != [] {
      var front, last := us[..|us| - 1], us[|us| - 1];
      WithAllHolds(m, front, a, r);
      assert us == front + [last];
      assert forall u :: u in us <==> u in front || u == last;
    }
  }

  /** Only which references occur matters: neither their order nor how often they occur. */
  lemma ExtendIgnoresOrder(m: Known, us: seq<URef>, vs: seq<URef>)
    requires forall u :: u in us <==> u in vs
    ensures WithAll(m, us) == WithAll(m, vs)
  {
    var x, y := WithAll(m, us), WithAll(m, vs);
    forall a: Addr
      ensures a in x <==> a in y
      ensures At(x, a) == At(y, a)
    {
      forall r: Right ensures r in At(x, a) <==> r in At(y, a) {
        WithAllHolds(m, us, a, r);
        WithAllHolds(m, vs, a, r);
      }
      WithAllHolds(m, us, a, Read);
      WithAllHolds(m, vs, a, Read);
    }
    forall a | a in x && a in y ensures x[a] == y[a] {
      assert At(x, a) == At(y, a);
    }
  }

  // ---- histories ----

  datatype Op = Extend(urefs: seq<URef>) | Grant(uref: URef) | Remove(addr: Addr, rights: Rights)

  function Apply(m: Known, op: Op): Known {
    match op
    case Extend(us) => WithAll(m, us)
    case Grant(u) => With(m, u)
    case Remove(a, rights) => Without(m, a, rights)
  }

  function ApplyAll(m: Known, ops: seq<Op>): Known {
    if ops == [] then m else Apply(ApplyAll(m, ops[..|ops| - 1]), ops[|ops| - 1])
  }

  /** Whether the operation gives this right on this address, takes it, or leaves it alone. */
  ghost function Touches(op: Op, a: Addr, r: Right): Option<bool> {
    match op
    case Extend(us) => if exists u :: u in us && u.addr == a && r in u.rights then Some(true) else None
    case Grant(u) => if u.addr == a && r in u.rights then Some(true) else None
    case Remove(b, rights) => if b == a && r in rights then Some(false) else None
  }

  ghost function LastTouch(ops: seq<Op>, a: Addr, r: Right): Option<bool> {
    if ops == [] then None
    else
      var last := Touches(ops[|ops| - 1], a, r);
      if last.Some? then last else LastTouch(ops[..|ops| - 1], a, r)
  }

  ghost predicate Introduces(op: Op, a: Addr) {
    match op
    case Extend(us) => exists u :: u in us && u.addr == a
    case Grant(u) => u.addr == a
    case Remove(_, _) => false
  }

  ghost predicate Introduced(ops: seq<Op>, a: Addr) {
    exists op :: op in ops && Introduces(op, a)
  }

  /** A right is held exactly when the last operation that touched it gave it. */
  lemma {:induction false} HistoryDecides(ops: seq<Op>, a: Addr, r: Right)
    ensures r in At(ApplyAll(map[], ops), a) <==> LastTouch(ops, a, r) == Some(true)
    ensures a in ApplyAll(map[], ops) <==> Introduced(ops, a)
  {
    if ops != [] {
      var front, last := ops[..|ops| - 1], ops[|ops| - 1];
      HistoryDecides(front, a, r);
      assert ops == front + [last];
      assert Introduced(ops, a) <==> Introduced(front, a) || Introduces(last, a);
      if last.Extend? {
        WithAllHolds(ApplyAll(map[], front), last.urefs, a, r);
      }
    }
  }

  /** So the history alone answers every check. */
  lemma HistoryAnswers(ops: seq<Op>, u: URef)
    ensures Has(ApplyAll(map[], ops), u) <==>
            Introduced(ops, u.addr) && forall r | r in u.rights :: LastTouch(ops, u.addr, r) == Some(true)
  {
    var m := ApplyAll(map[], ops);
    HistoryDecides(ops, u.addr, Read);
    forall r: Right ensures r in At(m, u.addr) <==> LastTouch(ops, u.addr, r) == Some(true) {
      HistoryDecides(ops, u.addr, r);
    }
    assert u.addr in m ==> At(m, u.addr) == m[u.addr];
  }

  // ---- granting and taking back ----

  function NewlyGranted(m: Known, u: URef): Rights {
    u.rights - At(m, u.addr)
  }

  /**
   Taking back what a grant newly gave restores every answer but one: an address unknown
   before stays known, and so passes the check that asks for no rights at all.
   */
  lemma GrantThenRemove(m: Known, u: URef, q: URef)
    ensures var m' := Without(With(m, u), u.addr, NewlyGranted(m, u));
            (Has(m', q) <==> Has(m, q)) <==> !(u.addr !in m && q.addr == u.addr && q.rights == {})
  {
    var m' := Without(With(m, u), u.addr, NewlyGranted(m, u));
    assert At(m', u.addr) == At(m, u.addr);
    if u.addr !in m && q.addr == u.addr {
      assert m'[q.addr] == {};
    }
  }

  // ---- the object ----

  class ContextAccessRights {
    var known: Known

    constructor (urefs: seq<URef>)
      ensures known == WithAll(map[], urefs)
    {
      known := map[];
      new;
      DoExtend(urefs);
    }

    method DoExtend(urefs: seq<URef>)
      modifies this
      ensures known == WithAll(old(known), urefs)
    {
      for i := 0 to |urefs|
        invariant known == WithAll(old(known), urefs[..i])
      {
        assert urefs[..i + 1][..i] == urefs[..i];
        var u := urefs[i];
        if u.addr in known {
          known := known[u.addr := known[u.addr] + u.rights];
        } else {
          assert {} + u.rights == u.rights;
          known := known[u.addr := u.rights];
        }
      }
      assert urefs[..|urefs|] == urefs;
    }

    /** Extends from a map, entry by entry in any order. */
    method ExtendAccessRights(more: Known)
      modifies this
      ensures known.Keys == old(known).Keys + more.Keys
      ensures forall a | a in known :: known[a] == At(old(known), a) + At(more, a)
    {
      var left := more.Keys;
      while left != {}
        invariant left <= more.Keys && known.Keys == old(known).Keys + (more.Keys - left)
        invariant forall a | a in known :: known[a] == At(old(known), a) + if a in left then {} else At(more, a)
        decreases left
      {
        var a :| a in left;
        if a in known {
          known := known[a := known[a] + more[a]];
        } else {
          known := known[a := more[a]];
        }
        left := left - {a};
      }
    }

    method HasAccessRightsTo(u: URef) returns (ok: bool)
      ensures ok == Has(known, u)
    {
      if u.addr !in known {
        return false;
      }
      ok := u.rights <= known[u.addr];
    }

    /** Reports what was new; a known address that already had it all is not reported. */
    method GrantAccess(u: URef) returns (granted: GrantedAccess)
      modifies this
      ensures known == With(old(known), u)
      ensures granted.PreExisting? <==> Has(old(known), u)
      ensures granted.Granted? ==> granted == Granted(u.addr, NewlyGranted(old(known), u))
    {
      if u.addr in known {
        var newly := u.rights - known[u.addr];
        assert newly == {} <==> u.rights <= known[u.addr];
        known := known[u.addr := known[u.addr] + u.rights];
        if newly == {} {
          return PreExisting;
        }
        return Granted(u.addr, newly);
      }
      assert {} + u.rights == u.rights && u.rights - {} == u.rights;
      known := known[u.addr := u.rights];
      return Granted(u.addr, u.rights);
    }

    method RemoveAccess(a: Addr, rights: Rights)
      modifies this
      ensures known == Without(old(known), a, rights)
    {
      if a in known {
        known := known[a := known[a] - rights];
      }
    }
  }
}
