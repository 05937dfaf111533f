/** What the descriptors of a new address space permit. */
module Protection {
  import opened PagePool
  import opened PageTables
  import opened AddressSpace

  /** Virtual page `u` has permissions `p` and the attributes of `t`, is executable exactly if it is
      code, and global. */
  ghost predicate Grants(view: map<nat, nat>, u: nat, p: Permissions, t: IntervalType) {
    && u in view && ReadAccess(view[u]) == p && ReadAttributes(view[u]) == Intended(t)
    && (view[u] % 2 == 0 <==> t == CODE) && view[u] / 0x800 % 2 == 0
  }

  lemma NewGrants(s: Space, v: nat, p: Permissions, t: IntervalType)
    requires RealPages(s.free)
    ensures Grants(MapNew(s, v, p, t).view, v, p, t) && RealPages(MapNew(s, v, p, t).free)
    ensures var view := MapNew(s, v, p, t).view;
      forall u :: u in s.view && u != v ==> u in view && view[u] == s.view[u]
  {
    hide Descriptor;
    TakeTop(s.free);
    DescriptorReadsBack(TopOrNull(s.free), p, t, false);
  }

  lemma {:induction false} UpGrants(s: Space, v: nat, n: nat, p: Permissions, t: IntervalType)
    requires RealPages(s.free)
    ensures var s' := MapUp(s, v, n, p, t);
      && RealPages(s'.free)
      && (forall u :: v <= u < v + n ==> Grants(s'.view, u, p, t))
      && (forall u :: u in s.view && u < v ==> u in s'.view && s'.view[u] == s.view[u])
  {
    hide MapNew;
    if n > 0 {
      UpGrants(s, v, n - 1, p, t);
      var before := MapUp(s, v, n - 1, p, t);
      NewGrants(before, v + n - 1, p, t);
      forall u | v <= u < v + n
        ensures Grants(MapUp(s, v, n, p, t).view, u, p, t)
      {
        assert u < v + n - 1 ==> Grants(before.view, u, p, t);
      }
    }
  }

  lemma {:induction false} DownGrants(s: Space, v: nat, n: nat, p: Permissions, t: IntervalType)
    requires RealPages(s.free) && n <= v
    ensures var s' := MapDown(s, v, n, p, t);
      && RealPages(s'.free)
      && (forall u :: v - n <= u < v ==> Grants(s'.view, u, p, t))
      && (forall u :: u in s.view && u < v - n ==> u in s'.view && s'.view[u] == s.view[u])
  {
    hide MapNew;
    if n > 0 {
      DownGrants(s, v, n - 1, p, t);
      var before := MapDown(s, v, n - 1, p, t);
      NewGrants(before, v - n, p, t);
      forall u | v - n <= u < v
        ensures Grants(MapDown(s, v, n, p, t).view, u, p, t)
      {
        assert u > v - n ==> Grants(before.view, u, p, t);
      }
    }
  }

  /** Code is executable and read-only to the process; data and stack are writable and never
      executable. This holds of null pages too, when the pool has run out. */
  lemma WriteOrExecute(free: seq<nat>, n: Layout)
    requires RealPages(free) && Fits(n)
    ensures var view := Setup(free, n).view;
      && (forall u :: FIRST_PAGE <= u < FIRST_PAGE + n.code ==> Grants(view, u, RW_RO, CODE))
      && (forall u :: FIRST_PAGE + n.code <= u < FIRST_PAGE + n.code + n.data ==> Grants(view, u, RW_RW, DATA))
      && (forall u :: STACK_END - n.stack <= u < STACK_END ==> Grants(view, u, RW_RW, STACK))
  {
    hide MapUp, MapDown, MapNew;
    var s0 := Space(map[], free);
    UpGrants(s0, FIRST_PAGE, n.code, RW_RO, CODE);
    var s1 := MapUp(s0, FIRST_PAGE, n.code, RW_RO, CODE);
    UpGrants(s1, FIRST_PAGE + n.code, n.data, RW_RW, DATA);
    var s2 := MapUp(s1, FIRST_PAGE + n.code, n.data, RW_RW, DATA);
    DownGrants(s2, STACK_END, n.stack, RW_RW, STACK);
    forall u | FIRST_PAGE <= u < FIRST_PAGE + n.code
      ensures Grants(Setup(free, n).view, u, RW_RO, CODE)
    {
      assert Grants(s1.view, u, RW_RO, CODE) && u in s2.view;
    }
    forall u | FIRST_PAGE + n.code <= u < FIRST_PAGE + n.code + n.data
      ensures Grants(Setup(free, n).view, u, RW_RW, DATA)
    {
      assert Grants(s2.view, u, RW_RW, DATA);
    }
  }
}
