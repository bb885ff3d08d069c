/** What the store operations promise, proved about their specifications in
  * module TilingStore. */
module TilingStoreFacts {
  import opened Wrappers
  import opened Types
  import opened TilingStore

  /** Exchanging two positions keeps the contents and their distinctness. */
  lemma ExchangeKeepsContents(s: seq<ClientId>, p: int, q: int)
    requires 0 <= p < |s| && 0 <= q < |s|
    ensures multiset(s[p := s[q]][q := s[p]]) == multiset(s)
    ensures Distinct(s) ==> Distinct(s[p := s[q]][q := s[p]])
  {
    var t := s[p := s[q]][q := s[p]];
    if Distinct(s) {
      forall i, j | 0 <= i < j < |t| ensures t[i] != t[j] {
        var i' := if i == p then q else if i == q then p else i;
        var j' := if j == p then q else if j == q then p else j;
        assert t[i] == s[i'] && t[j] == s[j'] && i' != j';
      }
    }
  }

  lemma {:induction false} DistinctRemoveElement(s: seq<ClientId>, i: int)
    requires Distinct(s) && 0 <= i < |s|
    ensures Distinct(RemoveElement(s, i)) && s[i] !in RemoveElement(s, i)
  {
    var r := RemoveElement(s, i);
    forall a, b | 0 <= a < b < |r| ensures r[a] != r[b] {
      var a' := if a < i then a else a + 1;
      var b' := if b < i then b else b + 1;
      assert r[a] == s[a'] && r[b] == s[b'] && a' < b';
    }
    forall k | 0 <= k < |r| ensures r[k] != s[i] {
      assert r[k] == s[if k < i then k else k + 1];
    }
  }

  /** `Add` keeps the invariant, puts the client among the masters exactly
    * when the quota has room, and loses nothing. */
  lemma AddPlacesClient(v: StoreView, c: ClientId)
    requires Inv(v)
    ensures var r := Added(v, c);
      && Inv(r)
      && r.allowedMasters == v.allowedMasters
      && (c in r.masters[|v.masters|..] <==> |v.masters| < v.allowedMasters)
      && multiset(r.All()) == multiset(v.All()) + multiset{c}
      && (c !in v.All() && Distinct(v.All()) ==> Distinct(r.All()))
  {
    var room := |v.masters| < v.allowedMasters;
    var before, after := if room then v.masters else v.All(), if room then v.slaves else [];
    AddedOrder(v, c);
    assert v.All() == before + after;
    if c !in v.All() && Distinct(v.All()) {
      DistinctInsert(before, after, c);
    }
  }

  /** Where `Add` puts the client in the priority order. */
  lemma AddedOrder(v: StoreView, c: ClientId)
    ensures var r := Added(v, c);
      if |v.masters| < v.allowedMasters then
        r.masters[|v.masters|..] == [c] && r.All() == v.masters + [c] + v.slaves
      else
        r.masters[|v.masters|..] == [] && r.All() == v.All() + [c] + []
  {
    var r := Added(v, c);
    if |v.masters| < v.allowedMasters {
      assert r.masters[|v.masters|..] == [c];
    } else {
      assert r.All() == v.All() + [c];
    }
  }

  /** A new element put between two parts keeps the elements distinct. */
  lemma DistinctInsert(a: seq<ClientId>, b: seq<ClientId>, c: ClientId)
    requires Distinct(a + b) && c !in a + b
    ensures Distinct(a + [c] + b)
  {
    var s, t := a + b, a + [c] + b;
    forall i, j | 0 <= i < j < |t| ensures t[i] != t[j] {
      var i' := if i < |a| then i else i - 1;
      var j' := if j < |a| then j else j - 1;
      if i != |a| && j != |a| {
        assert t[i] == s[i'] && t[j] == s[j'];
      } else if i == |a| {
        assert t[j] == s[j'];
      } else {
        assert t[i] == s[i'];
      }
    }
  }

  /** Removing a master that has a slave to stand in: the first slave takes
    * its place. In the priority order this is exchanging the two and
    * dropping the removed client from its new position. */
  lemma RemoveMasterWithSlave(v: StoreView, i: int)
    requires 0 <= i < |v.masters| && v.slaves != []
    ensures var r := v.(masters := v.masters[i := v.slaves[0]], slaves := v.slaves[1..]);
      && multiset(r.All()) == multiset(v.All()) - multiset{v.masters[i]}
      && (Distinct(v.All()) ==> Distinct(r.All()) && v.masters[i] !in r.All())
  {
    var r := v.(masters := v.masters[i := v.slaves[0]], slaves := v.slaves[1..]);
    var all := v.All();
    var m := |v.masters|;
    var t: seq<ClientId> := all[i := all[m]][m := all[i]];
    ExchangeKeepsContents(all, i, m);
    assert t[..m] == r.masters;
    assert t[m + 1..] == r.slaves;
    assert r.All() == RemoveElement(t, m);
    if Distinct(all) {
      DistinctRemoveElement(t, m);
    }
  }

  /** Removing a client found at position `k` of the priority order by
    * deleting it there. */
  lemma RemoveAt(v: StoreView, r: StoreView, k: int)
    requires 0 <= k < |v.All()| && r.All() == RemoveElement(v.All(), k)
    ensures multiset(r.All()) == multiset(v.All()) - multiset{v.All()[k]}
    ensures Distinct(v.All()) ==> Distinct(r.All()) && v.All()[k] !in r.All()
  {
    if Distinct(v.All()) {
      DistinctRemoveElement(v.All(), k);
    }
  }

  /** The three facts `Remove` promises about one client. */
  ghost predicate DropsOne(v: StoreView, r: StoreView, c: ClientId)
  {
    && Inv(r)
    && r.allowedMasters == v.allowedMasters
    && |r.masters| <= |v.masters|
    && multiset(r.All()) == multiset(v.All()) - multiset{c}
    && (Distinct(v.All()) ==> Distinct(r.All()) && c !in r.All())
  }

  lemma RemoveMaster(v: StoreView, c: ClientId, i: int)
    requires Inv(v) && 0 <= i < |v.masters| && v.masters[i] == c
    ensures DropsOne(v, if |v.slaves| > 0 then v.(masters := v.masters[i := v.slaves[0]], slaves := v.slaves[1..])
                       else v.(masters := RemoveElement(v.masters, i)), c)
  {
    if |v.slaves| > 0 {
      RemoveMasterWithSlave(v, i);
    } else {
      var r := v.(masters := RemoveElement(v.masters, i));
      assert v.All() == v.masters && r.All() == r.masters;
      RemoveAt(v, r, i);
    }
  }

  lemma RemoveSlave(v: StoreView, c: ClientId, j: int)
    requires Inv(v) && 0 <= j < |v.slaves| && v.slaves[j] == c
    ensures DropsOne(v, v.(slaves := RemoveElement(v.slaves, j)), c)
  {
    var r := v.(slaves := RemoveElement(v.slaves, j));
    var k := |v.masters| + j;
    assert r.All() == RemoveElement(v.All(), k);
    RemoveAt(v, r, k);
  }

  /** `Remove` keeps the invariant, never grows the masters, drops exactly one
    * occurrence of the client (none if it is absent), and on a store without
    * repetitions leaves the client nowhere. */
  lemma RemoveDropsClient(v: StoreView, c: ClientId)
    requires Inv(v)
    ensures DropsOne(v, Removed(v, c), c)
    ensures c !in v.All() ==> Removed(v, c) == v
  {
    var i := IndexOf(v.masters, c);
    var j := IndexOf(v.slaves, c);
    if i >= 0 {
      RemoveMaster(v, c, i);
      assert Removed(v, c) == if |v.slaves| > 0 then v.(masters := v.masters[i := v.slaves[0]], slaves := v.slaves[1..])
                       else v.(masters := RemoveElement(v.masters, i));
    } else if j >= 0 {
      RemoveSlave(v, c, j);
      assert Removed(v, c) == v.(slaves := RemoveElement(v.slaves, j));
    } else {
      assert Removed(v, c) == v;
      assert c !in v.All();
    }
  }

  /** `IncMaster` and `DecreaseMaster` keep the invariant and the priority
    * order: they only move the boundary between masters and slaves. */
  lemma QuotaChangesKeepOrder(v: StoreView)
    requires Inv(v)
    ensures Inv(IncMastered(v)) && IncMastered(v).All() == v.All()
    ensures |v.slaves| > 1 <==> IncMastered(v).allowedMasters == v.allowedMasters + 1
    ensures Inv(MasterDecreased(v)) && MasterDecreased(v).All() == v.All()
    ensures |v.masters| > 1 <==> MasterDecreased(v).allowedMasters == v.allowedMasters - 1
  {
    if |v.slaves| > 1 {
      assert v.All() == v.masters + [v.slaves[0]] + v.slaves[1..];
    }
    if |v.masters| > 1 {
      var n := |v.masters|;
      assert v.masters == v.masters[..n - 1] + [v.masters[n - 1]];
    }
  }

  /** Raising the master count and then lowering it restores the store. */
  lemma IncThenDecreaseRestores(v: StoreView)
    requires Inv(v) && |v.slaves| > 1
    ensures MasterDecreased(IncMastered(v)) == v
  {
    var w := IncMastered(v);
    assert w.masters[..|w.masters| - 1] == v.masters;
    assert [v.slaves[0]] + v.slaves[1..] == v.slaves;
  }

  /** Lowering the master count and then raising it restores the store,
    * provided a slave was there to bring the demoted master back. */
  lemma DecreaseThenIncRestores(v: StoreView)
    requires Inv(v) && |v.masters| > 1 && |v.slaves| > 0
    ensures IncMastered(MasterDecreased(v)) == v
  {
    var n := |v.masters|;
    assert v.masters[..n - 1] + [v.masters[n - 1]] == v.masters;
  }

  /** Without repetitions, no client is both a master and a slave. */
  lemma DistinctPartsDisjoint(v: StoreView)
    ensures Distinct(v.All()) ==> forall x :: x in v.masters ==> x !in v.slaves
  {
    forall a, b | 0 <= a < |v.masters| && 0 <= b < |v.slaves|
      ensures Distinct(v.All()) ==> v.masters[a] != v.slaves[b]
    {
      assert v.masters[a] == v.All()[a] && v.slaves[b] == v.All()[|v.masters| + b];
    }
  }

  /** `MakeMasterById` succeeds exactly for an id among the slaves; it then
    * puts that client first among the masters and the old first master where
    * the client was, keeping every client and the invariant. An id that is
    * already a master is reported not found. */
  lemma MakeMasterExchanges(v: StoreView, id: ClientId)
    requires Inv(v)
    ensures var (r, found) := MadeMaster(v, id);
      && Inv(r)
      && (found <==> id in v.slaves)
      && (found ==> r.masters[0] == id && r.slaves[IndexOf(v.slaves, id)] == v.masters[0])
      && (!found ==> r == v)
      && multiset(r.All()) == multiset(v.All())
      && (Distinct(v.All()) ==> Distinct(r.All()))
      && (Distinct(v.All()) && id in v.masters ==> !found)
  {
    var (r, found) := MadeMaster(v, id);
    if found {
      var j := IndexOf(v.slaves, id);
      var q := |v.masters| + j;
      assert r.All() == v.All()[0 := v.All()[q]][q := v.All()[0]];
      ExchangeKeepsContents(v.All(), 0, q);
      DistinctPartsDisjoint(v);
    }
  }

  /** `SwapById` succeeds exactly when the ids differ and both are present;
    * it then exchanges them and changes nothing else: both parts keep their
    * lengths and every client is kept. */
  lemma SwapExchanges(v: StoreView, thisId: ClientId, thatId: ClientId)
    ensures var (r, ok) := Swapped(v, thisId, thatId);
      && (ok <==> thisId != thatId && thisId in v.All() && thatId in v.All())
      && |r.masters| == |v.masters| && |r.slaves| == |v.slaves|
      && r.allowedMasters == v.allowedMasters
      && multiset(r.All()) == multiset(v.All())
      && (Distinct(v.All()) ==> Distinct(r.All()))
      && (ok ==> (r.All()[LastIndexOf(v.All(), thisId)] == thatId
                  && r.All()[LastIndexOf(v.All(), thatId)] == thisId))
      && (!ok ==> r == v)
  {
    var all := v.All();
    var p := LastIndexOf(all, thisId);
    var q := ThatPosition(all, thisId, thatId);
    if 0 <= p && 0 <= q {
      var all' := all[p := all[q]][q := all[p]];
      SplitParts(v.allowedMasters, all', |v.masters|);
      ExchangeKeepsContents(all, p, q);
    }
  }

  /** Exchanging the same two positions twice is no change. */
  lemma ExchangeTwice(s: seq<ClientId>, p: int, q: int)
    requires 0 <= p < |s| && 0 <= q < |s|
    ensures var t := s[p := s[q]][q := s[p]]; t[q := t[p]][p := t[q]] == s
  {
  }

  /** Swapping the same two clients twice restores a store without repetitions. */
  lemma SwapTwiceRestores(v: StoreView, thisId: ClientId, thatId: ClientId)
    requires Distinct(v.All()) && Swapped(v, thisId, thatId).1
    ensures Swapped(Swapped(v, thisId, thatId).0, thisId, thatId) == (v, true)
  {
    var all := v.All();
    var m := |v.masters|;
    var p := LastIndexOf(all, thisId);
    var q := LastIndexOf(all, thatId);
    var t: seq<ClientId> := all[p := all[q]][q := all[p]];
    var r := Split(v.allowedMasters, t, m);
    assert ThatPosition(all, thisId, thatId) == q;
    SplitParts(v.allowedMasters, t, m);
    assert t[q] == thisId && t[p] == thatId;
    assert LastIndexOf(t, thisId) == q && ThatPosition(t, thisId, thatId) == p by {
      ExchangeKeepsContents(all, p, q);
      DistinctIndexOf(t, p);
      DistinctIndexOf(t, q);
    }
    ExchangeTwice(all, p, q);
    SplitParts(v.allowedMasters, all, m);
  }

  /** A split store has its parts where the split puts them. */
  lemma SplitParts(allowedMasters: int, all: seq<ClientId>, m: nat)
    requires m <= |all|
    ensures Split(allowedMasters, all, m).All() == all
    ensures |Split(allowedMasters, all, m).masters| == m
    ensures Split(allowedMasters, all, m).allowedMasters == allowedMasters
  {
    assert all[..m] + all[m..] == all;
  }

  /** On clients without repetitions, `Previous` undoes `Next` and `Next`
    * undoes `Previous`. */
  lemma NextPreviousInverse(all: seq<ClientId>, active: ClientId)
    requires Distinct(all) && active in all
    ensures NextOf(all, active).Some? && PreviousOf(all, NextOf(all, active).value) == Some(active)
    ensures PreviousOf(all, active).Some? && NextOf(all, PreviousOf(all, active).value) == Some(active)
  {
    var i := IndexOf(all, active);
    var n := if i + 1 > |all| - 1 then 0 else i + 1;
    var p := if i - 1 < 0 then |all| - 1 else i - 1;
    DistinctIndexOf(all, n);
    DistinctIndexOf(all, p);
  }

  /** With masters [m1, m2] and slaves [s1, s2], and m2 active, `Next` is s1 and
    * `Previous` is m1; with m1 active, `Previous` wraps round to s2. */
  lemma NavigationExample(m1: ClientId, m2: ClientId, s1: ClientId, s2: ClientId)
    requires Distinct([m1, m2, s1, s2])
    ensures var all := StoreView(2, [m1, m2], [s1, s2]).All();
      && NextOf(all, m2) == Some(s1)
      && PreviousOf(all, m2) == Some(m1)
      && PreviousOf(all, m1) == Some(s2)
  {
    var all := [m1, m2, s1, s2];
    assert StoreView(2, [m1, m2], [s1, s2]).All() == all;
    DistinctIndexOf(all, 0);
    DistinctIndexOf(all, 1);
  }
}

/** Any sequence of store operations, starting from a fresh store. */
module TilingStoreTraces {
  import opened Wrappers
  import opened Types
  import opened TilingStore
  import opened TilingStoreFacts

  datatype StoreOp =
    | AddOp(c: ClientId)
    | RemoveOp(c: ClientId)
    | IncOp
    | DecOp
    | MakeMasterOp(id: ClientId)
    | SwapOp(thisId: ClientId, thatId: ClientId)

  /** One operation on a store; every operation keeps the invariant. */
  function Step(v: StoreView, op: StoreOp): (r: StoreView)
    requires Inv(v)
    ensures Inv(r)
  {
    match op
    case AddOp(c) => AddPlacesClient(v, c); Added(v, c)
    case RemoveOp(c) => RemoveDropsClient(v, c); Removed(v, c)
    case IncOp => QuotaChangesKeepOrder(v); IncMastered(v)
    case DecOp => QuotaChangesKeepOrder(v); MasterDecreased(v)
    case MakeMasterOp(id) => MakeMasterExchanges(v, id); MadeMaster(v, id).0
    case SwapOp(a, b) =>
      SwapExchanges(v, a, b);
      var (w, _) := Swapped(v, a, b);
      assert w.All()[..|v.masters|] == w.masters;
      v.(masters := w.masters, slaves := w.slaves)
  }

  /** The operations applied in order to a fresh store (`buildStore`). */
  function Run(ops: seq<StoreOp>): (r: StoreView)
    ensures Inv(r)
  {
    if ops == [] then StoreView(1, [], []) else Step(Run(ops[..|ops| - 1]), ops[|ops| - 1])
  }

  /** The present clients after one operation. */
  function PresentAfter(present: set<ClientId>, op: StoreOp): set<ClientId>
  {
    match op
    case AddOp(c) => present + {c}
    case RemoveOp(c) => present - {c}
    case _ => present
  }

  /** The clients added and not removed since. */
  function Present(ops: seq<StoreOp>): set<ClientId>
  {
    if ops == [] then {} else PresentAfter(Present(ops[..|ops| - 1]), ops[|ops| - 1])
  }

  /** Every client is added only while it is not present (the daemon tracks
    * each window once). */
  predicate FreshAdds(ops: seq<StoreOp>)
  {
    forall n :: 0 <= n < |ops| && ops[n].AddOp? ==> ops[n].c !in Present(ops[..n])
  }

  /** Sequences with the same contents hold the same clients. */
  lemma SameMembers(s: seq<ClientId>, t: seq<ClientId>, extra: multiset<ClientId>, gone: multiset<ClientId>)
    requires multiset(t) == multiset(s) + extra - gone
    ensures forall x :: x in t <==> x in multiset(s) + extra - gone
  {
    assert forall x :: x in t <==> x in multiset(t);
  }

  /** What an operation must keep: no client held twice, and exactly the
    * present clients held. */
  ghost predicate HoldsExactly(v: StoreView, present: set<ClientId>)
  {
    Distinct(v.All()) && forall x :: x in v.All() <==> x in present
  }

  lemma AddHoldsPresentClients(u: StoreView, c: ClientId, present: set<ClientId>)
    requires Inv(u) && HoldsExactly(u, present) && c !in present
    ensures HoldsExactly(Added(u, c), present + {c})
  {
    AddPlacesClient(u, c);
    assert forall x :: x in u.All() <==> x in multiset(u.All());
    SameMembers(u.All(), Added(u, c).All(), multiset{c}, multiset{});
  }

  lemma RemoveHoldsPresentClients(u: StoreView, c: ClientId, present: set<ClientId>)
    requires Inv(u) && HoldsExactly(u, present)
    ensures HoldsExactly(Removed(u, c), present - {c})
  {
    RemoveDropsClient(u, c);
    assert forall x :: x in u.All() <==> x in multiset(u.All());
    SameMembers(u.All(), Removed(u, c).All(), multiset{}, multiset{c});
  }

  lemma PermutationHoldsPresentClients(u: StoreView, v: StoreView, present: set<ClientId>)
    requires HoldsExactly(u, present)
    requires multiset(v.All()) == multiset(u.All()) && (Distinct(u.All()) ==> Distinct(v.All()))
    ensures HoldsExactly(v, present)
  {
    assert forall x :: x in u.All() <==> x in multiset(u.All());
    SameMembers(u.All(), v.All(), multiset{}, multiset{});
  }

  /** One operation keeps a store without repetitions that holds exactly
    * the present clients. */
  lemma StepHoldsPresentClients(u: StoreView, op: StoreOp, present: set<ClientId>)
    requires Inv(u) && HoldsExactly(u, present)
    requires op.AddOp? ==> op.c !in present
    ensures HoldsExactly(Step(u, op), PresentAfter(present, op))
  {
    match op {
      case AddOp(c) =>
        AddHoldsPresentClients(u, c, present);
      case RemoveOp(c) =>
        RemoveHoldsPresentClients(u, c, present);
      case IncOp =>
        QuotaChangesKeepOrder(u);
      case DecOp =>
        QuotaChangesKeepOrder(u);
      case MakeMasterOp(id) =>
        MakeMasterExchanges(u, id);
        PermutationHoldsPresentClients(u, MadeMaster(u, id).0, present);
      case SwapOp(a, b) =>
        SwapExchanges(u, a, b);
        var w := Swapped(u, a, b).0;
        PermutationHoldsPresentClients(u, w, present);
        assert Step(u, op).All() == w.All();
    }
  }

  /** After any such sequence the masters respect the quota, no client is
    * held twice or in both parts, and the store holds exactly the clients
    * that are present. */
  lemma {:induction false} RunHoldsPresentClients(ops: seq<StoreOp>)
    requires FreshAdds(ops)
    ensures var v := Run(ops);
      && |v.masters| <= v.allowedMasters
      && HoldsExactly(v, Present(ops))
      && (forall x :: x in v.masters ==> x !in v.slaves)
  {
    var v := Run(ops);
    if ops != [] {
      var init := ops[..|ops| - 1];
      assert FreshAdds(init) by {
        forall n | 0 <= n < |init| && init[n].AddOp?
          ensures init[n].c !in Present(init[..n])
        {
          assert init[..n] == ops[..n];
        }
      }
      RunHoldsPresentClients(init);
      StepHoldsPresentClients(Run(init), ops[|ops| - 1], Present(init));
    }
    DistinctPartsDisjoint(v);
  }
}
