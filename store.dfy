/** The master/slave store that every layout owns (internal/daemon/store.go).
  * `StoreView` is the value of a store and the functions on it say what each
  * operation does; class `Store` performs the operations in place, as the
  * source does, and is proved to agree with them. */
module TilingStore {
  import opened Wrappers
  import opened Types

  datatype StoreView = StoreView(allowedMasters: int, masters: seq<ClientId>, slaves: seq<ClientId>)
  {
    /** Masters first, then slaves: the on-screen priority order. */
    function All(): seq<ClientId> { masters + slaves }
  }

  /** What every store operation keeps: a positive quota that the masters
    * respect, and no slave without a master. */
  predicate Inv(v: StoreView)
  {
    v.allowedMasters >= 1 && |v.masters| <= v.allowedMasters && (v.slaves != [] ==> v.masters != [])
  }

  /** `removeElement`: the sequence without its element at `i`. */
  function RemoveElement(s: seq<ClientId>, i: int): (r: seq<ClientId>)
    requires 0 <= i < |s|
    ensures |r| == |s| - 1
    ensures forall k :: 0 <= k < i ==> r[k] == s[k]
    ensures forall k :: i <= k < |r| ==> r[k] == s[k + 1]
    ensures multiset(r) == multiset(s) - multiset{s[i]}
  {
    assert s == s[..i] + [s[i]] + s[i + 1..];
    s[..i] + s[i + 1..]
  }

  /** `Add`: a master while the quota has room, otherwise the last slave. */
  function Added(v: StoreView, c: ClientId): StoreView
  {
    if |v.masters| < v.allowedMasters then v.(masters := v.masters + [c])
    else v.(slaves := v.slaves + [c])
  }

  /** `Remove`: a removed master is replaced in place by the first slave when
    * there is one; a removed slave is deleted; an absent client changes nothing. */
  function Removed(v: StoreView, c: ClientId): StoreView
  {
    var i := IndexOf(v.masters, c);
    if i >= 0 then
      if |v.slaves| > 0 then v.(masters := v.masters[i := v.slaves[0]], slaves := v.slaves[1..])
      else v.(masters := RemoveElement(v.masters, i))
    else
      var j := IndexOf(v.slaves, c);
      if j >= 0 then v.(slaves := RemoveElement(v.slaves, j)) else v
  }

  /** `IncMaster`: with at least two slaves, raise the quota and promote the first slave. */
  function IncMastered(v: StoreView): StoreView
  {
    if |v.slaves| > 1 then StoreView(v.allowedMasters + 1, v.masters + [v.slaves[0]], v.slaves[1..])
    else v
  }

  /** `DecreaseMaster`: with at least two masters, lower the quota and demote
    * the last master to the front of the slaves. */
  function MasterDecreased(v: StoreView): StoreView
  {
    if |v.masters| > 1 then
      StoreView(v.allowedMasters - 1, v.masters[..|v.masters| - 1], [v.masters[|v.masters| - 1]] + v.slaves)
    else v
  }

  /** `MakeMasterById`: the first slave with this id changes places with the
    * first master; a client that is not a slave is reported not found. */
  function MadeMaster(v: StoreView, id: ClientId): (StoreView, bool)
    requires v.slaves != [] ==> v.masters != []
  {
    var j := IndexOf(v.slaves, id);
    if j < 0 then (v, false)
    else (v.(masters := v.masters[0 := v.slaves[j]], slaves := v.slaves[j := v.masters[0]]), true)
  }

  /** Where `SwapById` finds `thatId` in `All()`: the scan tests `thisId` first,
    * so equal ids leave `thatId` unfound. */
  function ThatPosition(all: seq<ClientId>, thisId: ClientId, thatId: ClientId): int
  {
    if thisId == thatId then -1 else LastIndexOf(all, thatId)
  }

  /** Where a scan of `s` that numbers its positions from `offset` last
    * sees `x`, or `otherwise` when `x` is not in `s`. */
  function FoundAt(s: seq<ClientId>, x: ClientId, offset: int, otherwise: int): int
  {
    var p := LastIndexOf(s, x);
    if p >= 0 then offset + p else otherwise
  }

  /** One more position scanned: it is the new answer if it holds `x`. */
  lemma FoundAtStep(s: seq<ClientId>, i: int, x: ClientId, offset: int, otherwise: int)
    requires 0 <= i < |s|
    ensures FoundAt(s[..i + 1], x, offset, otherwise) == if s[i] == x then offset + i else FoundAt(s[..i], x, offset, otherwise)
  {
    LastIndexOfExtend(s, i, x);
  }

  /** The last `x` of `a + b` is the last one of `b`, shifted, or else the
    * last one of `a`. */
  lemma {:induction false} LastIndexOfAppend(a: seq<ClientId>, b: seq<ClientId>, x: ClientId)
    ensures LastIndexOf(a + b, x) == FoundAt(b, x, |a|, LastIndexOf(a, x))
    decreases |b|
  {
    if b == [] {
      assert a + b == a;
    } else {
      var b' := b[..|b| - 1];
      assert (a + b)[..|a + b| - 1] == a + b';
      if b[|b| - 1] != x {
        LastIndexOfAppend(a, b', x);
      }
    }
  }

  /** The store whose priority order is `all`, with `m` masters. */
  function Split(allowedMasters: int, all: seq<ClientId>, m: nat): StoreView
    requires m <= |all|
  {
    StoreView(allowedMasters, all[..m], all[m..])
  }

  /** `SwapById`: the last occurrences of the two ids in `All()` exchange places;
    * if either is missing, or the ids are equal, nothing changes. */
  function Swapped(v: StoreView, thisId: ClientId, thatId: ClientId): (StoreView, bool)
  {
    var all := v.All();
    var p := LastIndexOf(all, thisId);
    var q := ThatPosition(all, thisId, thatId);
    if p < 0 || q < 0 then (v, false)
    else (Split(v.allowedMasters, all[p := all[q]][q := all[p]], |v.masters|), true)
  }

  /** `Next`: the client after the first occurrence of `active` in the
    * priority order, wrapping to the first; none if `active` is absent. */
  function NextOf(all: seq<ClientId>, active: ClientId): Option<ClientId>
  {
    var i := IndexOf(all, active);
    if i < 0 then None else Some(all[if i + 1 > |all| - 1 then 0 else i + 1])
  }

  /** `Previous`: the client before the first occurrence of `active`,
    * wrapping to the last; none if `active` is absent. */
  function PreviousOf(all: seq<ClientId>, active: ClientId): Option<ClientId>
  {
    var i := IndexOf(all, active);
    if i < 0 then None else Some(all[if i - 1 < 0 then |all| - 1 else i - 1])
  }

  /** Exchanging two positions of `All()` in place, each in the part that
    * holds it, is exchanging them in the priority order. */
  lemma ExchangeInParts(v: StoreView, p: int, q: int, masters: seq<ClientId>, slaves: seq<ClientId>)
    requires 0 <= p < |v.All()| && 0 <= q < |v.All()| && p != q
    requires |masters| == |v.masters| && |slaves| == |v.slaves|
    requires masters + slaves == v.All()[p := v.All()[q]][q := v.All()[p]]
    ensures StoreView(v.allowedMasters, masters, slaves)
      == Split(v.allowedMasters, v.All()[p := v.All()[q]][q := v.All()[p]], |v.masters|)
  {
    var all' := v.All()[p := v.All()[q]][q := v.All()[p]];
    assert all'[..|masters|] == masters;
    assert all'[|masters|..] == slaves;
  }

  /** Writing position `i` of `a + b` writes the part that holds it. */
  lemma UpdateInParts(a: seq<ClientId>, b: seq<ClientId>, i: int, x: ClientId)
    requires 0 <= i < |a| + |b|
    ensures i < |a| ==> (a + b)[i := x] == a[i := x] + b
    ensures i >= |a| ==> (a + b)[i := x] == a + b[i - |a| := x]
  {
  }

  class Store {
    var allowedMasters: int
    var masters: seq<ClientId>
    var slaves: seq<ClientId>

    function View(): StoreView
      reads this
    {
      StoreView(allowedMasters, masters, slaves)
    }

    ghost predicate Valid()
      reads this
    {
      Inv(View())
    }

    function All(): seq<ClientId>
      reads this
    {
      masters + slaves
    }

    /** `buildStore`. */
    constructor ()
      ensures Valid()
      ensures View() == StoreView(1, [], [])
    {
      allowedMasters := 1;
      masters := [];
      slaves := [];
    }

    method Add(c: ClientId)
      requires Valid()
      modifies this
      ensures Valid()
      ensures View() == Added(old(View()), c)
    {
      if |masters| < allowedMasters {
        masters := masters + [c];
      } else {
        slaves := slaves + [c];
      }
    }

    method Remove(c: ClientId)
      requires Valid()
      modifies this
      ensures Valid()
      ensures View() == Removed(old(View()), c)
    {
      var i := 0;
      while i < |masters|
        invariant 0 <= i <= |masters|
        invariant forall k :: 0 <= k < i ==> masters[k] != c
      {
        if masters[i] == c {
          IndexOfUnique(masters, c, i);
          if |slaves| > 0 {
            masters := masters[i := slaves[0]];
            slaves := slaves[1..];
          } else {
            masters := RemoveElement(masters, i);
          }
          return;
        }
        i := i + 1;
      }

      var j := 0;
      while j < |slaves|
        invariant 0 <= j <= |slaves|
        invariant forall k :: 0 <= k < j ==> slaves[k] != c
      {
        if slaves[j] == c {
          IndexOfUnique(slaves, c, j);
          slaves := RemoveElement(slaves, j);
          return;
        }
        j := j + 1;
      }
    }

    method IncMaster()
      requires Valid()
      modifies this
      ensures Valid()
      ensures View() == IncMastered(old(View()))
    {
      if |slaves| > 1 {
        allowedMasters := allowedMasters + 1;
        masters := masters + [slaves[0]];
        slaves := slaves[1..];
      }
    }

    method DecreaseMaster()
      requires Valid()
      modifies this
      ensures Valid()
      ensures View() == MasterDecreased(old(View()))
    {
      if |masters| > 1 {
        allowedMasters := allowedMasters - 1;
        var mlen := |masters|;
        slaves := [masters[mlen - 1]] + slaves;
        masters := masters[..mlen - 1];
      }
    }

    method MakeMasterById(id: ClientId) returns (found: bool)
      requires Valid()
      modifies this
      ensures Valid()
      ensures (View(), found) == MadeMaster(old(View()), id)
    {
      var i := 0;
      while i < |slaves|
        invariant 0 <= i <= |slaves|
        invariant forall k :: 0 <= k < i ==> slaves[k] != id
      {
        if slaves[i] == id {
          IndexOfUnique(slaves, id, i);
          masters, slaves := masters[0 := slaves[i]], slaves[i := masters[0]];
          return true;
        }
        i := i + 1;
      }
      return false;
    }

    /** The two scans of `SwapById`: where each id was last seen, as a
      * position in All() (below |masters| it lies in masters, from there on
      * in slaves), or -1. */
    method Locate(thisId: ClientId, thatId: ClientId) returns (thisPos: int, thatPos: int)
      ensures thisPos == LastIndexOf(All(), thisId)
      ensures thatPos == ThatPosition(All(), thisId, thatId)
    {
      var ms, ss := masters, slaves;
      thisPos, thatPos := -1, -1;

      for i := 0 to |ms|
        invariant thisPos == FoundAt(ms[..i], thisId, 0, -1)
        invariant thatPos == if thisId == thatId then -1 else FoundAt(ms[..i], thatId, 0, -1)
      {
        FoundAtStep(ms, i, thisId, 0, -1);
        FoundAtStep(ms, i, thatId, 0, -1);
        if ms[i] == thisId {
          thisPos := i;
        } else if ms[i] == thatId {
          thatPos := i;
        }
      }

      assert ms[..|ms|] == ms;
      ghost var thisInMasters, thatInMasters := thisPos, thatPos;
      for j := 0 to |ss|
        invariant thisPos == FoundAt(ss[..j], thisId, |ms|, thisInMasters)
        invariant thatPos == if thisId == thatId then -1 else FoundAt(ss[..j], thatId, |ms|, thatInMasters)
      {
        FoundAtStep(ss, j, thisId, |ms|, thisInMasters);
        FoundAtStep(ss, j, thatId, |ms|, thatInMasters);
        if ss[j] == thisId {
          thisPos := |ms| + j;
        } else if ss[j] == thatId {
          thatPos := |ms| + j;
        }
      }
      assert ss[..|ss|] == ss;
      LastIndexOfAppend(ms, ss, thisId);
      LastIndexOfAppend(ms, ss, thatId);
    }

    method SwapById(thisId: ClientId, thatId: ClientId) returns (swapped: bool)
      requires Valid()
      modifies this
      ensures Valid()
      ensures (View(), swapped) == Swapped(old(View()), thisId, thatId)
    {
      var thisPos, thatPos := Locate(thisId, thatId);
      if thisPos < 0 || thatPos < 0 {
        return false;
      }

      ghost var all := All();
      var thisClient := if thisPos < |masters| then masters[thisPos] else slaves[thisPos - |masters|];
      var thatClient := if thatPos < |masters| then masters[thatPos] else slaves[thatPos - |masters|];
      UpdateInParts(masters, slaves, thisPos, thatClient);
      if thisPos < |masters| {
        masters := masters[thisPos := thatClient];
      } else {
        slaves := slaves[thisPos - |masters| := thatClient];
      }
      assert masters + slaves == all[thisPos := thatClient];
      UpdateInParts(masters, slaves, thatPos, thisClient);
      if thatPos < |masters| {
        masters := masters[thatPos := thisClient];
      } else {
        slaves := slaves[thatPos - |masters| := thisClient];
      }
      assert masters + slaves == all[thisPos := thatClient][thatPos := thisClient];
      ExchangeInParts(old(View()), thisPos, thatPos, masters, slaves);
      return true;
    }

    method Next(active: ClientId) returns (r: Option<ClientId>)
      ensures r == NextOf(All(), active)
    {
      var clients := masters + slaves;
      var lastIndex := |clients| - 1;
      var i := 0;
      while i < |clients|
        invariant 0 <= i <= |clients|
        invariant forall k :: 0 <= k < i ==> clients[k] != active
      {
        if clients[i] == active {
          IndexOfUnique(clients, active, i);
          var next := i + 1;
          if next > lastIndex {
            next := 0;
          }
          return Some(clients[next]);
        }
        i := i + 1;
      }
      return None;
    }

    method Previous(active: ClientId) returns (r: Option<ClientId>)
      ensures r == PreviousOf(All(), active)
    {
      var clients := masters + slaves;
      var lastIndex := |clients| - 1;
      var i := 0;
      while i < |clients|
        invariant 0 <= i <= |clients|
        invariant forall k :: 0 <= k < i ==> clients[k] != active
      {
        if clients[i] == active {
          IndexOfUnique(clients, active, i);
          var prev := i - 1;
          if prev < 0 {
            prev := lastIndex;
          }
          return Some(clients[prev]);
        }
        i := i + 1;
      }
      return None;
    }
  }
}
