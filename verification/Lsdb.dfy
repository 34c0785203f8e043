/** The link state database: two vectors that behave as maps (src/link_state.cpp, src/ospf.cpp). */
module Lsdb {
  import opened Basics
  import opened Lsa
  import opened Lists

  // ---------------------------------------------------------------------------
  // Vectors of advertisements
  // ---------------------------------------------------------------------------

  /** The first advertisement with a key. */
  function Find<B>(v: seq<Lsa<B>>, k: Key): Option<Lsa<B>> {
    if v == [] then None
    else if KeyOf(v[0].header) == k then Some(v[0])
    else Find(v[1..], k)
  }

  /** `l` is the first one with the key, field by field. */
  ghost predicate FirstWith<B(!new)>(v: seq<Lsa<B>>, k: Key, l: Lsa<B>) {
    exists i :: 0 <= i < |v| && v[i] == l
      && l.header.linkStateId == k.linkStateId && l.header.advRouter == k.advRouter
      && forall j :: 0 <= j < i ==> v[j].header.linkStateId != k.linkStateId || v[j].header.advRouter != k.advRouter
  }

  lemma {:induction false} FindIsFirst<B(!new)>(v: seq<Lsa<B>>, k: Key)
    requires Find(v, k).Some?
    ensures FirstWith(v, k, Find(v, k).value)
  {
    if KeyOf(v[0].header) != k {
      FindIsFirst(v[1..], k);
      var l := Find(v, k).value;
      var i :| 0 <= i < |v| - 1 && v[1..][i] == l
        && forall j :: 0 <= j < i ==> v[1..][j].header.linkStateId != k.linkStateId || v[1..][j].header.advRouter != k.advRouter;
      assert v[i + 1] == l;
      assert forall j :: 0 < j < i + 1 ==> v[j] == v[1..][j - 1];
    } else {
      assert v[0] == Find(v, k).value;
    }
  }

  /** All advertisements with other keys, in order. */
  function Remove<B>(v: seq<Lsa<B>>, k: Key): seq<Lsa<B>> {
    if v == [] then []
    else if KeyOf(v[0].header) == k then Remove(v[1..], k)
    else [v[0]] + Remove(v[1..], k)
  }

  function Install<B>(v: seq<Lsa<B>>, l: Lsa<B>): seq<Lsa<B>> {
    Remove(v, KeyOf(l.header)) + [l]
  }

  lemma {:induction false} FindAfterRemove<B>(v: seq<Lsa<B>>, k: Key, q: Key)
    ensures Find(Remove(v, k), q) == if q == k then None else Find(v, q)
  {
    if v != [] {
      FindAfterRemove(v[1..], k, q);
      if KeyOf(v[0].header) != k {
        assert Remove(v, k)[1..] == Remove(v[1..], k);
      }
    }
  }

  lemma {:induction false} FindAfterAppend<B>(v: seq<Lsa<B>>, l: Lsa<B>, q: Key)
    ensures Find(v + [l], q)
         == if Find(v, q).Some? then Find(v, q) else if q == KeyOf(l.header) then Some(l) else None
  {
    if v == [] {
      assert [l][1..] == [];
    } else {
      assert (v + [l])[1..] == v[1..] + [l];
      FindAfterAppend(v[1..], l, q);
    }
  }

  /** Installing is a map update. */
  lemma FindAfterInstall<B>(v: seq<Lsa<B>>, l: Lsa<B>, q: Key)
    ensures Find(Install(v, l), q) == if q == KeyOf(l.header) then Some(l) else Find(v, q)
  {
    FindAfterRemove(v, KeyOf(l.header), q);
    FindAfterAppend(Remove(v, KeyOf(l.header)), l, q);
  }

  predicate DiffersFrom(h: LsaHeader, k: Key) {
    h.linkStateId != k.linkStateId || h.advRouter != k.advRouter
  }

  lemma {:induction false} CollectedFirst<B>(v: seq<Lsa<B>>, k: Key, i: nat)
    requires i <= |v|
    ensures Collected(v[..i], (l: Lsa<B>) => DiffersFrom(l.header, k), (l: Lsa<B>) => l, Remove(v[..i], k))
  {
    hide Collected, Remove;
    if i == 0 {
      assert Remove(v[..0], k) == [] by { RemoveNothing<B>(k); }
      NothingCollected((l: Lsa<B>) => DiffersFrom(l.header, k), (l: Lsa<B>) => l);
    } else {
      CollectedFirst(v, k, i - 1);
      assert v[..i][..i - 1] == v[..i - 1];
      OneMoreCollected(v[..i], (l: Lsa<B>) => DiffersFrom(l.header, k), (l: Lsa<B>) => l, Remove(v[..i - 1], k));
      RemoveAppend(v[..i - 1], v[i - 1], k);
      assert v[..i] == v[..i - 1] + [v[i - 1]];
    }
  }

  lemma RemoveNothing<B>(k: Key)
    ensures Remove<B>([], k) == []
  {
  }

  /** Installation leaves the other LSAs where they are, in order, and puts the new one at the end. */
  lemma InstallAppends<B>(v: seq<Lsa<B>>, l: Lsa<B>)
    ensures var r := Install(v, l);
            && |r| > 0 && r[|r| - 1] == l
            && Collected(v, (x: Lsa<B>) => DiffersFrom(x.header, KeyOf(l.header)), (x: Lsa<B>) => x, r[..|r| - 1])
  {
    hide Collected;
    CollectedFirst(v, KeyOf(l.header), |v|);
    assert v[..|v|] == v;
    assert Install(v, l)[..|Install(v, l)| - 1] == Remove(v, KeyOf(l.header));
  }

  /** No key is stored twice. */
  predicate Unique<B>(v: seq<Lsa<B>>) {
    forall i, j :: 0 <= i < j < |v| ==> KeyOf(v[i].header) != KeyOf(v[j].header)
  }

  lemma {:induction false} RemoveMember<B>(v: seq<Lsa<B>>, k: Key, i: nat)
    requires i < |Remove(v, k)|
    ensures Remove(v, k)[i] in v && KeyOf(Remove(v, k)[i].header) != k
  {
    if KeyOf(v[0].header) == k {
      RemoveMember(v[1..], k, i);
    } else if i > 0 {
      RemoveMember(v[1..], k, i - 1);
    }
  }

  lemma {:induction false} RemoveKeepsUnique<B>(v: seq<Lsa<B>>, k: Key)
    requires Unique(v)
    ensures Unique(Remove(v, k))
  {
    if v != [] {
      RemoveKeepsUnique(v[1..], k);
      forall i: nat | i < |Remove(v[1..], k)|
        ensures KeyOf(Remove(v[1..], k)[i].header) != KeyOf(v[0].header)
      {
        RemoveMember(v[1..], k, i);
      }
    }
  }

  lemma InstallKeepsUnique<B>(v: seq<Lsa<B>>, l: Lsa<B>)
    requires Unique(v)
    ensures Unique(Install(v, l))
  {
    var k := KeyOf(l.header);
    RemoveKeepsUnique(v, k);
    forall i: nat | i < |Remove(v, k)|
      ensures KeyOf(Remove(v, k)[i].header) != k
    {
      RemoveMember(v, k, i);
    }
  }

  /** The loop behind `std::find_if`. */
  method FindIn<B>(v: seq<Lsa<B>>, k: Key) returns (r: Option<Lsa<B>>)
    ensures r == Find(v, k)
  {
    for i := 0 to |v|
      invariant Find(v, k) == Find(v[i..], k)
    {
      if KeyOf(v[i].header) == k {
        return Some(v[i]);
      }
      assert v[i..][1..] == v[i + 1..];
    }
    return None;
  }

  lemma {:induction false} RemoveAppend<B>(v: seq<Lsa<B>>, l: Lsa<B>, k: Key)
    ensures Remove(v + [l], k) == Remove(v, k) + (if KeyOf(l.header) == k then [] else [l])
  {
    if v == [] {
      assert [l][1..] == [];
    } else {
      assert (v + [l])[1..] == v[1..] + [l];
      RemoveAppend(v[1..], l, k);
    }
  }

  /** The loop behind `std::remove_if` and `erase`. */
  method RemoveFrom<B>(v: seq<Lsa<B>>, k: Key) returns (r: seq<Lsa<B>>)
    ensures r == Remove(v, k)
  {
    r := [];
    for i := 0 to |v|
      invariant r == Remove(v[..i], k)
    {
      RemoveAppend(v[..i], v[i], k);
      assert v[..i + 1] == v[..i] + [v[i]];
      if KeyOf(v[i].header) != k {
        r := r + [v[i]];
      }
    }
    assert v[..|v|] == v;
  }

  /** The database of one area. */
  class Database {
    var routers: seq<RouterLsa>
    var networks: seq<NetworkLsa>

    constructor ()
      ensures routers == [] && networks == []
    {
      routers, networks := [], [];
    }

    predicate Valid()
      reads this
    {
      Unique(routers) && Unique(networks)
    }

    method FindRouterLsa(linkStateId: uint32, advRouter: uint32) returns (r: Option<RouterLsa>)
      ensures r == Find(routers, Key(linkStateId, advRouter))
    {
      r := FindIn(routers, Key(linkStateId, advRouter));
    }

    method FindNetworkLsa(linkStateId: uint32, advRouter: uint32) returns (r: Option<NetworkLsa>)
      ensures r == Find(networks, Key(linkStateId, advRouter))
    {
      r := FindIn(networks, Key(linkStateId, advRouter));
    }

    method RemoveRouterLsa(linkStateId: uint32, advRouter: uint32)
      requires Valid()
      modifies this`routers
      ensures Valid() && routers == Remove(old(routers), Key(linkStateId, advRouter))
    {
      RemoveKeepsUnique(routers, Key(linkStateId, advRouter));
      routers := RemoveFrom(routers, Key(linkStateId, advRouter));
    }

    method RemoveNetworkLsa(linkStateId: uint32, advRouter: uint32)
      requires Valid()
      modifies this`networks
      ensures Valid() && networks == Remove(old(networks), Key(linkStateId, advRouter))
    {
      RemoveKeepsUnique(networks, Key(linkStateId, advRouter));
      networks := RemoveFrom(networks, Key(linkStateId, advRouter));
    }

    method InstallRouterLsa(l: RouterLsa)
      requires Valid()
      modifies this`routers
      ensures Valid() && routers == Install(old(routers), l)
    {
      InstallKeepsUnique(routers, l);
      var rest := RemoveFrom(routers, KeyOf(l.header));
      routers := rest + [l];
    }

    method InstallNetworkLsa(l: NetworkLsa)
      requires Valid()
      modifies this`networks
      ensures Valid() && networks == Install(old(networks), l)
    {
      InstallKeepsUnique(networks, l);
      var rest := RemoveFrom(networks, KeyOf(l.header));
      networks := rest + [l];
    }
  }

  // ---------------------------------------------------------------------------
  // Receiving router advertisements
  // ---------------------------------------------------------------------------

  /** A received copy replaces the stored one when there is none or the received one is newer. */
  predicate Supersedes<B>(v: seq<Lsa<B>>, h: LsaHeader) {
    var stored := Find(v, KeyOf(h));
    stored.None? || Newer(h, stored.value.header)
  }

  /** What the LSU branch does to the router vector. */
  function ReceiveRouter<B>(v: seq<Lsa<B>>, l: Lsa<B>): seq<Lsa<B>> {
    if Supersedes(v, l.header) then Install(v, l) else v
  }

  function ReceiveRouters<B>(v: seq<Lsa<B>>, ls: seq<Lsa<B>>): seq<Lsa<B>>
    decreases ls
  {
    if ls == [] then v else ReceiveRouters(ReceiveRouter(v, ls[0]), ls[1..])
  }

  /** `x` is what the database ought to hold for key `k`: a best copy among stored and received. */
  ghost predicate IsBest<B>(v: seq<Lsa<B>>, ls: seq<Lsa<B>>, k: Key, x: Lsa<B>) {
    && KeyOf(x.header) == k
    && (x in ls || Find(v, k) == Some(x))
    && (forall l :: l in ls && KeyOf(l.header) == k ==> !Outranks(l.header, x.header))
    && (Find(v, k).Some? ==> !Outranks(Find(v, k).value.header, x.header))
  }

  lemma {:induction false} FindHasKey<B>(v: seq<Lsa<B>>, k: Key)
    ensures Find(v, k).Some? ==> KeyOf(Find(v, k).value.header) == k && Find(v, k).value in v
  {
    if v != [] {
      FindHasKey(v[1..], k);
    }
  }

  /** One step of the database: the copy of a key never loses rank and is the stored or received one. */
  lemma ReceiveStep<B>(v: seq<Lsa<B>>, l: Lsa<B>, k: Key)
    ensures var w := ReceiveRouter(v, l);
            && (KeyOf(l.header) != k ==> Find(w, k) == Find(v, k))
            && (KeyOf(l.header) == k ==>
                  && Find(w, k).Some?
                  && (Find(w, k) == Some(l) || Find(w, k) == Find(v, k))
                  && !Outranks(l.header, Find(w, k).value.header)
                  && (Find(v, k).Some? ==>
                        && !Outranks(Find(v, k).value.header, Find(w, k).value.header)
                        && (Find(w, k) == Find(v, k) || Newer(Find(w, k).value.header, Find(v, k).value.header))))
  {
    FindAfterInstall(v, l, k);
    if KeyOf(l.header) == k && Find(v, k).Some? {
      NewerIsLexicographic(l.header, Find(v, k).value.header);
    }
  }

  /**
   * After any run of received router LSAs the database holds, for each key seen or stored,
   * a copy of maximal (sequence number, checksum), and nothing else.
   */
  lemma {:induction false} HoldsMaximum<B>(v: seq<Lsa<B>>, ls: seq<Lsa<B>>, k: Key)
    ensures var f := Find(ReceiveRouters(v, ls), k);
            if f.None? then Find(v, k).None? && forall l :: l in ls ==> KeyOf(l.header) != k
            else IsBest(v, ls, k, f.value)
    decreases ls
  {
    FindHasKey(v, k);
    if ls != [] {
      var w := ReceiveRouter(v, ls[0]);
      ReceiveStep(v, ls[0], k);
      HoldsMaximum(w, ls[1..], k);
    }
  }

  predicate SameUpToAge<B(==)>(a: Lsa<B>, b: Lsa<B>) {
    WithoutAge(a.header) == WithoutAge(b.header) && a.body == b.body
  }

  /** Equal key, sequence number and checksum mean equal content. */
  ghost predicate Coherent<B(!new)>(s: iset<Lsa<B>>) {
    forall a, b :: a in s && b in s && KeyOf(a.header) == KeyOf(b.header) && SameRank(a.header, b.header)
                   ==> SameUpToAge(a, b)
  }

  ghost predicate SameMapUpToAge<B(!new)>(v: seq<Lsa<B>>, w: seq<Lsa<B>>) {
    forall k :: Find(v, k).Some? == Find(w, k).Some?
                && (Find(v, k).Some? ==> SameUpToAge(Find(v, k).value, Find(w, k).value))
  }

  /**
   * Flooding converges: two databases that start alike and receive the same router LSAs, in any
   * order and with any repetition, end up equal as maps up to the age field.
   */
  lemma FloodingConverges<B(!new)>(v: seq<Lsa<B>>, xs: seq<Lsa<B>>, ys: seq<Lsa<B>>)
    requires forall l :: l in xs <==> l in ys
    requires Coherent(iset l | l in v || l in xs)
    ensures SameMapUpToAge(ReceiveRouters(v, xs), ReceiveRouters(v, ys))
  {
    forall k
      ensures var f, g := Find(ReceiveRouters(v, xs), k), Find(ReceiveRouters(v, ys), k);
              f.Some? == g.Some? && (f.Some? ==> SameUpToAge(f.value, g.value))
    {
      HoldsMaximum(v, xs, k);
      HoldsMaximum(v, ys, k);
      FindHasKey(v, k);
      var f, g := Find(ReceiveRouters(v, xs), k), Find(ReceiveRouters(v, ys), k);
      if f.Some? && g.Some? {
        assert SameRank(f.value.header, g.value.header);
        var s := iset l | l in v || l in xs;
        assert f.value in s && g.value in s;
      }
    }
  }

  /** In the code's own order the stored copy of a key is only ever replaced by a newer one. */
  lemma {:induction false} StoredNeverOlder<B>(v: seq<Lsa<B>>, ls: seq<Lsa<B>>, k: Key)
    requires Find(v, k).Some?
    ensures Find(ReceiveRouters(v, ls), k).Some?
    ensures var f := Find(ReceiveRouters(v, ls), k);
            f == Find(v, k) || Newer(f.value.header, Find(v, k).value.header)
    decreases ls
  {
    if ls != [] {
      var w := ReceiveRouter(v, ls[0]);
      ReceiveStep(v, ls[0], k);
      StoredNeverOlder(w, ls[1..], k);
      var f := Find(ReceiveRouters(v, ls), k);
      if Newer(f.value.header, Find(w, k).value.header) && Newer(Find(w, k).value.header, Find(v, k).value.header) {
        NewerTransitive(f.value.header, Find(w, k).value.header, Find(v, k).value.header);
      }
    }
  }

  // ---------------------------------------------------------------------------
  // Receiving network advertisements
  // ---------------------------------------------------------------------------

  /** The network branch installs the received copy whether it is newer or not. */
  function ReceiveNetworks<B>(v: seq<Lsa<B>>, ls: seq<Lsa<B>>): seq<Lsa<B>>
    decreases ls
  {
    if ls == [] then v else ReceiveNetworks(Install(v, ls[0]), ls[1..])
  }

  /** The last received copy of a key. */
  function LastOf<B>(ls: seq<Lsa<B>>, k: Key): Option<Lsa<B>> {
    if ls == [] then None
    else if KeyOf(ls[|ls| - 1].header) == k then Some(ls[|ls| - 1])
    else LastOf(ls[..|ls| - 1], k)
  }

  lemma {:induction false} ReceiveNetworksAppend<B>(v: seq<Lsa<B>>, ls: seq<Lsa<B>>, l: Lsa<B>)
    ensures ReceiveNetworks(v, ls + [l]) == Install(ReceiveNetworks(v, ls), l)
    decreases ls
  {
    if ls == [] {
      assert [l][1..] == [];
    } else {
      assert (ls + [l])[1..] == ls[1..] + [l];
      ReceiveNetworksAppend(Install(v, ls[0]), ls[1..], l);
    }
  }

  lemma {:induction false} NetworkHoldsLast<B>(v: seq<Lsa<B>>, ls: seq<Lsa<B>>, k: Key)
    ensures Find(ReceiveNetworks(v, ls), k) == if LastOf(ls, k).Some? then LastOf(ls, k) else Find(v, k)
  {
    if ls != [] {
      var front, l := ls[..|ls| - 1], ls[|ls| - 1];
      assert front + [l] == ls;
      NetworkHoldsLast(v, front, k);
      ReceiveNetworksAppend(v, front, l);
      FindAfterInstall(ReceiveNetworks(v, front), l, k);
    }
  }

  /**
   * Network LSAs therefore do not converge in general: two arrival orders agree on a key
   * exactly when their last copies of it do.
   */
  lemma NetworkConvergesIff<B>(v: seq<Lsa<B>>, xs: seq<Lsa<B>>, ys: seq<Lsa<B>>, k: Key)
    requires forall l :: l in xs <==> l in ys
    ensures Find(ReceiveNetworks(v, xs), k) == Find(ReceiveNetworks(v, ys), k) <==> LastOf(xs, k) == LastOf(ys, k)
  {
    NetworkHoldsLast(v, xs, k);
    NetworkHoldsLast(v, ys, k);
    LastOfSome(xs, k);
    LastOfSome(ys, k);
  }

  lemma {:induction false} LastOfSome<B>(ls: seq<Lsa<B>>, k: Key)
    ensures LastOf(ls, k).Some? <==> exists l :: l in ls && KeyOf(l.header) == k
    ensures LastOf(ls, k).Some? ==> LastOf(ls, k).value in ls
  {
    if ls != [] {
      LastOfSome(ls[..|ls| - 1], k);
      assert ls == ls[..|ls| - 1] + [ls[|ls| - 1]];
    }
  }

  /** The smallest failing run: an old copy that arrives after a new one replaces it. */
  lemma OldNetworkCopyWins<B>(v: seq<Lsa<B>>, young: Lsa<B>, stale: Lsa<B>)
    requires KeyOf(young.header) == KeyOf(stale.header) && Newer(young.header, stale.header)
    ensures Find(ReceiveNetworks(v, [young, stale]), KeyOf(young.header)) == Some(stale)
    ensures Find(ReceiveNetworks(v, [stale, young]), KeyOf(young.header)) == Some(young)
  {
    NetworkHoldsLast(v, [young, stale], KeyOf(young.header));
    NetworkHoldsLast(v, [stale, young], KeyOf(young.header));
  }
}
