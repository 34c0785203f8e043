/**
 * Cold start of n routers that run the Hello and timer steps of the interface machine, in any
 * order of events: elections happen only where the code raises them.
 */
module EventStart {
  import opened Basics
  import opened NeighborSpec
  import opened Election
  import opened InterfaceSpec
  import opened InterfaceRuns
  import opened ColdStart

  // ---------------------------------------------------------------------------
  // The system
  // ---------------------------------------------------------------------------

  datatype Happening = Timer(at: nat) | HelloFrom(source: nat, at: nat)

  /** Ids of the neighbours that a Hello lists. */
  function Listed(ns: seq<Nbr>): seq<uint32> {
    if ns == [] then []
    else Listed(ns[..|ns| - 1]) + (if ns[|ns| - 1].state == Down then [] else [ns[|ns| - 1].id])
  }

  /** The Hello an interface sends; its priority octet is always 1. */
  function HelloOut(v: Iface): Hello {
    Hello(v.ip, v.settings.routerId, v.settings.options, v.settings.helloInterval, v.settings.deadInterval, 1,
          v.dr, v.bdr, Listed(v.neighbors))
  }

  function Happen(st: seq<Iface>, e: Happening): Option<seq<Iface>> {
    var next := match e
      case Timer(i) => if i < |st| then InterfaceRuns.Step(st[i], WaitOver) else None
      case HelloFrom(j, i) => if i < |st| && j < |st| then InterfaceRuns.Step(st[i], HelloIn(HelloOut(st[j]))) else None;
    if next.None? then None else Some(st[e.at := next.value])
  }

  /** The priority is the announced one, and the neighbour votes. */
  predicate RecordOf(r: Router, n: Nbr) {
    n.ip == r.ip && n.id == r.id && n.pri == 1 && Votes(n)
  }

  ghost predicate KnownRecord(net: Net, i: nat, n: Nbr) {
    exists j: nat :: j < |net.routers| && j != i && RecordOf(net.routers[j], n)
  }

  /** The interface holds a record of router `j`. */
  predicate Knows(net: Net, v: Iface, j: nat)
    requires j < |net.routers|
  {
    var k := IndexOf(v.neighbors, net.routers[j].ip);
    k < |v.neighbors| && RecordOf(net.routers[j], v.neighbors[k])
  }

  /** The record of router `j`. */
  function Record(net: Net, v: Iface, j: nat): Nbr
    requires j < |net.routers| && Knows(net, v, j)
  {
    v.neighbors[IndexOf(v.neighbors, net.routers[j].ip)]
  }

  /** The interface of router `i`, with every other router in its list and 2-Way or better. */
  ghost predicate Station(net: Net, base: Settings, i: nat, v: Iface)
    requires i < |net.routers|
  {
    && v.ip == net.routers[i].ip && v.pri == net.routers[i].pri
    && v.settings == base.(routerId := net.routers[i].id)
    && (v.state == Waiting || InRole(v))
    && (v.state == Waiting ==> Belief(v) == Outcome(0, 0))
    && (forall a, b :: 0 <= a < b < |v.neighbors| ==> v.neighbors[a].ip != v.neighbors[b].ip)
    && (forall k :: 0 <= k < |v.neighbors| ==> KnownRecord(net, i, v.neighbors[k]))
    && (forall j :: 0 <= j < |net.routers| && j != i ==> Knows(net, v, j))
  }

  /** What is known of the claimant `c` while everything else is in flux, from the view of router `i`. */
  ghost predicate Follows(net: Net, c: nat, i: nat, v: Iface, claimed: bool)
    requires c < |net.routers| && i < |net.routers| && (i != c ==> Knows(net, v, c))
  {
    && (forall k :: 0 <= k < |v.neighbors| && v.neighbors[k].ip != net.routers[c].ip ==>
          v.neighbors[k].dr != v.neighbors[k].ip)
    && (!claimed ==> Quiet(v))
    && (i == c ==> (claimed <==> v.dr == v.ip) && (InRole(v) ==> v.dr == v.ip))
    && (i != c ==>
          && v.dr != v.ip
          && (if Heeds(net, c, v) then InRole(v) ==> v.dr == net.routers[c].ip else v.bdr != v.ip))
  }

  /** The record of the claimant declares it DR. */
  predicate Heeds(net: Net, c: nat, v: Iface)
    requires c < |net.routers| && Knows(net, v, c)
  {
    Record(net, v, c).dr == net.routers[c].ip
  }

  /** Neither this router nor any of its records declares anything. */
  predicate Quiet(v: Iface) {
    && v.dr != v.ip && v.bdr != v.ip
    && (forall k :: 0 <= k < |v.neighbors| ==>
          v.neighbors[k].dr != v.neighbors[k].ip && v.neighbors[k].bdr != v.neighbors[k].ip)
  }

  predicate Claimed(net: Net, c: nat, st: seq<Iface>)
    requires c < |net.routers| && c < |st|
  {
    st[c].dr == net.routers[c].ip
  }

  ghost predicate SoleClaimant(net: Net, c: nat) {
    c < |net.routers| && Claimant(net, c) && forall d :: Claimant(net, d) ==> d == c
  }

  ghost predicate Sane(net: Net, base: Settings, c: nat, st: seq<Iface>) {
    && ProperNet(net) && ConstantHello(net) && SoleClaimant(net, c)
    && |st| == |net.routers|
    && (forall i :: 0 <= i < |st| ==> Station(net, base, i, st[i]))
    && (forall i :: 0 <= i < |st| ==> Follows(net, c, i, st[i], Claimed(net, c, st)))
  }

  // ---------------------------------------------------------------------------
  // Elections
  // ---------------------------------------------------------------------------

  lemma {:induction false} VoterIsCandidate(ns: seq<Nbr>, k: nat)
    requires k < |ns| && Votes(ns[k])
    ensures CandidateOf(ns[k]) in Candidates(ns)
  {
    if k < |ns| - 1 {
      VoterIsCandidate(ns[..|ns| - 1], k);
    }
  }

  /** A candidate of an election is the record of some other router. */
  lemma CandidateIsRecord(net: Net, base: Settings, i: nat, v: Iface, x: Candidate) returns (k: nat, j: nat)
    requires i < |net.routers| && Station(net, base, i, v) && x in Candidates(v.neighbors)
    ensures k < |v.neighbors| && x == CandidateOf(v.neighbors[k])
    ensures j < |net.routers| && j != i && RecordOf(net.routers[j], v.neighbors[k])
  {
    CandidatesAreNeighbors(v.neighbors, x);
    k :| k < |v.neighbors| && x == CandidateOf(v.neighbors[k]);
    assert KnownRecord(net, i, v.neighbors[k]);
    j :| j < |net.routers| && j != i && RecordOf(net.routers[j], v.neighbors[k]);
  }

  lemma RecordIsCandidate(net: Net, base: Settings, i: nat, v: Iface, j: nat)
    requires i < |net.routers| && Station(net, base, i, v) && j < |net.routers| && j != i
    ensures Knows(net, v, j) && CandidateOf(Record(net, v, j)) in Candidates(v.neighbors)
  {
    assert Knows(net, v, j);
    VoterIsCandidate(v.neighbors, IndexOf(v.neighbors, net.routers[j].ip));
  }

  lemma StationElects(net: Net, base: Settings, i: nat, v: Iface)
    requires ProperNet(net) && i < |net.routers| && Station(net, base, i, v)
    ensures ProperOthers(SelfOf(v), Candidates(v.neighbors)) && HasCandidate(SelfOf(v), Candidates(v.neighbors))
  {
    RecordIsCandidate(net, base, i, v, if i == 0 then 1 else 0);
    assert ProperRouter(net.routers[i]);
    forall x | x in Candidates(v.neighbors)
      ensures x.ip != v.ip && x.ip != 0
    {
      var k, j := CandidateIsRecord(net, base, i, v, x);
      assert ProperRouter(net.routers[j]);
    }
  }

  /** Only the claimant's record can declare DR. */
  lemma OnlyClaimantDeclares(net: Net, base: Settings, c: nat, i: nat, v: Iface)
    requires ProperNet(net) && c < |net.routers| && i < |net.routers| && Station(net, base, i, v)
    requires i != c ==> Knows(net, v, c)
    requires forall k :: 0 <= k < |v.neighbors| && v.neighbors[k].ip != net.routers[c].ip ==>
               v.neighbors[k].dr != v.neighbors[k].ip
    ensures var d := DrFold(Candidates(v.neighbors));
            if i != c && Heeds(net, c, v) then d.Some? && d.value.ip == net.routers[c].ip else d.None?
  {
    var cs := Candidates(v.neighbors);
    DrFoldIsMaximum(cs);
    if DrFold(cs).Some? {
      var k, j := CandidateIsRecord(net, base, i, v, DrFold(cs).value);
      assert v.neighbors[k].ip == net.routers[c].ip;
      if i != c {
        SameRecord(net, v, c, k);
      }
    }
    if i != c {
      RecordIsCandidate(net, base, i, v, c);
    }
  }

  lemma SameRecord(net: Net, v: Iface, c: nat, k: nat)
    requires c < |net.routers| && Knows(net, v, c) && k < |v.neighbors| && v.neighbors[k].ip == net.routers[c].ip
    requires forall a, b :: 0 <= a < b < |v.neighbors| ==> v.neighbors[a].ip != v.neighbors[b].ip
    ensures v.neighbors[k] == Record(net, v, c)
  {
  }

  /** A router that is no claimant loses the backup election to one of its records. */
  lemma OthersLoseBackup(net: Net, base: Settings, c: nat, i: nat, v: Iface)
    requires ProperNet(net) && ConstantHello(net) && i < |net.routers| && Station(net, base, i, v)
    requires !Claimant(net, i) && v.bdr != v.ip
    requires DrFold(Candidates(v.neighbors)).None?
    ensures var b := BdrFold(Candidates(v.neighbors)); b.Some? && BetterBdr(b.value, Own(SelfOf(v), Belief(v)))
  {
    var cs := Candidates(v.neighbors);
    BdrFoldIsMaximum(cs);
    DrFoldIsMaximum(cs);
    var j :| 0 <= j < |net.routers| && j != i && !RanksAbove(net, i, i, j);
    RecordIsCandidate(net, base, i, v, j);
    var x := CandidateOf(Record(net, v, j));
    assert net.routers[j].id != net.routers[i].id;
    assert Outranks(x, Own(SelfOf(v), Belief(v)));
  }

  /** The election of a router other than the claimant. */
  lemma OtherElects(net: Net, base: Settings, c: nat, i: nat, v: Iface)
    requires ProperNet(net) && ConstantHello(net) && c < |net.routers| && i < |net.routers| && i != c
    requires Station(net, base, i, v) && Knows(net, v, c) && !Claimant(net, i)
    requires forall k :: 0 <= k < |v.neighbors| && v.neighbors[k].ip != net.routers[c].ip ==>
               v.neighbors[k].dr != v.neighbors[k].ip
    requires v.dr != v.ip && (!Heeds(net, c, v) ==> v.bdr != v.ip)
    ensures var o := CallElection(SelfOf(v), Belief(v), Candidates(v.neighbors));
            && o.dr != v.ip
            && (if Heeds(net, c, v) then o.dr == net.routers[c].ip else o.bdr != v.ip)
  {
    hide Claimant, Station, Candidates, ConstantHello, Knows, Record;
    StationAddress(net, base, i, v);
    StationElects(net, base, i, v);
    CallElectionIsVerdict(SelfOf(v), Belief(v), Candidates(v.neighbors));
    WinnersAreNeighbours(SelfOf(v), Candidates(v.neighbors));
    OnlyClaimantDeclares(net, base, c, i, v);
    assert net.routers[c].ip != net.routers[i].ip;
    if !Heeds(net, c, v) {
      OthersLoseBackup(net, base, c, i, v);
    }
  }

  lemma ClaimantOutranks(net: Net, base: Settings, c: nat, v: Iface, x: Candidate)
    requires ProperNet(net) && ConstantHello(net) && Claimant(net, c) && c < |net.routers| && Station(net, base, c, v)
    requires x in Candidates(v.neighbors)
    ensures x.pri < v.pri || (x.pri == v.pri && x.id < v.settings.routerId)
    ensures exists k :: 0 <= k < |v.neighbors| && x == CandidateOf(v.neighbors[k])
  {
    hide Candidates;
    var k, j := CandidateIsRecord(net, base, c, v, x);
    assert RanksAbove(net, c, c, j);
  }

  /** The election of the claimant. */
  lemma ClaimantElects(net: Net, base: Settings, c: nat, v: Iface)
    requires ProperNet(net) && ConstantHello(net) && Claimant(net, c) && c < |net.routers|
    requires Station(net, base, c, v)
    requires forall k :: 0 <= k < |v.neighbors| && v.neighbors[k].ip != net.routers[c].ip ==>
               v.neighbors[k].dr != v.neighbors[k].ip
    requires v.dr == v.ip || Quiet(v)
    ensures CallElection(SelfOf(v), Belief(v), Candidates(v.neighbors)).dr == v.ip
  {
    hide Station, Candidates, ConstantHello, ProperNet, Claimant;
    var cs := Candidates(v.neighbors);
    StationAddress(net, base, c, v);
    StationElects(net, base, c, v);
    CallElectionIsVerdict(SelfOf(v), Belief(v), cs);
    OnlyClaimantDeclares(net, base, c, c, v);
    ClaimantIsEligible(net, c);
    BdrFoldIsMaximum(cs);
    if v.dr != v.ip && BdrFold(cs).Some? {
      ClaimantOutranks(net, base, c, v, BdrFold(cs).value);
    }
  }

  // ---------------------------------------------------------------------------
  // Steps of one interface
  // ---------------------------------------------------------------------------

  /** What an election leaves of the neighbour list. */
  ghost predicate SameRecords(ns: seq<Nbr>, ms: seq<Nbr>) {
    |ns| == |ms| && forall k :: 0 <= k < |ns| ==> CandidateOf(ms[k]) == CandidateOf(ns[k]) && Votes(ms[k]) == Votes(ns[k])
  }

  lemma {:induction false} SameIndex(ns: seq<Nbr>, ms: seq<Nbr>, ip: uint32)
    requires |ns| == |ms| && forall k :: 0 <= k < |ns| ==> ms[k].ip == ns[k].ip
    ensures IndexOf(ms, ip) == IndexOf(ns, ip)
  {
    if ns != [] && ns[0].ip != ip {
      SameIndex(ns[1..], ms[1..], ip);
    }
  }

  lemma SameStation(net: Net, base: Settings, i: nat, v: Iface, w: Iface)
    requires i < |net.routers| && Station(net, base, i, v) && SameRecords(v.neighbors, w.neighbors)
    requires w.ip == v.ip && w.pri == v.pri && w.settings == v.settings && InRole(w)
    ensures Station(net, base, i, w)
    ensures forall j: nat :: j < |net.routers| && j != i ==> Record(net, w, j).dr == Record(net, v, j).dr
  {
    hide Votes;
    assert forall k :: 0 <= k < |v.neighbors| ==> CandidateOf(w.neighbors[k]) == CandidateOf(v.neighbors[k]);
    forall k | 0 <= k < |w.neighbors|
      ensures KnownRecord(net, i, w.neighbors[k])
    {
      assert KnownRecord(net, i, v.neighbors[k]);
      var j: nat :| j < |net.routers| && j != i && RecordOf(net.routers[j], v.neighbors[k]);
      assert RecordOf(net.routers[j], w.neighbors[k]);
    }
    forall j: nat | j < |net.routers| && j != i
      ensures Knows(net, w, j) && Record(net, w, j).dr == Record(net, v, j).dr
    {
      assert Knows(net, v, j);
      SameIndex(v.neighbors, w.neighbors, net.routers[j].ip);
    }
  }

  /** An election on a station. */
  lemma StationAfterElection(net: Net, base: Settings, i: nat, v: Iface)
    requires ProperNet(net) && i < |net.routers| && Station(net, base, i, v)
    ensures Elect(v).Some?
    ensures var w := Elect(v).value;
            && Belief(w) == CallElection(SelfOf(v), Belief(v), Candidates(v.neighbors))
            && SameRecords(v.neighbors, w.neighbors) && InRole(w) && w.ip == v.ip && Station(net, base, i, w)
            && (forall j: nat :: j < |net.routers| && j != i ==> Record(net, w, j).dr == Record(net, v, j).dr)
  {
    hide CallElection, Candidates, Station, Votes, HasCandidate;
    StationElects(net, base, i, v);
    var o := CallElection(SelfOf(v), Belief(v), Candidates(v.neighbors));
    var u := v.(dr := o.dr, bdr := o.bdr);
    forall k | 0 <= k < |v.neighbors|
      ensures CandidateOf(AdjOkAll(u).neighbors[k]) == CandidateOf(v.neighbors[k])
      ensures Votes(AdjOkAll(u).neighbors[k]) == Votes(v.neighbors[k])
    {
      AdjOkKeepsVote(v.neighbors[k], Adjacent(u, v.neighbors[k].ip));
    }
    SameStation(net, base, i, v, Elect(v).value);
  }

  /** The part of `Follows` that an election needs. */
  ghost predicate Informed(net: Net, c: nat, i: nat, v: Iface, claimed: bool)
    requires c < |net.routers| && i < |net.routers| && (i != c ==> Knows(net, v, c))
  {
    && (forall k :: 0 <= k < |v.neighbors| && v.neighbors[k].ip != net.routers[c].ip ==>
          v.neighbors[k].dr != v.neighbors[k].ip)
    && (!claimed ==> Quiet(v))
    && (i == c ==> v.dr == v.ip || !claimed)
    && (i != c ==> v.dr != v.ip && (!Heeds(net, c, v) ==> v.bdr != v.ip) && (Heeds(net, c, v) ==> claimed))
  }

  lemma ElectionFollows(net: Net, base: Settings, c: nat, i: nat, v: Iface, claimed: bool)
    requires ProperNet(net) && ConstantHello(net) && SoleClaimant(net, c)
    requires i < |net.routers| && Station(net, base, i, v) && (i != c ==> Knows(net, v, c))
    requires Informed(net, c, i, v, claimed)
    ensures Elect(v).Some?
    ensures var w := Elect(v).value;
            && Station(net, base, i, w) && InRole(w)
            && Follows(net, c, i, w, claimed || i == c)
            && (i != c ==> Heeds(net, c, w) == Heeds(net, c, v))
            && (i == c ==> w.dr == w.ip)
  {
    hide CallElection, Candidates, Votes, Claimant, Elect, RecordOf;
    StationAfterElection(net, base, i, v);
    var w := Elect(v).value;
    assert forall k :: 0 <= k < |v.neighbors| ==> CandidateOf(w.neighbors[k]) == CandidateOf(v.neighbors[k]);
    if i == c {
      ClaimantElects(net, base, c, v);
    } else {
      assert Knows(net, w, c);
      OtherElects(net, base, c, i, v);
    }
  }

  lemma FollowsInforms(net: Net, c: nat, i: nat, v: Iface, claimed: bool)
    requires c < |net.routers| && i < |net.routers| && (i != c ==> Knows(net, v, c))
    requires Follows(net, c, i, v, claimed)
    ensures Informed(net, c, i, v, claimed)
  {
  }

  lemma {:induction false} ListedIds(ns: seq<Nbr>, k: nat)
    requires k < |ns| && ns[k].state != Down
    ensures ns[k].id in Listed(ns)
  {
    if k < |ns| - 1 {
      ListedIds(ns[..|ns| - 1], k);
    }
  }

  /** What a Hello of router `j` does to the structure of router `i`, before any interface event. */
  lemma HelloTaken(net: Net, base: Settings, i: nat, v: Iface, j: nat, from: Iface)
    requires ProperNet(net) && i < |net.routers| && j < |net.routers| && i != j
    requires Station(net, base, i, v) && Station(net, base, j, from)
    ensures var h, k := HelloOut(from), IndexOf(v.neighbors, net.routers[j].ip);
            && Knows(net, v, j) && AcceptsHello(v, h)
            && AfterHello(v, h) == v.(neighbors := v.neighbors[k := TakeHello(v.neighbors[k], h)])
            && SignalOf(v, h) == HelloSignal(v.neighbors[k], TakeHello(v.neighbors[k], h), false, v.state == Waiting)
  {
    hide HelloSignal;
    assert Knows(net, v, j) && Knows(net, from, i);
    assert net.routers[i].ip != net.routers[j].ip;
    ListedIds(from.neighbors, IndexOf(from.neighbors, net.routers[i].ip));
  }

  /** The list with the fresh record is still one of a station. */
  lemma HelloKeepsStation(net: Net, base: Settings, i: nat, v: Iface, j: nat, from: Iface)
    requires ProperNet(net) && i < |net.routers| && j < |net.routers| && i != j
    requires Station(net, base, i, v) && Station(net, base, j, from)
    ensures var u := AfterHello(v, HelloOut(from));
            && u.ip == v.ip && Belief(u) == Belief(v) && u.state == v.state && |u.neighbors| == |v.neighbors|
            && Station(net, base, i, u)
            && (forall x: nat :: x < |net.routers| && x != i ==>
                  Record(net, u, x).dr == if x == j then from.dr else Record(net, v, x).dr)
            && (forall k :: 0 <= k < |v.neighbors| ==>
                  var r := u.neighbors[k];
                  if r.ip == from.ip then r.dr == from.dr && r.bdr == from.bdr else r == v.neighbors[k])
  {
    HelloTaken(net, base, i, v, j, from);
    var h, k := HelloOut(from), IndexOf(v.neighbors, net.routers[j].ip);
    var u := AfterHello(v, h);
    hide AfterHello, Listed;
    assert RecordOf(net.routers[j], u.neighbors[k]);
    forall x: nat | x < |net.routers| && x != i
      ensures Knows(net, u, x)
      ensures Record(net, u, x) == if x == j then u.neighbors[k] else Record(net, v, x)
    {
      assert Knows(net, v, x);
      SameIndex(v.neighbors, u.neighbors, net.routers[x].ip);
      assert x != j ==> net.routers[x].ip != net.routers[j].ip;
    }
    forall x | 0 <= x < |u.neighbors|
      ensures KnownRecord(net, i, u.neighbors[x])
    {
      assert KnownRecord(net, i, v.neighbors[x]);
    }
  }

  /** A Hello leaves the receiver informed, and heeding the claimant if that one has claimed and sent it. */
  lemma HelloInforms(net: Net, base: Settings, c: nat, i: nat, v: Iface, j: nat, from: Iface, claimed: bool)
    requires ProperNet(net) && c < |net.routers| && i < |net.routers| && j < |net.routers| && i != j
    requires Station(net, base, i, v) && Station(net, base, j, from)
    requires (i != c ==> Knows(net, v, c)) && (j != c ==> Knows(net, from, c))
    requires Follows(net, c, i, v, claimed) && Follows(net, c, j, from, claimed)
    ensures var u := AfterHello(v, HelloOut(from));
            && Station(net, base, i, u)
            && (i != c ==> Knows(net, u, c) && (Heeds(net, c, u) <==> if j == c then claimed else Heeds(net, c, v)))
            && Informed(net, c, i, u, claimed)
  {
    hide AfterHello, Listed, RecordOf;
    HelloKeepsStation(net, base, i, v, j, from);
    var u := AfterHello(v, HelloOut(from));
    hide Station;
    assert i != c && j != c ==> net.routers[j].ip != net.routers[c].ip;
    if !claimed {
      QuietHello(v, from, u);
      assert i != c ==> !Heeds(net, c, v);
    }
  }

  lemma QuietHello(v: Iface, from: Iface, u: Iface)
    requires Quiet(v) && Quiet(from) && u.ip == v.ip && Belief(u) == Belief(v) && |u.neighbors| == |v.neighbors|
    requires forall k :: 0 <= k < |v.neighbors| ==>
               var r := u.neighbors[k];
               if r.ip == from.ip then r.dr == from.dr && r.bdr == from.bdr else r == v.neighbors[k]
    ensures Quiet(u)
  {
  }

  /** One step of router `i` from `v` to `w`: the invariant holds, and nothing gained is lost. */
  ghost predicate Advance(net: Net, base: Settings, c: nat, i: nat, v: Iface, w: Iface, claimed: bool)
    requires c < |net.routers| && i < |net.routers| && (i != c ==> Knows(net, v, c))
  {
    && Station(net, base, i, w)
    && (i != c ==> Knows(net, w, c) && (Heeds(net, c, v) ==> Heeds(net, c, w)))
    && Follows(net, c, i, w, claimed || (i == c && w.dr == w.ip))
    && (InRole(v) ==> InRole(w))
    && (i == c && v.dr == v.ip ==> w.dr == w.ip)
  }

  lemma TimerAdvances(net: Net, base: Settings, c: nat, i: nat, v: Iface, claimed: bool)
    requires ProperNet(net) && ConstantHello(net) && SoleClaimant(net, c)
    requires i < |net.routers| && Station(net, base, i, v) && (i != c ==> Knows(net, v, c))
    requires Follows(net, c, i, v, claimed)
    ensures WaitTimer(v).Some? && InRole(WaitTimer(v).value)
    ensures Advance(net, base, c, i, v, WaitTimer(v).value, claimed)
  {
    hide Elect, RecordOf, Claimant;
    FollowsInforms(net, c, i, v, claimed);
    ElectionFollows(net, base, c, i, v, claimed);
    hide Quiet;
  }

  /** A router in a role that hears the claimant declare itself for the first time elects. */
  lemma FirstDeclarationElects(net: Net, base: Settings, c: nat, i: nat, v: Iface, from: Iface)
    requires ProperNet(net) && c < |net.routers| && i < |net.routers| && i != c
    requires Station(net, base, i, v) && Station(net, base, c, from) && Knows(net, v, c)
    requires !Heeds(net, c, v) && from.dr == from.ip && InRole(v)
    ensures SignalOf(v, HelloOut(from)) == ChangeSignal
  {
    HelloTaken(net, base, i, v, c, from);
  }

  /** A Hello that raises no election leaves the invariant as it is. */
  lemma HelloWithoutElection(net: Net, base: Settings, c: nat, i: nat, v: Iface, j: nat, from: Iface, claimed: bool)
    requires ProperNet(net) && c < |net.routers| && i < |net.routers| && j < |net.routers| && i != j
    requires Station(net, base, i, v) && Station(net, base, j, from)
    requires (i != c ==> Knows(net, v, c)) && (j != c ==> Knows(net, from, c))
    requires Follows(net, c, i, v, claimed) && Follows(net, c, j, from, claimed)
    requires InRole(v) ==> SignalOf(v, HelloOut(from)) != ChangeSignal
    ensures Advance(net, base, c, i, v, AfterHello(v, HelloOut(from)), claimed)
  {
    hide RecordOf, AfterHello, SignalOf;
    FollowsInforms(net, c, i, v, claimed);
    hide Quiet;
    HelloInforms(net, base, c, i, v, j, from, claimed);
    HelloKeepsStation(net, base, i, v, j, from);
    if i != c && j == c && claimed && !Heeds(net, c, v) && InRole(v) {
      FirstDeclarationElects(net, base, c, i, v, from);
    }
  }

  lemma HelloAdvances(net: Net, base: Settings, c: nat, i: nat, v: Iface, j: nat, from: Iface, claimed: bool)
    requires ProperNet(net) && ConstantHello(net) && SoleClaimant(net, c)
    requires i < |net.routers| && j < |net.routers| && i != j
    requires Station(net, base, i, v) && Station(net, base, j, from)
    requires (i != c ==> Knows(net, v, c)) && (j != c ==> Knows(net, from, c))
    requires Follows(net, c, i, v, claimed) && Follows(net, c, j, from, claimed)
    ensures RecvHello(v, HelloOut(from)).Some?
    ensures var w := RecvHello(v, HelloOut(from)).value;
            && Advance(net, base, c, i, v, w, claimed)
            && (i != c && j == c && claimed ==> Heeds(net, c, w))
  {
    hide RecordOf, Quiet, AfterHello, SignalOf, Elect, Claimant, Listed;
    FollowsInforms(net, c, i, v, claimed);
    HelloTaken(net, base, i, v, j, from);
    HelloInforms(net, base, c, i, v, j, from, claimed);
    var h := HelloOut(from);
    var u, s := AfterHello(v, h), SignalOf(v, h);
    HelloKeepsStation(net, base, i, v, j, from);
    hide Station, Informed, Follows;
    ElectionFollows(net, base, c, i, u, claimed);
    if s == NoSignal || (s == ChangeSignal && !InRole(v)) || (s == BackupSignal && v.state != Waiting) {
      HelloWithoutElection(net, base, c, i, v, j, from, claimed);
    }
  }

  // ---------------------------------------------------------------------------
  // Runs of all interfaces
  // ---------------------------------------------------------------------------

  function HappenAll(st: seq<Iface>, es: seq<Happening>): Option<seq<Iface>> {
    if es == [] then Some(st)
    else
      match HappenAll(st, es[..|es| - 1])
      case None => None
      case Some(mid) => Happen(mid, es[|es| - 1])
  }

  predicate Within(n: nat, e: Happening) {
    e.at < n && (e.HelloFrom? ==> e.source < n)
  }

  /** Everybody is up and has heard everybody, and nobody has elected yet. */
  ghost predicate Start(net: Net, base: Settings, st: seq<Iface>) {
    && |st| == |net.routers|
    && (forall i :: 0 <= i < |st| ==> Station(net, base, i, st[i]) && Undecided(st[i]))
  }

  predicate Undecided(v: Iface) {
    && v.state == (if v.pri != 0 then Waiting else DrOther) && Belief(v) == Outcome(0, 0)
    && (forall k :: 0 <= k < |v.neighbors| ==> v.neighbors[k].dr == 0 && v.neighbors[k].bdr == 0)
  }

  lemma StartIsSane(net: Net, base: Settings, c: nat, st: seq<Iface>)
    requires ProperNet(net) && ConstantHello(net) && SoleClaimant(net, c) && Start(net, base, st)
    ensures Sane(net, base, c, st) && !Claimed(net, c, st)
  {
    hide RecordOf, Claimant;
    ClaimantIsEligible(net, c);
    assert Station(net, base, c, st[c]) && ProperRouter(net.routers[c]);
    forall i: nat | i < |st|
      ensures Station(net, base, i, st[i]) && Follows(net, c, i, st[i], false)
    {
      var v := st[i];
      assert Station(net, base, i, v) && Undecided(v) && ProperRouter(net.routers[i]);
      forall k | 0 <= k < |v.neighbors|
        ensures v.neighbors[k].ip != 0
      {
        RecordIsReal(net, i, v.neighbors[k]);
      }
      assert i != c ==> Knows(net, v, c);
    }
  }

  lemma RecordIsReal(net: Net, i: nat, n: Nbr)
    requires ProperNet(net) && KnownRecord(net, i, n)
    ensures n.ip != 0
  {
    var j: nat :| j < |net.routers| && j != i && RecordOf(net.routers[j], n);
    assert ProperRouter(net.routers[j]);
  }

  /** What one event is for: the timer ends the waiting, and a Hello of the claimant spreads its claim. */
  ghost predicate Gained(net: Net, c: nat, st: seq<Iface>, e: Happening, next: seq<Iface>)
    requires c < |net.routers| && |st| == |next| == |net.routers|
    requires forall i: nat :: i < |st| && i != c ==> Knows(net, st[i], c) && Knows(net, next[i], c)
  {
    && (Claimed(net, c, st) || e == Timer(c) ==> Claimed(net, c, next))
    && (forall i: nat :: i < |st| ==> (InRole(st[i]) || e == Timer(i) ==> InRole(next[i])))
    && (forall i: nat :: i < |st| && i != c ==>
          (Heeds(net, c, st[i]) || (e == HelloFrom(c, i) && Claimed(net, c, st)) ==> Heeds(net, c, next[i])))
  }

  lemma SaneKnows(net: Net, base: Settings, c: nat, st: seq<Iface>)
    requires Sane(net, base, c, st)
    ensures forall i: nat :: i < |st| && i != c ==> Knows(net, st[i], c)
  {
    forall i: nat | i < |st| && i != c
      ensures Knows(net, st[i], c)
    {
      assert Station(net, base, i, st[i]);
    }
  }

  /** One event at router `i` that advances its interface to `w`. */
  lemma AdvanceKeepsSane(net: Net, base: Settings, c: nat, st: seq<Iface>, i: nat, w: Iface)
    requires Sane(net, base, c, st) && i < |st| && (i != c ==> Knows(net, st[i], c))
    requires Advance(net, base, c, i, st[i], w, Claimed(net, c, st))
    ensures Sane(net, base, c, st[i := w])
    ensures Claimed(net, c, st) ==> Claimed(net, c, st[i := w])
  {
    hide Station, Heeds, Claimant, Quiet;
    StationAddress(net, base, c, st[c]);
    SaneKnows(net, base, c, st);
    var next := st[i := w];
    if i == c { StationAddress(net, base, c, w); }
    forall x: nat | x < |next|
      ensures Station(net, base, x, next[x]) && (x != c ==> Knows(net, next[x], c))
      ensures Follows(net, c, x, next[x], Claimed(net, c, next))
    {
      assert Station(net, base, x, st[x]) && Follows(net, c, x, st[x], Claimed(net, c, st));
    }
  }

  lemma StationAddress(net: Net, base: Settings, i: nat, v: Iface)
    requires i < |net.routers| && Station(net, base, i, v)
    ensures v.ip == net.routers[i].ip && v.pri == net.routers[i].pri
  {
  }

  lemma HappenAdvances(net: Net, base: Settings, c: nat, st: seq<Iface>, e: Happening)
    requires Sane(net, base, c, st) && Within(|st|, e)
    requires e.at != c ==> Knows(net, st[e.at], c)
    requires !(e.HelloFrom? && e.source == e.at)
    ensures Happen(st, e).Some?
    ensures var next, i := Happen(st, e).value, e.at;
            && |next| == |st| && next == st[i := next[i]]
            && Advance(net, base, c, i, st[i], next[i], Claimed(net, c, st))
            && (e.Timer? ==> InRole(next[i]))
            && (e == HelloFrom(c, i) && Claimed(net, c, st) ==> Heeds(net, c, next[i]))
  {
    hide Advance, WaitTimer, RecvHello, HelloOut, RecordOf, Follows, Quiet, Claimant;
    SaneKnows(net, base, c, st);
    var i := e.at;
    assert Station(net, base, i, st[i]);
    hide Station;
    match e {
      case Timer(_) => TimerAdvances(net, base, c, i, st[i], Claimed(net, c, st));
      case HelloFrom(j, _) =>
        assert Station(net, base, j, st[j]);
        HelloAdvances(net, base, c, i, st[i], j, st[j], Claimed(net, c, st));
    }
  }

  /** A router does not hear itself. */
  lemma OwnHelloIsIgnored(st: seq<Iface>, i: nat)
    requires i < |st|
    ensures Happen(st, HelloFrom(i, i)) == Some(st)
  {
    assert st[i := st[i]] == st;
  }

  lemma ClaimAfterTimer(net: Net, base: Settings, c: nat, st: seq<Iface>)
    requires Sane(net, base, c, st) && InRole(st[c])
    ensures Claimed(net, c, st)
  {
    hide Claimant;
    assert Station(net, base, c, st[c]);
  }

  lemma HappenKeepsSane(net: Net, base: Settings, c: nat, st: seq<Iface>, e: Happening)
    requires Sane(net, base, c, st) && Within(|st|, e)
    ensures Happen(st, e).Some?
    ensures var next := Happen(st, e).value;
            && Sane(net, base, c, next)
            && (forall i: nat :: i < |st| && i != c ==> Knows(net, st[i], c) && Knows(net, next[i], c))
            && Gained(net, c, st, e, next)
  {
    hide Happen, Knows, Station, Follows, Heeds, Claimed, Claimant, ProperNet, ConstantHello, InRole;
    SaneKnows(net, base, c, st);
    var i := e.at;
    if e.HelloFrom? && e.source == i {
      OwnHelloIsIgnored(st, i);
    } else {
      HappenAdvances(net, base, c, st, e);
      var next := Happen(st, e).value;
      AdvanceKeepsSane(net, base, c, st, i, next[i]);
      SaneKnows(net, base, c, next);
      if e == Timer(c) { ClaimAfterTimer(net, base, c, next); }
    }
  }

  /** The Hello of the claimant reaches router `i` after the claimant's timer. */
  ghost predicate Told(es: seq<Happening>, c: nat, i: nat) {
    exists p, q :: 0 <= p < q < |es| && es[p] == Timer(c) && es[q] == HelloFrom(c, i)
  }

  ghost predicate RunGoal(net: Net, c: nat, es: seq<Happening>, st: seq<Iface>)
    requires c < |net.routers| == |st|
    requires forall i: nat :: i < |st| && i != c ==> Knows(net, st[i], c)
  {
    && (Timer(c) in es ==> Claimed(net, c, st))
    && (forall i: nat :: i < |st| ==> (Timer(i) in es ==> InRole(st[i])))
    && (forall i: nat :: i < |st| && i != c ==> (Told(es, c, i) ==> Heeds(net, c, st[i])))
  }

  lemma ToldEarlier(es: seq<Happening>, c: nat, i: nat)
    requires es != [] && Told(es, c, i)
    ensures var front := es[..|es| - 1];
            Told(front, c, i) || (Timer(c) in front && es[|es| - 1] == HelloFrom(c, i))
  {
    var front := es[..|es| - 1];
    var p, q :| 0 <= p < q < |es| && es[p] == Timer(c) && es[q] == HelloFrom(c, i);
    assert front[p] == Timer(c);
    if q < |front| { assert front[q] == HelloFrom(c, i); }
  }

  lemma {:induction false} RunKeepsSane(net: Net, base: Settings, c: nat, st: seq<Iface>, es: seq<Happening>)
    requires Sane(net, base, c, st) && forall k :: 0 <= k < |es| ==> Within(|st|, es[k])
    ensures HappenAll(st, es).Some?
    ensures var end := HappenAll(st, es).value;
            && Sane(net, base, c, end)
            && (forall i: nat :: i < |end| && i != c ==> Knows(net, end[i], c))
            && RunGoal(net, c, es, end)
  {
    hide Happen, Knows, Station, Follows, Heeds, Claimed, Claimant, ProperNet, ConstantHello, InRole, Told;
    if es == [] {
      SaneKnows(net, base, c, st);
      forall i: nat ensures !Told(es, c, i) { NobodyTold(c, i); }
    } else {
      var front, e := es[..|es| - 1], es[|es| - 1];
      RunKeepsSane(net, base, c, st, front);
      HappenKeepsSane(net, base, c, HappenAll(st, front).value, e);
      forall i: nat | Told(es, c, i)
        ensures Told(front, c, i) || (Timer(c) in front && e == HelloFrom(c, i))
      {
        ToldEarlier(es, c, i);
      }
      assert forall x :: x in es <==> x in front || x == e;
    }
  }

  lemma NobodyTold(c: nat, i: nat)
    ensures !Told([], c, i)
  {
  }

  /** Nobody but the claimant ever holds itself to be DR, whatever happens in whatever order. */
  lemma NoFalseClaim(net: Net, base: Settings, c: nat, st: seq<Iface>, es: seq<Happening>, i: nat)
    requires ProperNet(net) && ConstantHello(net) && SoleClaimant(net, c) && Start(net, base, st)
    requires (forall k :: 0 <= k < |es| ==> Within(|st|, es[k])) && i < |st| && i != c
    ensures var end := HappenAll(st, es);
            end.Some? && |end.value| == |st| && end.value[i].dr != net.routers[i].ip
  {
    StartIsSane(net, base, c, st);
    RunKeepsSane(net, base, c, st, es);
    hide Knows, Heeds, Claimant;
    var end := HappenAll(st, es).value;
    assert Station(net, base, i, end[i]) && Follows(net, c, i, end[i], Claimed(net, c, end));
  }

  /**
   * With one claimant, a router whose timer has expired and which has had a Hello of the claimant
   * sent after the claimant's own timer holds it as DR, whatever else was sent and in whatever order.
   */
  lemma AnyOrderAgrees(net: Net, base: Settings, c: nat, st: seq<Iface>, es: seq<Happening>)
    requires ProperNet(net) && ConstantHello(net) && SoleClaimant(net, c) && Start(net, base, st)
    requires forall k :: 0 <= k < |es| ==> Within(|st|, es[k])
    ensures var end := HappenAll(st, es);
            && end.Some? && |end.value| == |st|
            && (forall i: nat :: i < |st| && Timer(i) in es && (i == c || Told(es, c, i)) ==>
                  end.value[i].dr == net.routers[c].ip)
  {
    StartIsSane(net, base, c, st);
    RunKeepsSane(net, base, c, st, es);
    hide Knows, Heeds, Claimant, Told;
    var end := HappenAll(st, es).value;
    forall i: nat | i < |end| && Timer(i) in es && (i == c || Told(es, c, i))
      ensures end[i].dr == net.routers[c].ip
    {
      assert Station(net, base, i, end[i]) && Follows(net, c, i, end[i], Claimed(net, c, end));
    }
  }

  // ---------------------------------------------------------------------------
  // Several claimants
  // ---------------------------------------------------------------------------

  ghost predicate AllStations(net: Net, base: Settings, st: seq<Iface>) {
    |st| == |net.routers| && forall i :: 0 <= i < |st| ==> Station(net, base, i, st[i])
  }

  /** A claimant in office outranks every DR that its neighbours declare. */
  lemma OfficeIsKept(net: Net, base: Settings, c: nat, v: Iface)
    requires ProperNet(net) && ConstantHello(net) && Claimant(net, c) && c < |net.routers|
    requires Station(net, base, c, v) && v.dr == v.ip
    ensures CallElection(SelfOf(v), Belief(v), Candidates(v.neighbors)).dr == v.ip
  {
    var cs := Candidates(v.neighbors);
    StationElects(net, base, c, v);
    CallElectionIsVerdict(SelfOf(v), Belief(v), cs);
    ClaimantIsEligible(net, c);
    DrFoldIsMaximum(cs);
    if DrFold(cs).Some? {
      var k, j := CandidateIsRecord(net, base, c, v, DrFold(cs).value);
      assert RanksAbove(net, c, c, j);
    }
  }

  /** A step of router `i`: still a station, and a claimant in office stays there. */
  ghost predicate Moved(net: Net, base: Settings, i: nat, v: Iface, w: Iface)
    requires i < |net.routers|
  {
    Station(net, base, i, w) && (Claimant(net, i) && v.dr == v.ip ==> w.dr == w.ip)
  }

  lemma ElectionMoves(net: Net, base: Settings, i: nat, v: Iface)
    requires ProperNet(net) && ConstantHello(net) && i < |net.routers| && Station(net, base, i, v)
    ensures Elect(v).Some? && Moved(net, base, i, v, Elect(v).value)
  {
    hide Elect, Station, Claimant, CallElection, Candidates;
    StationAfterElection(net, base, i, v);
    if Claimant(net, i) && v.dr == v.ip { OfficeIsKept(net, base, i, v); }
  }

  lemma HelloMoves(net: Net, base: Settings, i: nat, v: Iface, j: nat, from: Iface)
    requires ProperNet(net) && ConstantHello(net) && i < |net.routers| && j < |net.routers| && i != j
    requires Station(net, base, i, v) && Station(net, base, j, from)
    ensures RecvHello(v, HelloOut(from)).Some? && Moved(net, base, i, v, RecvHello(v, HelloOut(from)).value)
  {
    hide Elect, AfterHello, SignalOf, HelloOut, Claimant, RecordOf;
    HelloTaken(net, base, i, v, j, from);
    HelloKeepsStation(net, base, i, v, j, from);
    hide Station;
    ElectionMoves(net, base, i, AfterHello(v, HelloOut(from)));
  }

  lemma HappenMoves(net: Net, base: Settings, st: seq<Iface>, e: Happening)
    requires ProperNet(net) && ConstantHello(net) && AllStations(net, base, st) && Within(|st|, e)
    ensures Happen(st, e).Some?
    ensures var next, i := Happen(st, e).value, e.at;
            && |next| == |st| && next == st[i := next[i]]
            && Moved(net, base, i, st[i], next[i])
  {
    hide RecvHello, HelloOut, Elect, Claimant, Station, ConstantHello, ProperNet;
    var i := e.at;
    if e.HelloFrom? && e.source == i {
      OwnHelloIsIgnored(st, i);
    } else {
      match e {
        case Timer(_) => ElectionMoves(net, base, i, st[i]);
        case HelloFrom(j, _) => HelloMoves(net, base, i, st[i], j, st[j]);
      }
    }
  }

  /** A claimant in office holds it over every run. */
  lemma {:induction false} OfficeOverRuns(net: Net, base: Settings, c: nat, st: seq<Iface>, es: seq<Happening>)
    requires ProperNet(net) && ConstantHello(net) && Claimant(net, c) && AllStations(net, base, st)
    requires forall k :: 0 <= k < |es| ==> Within(|st|, es[k])
    requires c < |st| && st[c].dr == net.routers[c].ip
    ensures HappenAll(st, es).Some?
    ensures var end := HappenAll(st, es).value; AllStations(net, base, end) && end[c].dr == net.routers[c].ip
  {
    hide Happen, Claimant, Station, ConstantHello, ProperNet;
    if es != [] {
      OfficeOverRuns(net, base, c, st, es[..|es| - 1]);
      var mid, e := HappenAll(st, es[..|es| - 1]).value, es[|es| - 1];
      HappenMoves(net, base, mid, e);
      StationAddress(net, base, c, mid[c]);
      StationAddress(net, base, c, Happen(mid, e).value[c]);
    }
  }

  /** A claimant whose timer expires before it hears anyone declare anything takes office. */
  lemma TimerTakesOffice(net: Net, base: Settings, c: nat, st: seq<Iface>)
    requires ProperNet(net) && ConstantHello(net) && Claimant(net, c) && AllStations(net, base, st)
    requires c < |st| && Undecided(st[c])
    ensures var next := Happen(st, Timer(c));
            && next.Some? && AllStations(net, base, next.value) && next.value == st[c := next.value[c]]
            && next.value[c].dr == net.routers[c].ip
  {
    hide Elect, CallElection, Candidates, RecordOf, Claimant;
    var v := st[c];
    assert Station(net, base, c, v) && ProperRouter(net.routers[c]);
    ClaimantIsEligible(net, c);
    forall k | 0 <= k < |v.neighbors|
      ensures v.neighbors[k].ip != 0
    {
      RecordIsReal(net, c, v.neighbors[k]);
    }
    ClaimantElects(net, base, c, v);
    StationAfterElection(net, base, c, v);
    HappenMoves(net, base, st, Timer(c));
  }

  /**
   * Two claimants: once both timers have expired before either hears the other, both hold the role
   * for good, whatever happens afterwards.
   */
  lemma TwoClaimantsSplit(net: Net, base: Settings, c: nat, d: nat, st: seq<Iface>, es: seq<Happening>)
    requires ProperNet(net) && ConstantHello(net) && Claimant(net, c) && Claimant(net, d) && c != d
    requires Start(net, base, st) && forall k :: 0 <= k < |es| ==> Within(|st|, es[k])
    ensures HappenAll(st, [Timer(c), Timer(d)]).Some?
    ensures var end := HappenAll(HappenAll(st, [Timer(c), Timer(d)]).value, es);
            && end.Some? && |end.value| == |st| && c < |st| && d < |st|
            && end.value[c].dr == net.routers[c].ip && end.value[d].dr == net.routers[d].ip
            && net.routers[c].ip != net.routers[d].ip
  {
    hide Happen, Station, ConstantHello;
    ClaimantIndex(net, c);
    ClaimantIndex(net, d);
    assert c < d ==> net.routers[c].ip != net.routers[d].ip;
    hide Claimant, ProperNet;
    TimerTakesOffice(net, base, c, st);
    var mid := Happen(st, Timer(c)).value;
    TimerTakesOffice(net, base, d, mid);
    var both := Happen(mid, Timer(d)).value;
    assert [Timer(c), Timer(d)][..1] == [Timer(c)] && [Timer(c)][..0] == [];
    assert HappenAll(st, []) == Some(st);
    assert HappenAll(st, [Timer(c)]) == Some(mid);
    assert HappenAll(st, [Timer(c), Timer(d)]) == Some(both);
    OfficeOverRuns(net, base, c, both, es);
    OfficeOverRuns(net, base, d, both, es);
  }

  // ---------------------------------------------------------------------------
  // Two routers reach the start
  // ---------------------------------------------------------------------------

  /** An interface of a router that has come up on a broadcast network and heard nobody. */
  function UpIface(r: Router, base: Settings): Iface {
    InterfaceUp(Iface(Broadcast, IfDown, r.ip, r.pri, 0, 0, [], base.(routerId := r.id)))
  }

  /** The record of a silent router in state `s`. */
  function SilentRecord(r: Router, base: Settings, s: NeighborState): Nbr {
    NewNbr(r.ip).(id := r.id, pri := 1, options := base.options, state := s)
  }

  lemma FirstHello(a: Router, b: Router, base: Settings, from: Iface)
    requires a.ip != b.ip && a.ip != 0 && b.ip != 0 && a.id != b.id
    requires from == UpIface(a, base).(neighbors := from.neighbors)
    requires from.neighbors == [] || (|from.neighbors| == 1 && from.neighbors[0].id == b.id && from.neighbors[0].state != Down)
    ensures RecvHello(UpIface(b, base), HelloOut(from)) ==
            Some(UpIface(b, base).(neighbors := [SilentRecord(a, base, if from.neighbors == [] then Init else TwoWay)]))
  {
    if from.neighbors != [] { ListedIds(from.neighbors, 0); }
    var w := WithNeighbor(UpIface(b, base), a.ip);
    assert w.neighbors == [NewNbr(a.ip)];
    assert IndexOf(w.neighbors, a.ip) == 0;
    var h := HelloOut(from);
    assert AcceptsHello(UpIface(b, base), h);
    assert b.id in h.neighbors <==> from.neighbors != [];
    assert AfterHello(UpIface(b, base), h).neighbors == [SilentRecord(a, base, if from.neighbors == [] then Init else TwoWay)];
    assert SignalOf(UpIface(b, base), h) == NoSignal;
  }

  lemma SecondHello(a: Router, b: Router, base: Settings, from: Iface)
    requires a.ip != b.ip && a.ip != 0 && b.ip != 0 && a.id != b.id
    requires from == UpIface(a, base).(neighbors := [SilentRecord(b, base, TwoWay)])
    ensures RecvHello(UpIface(b, base).(neighbors := [SilentRecord(a, base, Init)]), HelloOut(from)) ==
            Some(UpIface(b, base).(neighbors := [SilentRecord(a, base, TwoWay)]))
  {
    ListedIds(from.neighbors, 0);
    var v, h := UpIface(b, base).(neighbors := [SilentRecord(a, base, Init)]), HelloOut(from);
    assert IndexOf(v.neighbors, a.ip) == 0;
    assert AcceptsHello(v, h);
    assert AfterHello(v, h).neighbors == [SilentRecord(a, base, TwoWay)];
    assert SignalOf(v, h) == NoSignal;
  }

  function Pair(a: Router, b: Router): Net {
    Net([a, b], [[1], [0]])
  }

  lemma PairStarts(a: Router, b: Router, base: Settings)
    requires ProperNet(Pair(a, b))
    ensures Start(Pair(a, b), base, [UpIface(a, base).(neighbors := [SilentRecord(b, base, TwoWay)]),
                                     UpIface(b, base).(neighbors := [SilentRecord(a, base, TwoWay)])])
  {
    var net := Pair(a, b);
    assert ProperRouter(net.routers[0]) && ProperRouter(net.routers[1]);
    assert net.routers[0].ip != net.routers[1].ip;
    PairStation(net, 0, 1, base);
    PairStation(net, 1, 0, base);
  }

  lemma PairStation(net: Net, i: nat, j: nat, base: Settings)
    requires |net.routers| == 2 && i < 2 && j == 1 - i
    ensures Station(net, base, i, UpIface(net.routers[i], base).(neighbors := [SilentRecord(net.routers[j], base, TwoWay)]))
  {
    var v := UpIface(net.routers[i], base).(neighbors := [SilentRecord(net.routers[j], base, TwoWay)]);
    assert RecordOf(net.routers[j], v.neighbors[0]);
    assert KnownRecord(net, i, v.neighbors[0]);
    assert IndexOf(v.neighbors, net.routers[j].ip) == 0;
  }

  lemma HelloBetween(st: seq<Iface>, i: nat, j: nat, w: Iface)
    requires i < |st| && j < |st| && RecvHello(st[i], HelloOut(st[j])) == Some(w)
    ensures Happen(st, HelloFrom(j, i)) == Some(st[i := w])
  {
    hide RecvHello, HelloOut;
  }

  /** Two routers that come up reach the start with three Hellos. */
  lemma StartIsReachable(a: Router, b: Router, base: Settings)
    requires ProperNet(Pair(a, b))
    ensures var end := HappenAll([UpIface(a, base), UpIface(b, base)], [HelloFrom(0, 1), HelloFrom(1, 0), HelloFrom(0, 1)]);
            end.Some? && Start(Pair(a, b), base, end.value)
  {
    hide RecvHello, HelloOut, Start, Happen, HappenAll, Station;
    PairStarts(a, b, base);
    PairDiffers(a, b);
    hide ProperNet;
    var x, y := UpIface(a, base), UpIface(b, base);
    var z := y.(neighbors := [SilentRecord(a, base, Init)]);
    var w := x.(neighbors := [SilentRecord(b, base, TwoWay)]);
    FirstHello(a, b, base, x);
    FirstHello(b, a, base, z);
    SecondHello(a, b, base, w);
    assert x.neighbors == [];
    hide UpIface, SilentRecord;
    HelloBetween([x, y], 1, 0, z);
    HelloBetween([x, z], 0, 1, w);
    var v := y.(neighbors := [SilentRecord(a, base, TwoWay)]);
    HelloBetween([w, z], 1, 0, v);
    assert [x, y][1 := z] == [x, z] && [x, z][0 := w] == [w, z] && [w, z][1 := v] == [w, v];
    ThreeEvents([x, y], HelloFrom(0, 1), HelloFrom(1, 0), HelloFrom(0, 1), [x, z], [w, z]);
  }

  lemma PairDiffers(a: Router, b: Router)
    requires ProperNet(Pair(a, b))
    ensures a.ip != b.ip && a.ip != 0 && b.ip != 0 && a.id != b.id
  {
    var net := Pair(a, b);
    assert ProperRouter(net.routers[0]) && ProperRouter(net.routers[1]);
    assert net.routers[0].ip != net.routers[1].ip;
  }

  lemma ThreeEvents(st: seq<Iface>, e: Happening, f: Happening, g: Happening, mid: seq<Iface>, late: seq<Iface>)
    requires Happen(st, e) == Some(mid) && Happen(mid, f) == Some(late)
    ensures HappenAll(st, [e, f, g]) == Happen(late, g)
  {
    hide Happen;
    assert [e, f, g][..2] == [e, f] && [e, f][..1] == [e] && [e][..0] == [];
    assert HappenAll(st, []) == Some(st);
    assert HappenAll(st, [e]) == Some(mid);
    assert HappenAll(st, [e, f]) == Some(late);
  }
}
