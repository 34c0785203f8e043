/**
 * Agreement of n routers on one network that all start with no Designated Router and alternate a
 * Hello exchange with an election, in synchronous rounds (section 9.4 of RFC 2328).
 */
module ColdStart {
  import opened Basics
  import opened Election

  /** A router: its own priority and the priority its Hello packets carry. */
  datatype Router = Router(id: uint32, ip: uint32, pri: uint32, advertised: uint32)

  /** The routers of the network and, for each, the order of its neighbour list. */
  datatype Net = Net(routers: seq<Router>, neighbors: seq<seq<nat>>)

  /** `rtr_pri` of every Hello packet the code sends. */
  const HELLO_PRIORITY: int := 1

  /** At least two routers, all different, each announced as eligible, and every pair mutually 2-way. */
  ghost predicate ProperNet(net: Net) {
    && |net.routers| >= 2
    && |net.neighbors| == |net.routers|
    && (forall i :: 0 <= i < |net.routers| ==> ProperRouter(net.routers[i]))
    && (forall i, j :: 0 <= i < j < |net.routers| ==>
          net.routers[i].id != net.routers[j].id && net.routers[i].ip != net.routers[j].ip)
    && (forall i :: 0 <= i < |net.routers| ==> SeesAllOthers(net.neighbors[i], i, |net.routers|))
  }

  predicate ProperRouter(r: Router) {
    r.ip != 0 && r.advertised != 0
  }

  ghost predicate SeesAllOthers(list: seq<nat>, i: int, n: int) {
    forall j :: j in list <==> 0 <= j < n && j != i
  }

  /** What router `j`'s Hello tells its neighbours when `j` believes `o`. */
  function HelloOf(r: Router, o: Outcome): Candidate {
    Candidate(r.id, r.ip, r.advertised, o.dr, o.bdr)
  }

  function Identity(r: Router): Self {
    Self(r.id, r.ip, r.pri)
  }

  /** The neighbour entries of router `i` after every router has sent its Hello. */
  ghost function Heard(net: Net, st: seq<Outcome>, i: nat): (cs: seq<Candidate>)
    requires ProperNet(net) && |st| == |net.routers| && i < |st|
    ensures |cs| == |net.neighbors[i]|
  {
    seq(|net.neighbors[i]|, k requires 0 <= k < |net.neighbors[i]| =>
      var j := net.neighbors[i][k]; assert j in net.neighbors[i]; HelloOf(net.routers[j], st[j]))
  }

  ghost function ElectIn(net: Net, st: seq<Outcome>, i: nat): Outcome
    requires ProperNet(net) && |st| == |net.routers| && i < |st|
  {
    CallElection(Identity(net.routers[i]), st[i], Heard(net, st, i))
  }

  ghost function Round(net: Net, st: seq<Outcome>): (r: seq<Outcome>)
    requires ProperNet(net) && |st| == |net.routers|
    ensures |r| == |st|
  {
    seq(|st|, i requires 0 <= i < |st| => ElectIn(net, st, i))
  }

  /** The beliefs after `k` rounds from a cold start. */
  ghost function After(net: Net, k: nat): (st: seq<Outcome>)
    requires ProperNet(net)
    ensures |st| == |net.routers|
  {
    if k == 0 then seq(|net.routers|, _ => Outcome(0, 0)) else Round(net, After(net, k - 1))
  }

  // ---------------------------------------------------------------------------
  // Reading neighbour lists
  // ---------------------------------------------------------------------------

  /** Every entry heard comes from some other router. */
  lemma HeardFrom(net: Net, st: seq<Outcome>, i: nat, c: Candidate) returns (j: nat)
    requires ProperNet(net) && |st| == |net.routers| && i < |st|
    requires c in Heard(net, st, i)
    ensures j < |st| && j != i && c == HelloOf(net.routers[j], st[j])
  {
    var k :| 0 <= k < |Heard(net, st, i)| && Heard(net, st, i)[k] == c;
    j := net.neighbors[i][k];
    assert j in net.neighbors[i];
  }

  lemma HeardAll(net: Net, st: seq<Outcome>, i: nat, j: nat)
    requires ProperNet(net) && |st| == |net.routers| && i < |st| && j < |st| && j != i
    ensures HelloOf(net.routers[j], st[j]) in Heard(net, st, i)
  {
    assert j in net.neighbors[i];
    var k :| 0 <= k < |net.neighbors[i]| && net.neighbors[i][k] == j;
    assert Heard(net, st, i)[k] == HelloOf(net.routers[j], st[j]);
  }

  lemma HeardIsProper(net: Net, st: seq<Outcome>, i: nat)
    requires ProperNet(net) && |st| == |net.routers| && i < |st|
    ensures ProperOthers(Identity(net.routers[i]), Heard(net, st, i))
    ensures HasCandidate(Identity(net.routers[i]), Heard(net, st, i))
  {
    HeardAll(net, st, i, if i == 0 then 1 else 0);
    forall c | c in Heard(net, st, i)
      ensures c.ip != net.routers[i].ip && c.ip != 0
    {
      var j := HeardFrom(net, st, i, c);
    }
  }

  /** The backup the neighbours of `i` elect, when `b` is better than all of them but `i`. */
  lemma NeighboursElectBackup(net: Net, st: seq<Outcome>, i: nat, b: nat)
    requires ProperNet(net) && |st| == |net.routers| && i < |st| && b < |st| && b != i
    requires !DeclaresDr(HelloOf(net.routers[b], st[b]))
    requires forall j :: 0 <= j < |st| && j != i && j != b ==>
               DeclaresDr(HelloOf(net.routers[j], st[j]))
               || BetterBdr(HelloOf(net.routers[b], st[b]), HelloOf(net.routers[j], st[j]))
    ensures BdrFold(Heard(net, st, i)) == Some(HelloOf(net.routers[b], st[b]))
  {
    var best := HelloOf(net.routers[b], st[b]);
    HeardAll(net, st, i, b);
    forall c | c in Heard(net, st, i) && !DeclaresDr(c) && c != best
      ensures BetterBdr(best, c)
    {
      var j := HeardFrom(net, st, i, c);
    }
    BdrFoldUnique(Heard(net, st, i), best);
  }

  /** The DR the neighbours of `i` elect, when `d` is the only one that declares itself. */
  lemma NeighboursElectDr(net: Net, st: seq<Outcome>, i: nat, d: nat)
    requires ProperNet(net) && |st| == |net.routers| && i < |st| && d < |st| && d != i
    requires forall j :: 0 <= j < |st| && j != i ==> (DeclaresDr(HelloOf(net.routers[j], st[j])) <==> j == d)
    ensures DrFold(Heard(net, st, i)) == Some(HelloOf(net.routers[d], st[d]))
  {
    HeardAll(net, st, i, d);
    forall c | c in Heard(net, st, i) && DeclaresDr(c)
      ensures c == HelloOf(net.routers[d], st[d])
    {
      var j := HeardFrom(net, st, i, c);
    }
    DrFoldUnique(Heard(net, st, i), HelloOf(net.routers[d], st[d]));
  }

  lemma NeighboursElectNoDr(net: Net, st: seq<Outcome>, i: nat)
    requires ProperNet(net) && |st| == |net.routers| && i < |st|
    requires forall j :: 0 <= j < |st| && j != i ==> !DeclaresDr(HelloOf(net.routers[j], st[j]))
    ensures DrFold(Heard(net, st, i)) == None
  {
    DrFoldIsMaximum(Heard(net, st, i));
    if DrFold(Heard(net, st, i)).Some? {
      var j := HeardFrom(net, st, i, DrFold(Heard(net, st, i)).value);
    }
  }

  // ---------------------------------------------------------------------------
  // Agreement
  // ---------------------------------------------------------------------------

  /** The rank of router `j` as router `i` sees it: its real priority only when `i` is `j`. */
  predicate RanksAbove(net: Net, i: nat, j: nat, k: nat)
    requires i < |net.routers| && j < |net.routers| && k < |net.routers|
  {
    var pj := if i == j then net.routers[j].pri else net.routers[j].advertised;
    var pk := if i == k then net.routers[k].pri else net.routers[k].advertised;
    pj > pk || (pj == pk && net.routers[j].id > net.routers[k].id)
  }

  /** Every router sees `m` as the first and `s`, an eligible one, as the second of all. */
  ghost predicate AllSee(net: Net, m: nat, s: nat) {
    && m < |net.routers| && s < |net.routers| && m != s && net.routers[s].pri != 0
    && (forall i, k :: 0 <= i < |net.routers| && 0 <= k < |net.routers| && k != m ==> RanksAbove(net, i, m, k))
    && (forall i, k :: 0 <= i < |net.routers| && 0 <= k < |net.routers| && k != m && k != s ==> RanksAbove(net, i, s, k))
  }

  /** Everyone believes DR = `m`, and `m` already has `s` as its backup. */
  ghost predicate Settling(net: Net, st: seq<Outcome>, m: nat, s: nat) {
    && |st| == |net.routers| && m < |st| && s < |st|
    && st[m] == Outcome(net.routers[m].ip, net.routers[s].ip)
    && (forall i :: 0 <= i < |st| ==> st[i].dr == net.routers[m].ip)
    && ((forall i :: 0 <= i < |st| && i != m ==> st[i].bdr == net.routers[m].ip)
        || (forall i :: 0 <= i < |st| && i != m ==> st[i].bdr == net.routers[s].ip))
  }

  ghost predicate Settled(net: Net, st: seq<Outcome>, m: nat, s: nat) {
    && |st| == |net.routers| && m < |st| && s < |st|
    && (forall i :: 0 <= i < |st| ==> st[i] == Outcome(net.routers[m].ip, net.routers[s].ip))
  }

  lemma FirstRoundAt(net: Net, st: seq<Outcome>, m: nat, s: nat, i: nat)
    requires ProperNet(net) && AllSee(net, m, s) && st == After(net, 0) && i < |st|
    ensures ElectIn(net, st, i)
         == Outcome(net.routers[m].ip, if i == m then net.routers[s].ip else net.routers[m].ip)
  {
    hide SeesAllOthers, CallElection, Heard;
    var b := if i == m then s else m;
    forall j | 0 <= j < |st| && j != i && j != b
      ensures BetterBdr(HelloOf(net.routers[b], st[b]), HelloOf(net.routers[j], st[j]))
    {
      assert RanksAbove(net, i, b, j);
    }
    NeighboursElectBackup(net, st, i, b);
    NeighboursElectNoDr(net, st, i);
    HeardIsProper(net, st, i);
    CallElectionIsVerdict(Identity(net.routers[i]), st[i], Heard(net, st, i));
    assert RanksAbove(net, i, m, if i == m then s else i);
  }

  lemma LaterRoundAt(net: Net, st: seq<Outcome>, m: nat, s: nat, i: nat)
    requires ProperNet(net) && AllSee(net, m, s) && Settling(net, st, m, s) && i < |st|
    ensures ElectIn(net, st, i) == Outcome(net.routers[m].ip, net.routers[s].ip)
  {
    HeardIsProper(net, st, i);
    CallElectionIsVerdict(Identity(net.routers[i]), st[i], Heard(net, st, i));
    if i == m { NeighboursElectNoDr(net, st, i); } else { NeighboursElectDr(net, st, i, m); }
    assert RanksAbove(net, m, m, s) && ProperRouter(net.routers[s]);
    if i != s {
      assert i != m ==> RanksAbove(net, i, s, i);
      forall j | 0 <= j < |st| && j != i && j != s && j != m
        ensures BetterBdr(HelloOf(net.routers[s], st[s]), HelloOf(net.routers[j], st[j]))
      {
        assert RanksAbove(net, i, s, j);
      }
      NeighboursElectBackup(net, st, i, s);
    } else {
      BdrFoldIsMaximum(Heard(net, st, i));
      var b := BdrFold(Heard(net, st, i));
      if b.Some? {
        var j := HeardFrom(net, st, i, b.value);
        assert RanksAbove(net, i, s, j);
      }
    }
  }

  lemma AllSeeBounds(net: Net, m: nat, s: nat)
    requires AllSee(net, m, s)
    ensures m < |net.routers| && s < |net.routers|
  {
  }

  lemma FirstRoundSettles(net: Net, m: nat, s: nat)
    requires ProperNet(net) && AllSee(net, m, s)
    ensures Settling(net, After(net, 1), m, s)
  {
    hide ElectIn;
    var st := After(net, 1);
    forall i: nat | i < |st|
      ensures st[i] == Outcome(net.routers[m].ip, if i == m then net.routers[s].ip else net.routers[m].ip)
    {
      FirstRoundAt(net, After(net, 0), m, s, i);
    }
  }

  /** After two rounds, and in every later one, all routers hold the same DR and the same backup. */
  lemma {:induction false} AgreementFromCommonView(net: Net, m: nat, s: nat, k: nat)
    requires ProperNet(net) && AllSee(net, m, s) && k >= 2
    ensures Settled(net, After(net, k), m, s)
  {
    hide ElectIn, AllSee, ProperRouter, SeesAllOthers;
    var st := After(net, k - 1);
    assert m < |st| && s < |st| by { AllSeeBounds(net, m, s); }
    if k == 2 {
      FirstRoundSettles(net, m, s);
    } else {
      AgreementFromCommonView(net, m, s, k - 1);
    }
    forall i: nat | i < |st|
      ensures Round(net, st)[i] == Outcome(net.routers[m].ip, net.routers[s].ip)
    {
      LaterRoundAt(net, st, m, s, i);
    }
  }

  /** `m` is the highest and `s` the second highest (priority, id). */
  ghost predicate TopTwo(net: Net, m: nat, s: nat) {
    && m < |net.routers| && s < |net.routers| && m != s
    && (forall k :: 0 <= k < |net.routers| && k != m ==> HigherRank(net.routers[m], net.routers[k]))
    && (forall k :: 0 <= k < |net.routers| && k != m && k != s ==> HigherRank(net.routers[s], net.routers[k]))
  }

  predicate HigherRank(a: Router, b: Router) {
    a.pri > b.pri || (a.pri == b.pri && a.id > b.id)
  }

  /**
   * Cold-start agreement: when Hello packets carry the sender's real priority, the routers agree
   * on the highest and second highest (priority, id).
   */
  lemma ColdStartAgreement(net: Net, m: nat, s: nat, k: nat)
    requires ProperNet(net) && TopTwo(net, m, s) && k >= 2
    requires forall i :: 0 <= i < |net.routers| ==> net.routers[i].advertised == net.routers[i].pri
    ensures Settled(net, After(net, k), m, s)
  {
    forall i, j, l | 0 <= i < |net.routers| && 0 <= j < |net.routers| && 0 <= l < |net.routers|
                     && HigherRank(net.routers[j], net.routers[l])
      ensures RanksAbove(net, i, j, l)
    {
    }
    AgreementFromCommonView(net, m, s, k);
  }

  // ---------------------------------------------------------------------------
  // Hello priorities that differ from the real ones
  // ---------------------------------------------------------------------------

  /** By its own priority, and the announced ones of the others, this router is the best. */
  ghost predicate Claimant(net: Net, c: nat) {
    c < |net.routers| && forall j :: 0 <= j < |net.routers| && j != c ==> RanksAbove(net, c, c, j)
  }

  /** `a` is announced above `b`. */
  predicate Louder(net: Net, a: nat, b: nat)
    requires a < |net.routers| && b < |net.routers|
  {
    net.routers[a].advertised > net.routers[b].advertised
    || (net.routers[a].advertised == net.routers[b].advertised && net.routers[a].id > net.routers[b].id)
  }

  ghost predicate AgreeOnDr(st: seq<Outcome>) {
    forall i, j :: 0 <= i < |st| && 0 <= j < |st| ==> st[i].dr == st[j].dr
  }

  /** Nobody declares itself DR or backup. */
  ghost predicate Unclaimed(net: Net, st: seq<Outcome>) {
    && |st| == |net.routers|
    && forall j :: 0 <= j < |st| ==> st[j].dr != net.routers[j].ip && st[j].bdr != net.routers[j].ip
  }

  lemma ClaimantIsEligible(net: Net, c: nat)
    requires ProperNet(net) && Claimant(net, c)
    ensures net.routers[c].pri != 0
  {
    var j := if c == 0 then 1 else 0;
    assert RanksAbove(net, c, c, j) && ProperRouter(net.routers[j]);
  }

  /** The best of the routers that `i` hears, when nobody declares anything. */
  lemma BestHeard(net: Net, st: seq<Outcome>, i: nat) returns (best: nat)
    requires ProperNet(net) && Unclaimed(net, st) && i < |st|
    ensures best < |st| && best != i
    ensures BdrFold(Heard(net, st, i)) == Some(HelloOf(net.routers[best], st[best]))
    ensures forall j :: 0 <= j < |st| && j != i && j != best ==> Louder(net, best, j)
  {
    var cs := Heard(net, st, i);
    BdrFoldIsMaximum(cs);
    var x := if i == 0 then 1 else 0;
    HeardAll(net, st, i, x);
    best := HeardFrom(net, st, i, BdrFold(cs).value);
    forall j | 0 <= j < |st| && j != i && j != best
      ensures Louder(net, best, j)
    {
      HeardAll(net, st, i, j);
    }
  }

  /** When nobody declares anything, a claimant takes the role and everyone else elects the best it hears. */
  lemma ElectUnclaimed(net: Net, st: seq<Outcome>, i: nat) returns (best: nat)
    requires ProperNet(net) && Unclaimed(net, st) && i < |st|
    ensures best < |st| && best != i
    ensures forall j :: 0 <= j < |st| && j != i && j != best ==> Louder(net, best, j)
    ensures var o := ElectIn(net, st, i);
            if Claimant(net, i) then o.dr == net.routers[i].ip
            else o == Outcome(net.routers[best].ip, net.routers[best].ip)
  {
    best := BestHeard(net, st, i);
    NeighboursElectNoDr(net, st, i);
    HeardIsProper(net, st, i);
    CallElectionIsVerdict(Identity(net.routers[i]), st[i], Heard(net, st, i));
    ClaimantIffBest(net, i, best);
    if Claimant(net, i) {
      ClaimantIsEligible(net, i);
    }
  }

  lemma ClaimantIffBest(net: Net, i: nat, best: nat)
    requires i < |net.routers| && best < |net.routers| && best != i
    requires forall j :: 0 <= j < |net.routers| && j != i && j != best ==> Louder(net, best, j)
    ensures Claimant(net, i) <==> RanksAbove(net, i, i, best)
  {
    if RanksAbove(net, i, i, best) {
      forall j | 0 <= j < |net.routers| && j != i
        ensures RanksAbove(net, i, i, j)
      {
        assert j != best ==> Louder(net, best, j);
      }
    }
  }

  lemma ColdIsUnclaimed(net: Net)
    requires ProperNet(net)
    ensures Unclaimed(net, After(net, 0))
  {
    forall j | 0 <= j < |net.routers|
      ensures net.routers[j].ip != 0
    {
      assert ProperRouter(net.routers[j]);
    }
  }

  /** After the first round exactly the claimants hold the role themselves. */
  lemma FirstClaims(net: Net, i: nat)
    requires ProperNet(net) && i < |net.routers|
    ensures After(net, 1)[i].dr == net.routers[i].ip <==> Claimant(net, i)
  {
    hide ElectIn;
    ColdIsUnclaimed(net);
    var best := ElectUnclaimed(net, After(net, 0), i);
    assert After(net, 1)[i] == ElectIn(net, After(net, 0), i);
  }

  /** One router declares itself DR, and it is eligible: everyone elects it. */
  lemma ElectLed(net: Net, st: seq<Outcome>, c: nat, i: nat)
    requires ProperNet(net) && |st| == |net.routers| && c < |st| && i < |st| && net.routers[c].pri != 0
    requires forall j :: 0 <= j < |st| ==> (st[j].dr == net.routers[j].ip <==> j == c)
    ensures ElectIn(net, st, i).dr == net.routers[c].ip
  {
    HeardIsProper(net, st, i);
    CallElectionIsVerdict(Identity(net.routers[i]), st[i], Heard(net, st, i));
    if i == c { NeighboursElectNoDr(net, st, i); } else { NeighboursElectDr(net, st, i, c); }
  }

  /** A sole claimant is everyone's DR from the second round on. */
  lemma {:induction false} SoleClaimantLeads(net: Net, c: nat, k: nat)
    requires ProperNet(net) && Claimant(net, c) && k >= 2
    requires forall d :: Claimant(net, d) ==> d == c
    ensures forall i :: 0 <= i < |net.routers| ==> After(net, k)[i].dr == net.routers[c].ip
  {
    hide ElectIn, Claimant;
    ClaimantIndex(net, c);
    var st := After(net, k - 1);
    if k > 2 {
      SoleClaimantLeads(net, c, k - 1);
    }
    forall j | 0 <= j < |st|
      ensures st[j].dr == net.routers[j].ip <==> j == c
    {
      if k == 2 { FirstClaims(net, j); }
    }
    ClaimantIsEligible(net, c);
    forall i: nat | i < |st|
      ensures Round(net, st)[i].dr == net.routers[c].ip
    {
      ElectLed(net, st, c, i);
    }
  }

  lemma ClaimantIndex(net: Net, c: nat)
    requires Claimant(net, c)
    ensures c < |net.routers|
  {
  }

  /** Without a claimant nobody ever holds a role itself. */
  lemma {:induction false} NobodyEverClaims(net: Net, k: nat)
    requires ProperNet(net) && forall d :: !Claimant(net, d)
    ensures Unclaimed(net, After(net, k))
  {
    hide ElectIn, Claimant;
    if k == 0 {
      ColdIsUnclaimed(net);
    } else {
      NobodyEverClaims(net, k - 1);
      var st := After(net, k - 1);
      forall i: nat | i < |st|
        ensures Round(net, st)[i].dr != net.routers[i].ip && Round(net, st)[i].bdr != net.routers[i].ip
      {
        var best := ElectUnclaimed(net, st, i);
      }
    }
  }

  lemma {:induction false} Loudest(net: Net, n: nat) returns (t: nat)
    requires ProperNet(net) && 1 <= n <= |net.routers|
    ensures t < n && forall j :: 0 <= j < n && j != t ==> Louder(net, t, j)
  {
    if n == 1 {
      t := 0;
    } else {
      var u := Loudest(net, n - 1);
      t := if Louder(net, n - 1, u) then n - 1 else u;
      forall j | 0 <= j < n && j != t
        ensures Louder(net, t, j)
      {
        assert j < n - 1 && j != u ==> Louder(net, u, j);
        assert net.routers[u].id != net.routers[n - 1].id;
      }
    }
  }

  /** Without a claimant all others hold the router announced highest, and that one holds another. */
  lemma UnclaimedRound(net: Net, t: nat, k: nat)
    requires ProperNet(net) && (forall d :: !Claimant(net, d)) && k >= 1
    requires t < |net.routers| && forall j :: 0 <= j < |net.routers| && j != t ==> Louder(net, t, j)
    ensures forall i :: 0 <= i < |net.routers| && i != t ==> After(net, k)[i].dr == net.routers[t].ip
    ensures After(net, k)[t].dr != net.routers[t].ip
  {
    hide ElectIn, Claimant;
    NobodyEverClaims(net, k - 1);
    NobodyEverClaims(net, k);
    var st := After(net, k - 1);
    forall i: nat | i < |st| && i != t
      ensures Round(net, st)[i].dr == net.routers[t].ip
    {
      var best := ElectUnclaimed(net, st, i);
      assert best != t ==> Louder(net, best, t) && Louder(net, t, best);
    }
  }

  lemma NoClaimantSplits(net: Net, k: nat)
    requires ProperNet(net) && (forall d :: !Claimant(net, d)) && k >= 1
    ensures !AgreeOnDr(After(net, k))
  {
    hide Claimant;
    var t := Loudest(net, |net.routers|);
    UnclaimedRound(net, t, k);
    var i := if t == 0 then 1 else 0;
    assert After(net, k)[i].dr != After(net, k)[t].dr;
  }

  /** Nobody has declared anything yet, or router `i` already claims to be DR. */
  ghost predicate MayClaim(net: Net, st: seq<Outcome>, i: nat)
    requires ProperNet(net) && |st| == |net.routers| && i < |st|
  {
    st[i].dr == net.routers[i].ip || Unclaimed(net, st)
  }

  /** A DR that a neighbour declares ranks below `i` when every neighbour does. */
  lemma HeardDrRanksBelow(net: Net, st: seq<Outcome>, i: nat)
    requires ProperNet(net) && |st| == |net.routers| && Claimant(net, i)
    ensures var d := DrFold(Heard(net, st, i)); d.Some? ==> Outranks(Own(Identity(net.routers[i]), st[i]), d.value)
  {
    DrFoldIsMaximum(Heard(net, st, i));
    if DrFold(Heard(net, st, i)).Some? {
      var j := HeardFrom(net, st, i, DrFold(Heard(net, st, i)).value);
      assert RanksAbove(net, i, i, j);
    }
  }

  lemma ClaimStep(net: Net, st: seq<Outcome>, i: nat)
    requires ProperNet(net) && |st| == |net.routers| && Claimant(net, i) && MayClaim(net, st, i)
    ensures ElectIn(net, st, i).dr == net.routers[i].ip
  {
    if st[i].dr == net.routers[i].ip {
      HeardIsProper(net, st, i);
      CallElectionIsVerdict(Identity(net.routers[i]), st[i], Heard(net, st, i));
      HeardDrRanksBelow(net, st, i);
      ClaimantIsEligible(net, i);
    } else {
      var best := ElectUnclaimed(net, st, i);
    }
  }

  /** A claimant takes the role in the first round and never gives it up. */
  lemma {:induction false} ClaimsDrForever(net: Net, i: nat, k: nat)
    requires ProperNet(net) && Claimant(net, i) && k >= 1
    ensures After(net, k)[i].dr == net.routers[i].ip
  {
    hide ElectIn;
    if k > 1 {
      ClaimsDrForever(net, i, k - 1);
    } else {
      ColdIsUnclaimed(net);
    }
    ClaimStep(net, After(net, k - 1), i);
  }

  /** Two claimants both hold the role in every round. */
  lemma SplitIsPermanent(net: Net, c: nat, d: nat, k: nat)
    requires ProperNet(net) && Claimant(net, c) && Claimant(net, d) && c != d && k >= 1
    ensures After(net, k)[c].dr == net.routers[c].ip && After(net, k)[d].dr == net.routers[d].ip
    ensures !AgreeOnDr(After(net, k))
  {
    hide ElectIn;
    ClaimsDrForever(net, c, k);
    ClaimsDrForever(net, d, k);
    assert After(net, k)[c].dr != After(net, k)[d].dr;
  }

  ghost predicate OneClaimant(net: Net) {
    exists c :: Claimant(net, c) && forall d :: Claimant(net, d) ==> d == c
  }

  lemma OneClaimantAgrees(net: Net, k: nat)
    requires ProperNet(net) && OneClaimant(net) && k >= 2
    ensures AgreeOnDr(After(net, k))
  {
    hide Claimant, After;
    var c :| Claimant(net, c) && forall d :: Claimant(net, d) ==> d == c;
    SoleClaimantLeads(net, c, k);
  }

  lemma OthersSplit(net: Net, k: nat)
    requires ProperNet(net) && !OneClaimant(net) && k >= 1
    ensures !AgreeOnDr(After(net, k))
  {
    hide Claimant, After, AgreeOnDr;
    if exists c :: Claimant(net, c) {
      var c :| Claimant(net, c);
      var d :| Claimant(net, d) && d != c;
      SplitIsPermanent(net, c, d, k);
    } else {
      NoClaimantSplits(net, k);
    }
  }

  /**
   * Whatever priorities the routers have, 0 included, and whatever nonzero ones they announce: all
   * agree on their DR from the second round on if and only if exactly one of them outranks all
   * others by its own priority against their announced ones. Otherwise they disagree in every round.
   */
  lemma AgreementIffOneClaimant(net: Net)
    requires ProperNet(net)
    ensures (forall k: nat :: k >= 2 ==> AgreeOnDr(After(net, k))) <==> OneClaimant(net)
    ensures !OneClaimant(net) ==> forall k: nat :: k >= 1 ==> !AgreeOnDr(After(net, k))
  {
    hide OneClaimant, After, AgreeOnDr, ProperNet;
    if OneClaimant(net) {
      forall k: nat | k >= 2
        ensures AgreeOnDr(After(net, k))
      {
        OneClaimantAgrees(net, k);
      }
    } else {
      forall k: nat | k >= 1
        ensures !AgreeOnDr(After(net, k))
      {
        OthersSplit(net, k);
      }
      assert !AgreeOnDr(After(net, 2));
    }
  }

  // ---------------------------------------------------------------------------
  // The constant Hello priority
  // ---------------------------------------------------------------------------

  ghost predicate HighestId(net: Net, m: nat) {
    m < |net.routers| && forall k :: 0 <= k < |net.routers| && k != m ==> net.routers[m].id > net.routers[k].id
  }

  ghost predicate ConstantHello(net: Net) {
    forall i :: 0 <= i < |net.routers| ==> net.routers[i].advertised == HELLO_PRIORITY
  }

  /** Claimants are the highest id, if eligible, and every router of priority 2 or more. */
  lemma ConstantClaimants(net: Net, m: nat, c: nat)
    requires ProperNet(net) && HighestId(net, m) && ConstantHello(net) && c < |net.routers|
    ensures Claimant(net, c) <==> net.routers[c].pri > 1 || (c == m && net.routers[c].pri == 1)
  {
    var other := if c != m then m else if m == 0 then 1 else 0;
    if Claimant(net, c) {
      assert RanksAbove(net, c, c, other);
    }
  }

  /** All others are at most 1, and the highest id is eligible; or it is not, and one other exceeds 1. */
  ghost predicate OneStandsOut(net: Net, m: nat) {
    m < |net.routers|
    && if net.routers[m].pri != 0 then forall i :: 0 <= i < |net.routers| && i != m ==> net.routers[i].pri <= 1
       else exists c :: 0 <= c < |net.routers| && net.routers[c].pri > 1
                        && forall i :: 0 <= i < |net.routers| && i != c ==> net.routers[i].pri <= 1
  }

  lemma OneClaimantIffOneStandsOut(net: Net, m: nat)
    requires ProperNet(net) && HighestId(net, m) && ConstantHello(net)
    ensures OneClaimant(net) <==> OneStandsOut(net, m)
  {
    hide Claimant;
    forall c: nat
      ensures Claimant(net, c) <==> c < |net.routers| && (net.routers[c].pri > 1 || (c == m && net.routers[c].pri == 1))
    {
      if c < |net.routers| { ConstantClaimants(net, m, c); } else { NotAClaimant(net, c); }
    }
    if OneStandsOut(net, m) {
      if net.routers[m].pri != 0 {
        assert Claimant(net, m);
      } else {
        var c :| 0 <= c < |net.routers| && net.routers[c].pri > 1
                 && forall i :: 0 <= i < |net.routers| && i != c ==> net.routers[i].pri <= 1;
        assert Claimant(net, c);
      }
    }
  }

  lemma NotAClaimant(net: Net, c: nat)
    requires c >= |net.routers|
    ensures !Claimant(net, c)
  {
  }

  /**
   * The code sends Hello priority 1 for every router. Such a network agrees on its DR, from the
   * second round on and for ever, if and only if either the router with the highest id is eligible
   * and all others have priority 0 or 1, or it has priority 0 and exactly one router has more than 1.
   */
  lemma ConstantHelloPriorityAgreesIff(net: Net, m: nat)
    requires ProperNet(net) && HighestId(net, m) && ConstantHello(net)
    ensures (forall k: nat :: k >= 2 ==> AgreeOnDr(After(net, k))) <==> OneStandsOut(net, m)
  {
    hide OneClaimant, OneStandsOut, After, AgreeOnDr;
    AgreementIffOneClaimant(net);
    OneClaimantIffOneStandsOut(net, m);
  }

  /**
   * The worst case: the highest id has priority 0 and nobody more than 1. In every round all others
   * hold the ineligible router as DR, and it holds one of them.
   */
  lemma IneligibleRouterIsElected(net: Net, m: nat, k: nat)
    requires ProperNet(net) && HighestId(net, m) && ConstantHello(net) && k >= 1
    requires net.routers[m].pri == 0 && forall i :: 0 <= i < |net.routers| ==> net.routers[i].pri <= 1
    ensures forall i :: 0 <= i < |net.routers| && i != m ==> After(net, k)[i].dr == net.routers[m].ip
    ensures After(net, k)[m].dr != net.routers[m].ip
    ensures !AgreeOnDr(After(net, k))
  {
    hide Claimant;
    forall c: nat
      ensures !Claimant(net, c)
    {
      if c < |net.routers| { ConstantClaimants(net, m, c); } else { NotAClaimant(net, c); }
    }
    UnclaimedRound(net, m, k);
    NoClaimantSplits(net, k);
  }
}
