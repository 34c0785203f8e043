/**
 * Election of the Designated Router and its backup: section 9.4 of RFC 2328 as implemented by
 * `election_for_dr_and_ndr` and `Interface::call_election` (src/interface.cpp).
 */
module Election {
  import opened Basics

  /** A router on the candidate list: what it is and whom it declares. */
  datatype Candidate = Candidate(id: uint32, ip: uint32, pri: uint32, dr: uint32, bdr: uint32)

  predicate DeclaresDr(c: Candidate) {
    c.dr == c.ip
  }

  predicate DeclaresBdr(c: Candidate) {
    c.bdr == c.ip
  }

  /** Higher priority, then higher router id. */
  predicate Outranks(a: Candidate, b: Candidate) {
    a.pri > b.pri || (a.pri == b.pri && a.id > b.id)
  }

  /** The order of the backup election: declared backups first, then rank. */
  predicate BetterBdr(a: Candidate, b: Candidate) {
    if DeclaresBdr(a) == DeclaresBdr(b) then Outranks(a, b) else DeclaresBdr(a)
  }

  // ---------------------------------------------------------------------------
  // The two folds
  // ---------------------------------------------------------------------------

  /** One step of the backup fold, branch by branch. */
  function BdrStep(best: Option<Candidate>, c: Candidate): Option<Candidate> {
    if DeclaresDr(c) then best
    else if best.None? then Some(c)
    else if DeclaresBdr(best.value) then
      if DeclaresBdr(c) && Outranks(c, best.value) then Some(c) else best
    else
      if DeclaresBdr(c) || Outranks(c, best.value) then Some(c) else best
  }

  function BdrFold(cs: seq<Candidate>): Option<Candidate> {
    if cs == [] then None else BdrStep(BdrFold(cs[..|cs| - 1]), cs[|cs| - 1])
  }

  function DrStep(best: Option<Candidate>, c: Candidate): Option<Candidate> {
    if !DeclaresDr(c) then best
    else if best.None? || Outranks(c, best.value) then Some(c)
    else best
  }

  function DrFold(cs: seq<Candidate>): Option<Candidate> {
    if cs == [] then None else DrStep(DrFold(cs[..|cs| - 1]), cs[|cs| - 1])
  }

  /** The backup fold returns an undominated candidate among those that do not declare DR. */
  lemma {:induction false} BdrFoldIsMaximum(cs: seq<Candidate>)
    ensures match BdrFold(cs)
            case None => forall c :: c in cs ==> DeclaresDr(c)
            case Some(b) => b in cs && !DeclaresDr(b)
                            && forall c :: c in cs && !DeclaresDr(c) ==> !BetterBdr(c, b)
  {
    if cs != [] {
      BdrFoldIsMaximum(cs[..|cs| - 1]);
      assert cs == cs[..|cs| - 1] + [cs[|cs| - 1]];
    }
  }

  /** The DR fold returns an undominated candidate among those that declare DR. */
  lemma {:induction false} DrFoldIsMaximum(cs: seq<Candidate>)
    ensures match DrFold(cs)
            case None => forall c :: c in cs ==> !DeclaresDr(c)
            case Some(d) => d in cs && DeclaresDr(d)
                            && forall c :: c in cs && DeclaresDr(c) ==> !Outranks(c, d)
  {
    if cs != [] {
      DrFoldIsMaximum(cs[..|cs| - 1]);
      assert cs == cs[..|cs| - 1] + [cs[|cs| - 1]];
    }
  }

  /**
   * The winners field by field. Backup: of those whose Hello does not name their own address as DR, one
   * that names its own as backup if any does, and among equals the highest priority, then id. DR: of
   * those that name their own address as DR, the highest priority, then id.
   */
  lemma WinnersByRank(cs: seq<Candidate>)
    ensures BdrFold(cs).Some? <==> exists c :: c in cs && c.dr != c.ip
    ensures BdrFold(cs).Some? ==>
              var b := BdrFold(cs).value;
              && b in cs && b.dr != b.ip
              && forall c :: c in cs && c.dr != c.ip ==>
                   && (c.bdr == c.ip ==> b.bdr == b.ip)
                   && ((c.bdr == c.ip <==> b.bdr == b.ip) ==> c.pri < b.pri || (c.pri == b.pri && c.id <= b.id))
    ensures DrFold(cs).Some? <==> exists c :: c in cs && c.dr == c.ip
    ensures DrFold(cs).Some? ==>
              var d := DrFold(cs).value;
              && d in cs && d.dr == d.ip
              && forall c :: c in cs && c.dr == c.ip ==> c.pri < d.pri || (c.pri == d.pri && c.id <= d.id)
  {
    BdrFoldIsMaximum(cs);
    DrFoldIsMaximum(cs);
  }

  lemma BdrFoldUnique(cs: seq<Candidate>, b: Candidate)
    requires b in cs && !DeclaresDr(b)
    requires forall c :: c in cs && !DeclaresDr(c) && c != b ==> BetterBdr(b, c)
    ensures BdrFold(cs) == Some(b)
  {
    BdrFoldIsMaximum(cs);
  }

  lemma DrFoldUnique(cs: seq<Candidate>, d: Candidate)
    requires d in cs && DeclaresDr(d)
    requires forall c :: c in cs && DeclaresDr(c) && c != d ==> Outranks(d, c)
    ensures DrFold(cs) == Some(d)
  {
    DrFoldIsMaximum(cs);
  }

  /** No two entries of the list share both priority and id. */
  ghost predicate DistinctRanks(cs: seq<Candidate>) {
    forall a, b :: a in cs && b in cs && a != b ==> a.pri != b.pri || a.id != b.id
  }

  /** Neither fold depends on the order of the list. */
  lemma FoldsIgnoreOrder(cs: seq<Candidate>, ds: seq<Candidate>)
    requires forall c :: c in cs <==> c in ds
    requires DistinctRanks(cs)
    ensures BdrFold(cs) == BdrFold(ds)
    ensures DrFold(cs) == DrFold(ds)
  {
    BdrFoldIsMaximum(cs);
    BdrFoldIsMaximum(ds);
    DrFoldIsMaximum(cs);
    DrFoldIsMaximum(ds);
  }

  lemma FoldsWithTail(cs: seq<Candidate>, c: Candidate)
    ensures BdrFold(cs + [c]) == BdrStep(BdrFold(cs), c)
    ensures DrFold(cs + [c]) == DrStep(DrFold(cs), c)
  {
    assert (cs + [c])[..|cs|] == cs;
  }

  // ---------------------------------------------------------------------------
  // One pass
  // ---------------------------------------------------------------------------

  /** The fixed part of this router's own entry. */
  datatype Self = Self(id: uint32, ip: uint32, pri: uint32)

  /** The interface's current belief. */
  datatype Outcome = Outcome(dr: uint32, bdr: uint32)

  function Own(me: Self, o: Outcome): Candidate {
    Candidate(me.id, me.ip, me.pri, o.dr, o.bdr)
  }

  function BdrCandidates(me: Self, o: Outcome, others: seq<Candidate>, noBdr: bool): seq<Candidate> {
    if !noBdr && me.pri != 0 then [Own(me, o)] + others else others
  }

  function DrCandidates(me: Self, o: Outcome, others: seq<Candidate>, noBdr: bool): seq<Candidate> {
    BdrCandidates(me, o, others, noBdr) + (if noBdr && me.pri != 0 then [Own(me, o)] else [])
  }

  function ElectedBdr(me: Self, o: Outcome, others: seq<Candidate>, noBdr: bool): Option<Candidate> {
    BdrFold(BdrCandidates(me, o, others, noBdr))
  }

  /** The DR fold, or the backup when nobody declares DR. `None` is the null pointer. */
  function ElectedDr(me: Self, o: Outcome, others: seq<Candidate>, noBdr: bool): Option<Candidate> {
    var d := DrFold(DrCandidates(me, o, others, noBdr));
    if d.Some? then d else ElectedBdr(me, o, others, noBdr)
  }

  predicate HasCandidate(me: Self, others: seq<Candidate>) {
    me.pri != 0 || others != []
  }

  /** The dereference `dr->ip` is safe in a first pass exactly when some candidate exists. */
  lemma FirstPassFindsDrIff(me: Self, o: Outcome, others: seq<Candidate>)
    ensures ElectedDr(me, o, others, false).Some? <==> HasCandidate(me, others)
  {
    var cs := BdrCandidates(me, o, others, false);
    assert DrCandidates(me, o, others, false) == cs;
    BdrFoldIsMaximum(cs);
    DrFoldIsMaximum(cs);
    if cs != [] {
      assert cs[0] in cs;
    }
  }

  method SelectBdr(cs: seq<Candidate>) returns (bdr: Option<Candidate>)
    ensures bdr == BdrFold(cs)
  {
    bdr := None;
    for i := 0 to |cs|
      invariant bdr == BdrFold(cs[..i])
    {
      assert cs[..i + 1][..i] == cs[..i];
      var c := cs[i];
      if c.dr != c.ip {
        if bdr == None {
          bdr := Some(c);
        } else if bdr.value.bdr == bdr.value.ip {
          if c.bdr == c.ip && (c.pri > bdr.value.pri || (c.pri == bdr.value.pri && c.id > bdr.value.id)) {
            bdr := Some(c);
          }
        } else {
          if c.bdr == c.ip || c.pri > bdr.value.pri || (c.pri == bdr.value.pri && c.id > bdr.value.id) {
            bdr := Some(c);
          }
        }
      }
    }
    assert cs[..|cs|] == cs;
  }

  method SelectDr(cs: seq<Candidate>) returns (dr: Option<Candidate>)
    ensures dr == DrFold(cs)
  {
    dr := None;
    for i := 0 to |cs|
      invariant dr == DrFold(cs[..i])
    {
      assert cs[..i + 1][..i] == cs[..i];
      var c := cs[i];
      if c.dr != c.ip {
        continue;
      }
      if dr == None {
        dr := Some(c);
      } else if c.pri > dr.value.pri || (c.pri == dr.value.pri && c.id > dr.value.id) {
        dr := Some(c);
      }
    }
    assert cs[..|cs|] == cs;
  }

  method ElectionForDrAndBdr(me: Self, o: Outcome, others: seq<Candidate>, noBdr: bool)
    returns (dr: Option<Candidate>, bdr: Option<Candidate>)
    ensures dr == ElectedDr(me, o, others, noBdr)
    ensures bdr == ElectedBdr(me, o, others, noBdr)
  {
    var candidates := [];
    if noBdr == false && me.pri != 0 {
      candidates := candidates + [Own(me, o)];
    }
    candidates := candidates + others;
    assert candidates == BdrCandidates(me, o, others, noBdr);
    bdr := SelectBdr(candidates);
    if noBdr == true && me.pri != 0 {
      candidates := candidates + [Own(me, o)];
    }
    assert candidates == DrCandidates(me, o, others, noBdr);
    dr := SelectDr(candidates);
    if dr == None {
      dr := bdr;
    }
  }

  // ---------------------------------------------------------------------------
  // The repeated election
  // ---------------------------------------------------------------------------

  function IpOf(c: Option<Candidate>): uint32 {
    if c.Some? then c.value.ip else 0
  }

  function Pass(me: Self, o: Outcome, others: seq<Candidate>, noBdr: bool): Outcome {
    Outcome(IpOf(ElectedDr(me, o, others, noBdr)), IpOf(ElectedBdr(me, o, others, noBdr)))
  }

  /** This router has just become DR, or has just become backup. */
  predicate NewlyDr(me: Self, before: Outcome, after: Outcome) {
    me.ip == after.dr && me.ip != before.dr
  }

  predicate NewlyBdr(me: Self, before: Outcome, after: Outcome) {
    me.ip == after.bdr && me.ip != before.bdr
  }

  /** The belief after `call_election`: one pass, and a second when the first promotes this router. */
  function CallElection(me: Self, o: Outcome, others: seq<Candidate>): Outcome {
    var first := Pass(me, o, others, false);
    if NewlyDr(me, o, first) then Pass(me, first, others, true)
    else if NewlyBdr(me, o, first) then Pass(me, first, others, false)
    else first
  }

  /** What the receive path guarantees about neighbours: addresses are real and not ours. */
  ghost predicate ProperOthers(me: Self, others: seq<Candidate>) {
    me.ip != 0 && forall c :: c in others ==> c.ip != me.ip && c.ip != 0
  }

  /**
   * The election as one case split over the neighbours' own winners: the reference definition.
   * `b` and `d` are the backup and DR the neighbours would elect without this router.
   */
  function Verdict(me: Self, o: Outcome, b: Option<Candidate>, d: Option<Candidate>): Outcome {
    var own := Own(me, o);
    var winsBackup := b.None? || !BetterBdr(b.value, own);
    if me.pri == 0 then Outcome(if d.Some? then d.value.ip else IpOf(b), IpOf(b))
    else if o.dr == me.ip then
      Outcome(if d.Some? && Outranks(d.value, own) then d.value.ip else me.ip, IpOf(b))
    else if d.Some? then Outcome(d.value.ip, if winsBackup then me.ip else b.value.ip)
    else if winsBackup then Outcome(me.ip, IpOf(b))
    else Outcome(b.value.ip, b.value.ip)
  }

  /** The head of the list keeps its place unless the rest of the list has someone better. */
  lemma {:induction false} FoldsWithHead(c: Candidate, cs: seq<Candidate>)
    ensures BdrFold([c] + cs)
         == if DeclaresDr(c) || (BdrFold(cs).Some? && BetterBdr(BdrFold(cs).value, c)) then BdrFold(cs) else Some(c)
    ensures DrFold([c] + cs)
         == if !DeclaresDr(c) || (DrFold(cs).Some? && Outranks(DrFold(cs).value, c)) then DrFold(cs) else Some(c)
  {
    if cs == [] {
      assert [c] + cs == [] + [c];
      FoldsWithTail([], c);
    } else {
      var front, l := cs[..|cs| - 1], cs[|cs| - 1];
      assert [c] + cs == ([c] + front) + [l] && cs == front + [l];
      FoldsWithHead(c, front);
      FoldsWithTail([c] + front, l);
    }
  }

  /** The two passes, seen from the neighbours' winners. */
  lemma PassesFromWinners(me: Self, o: Outcome, others: seq<Candidate>)
    requires me.pri != 0
    ensures ElectedBdr(me, o, others, false) == BdrFold([Own(me, o)] + others)
    ensures DrCandidates(me, o, others, false) == [Own(me, o)] + others
    ensures ElectedBdr(me, o, others, true) == BdrFold(others)
    ensures DrFold(DrCandidates(me, o, others, true)) == DrStep(DrFold(others), Own(me, o))
  {
    FoldsWithTail(others, Own(me, o));
  }

  /** What the winners among the neighbours look like. */
  lemma WinnersAreNeighbours(me: Self, others: seq<Candidate>)
    requires ProperOthers(me, others)
    ensures BdrFold(others).Some? ==> BdrFold(others).value.ip != me.ip && BdrFold(others).value.ip != 0
    ensures DrFold(others).Some? ==> DrFold(others).value.ip != me.ip && DrFold(others).value.ip != 0
    ensures others != [] ==> BdrFold(others).Some? || DrFold(others).Some?
  {
    BdrFoldIsMaximum(others);
    DrFoldIsMaximum(others);
    if others != [] {
      assert others[0] in others;
    }
  }

  /** After promotion to DR the second pass elects us again and a neighbour (or nobody) as backup. */
  lemma PassAfterDrPromotion(me: Self, o: Outcome, others: seq<Candidate>)
    requires ProperOthers(me, others) && HasCandidate(me, others)
    requires NewlyDr(me, o, Pass(me, o, others, false))
    ensures var f := Pass(me, o, others, false);
            && ElectedDr(me, f, others, true) == Some(Own(me, f))
            && !NewlyDr(me, f, Pass(me, f, others, true)) && !NewlyBdr(me, f, Pass(me, f, others, true))
            && Pass(me, f, others, true) == Verdict(me, o, BdrFold(others), DrFold(others))
  {
    WinnersAreNeighbours(me, others);
    PassOfNonVoter(me, o, others);
    var f := Pass(me, o, others, false);
    PassesFromWinners(me, o, others);
    PassesFromWinners(me, f, others);
    FoldsWithHead(Own(me, o), others);
  }

  /** A router of priority 0 is in neither list, so its own address cannot be elected. */
  lemma PassOfNonVoter(me: Self, o: Outcome, others: seq<Candidate>)
    requires ProperOthers(me, others) && HasCandidate(me, others)
    ensures me.pri == 0 ==> var f := Pass(me, o, others, false);
                            f == Verdict(me, o, BdrFold(others), DrFold(others)) && f.dr != me.ip && f.bdr != me.ip
  {
    WinnersAreNeighbours(me, others);
    if me.pri == 0 {
      assert DrCandidates(me, o, others, false) == others;
    }
  }

  /** After promotion to backup the second pass repeats the first. */
  lemma PassAfterBdrPromotion(me: Self, o: Outcome, others: seq<Candidate>)
    requires ProperOthers(me, others) && HasCandidate(me, others)
    requires !NewlyDr(me, o, Pass(me, o, others, false)) && NewlyBdr(me, o, Pass(me, o, others, false))
    ensures var f := Pass(me, o, others, false);
            && ElectedDr(me, f, others, false).Some?
            && !NewlyDr(me, f, Pass(me, f, others, false)) && !NewlyBdr(me, f, Pass(me, f, others, false))
            && Pass(me, f, others, false) == Verdict(me, o, BdrFold(others), DrFold(others))
  {
    WinnersAreNeighbours(me, others);
    PassOfNonVoter(me, o, others);
    var f := Pass(me, o, others, false);
    PassesFromWinners(me, o, others);
    PassesFromWinners(me, f, others);
    FoldsWithHead(Own(me, o), others);
    FoldsWithHead(Own(me, f), others);
  }

  /** `call_election` is the verdict over the neighbours' winners. */
  lemma CallElectionIsVerdict(me: Self, o: Outcome, others: seq<Candidate>)
    requires ProperOthers(me, others) && HasCandidate(me, others)
    ensures CallElection(me, o, others) == Verdict(me, o, BdrFold(others), DrFold(others))
  {
    var f := Pass(me, o, others, false);
    if NewlyDr(me, o, f) {
      PassAfterDrPromotion(me, o, others);
    } else if NewlyBdr(me, o, f) {
      PassAfterBdrPromotion(me, o, others);
    } else {
      WinnersAreNeighbours(me, others);
      PassOfNonVoter(me, o, others);
      if me.pri != 0 {
        PassesFromWinners(me, o, others);
        FoldsWithHead(Own(me, o), others);
      }
    }
  }

  /** This router never ends as both DR and backup, and the DR is always a real address. */
  lemma NeverBothRoles(me: Self, o: Outcome, others: seq<Candidate>)
    requires ProperOthers(me, others) && HasCandidate(me, others)
    ensures CallElection(me, o, others).dr != 0
    ensures !(CallElection(me, o, others).dr == me.ip && CallElection(me, o, others).bdr == me.ip)
  {
    CallElectionIsVerdict(me, o, others);
    WinnersAreNeighbours(me, others);
  }

  // ---------------------------------------------------------------------------
  // Fixed points
  // ---------------------------------------------------------------------------

  /**
   * The one situation in which a second election, with the neighbours unchanged, differs from the
   * first: a neighbour that declares itself DR takes the role from this router, which had sat out
   * the backup election and would now win it.
   */
  ghost predicate LosesDrButWinsBackup(me: Self, o: Outcome, others: seq<Candidate>) {
    && me.pri != 0
    && o.dr == me.ip
    && (exists c :: c in others && DeclaresDr(c) && Outranks(c, Own(me, o)))
    && (forall c :: c in others && !DeclaresDr(c) ==> !DeclaresBdr(c) && !Outranks(c, Own(me, o)))
  }

  lemma LossFromWinners(me: Self, o: Outcome, others: seq<Candidate>)
    ensures LosesDrButWinsBackup(me, o, others)
            <==> (&& me.pri != 0 && o.dr == me.ip
                  && DrFold(others).Some? && Outranks(DrFold(others).value, Own(me, o))
                  && (BdrFold(others).Some? ==> !DeclaresBdr(BdrFold(others).value)
                                                && !Outranks(BdrFold(others).value, Own(me, o))))
  {
    BdrFoldIsMaximum(others);
    DrFoldIsMaximum(others);
  }

  /** Re-running the election changes nothing exactly outside that situation. */
  lemma RerunIsStableIff(me: Self, o: Outcome, others: seq<Candidate>)
    requires ProperOthers(me, others) && HasCandidate(me, others)
    ensures CallElection(me, CallElection(me, o, others), others) == CallElection(me, o, others)
            <==> !LosesDrButWinsBackup(me, o, others)
  {
    hide CallElection, LosesDrButWinsBackup, Verdict;
    CallElectionIsVerdict(me, o, others);
    CallElectionIsVerdict(me, CallElection(me, o, others), others);
    WinnersAreNeighbours(me, others);
    LossFromWinners(me, o, others);
    VerdictIsStableIff(me, o, BdrFold(others), DrFold(others));
  }

  /** The same for the case split over the winners. */
  lemma VerdictIsStableIff(me: Self, o: Outcome, b: Option<Candidate>, d: Option<Candidate>)
    requires me.ip != 0 && (me.pri != 0 || b.Some? || d.Some?)
    requires b.Some? ==> b.value.ip != me.ip && b.value.ip != 0
    requires d.Some? ==> d.value.ip != me.ip && d.value.ip != 0
    ensures Verdict(me, Verdict(me, o, b, d), b, d) == Verdict(me, o, b, d)
            <==> !(&& me.pri != 0 && o.dr == me.ip && d.Some? && Outranks(d.value, Own(me, o))
                   && (b.Some? ==> !DeclaresBdr(b.value) && !Outranks(b.value, Own(me, o))))
  {
  }

  /** From any starting belief two elections reach a fixed point. */
  lemma StableAfterTwo(me: Self, o: Outcome, others: seq<Candidate>)
    requires ProperOthers(me, others) && HasCandidate(me, others)
    ensures var twice := CallElection(me, CallElection(me, o, others), others);
            CallElection(me, twice, others) == twice
  {
    var once := CallElection(me, o, others);
    CallElectionIsVerdict(me, o, others);
    WinnersAreNeighbours(me, others);
    RerunIsStableIff(me, once, others);
    if once.dr == me.ip {
      LossFromWinners(me, once, others);
    }
  }

  /**
   * Stickiness: with every candidate on the list, a sole declared DR and a different sole declared
   * backup are re-elected in one pass, whatever the priorities of the others.
   */
  lemma IncumbentsSurvive(cs: seq<Candidate>, d: Candidate, b: Candidate)
    requires d in cs && DeclaresDr(d) && forall c :: c in cs && DeclaresDr(c) ==> c == d
    requires b in cs && b != d && DeclaresBdr(b) && forall c :: c in cs && DeclaresBdr(c) && c != d ==> c == b
    ensures DrFold(cs) == Some(d) && BdrFold(cs) == Some(b)
  {
    DrFoldUnique(cs, d);
    BdrFoldUnique(cs, b);
  }
}
