# OSPF-LITE: verified model

A Dafny model of the OSPFv2 router core of this repository (RFC 2328), with proofs of what its
protocols keep. `dafny verify dfyconfig.toml` checks all of it.

| file | what it models |
|---|---|
| `Election.dfy`, `ColdStart.dfy` | the election of the Designated Router and its backup, its fixed points, and agreement of n routers in synchronous rounds |
| `EventStart.dfy` | agreement of n routers whose Hellos and timers come in any order |
| `NeighborSpec.dfy` | the neighbour machine and the Database Description branch as functions on values; conservation of the summary list, exactness of requests |
| `DdExchange.dfy`, `DdLiveness.dfy`, `DdLoss.dfy`, `DdRestart.dfy` | two routers running that branch against each other over FIFO channels: safety under loss and repetition, completeness, liveness under fairness, which losses are fatal, and when a restart after a mismatch ends |
| `InterfaceSpec.dfy`, `InterfaceRuns.dfy` | the interface machine with all packets it dispatches, and the invariants of every run |
| `LsuSpec.dfy`, `Lsdb.dfy`, `Lsa.dfy` | update packets, the database vectors and the order of LSA instances; convergence of flooding |
| `LsuCodec.dfy`, `LsuPrinter.dfy` | the octets of update packets: printer, walk, parsers, round trip |
| `LsaOrigination.dfy` | generation and storage of the router's own LSAs |
| `Fletcher.dfy`, `InternetChecksum.dfy` | the two checksums, with their exact failure conditions and overflow bounds |
| `Lists.dfy`, `Basics.dfy` | filtered lists, machine integers |
| `Router.dfy` | the neighbour and interface structures as classes; every method is proved equal to the step function its theorems are about |

## How to read it

Code that updates structures in place is a class (`Router.Neighbor`, `Router.Interface`,
`Lsdb.Database`, `LsuPrinter.Writer`) or a method with the source's loops. Each method's contract
equates the new state with a function of the old one, and the theorems are about these functions:
an event on a neighbour is a function `Nbr -> Nbr`, a run is a fold over events. A handler is one
atomic step; a timer is an event that may come at any time. A neighbour value carries a history
(`Trace`) that the code does not have and never reads.

`Lists.Collected(list, keep, image, r)` says that `r` is the image of exactly the kept elements of
`list`, in order; only one list has that property (`Lists.CollectedUnique`).

Undefined behaviour is explicit. In `NeighborSpec` the flag `popFault` records a `pop_front` on an
empty list; a step of the interface (`InterfaceRuns.Step`) is `None` when such a pop is new, when an
election dereferences a null Designated Router, and when an assertion fails.

## Where the code departs from the standard or from itself

Each of these is in the model as the code has it.

- Every Hello carries priority 1 (src/ospf.cpp:181), so elections use different priorities for
  the same router on different hosts, and a router of priority 0 can be elected:
  `ColdStart.ConstantHelloPriorityAgreesIff`, `ColdStart.IneligibleRouterIsElected`.
- A new 2-Way neighbour, and one that falls back to 1-Way, raise no NeighborChange
  (src/ospf.cpp:336-357): `InterfaceRuns.NeighborChangeIff`.
- The age of every converted header is 0, because a 32-bit swap is applied to 16 bits
  (src/link_state.cpp:17, 30): `Lsa.WithoutAge`.
- Network headers in Database Description packets are recognised by their age
  (src/ospf.cpp:510), and that age is always 0, so no network LSA is ever requested:
  `DdExchange.ExchangeIsComplete`, `DdExchange.NothingMissedIff`.
- A bad LSA type does not end the processing of its packet (src/ospf.cpp:477-482): what was sent
  before is popped from the list just cleared, and what the packet describes is requested.
  `NeighborSpec.PopFaultIff`, `NeighborSpec.InvalidTypeLeaksRequests`.
- SeqNumberMismatch and BadLSReq keep the stored packet length and the sequence number
  (src/neighbor.cpp:177-209), and that number is sent unconverted (src/ospf.cpp:896):
  `NeighborSpec.StaleLengthSkipsHeaders`, `DdRestart.RenegotiationEndsIff`. The exchange
  theorems are about negotiations entered through 2-WayReceived or AdjOK?.
- A packet that arrives in Init is remembered and then forgotten (src/ospf.cpp:374-385,
  src/neighbor.cpp:34-38): `NeighborSpec.RepeatAfterMatchIff`. The two-router theorems start with
  both sides in ExStart.
- The master never repeats a data packet: `DdLoss.FullIsReachableIff`.
- Exchange goes straight to Full (src/neighbor.cpp:215):
  `DdExchange.FullWithNothingRequestedIff`.
- Sequence numbers are compared unsigned (src/link_state.cpp:42-43):
  `Lsa.UnsignedOrderMatchesStandardIff`.
- Network LSAs are reinstalled even when they are not newer (src/ospf.cpp:827):
  `Lsdb.NetworkConvergesIff`.
- The clean-up of retransmission lists follows the queueing of the new copy
  (src/ospf.cpp:742-759): `LsuSpec.AcceptedCopyIsNotQueued`.
- Own LSAs are numbered by a 32-bit counter that the code compares unsigned, and it does not jump over
  a copy left over from before a restart: `LsaOrigination.OwnCopyIsLatestIff`.
- The reply to a request misplaces its count (src/ospf.cpp:641): `LsuCodec.ReplyCountIsReadIff`.
- Own LSAs are stored without checksum (src/lsa.cpp:21), and a refreshed own network LSA is removed
  but not inserted (src/lsa.cpp:110-112): `LsaOrigination.EchoSupersedesOwnCopy`,
  `LsaOrigination.NetworkRefreshRemovesIff`.

## Model

| member | source | states |
|---|---|---|
| `Election.BdrFoldIsMaximum` | src/interface.cpp:159-181 | The backup fold returns a candidate not declaring DR that no other such candidate beats by (declares BDR, priority, id); it returns none exactly when all declare DR |
| `Election.DrFoldIsMaximum` | src/interface.cpp:193-205 | The DR fold returns a candidate declaring DR that no other such candidate beats by (priority, id); none exactly when nobody declares DR |
| `Election.WinnersByRank` | src/interface.cpp:159-205 | The same field by field: the backup is, of those that do not name their own address as DR, one that names its own as backup if any does, then of highest priority, then id; the DR of those that name their own address, of highest priority, then id |
| `Election.FoldsIgnoreOrder` | src/interface.cpp:151-209 | With distinct (priority, id), both folds depend only on the set of candidates, not on list order |
| `Election.IncumbentsSurvive` | src/interface.cpp:151-209 | A sole declared DR and a different sole declared backup are re-elected whatever the others' priorities |
| `Election.FirstPassFindsDrIff` | src/interface.cpp:140-228 | The pointer dereferenced after the first pass is non-null if and only if some candidate exists |
| `Election.SelectBdr` | src/interface.cpp:159-181 | The loop with its branches computes the backup fold |
| `Election.SelectDr` | src/interface.cpp:193-205 | The loop computes the DR fold |
| `Election.ElectionForDrAndBdr` | src/interface.cpp:137-213 | One pass: this router first in the backup list, last in the DR list when it sits out the backup election, DR falling back to the backup |
| `Election.CallElectionIsVerdict` | src/interface.cpp:215-237 | The whole repeated election equals a one-line case split over the neighbours' own winners, a definition without passes or flags |
| `Election.PassAfterDrPromotion` | src/interface.cpp:221-237 | After promotion to DR the second pass finds this router again, promotes nobody and ends the loop |
| `Election.PassAfterBdrPromotion` | src/interface.cpp:221-237 | After promotion to backup the second pass has a non-null DR, promotes nobody and ends the loop |
| `Election.NeverBothRoles` | src/interface.cpp:215-237 | The elected DR is a real address and this router never ends as both DR and backup |
| `Election.RerunIsStableIff` | src/interface.cpp:137-243 | With the neighbours' declarations fixed a second election changes nothing if and only if the router did not lose the DR role to a declared DR while being able to win the backup election |
| `Election.StableAfterTwo` | src/interface.cpp:137-243 | From any starting DR and backup, two elections reach a fixed point |
| `ColdStart.AgreementFromCommonView` | src/interface.cpp:137-243 | Routers that rank two of them first and second in the same way all hold these as DR and backup after two synchronous rounds and in every later one |
| `ColdStart.ColdStartAgreement` | src/interface.cpp:137-243 | n >= 2 eligible routers with real priorities in their Hellos agree on the highest and second highest (priority, id) from the second round on |
| `ColdStart.AgreementIffOneClaimant` | src/interface.cpp:137-243 | For all priorities, 0 included, and all announced nonzero ones: the routers agree on their DR from the second synchronous round on if and only if exactly one of them outranks all others by its own priority against their announced ones; otherwise they disagree in every round |
| `ColdStart.ConstantHelloPriorityAgreesIff` | src/ospf.cpp:177-184 | The code sends priority 1 in every Hello, also for a router of priority 0; such a network agrees on its DR from the second round on if and only if the highest id is eligible and all others have priority 0 or 1, or it has priority 0 and exactly one router has more than 1 |
| `ColdStart.IneligibleRouterIsElected` | src/ospf.cpp:181 | If the highest id has priority 0 and nobody more than 1, then in every round all others hold that ineligible router as DR and it holds another one |
| `ColdStart.SplitIsPermanent` | src/ospf.cpp:177-184 | Two routers that each outrank all others in their own view both hold the DR role in every round |
| `EventStart.AnyOrderAgrees` | src/ospf.cpp:288-357 | n routers running the Hello and timer steps of the interface machine, asynchronously and with elections only where the code raises them: if one router outranks all others in its own view, then after any sequence of events every router whose timer has expired and which has had a Hello of that router sent after its own timer holds it as DR |
| `EventStart.NoFalseClaim` | src/interface.cpp:32-123 | In no such run does any other router ever hold the DR role itself |
| `EventStart.OfficeOverRuns` | src/interface.cpp:100-123 | A router that outranks all others in its own view and holds the DR role keeps it over every run, whoever else declares |
| `EventStart.TwoClaimantsSplit` | src/ospf.cpp:177-184 | With two such routers, once both timers expire before either hears the other, both hold the role after whatever happens next |
| `EventStart.StartIsReachable` | src/ospf.cpp:288-357 | Two routers that come up reach the state these theorems start from with three Hellos |
| `Router.Interface.RepeatElection` | src/interface.cpp:215-237 | The literal endless loop on the interface's fields: no null dereference, at most two passes, result of the repeated election |
| `Router.Interface.Voters` | src/interface.cpp:151-155 | The neighbours collected for an election are those in 2-Way or better with nonzero priority, in list order |
| `InterfaceSpec.CandidatesCollected` | src/interface.cpp:151-155 | The candidates are exactly the neighbours in 2-Way or better of nonzero priority, in list order, with their own id, address, priority and declarations |
| `Router.Interface.CallElectionAndAdjust` | src/interface.cpp:215-243 | Election on the fields, then AdjOK? on every neighbour exactly when DR or backup changed |
| `Router.Interface.AdjOkEveryone` | src/interface.cpp:238-242 | Every neighbour, and nothing else, takes the AdjOK? transition under the new roles |
| `Router.Interface.ElectAndSettle` | src/interface.cpp:53-67 | Election followed by the state of the elected role |
| `Router.Interface.EventInterfaceUp` | src/interface.cpp:32-49 | New state by network type and priority; nothing else changes |
| `Router.Interface.EventWaitTimer` | src/interface.cpp:51-72 | Election only in Waiting |
| `Router.Interface.EventBackupSeen` | src/interface.cpp:74-98 | Election only in Waiting |
| `Router.Interface.EventNeighborChange` | src/interface.cpp:100-123 | Election only in DR, Backup and DROther |
| `Router.Interface.FindNeighbor` | src/interface.cpp:18-25 | The first neighbour with the address, or null |
| `Router.Interface.AddNeighbor` | src/interface.cpp:27-30 | The neighbour is appended and bound to this interface; the others are untouched |
| `Router.Neighbor.constructor` | src/include/neighbor.h:122-144 | Initial values |
| `Router.Neighbor.EventHelloReceived` | src/neighbor.cpp:8-21 | Down to Init with the election fields cleared, otherwise nothing |
| `Router.Neighbor.Event2WayReceived` | src/neighbor.cpp:23-55 | From Init: ExStart with all DD fields reset if an adjacency is required, else 2-Way |
| `Router.Neighbor.Event1WayReceived` | src/neighbor.cpp:57-86 | From 2-Way or better to Init with the three lists cleared |
| `Router.Neighbor.EventAdjOk` | src/neighbor.cpp:88-156 | Both directions of the adjacency decision, with the resets each performs |
| `Router.Neighbor.EventNegotiationDone` | src/neighbor.cpp:158-175 | ExStart to Exchange with the summary list rebuilt from the database |
| `Router.Neighbor.ListDatabase` | src/neighbor.cpp:162-169 | The two loops list all router headers, then all network headers |
| `Router.Neighbor.EventSeqNumberMismatch` | src/neighbor.cpp:177-209 | Exchange or better back to ExStart with cleared lists; sequence number and stored packet stay |
| `Router.Neighbor.EventBadLsReq` | src/neighbor.cpp:242-273 | The same transition |
| `Router.Neighbor.EventExchangeDone` | src/neighbor.cpp:211-215 | Exchange to Full, whatever the request list holds |
| `Router.Neighbor.EventLoadingDone` | src/neighbor.cpp:231-234 | Loading to Full |
| `Router.Neighbor.EventInactivityTimer` | src/neighbor.cpp:275-298 | Any state to Down with cleared lists |
| `Router.Neighbor.ProcessHello` | src/ospf.cpp:310-341 | The neighbour's part of a Hello: event, fields, search for our id, 2-Way or 1-Way |
| `Router.Interface.RecvHelloPacket` | src/ospf.cpp:288-357 | A whole Hello: acceptance tests, neighbour found or created, neighbour events, interface events |
| `Router.Interface.Notify` | src/ospf.cpp:342-357 | The chain of interface events in the order of the code |
| `InterfaceRuns.NeighborChangeIff` | src/ospf.cpp:342-357 | Outside Waiting a Hello raises NeighborChange if and only if its sender was not in Down and its priority or one of its declarations changed; a new neighbour raises nothing |
| `InterfaceRuns.WaitingEndsIff` | src/ospf.cpp:342-357 | In Waiting a Hello ends the waiting if and only if BackupSeen is due by section 9.2 of RFC 2328 and no earlier branch of the chain shadows it |
| `Router.Interface.InactivityTimeout` | src/ospf.cpp:234-242 | Inactivity of one neighbour followed by NeighborChange, on every input on which the election it may cause is defined |
| `InterfaceRuns.RunKeepsFine` | src/interface.cpp:32-123 | Over every run of interface, Hello, DD, request, update, acknowledgement and timer events: a neighbour in 2-Way or better is in ExStart or better if and only if an adjacency is required; below Exchange its lists are empty; the interface state is the one of its role, and DR and backup are 0 until waiting ends; Attempt and Loading are never entered |
| `InterfaceRuns.AdjacenciesOverRuns` | src/neighbor.cpp:23-156 | Over every such run, read off state, network type and addresses alone: a neighbour in 2-Way or better is in ExStart or better if and only if the network type has no election, or this router is DR or backup, or it is DROther and the neighbour's address is the DR's or the backup's |
| `InterfaceRuns.RunFits` | src/interface.cpp:32-49 | Over every run the interface is down until it is brought up and never again, is in the states of its network type only, waits only with a nonzero priority, and keeps its configuration |
| `InterfaceRuns.HelloIsHeardIff` | src/ospf.cpp:288-341 | A Hello has an effect if and only if it comes from elsewhere and agrees on options and both intervals; its sender is then known with the fields it sent, in 2-Way or better if and only if it lists this router, else in Init |
| `InterfaceRuns.SilenceForgets` | src/neighbor.cpp:275-298 | A silent neighbour ends in Down with empty lists whatever the election after it does; a second silence changes nothing; the others keep everything but their adjacency |
| `InterfaceRuns.RequestRestartsIff` | src/ospf.cpp:568-648 | A request packet sends a neighbour in Exchange or later back to ExStart with empty lists if and only if there is no reply, and changes nothing else |
| `InterfaceRuns.OwnLsasAreQueuedForFull` | src/lsa.cpp:153-157 | When a neighbour reaches Full the new own LSAs are queued behind what is queued already for all neighbours in Full and for nobody else; no DD packet touches another neighbour otherwise |
| `InterfaceRuns.StepKeepsFine` | src/ospf.cpp:287-877 | One event of any kind keeps that invariant |
| `InterfaceRuns.DdKeepsNbr` | src/ospf.cpp:358-567 | A DD packet with types 1 to 5 keeps the neighbour's part of it |
| `InterfaceRuns.OpeningSettlesRoles` | src/ospf.cpp:394-436 | The opening packet of a neighbour in ExStart is answered if and only if its router id is higher; it is then master, the reply carries this interface's options, and the list built is this router's database in order |
| `InterfaceRuns.AcksAreTaken` | src/ospf.cpp:851-874 | An acknowledgement packet takes exactly the entries it names from the list of its sender in Exchange or later, and changes nothing else |
| `InterfaceRuns.UpdateClearsKey` | src/ospf.cpp:742-759 | An update packet with an accepted instance clears exactly its key from the retransmission list of every neighbour of the interface |
| `InterfaceRuns.AcceptedIsAnsweredBy` | src/ospf.cpp:742-779 | Read off the interface: an accepted instance goes back out if and only if flooding queued it for somebody, its sender is neither DR nor backup and the state is not Backup; else it is acknowledged, in state Backup only to the DR |
| `InterfaceRuns.OwnPacketsAreIgnored` | src/ospf.cpp:261-265 | A packet with this interface's own address as source changes nothing, whatever its type |
| `InterfaceRuns.AdjOkKeepsVoters` | src/neighbor.cpp:88-156 | AdjOK? on all neighbours changes no one's eligibility to vote, so an election does not disturb its own input |
| `InterfaceRuns.AdjOkRestores` | src/neighbor.cpp:88-156 | AdjOK? establishes the adjacency rule for the new roles from the rule for any old ones |
| `InterfaceRuns.RepeatedChangeIsIdempotentIff` | src/interface.cpp:100-123 | A second NeighborChange leaves the interface and all neighbours untouched if and only if the router did not lose the DR role in the way above |
| `InterfaceRuns.StepFaultsIff` | src/interface.cpp:215-237 | For every router and every event, the step is undefined if and only if the event is a request, update or acknowledgement from an unknown address, or a DD packet whose answer pops more headers than the summary list has, or runs an election while the priority is 0 and no neighbour votes |
| `InterfaceRuns.LastVoterSilentIff` | src/interface.cpp:228 | A router of priority 0 dereferences a null DR on the silence of a neighbour if and only if no other neighbour votes |
| `Router.Neighbor.ProcessDd` | src/ospf.cpp:358-567 | The whole DD branch on the fields of a neighbour equals the step function all DD theorems are about |
| `Router.Neighbor.DispatchDd` | src/ospf.cpp:380-469 | The dispatch on the neighbour state |
| `Router.Neighbor.AcceptDd` | src/ospf.cpp:470-567 | What a packet with a matching sequence number causes |
| `Router.Neighbor.CheckLsaTypes` | src/ospf.cpp:476-485 | A bad type raises SeqNumberMismatch and the loop goes on |
| `Router.Neighbor.RequestMissing` | src/ospf.cpp:491-524 | Exactly the wanted headers are appended, in order |
| `Router.Neighbor.PopAcknowledged` | src/ospf.cpp:527-534 | As many headers are dropped as the last packet carried, counted back from its length; the fault is a pop from an empty list |
| `Router.Neighbor.SendDd` | src/ospf.cpp:539-566 | The reply carries the first 50 headers or all, M exactly when some are left, and is remembered with its length |
| `Router.Interface.RecvDdPacket` | src/ospf.cpp:358-567 | Sender lookup, DD branch, and queueing of own LSAs when Full is reached |
| `Router.Interface.QueueOwnLsas` | src/lsa.cpp:153-157 | New own headers are queued for the neighbours in Full and for nobody else |
| `NeighborSpec.MatchedOutcome` | src/ospf.cpp:394-451 | A packet that passes the dispatch is processed in state Exchange |
| `NeighborSpec.UnmatchedOutcome` | src/ospf.cpp:380-469 | Any other packet is ignored, answered by a repetition, or raises SeqNumberMismatch |
| `NeighborSpec.MismatchIff` | src/ospf.cpp:394-485 | A packet raises SeqNumberMismatch if and only if it is matched and has an invalid type, or arrives in Exchange, differs from the remembered one in number or bits, and has I set, the wrong MS bit or the wrong number |
| `NeighborSpec.MatchedReply` | src/ospf.cpp:535-566 | The reply has the router's options, never I, MS from the master only, the received number from the slave and its successor from the master, the next at most 50 headers of the list left, and M if and only if that is not all |
| `NeighborSpec.RequestsAreExact` | src/ospf.cpp:486-524 | The router part of the request list grows by exactly the router headers that are absent from the database or newer than the stored copy, in order; the whole list grows by exactly the missing router and network headers if and only if no header is news to the network vector with type and age fields that disagree on being a network LSA; an unmatched packet adds nothing |
| `NeighborSpec.WantedIsMissingIff` | src/ospf.cpp:501-521 | The same for the loop over the headers alone |
| `NeighborSpec.OnWireWanted` | src/ospf.cpp:510-519 | Of headers that come from another router running this code, exactly the missing router LSAs are requested, and never a network LSA |
| `NeighborSpec.WantedRouters` | src/ospf.cpp:501-509 | The router part of what the loop appends is the list of missing router instances |
| `NeighborSpec.RequestsAreCollected` | src/ospf.cpp:491-524 | What the loop requests, and what the standard asks for, are exactly the headers that pass the respective test, in order and each occurrence once |
| `NeighborSpec.SummaryAt` | src/neighbor.cpp:162-169 | The summary list has, position by position, the header of every stored LSA: the router vector first, then the network vector |
| `NeighborSpec.StartConserves` | src/neighbor.cpp:33-41 | A new neighbour conserves; starting a negotiation by 2-WayReceived or AdjOK? establishes conservation, whatever happened before, unless an empty list was popped |
| `NeighborSpec.ConservationOverRuns` | src/ospf.cpp:416-566 | In every run of one side against an arbitrary peer, from any structure that conserves (a new one, or one that has just started a negotiation) until the next SeqNumberMismatch: the headers of the data packets sent since NegotiationDone, repetitions apart, are the acknowledged headers followed by those of the last packet; acknowledged headers and summary list together are the list built; the last packet carries a prefix of what is left; no empty list is popped |
| `NeighborSpec.FullMeansAllSent` | src/ospf.cpp:527-566 | A side that has reached Full in such a run has sent every header of its list exactly once and in order, repetitions apart |
| `NeighborSpec.ConservedStep` | src/ospf.cpp:416-566 | One event keeps conservation unless it raises SeqNumberMismatch |
| `NeighborSpec.DuplicateOnlyResends` | src/ospf.cpp:415-423 | A packet equal to the remembered one changes no list and no counter: a slave answers it with its last packet, a master ignores it |
| `NeighborSpec.HeardAgainIsNew` | src/neighbor.cpp:8-55 | A neighbour that fell silent and is heard again declares nothing, has no priority and no list, and negotiates from the same fields as a new one |
| `NeighborSpec.DoneLeadsToFull` | src/neighbor.cpp:211-234 | ExchangeDone and LoadingDone lead to Full, each from its own state only |
| `NeighborSpec.RepeatAfterMatchIff` | src/ospf.cpp:365-389 | The second copy of a processed packet raises no SeqNumberMismatch if and only if the first did not arrive in Init or equals the initial memory, because the reset on leaving Init forgets the packet |
| `NeighborSpec.OpeningTwiceFromInit` | src/neighbor.cpp:33-41 | The failing input: the peer's opening packet received twice, the first time in Init, ends in ExStart with one mismatch more |
| `NeighborSpec.StaleLengthSkipsHeaders` | src/neighbor.cpp:177-209 | The packet length kept after a mismatch makes the next negotiation drop that many headers unsent, running off the list if and only if it is shorter; conservation holds afterwards if and only if the kept packet had no header |
| `NeighborSpec.StaleLengthIsReachable` | src/ospf.cpp:433-436 | A run from a new neighbour to ExStart with a kept packet of min(50, a) headers |
| `NeighborSpec.PopFaultIff` | src/ospf.cpp:476-534 | A DD packet makes the code pop from an empty list if and only if it is matched, the neighbour was not in Init, and the stored packet has more headers than the list to pop from: the cleared one if the packet has an invalid type, the current one in Exchange, the newly built one in ExStart |
| `NeighborSpec.BadTypePopIsReachable` | src/ospf.cpp:476-534 | A run from a new neighbour, without mismatch, to such a pop: one header of an invalid type in the peer's first data packet |
| `NeighborSpec.InvalidTypeLeaksRequests` | src/ospf.cpp:476-534 | After a matched packet, pops from an empty list aside, the lists are empty below Exchange if and only if all its types are valid or nothing in it is wanted; with an invalid type the code first pops from the list it has just cleared if and only if the neighbour was not in Init and the stored packet had headers |
| `NeighborSpec.RenegotiationMatchesIff` | src/ospf.cpp:883-898 | With both sides in ExStart, the answer to the opening packet matches if and only if the kept sequence number equals its own octet reversal, because it is sent unconverted |
| `NeighborSpec.SmallNumbersStall` | src/ospf.cpp:896 | Among the numbers below 65536 only 0 does |
| `NeighborSpec.SwapReverses` | src/ospf.cpp:896 | The number sent without conversion arrives with its four octets reversed |
| `DdExchange.RunKeepsInv` | src/ospf.cpp:358-567 | Over channels that lose packets or repeat them in place, each side's whole state is determined by the number of packets it matched, the two counts differ by at most one, and each channel holds copies of one message followed by copies of the next |
| `DdExchange.ExchangeIsSafe` | src/ospf.cpp:394-451 | In no such run is SeqNumberMismatch raised or an empty list popped, and once both have negotiated the master's number is the slave's or the next one modulo 2^32 |
| `DdExchange.SeqNumWraps` | src/ospf.cpp:548 | The k-th sequence number is k modulo 2^32 |
| `DdExchange.DataPacketBound` | src/ospf.cpp:535-563 | Before both sides are in Full the master has sent at most max(1, ceil(a/50), ceil(b/50)) data packets, and at most one more after |
| `DdExchange.ExchangeIsComplete` | src/ospf.cpp:486-538 | When both sides are in Full each has processed exactly the other's summary list, each header once and in order, and its whole request list is the list of router LSAs it misses |
| `DdExchange.DatabasesAreDescribed` | src/neighbor.cpp:162-169 | When both sides are in Full, each has been told of every LSA in the other's two vectors, and of nothing else |
| `DdExchange.DatabasesAreRequested` | src/ospf.cpp:491-524 | And each requests a router LSA of the other's vector if and only if its own database lacks it or holds it older |
| `DdExchange.NothingMissedIff` | src/ospf.cpp:510-519 | Everything a side misses of the other's list is then requested if and only if that list has no network header that is absent from its database or newer than there |
| `DdExchange.HiddenNetworkIsMissed` | src/ospf.cpp:510-519 | Each such header is described, missing and not requested |
| `DdExchange.FullWithNothingRequestedIff` | src/neighbor.cpp:213-219 | Full is entered whatever is requested; the request list is then empty, as the standard demands, if and only if the peer's list has no router LSA that is absent or newer |
| `DdLiveness.ExchangeReachesFull` | src/ospf.cpp:358-567 | Over FIFO channels that lose nothing and repeat packets in place finitely often, every fair infinite run brings both sides to Full for good, within that packet bound |
| `DdLiveness.EndlessRepetitionStarves` | src/ospf.cpp:394-413 | With repetition for ever this fails: from every initial state there is a fair run without loss in which the two never both reach Full |
| `DdLiveness.ReliableStep` | src/ospf.cpp:358-567 | Every delivery or opening step comes closer to Full or leaves the helpful step possible |
| `DdLoss.FullIsReachableIff` | src/ospf.cpp:415-423 | After any run with losses and repetitions both sides can still reach Full if and only if they are there, or the master still sends its opening packet, or the packet that is due is in flight, or a copy of the master's last packet is, which the slave answers again |
| `DdLoss.FirstDataInFlight` | src/ospf.cpp:358-567 | From every initial state three steps lead to the state in which the first data packet of the master is the only one in flight |
| `DdLoss.LostForEver` | src/ospf.cpp:419-421 | No run leaves any other state, since the master never repeats a data packet |
| `DdLoss.FirstDataPacketLost` | src/ospf.cpp:415-423 | From every initial state: those three steps, the loss of that packet, and no continuation reaches Full on both sides |
| `DdRestart.RenegotiationEndsIff` | src/ospf.cpp:883-898 | With both sides in ExStart and whatever they keep from before, some run, with any losses and repetitions, brings the master out of ExStart if and only if the number it kept equals its own octet reversal |
| `LsuSpec.DatabaseAfterLsu` | src/ospf.cpp:672-839 | A packet not cut short changes the database exactly like its valid advertisements fed to the two vectors one by one |
| `LsuSpec.AbortsIff` | src/ospf.cpp:787-798 | A packet is cut short if and only if an advertisement is no news but still requested from its sender |
| `LsuSpec.PacketFloodingConverges` | src/ospf.cpp:648-839 | Two routers that receive the same valid router LSAs, split into packets, ordered and repeated in any way, end with the same map up to age |
| `LsuSpec.AcceptedIsAnsweredIff` | src/ospf.cpp:742-779 | An accepted instance is flooded back or acknowledged on the interface it came from, never both, unless this router is the backup and the sender not the DR |
| `LsuSpec.OldIsNotAnswered` | src/ospf.cpp:786-838 | An instance that is no news is neither flooded nor acknowledged by the packet |
| `LsuSpec.FloodQueues` | src/ospf.cpp:1041-1066 | Flooding queues the instance for a neighbour exactly when it is exchanging and either requests no instance of it, or requests an older one and is not its source |
| `LsuSpec.AcceptedCopyIsNotQueued` | src/ospf.cpp:742-759 | The clean-up after flooding also removes the copy just queued, so no neighbour of the receiving interface has it queued afterwards |
| `LsuSpec.WithoutCollected` | src/ospf.cpp:755-758 | The clean-up of a list drops exactly the headers of that id and advertising router; the others stay, in order and as often as before |
| `LsuSpec.AcceptedClearsKey` | src/ospf.cpp:742-759 | After an accepted instance every neighbour's retransmission list is its old list with exactly the entries of that key gone |
| `LsuSpec.OldAcknowledgesExactly` | src/ospf.cpp:799-815 | An instance that is no news and not requested drops the entries of its key from its sender's retransmission list if it is the stored one, and changes no other list and no other neighbour |
| `LsuSpec.AcceptedTakesRequest` | src/ospf.cpp:1041-1066 | An accepted instance takes the first request with its key from each exchanging neighbour's list if the request is not newer, and nothing else |
| `LsuSpec.AbortRestartsSender` | src/ospf.cpp:787-798 | An instance that is no news but still requested sends its sender back to ExStart with empty lists, and leaves the others, the database and the outgoing lists alone |
| `LsuSpec.DiscardedIff` | src/ospf.cpp:675-704 | News that is due an answer is discarded without any effect if and only if its checksum fails, its type is not 1 to 5, or its age is 3600 and no neighbour is in Exchange or Loading |
| `LsuSpec.AnsweredIffNews` | src/ospf.cpp:705-779 | What passes the tests is answered, a backup's hearing of others aside, if and only if the database has no instance of it or an older one, or its type is not stored |
| `LsuSpec.BadRequestDropsAcks` | src/ospf.cpp:840-850 | A bad request anywhere in a packet drops all its acknowledgements; otherwise one packet acknowledges all that is due |
| `LsuSpec.FloodedBackIff` | src/ospf.cpp:1068-1096 | An accepted instance goes back out of the interface if and only if flooding queued it for some neighbour there, its sender is neither DR nor backup, and this router is not the backup |
| `LsuSpec.LsuChangesLists` | src/ospf.cpp:648-839 | An update packet changes a neighbour's lists only, or takes it from Exchange or better back to ExStart |
| `Router.Interface.RecvLsuPacket` | src/ospf.cpp:648-850 | The loop over a packet with its early exit, on the neighbours and the database, with what is flooded back and the acknowledgement packet |
| `Router.Interface.ReceiveOne` | src/ospf.cpp:673-838 | One advertisement: tests, lookup, flooding, installation and answer, or the branches for old copies |
| `Router.Interface.PassesLsaTests` | src/ospf.cpp:675-704 | Checksum, type and MaxAge tests |
| `Router.Interface.FloodingLsa` | src/ospf.cpp:1028-1096 | Flooding to all neighbours of the interface, and whether the instance leaves by it again |
| `Router.Interface.FloodAndClean` | src/ospf.cpp:742-779 | Flooding, then clean-up on all neighbours, then the choice of an acknowledgement |
| `Router.Neighbor.FloodLsa` | src/ospf.cpp:1038-1066 | The request list is searched and shortened, and the retransmission list extended, exactly as the comparison says; reports whether it was extended |
| `Router.Neighbor.ReceiveOldLsa` | src/ospf.cpp:787-815 | BadLSReq, implied acknowledgement or nothing |
| `Router.Interface.CollectReply` | src/ospf.cpp:589-642 | The stored LSAs in the order of the requests, or nothing at the first one missing |
| `Router.Interface.RecvLsrPacket` | src/ospf.cpp:568-648 | The reply, or the neighbour's way back to ExStart when an LSA is missing |
| `InterfaceSpec.ReplyIsCompleteIff` | src/ospf.cpp:589-646 | There is no reply if and only if some LSA is missing; the reply carries one LSA per request, as its count says, if and only if all requests are for router or network LSAs |
| `InterfaceSpec.ReplyAnswers` | src/ospf.cpp:589-642 | The LSAs of a reply are, one by one and in order, the first stored ones of the type, id and advertising router that the answerable requests name |
| `InterfaceSpec.AnswerableCollected` | src/ospf.cpp:594-640 | The answerable requests are those of type router or network, in order |
| `LsuCodec.ReplyCountIsReadIff` | src/ospf.cpp:641 | The 16-bit count at the front of a 32-bit field is read as 65536 times its value, so rightly if and only if it is 0 |
| `Router.Interface.RecvLsAckPacket` | src/ospf.cpp:851-874 | Each acknowledged header removes its first occurrence from the retransmission list |
| `InterfaceSpec.AcknowledgeExact` | src/ospf.cpp:863-873 | One acknowledged header removes the first entry of its type, id and advertising router, and nothing else |
| `InterfaceSpec.AcknowledgedLeave` | src/ospf.cpp:862-874 | Of a list without repeated entries exactly those stay queued that no header of the packet names |
| `Lsa.NewerIsLexicographic` | src/link_state.cpp:41-67 | The comparator is antisymmetric and lexicographic in (sequence number, checksum, age at least 900 apart) |
| `Lsa.NewerTransitive` | src/link_state.cpp:41-67 | "Newer" is a strict partial order |
| `Lsa.NewerIsIntervalOrder` | src/link_state.cpp:41-67 | newer(a,b) and newer(c,d) imply newer(a,d) or newer(c,b) |
| `Lsa.TiesAreNotTransitive` | src/link_state.cpp:58-63 | For every header there are three of its rank whose ties do not chain |
| `Lsa.UnsignedOrderMatchesStandardIff` | src/link_state.cpp:42-43 | For different sequence numbers the order agrees with the signed one of section 12.1.6 of RFC 2328 if and only if the top bits are equal |
| `Lsdb.FindAfterInstall` | src/link_state.cpp:69-134 | Installing is a map update: the new LSA under its key, every other key unchanged |
| `Lsdb.InstallKeepsUnique` | src/link_state.cpp:102-134 | No key is ever stored twice |
| `Lsdb.InstallAppends` | src/link_state.cpp:102-134 | Installation leaves the LSAs of other keys in their order and puts the new one at the end |
| `Lsdb.Database.FindRouterLsa` | src/link_state.cpp:69-77 | The first router LSA with the key |
| `Lsdb.Database.FindNetworkLsa` | src/link_state.cpp:79-87 | The first network LSA with the key |
| `Lsdb.FindIsFirst` | src/link_state.cpp:69-87 | What is found stands in the vector, agrees in both fields, and no earlier one does |
| `Lsdb.Database.RemoveRouterLsa` | src/link_state.cpp:90-94 | Exactly the LSAs with the key go |
| `Lsdb.Database.RemoveNetworkLsa` | src/link_state.cpp:96-100 | The same for network LSAs |
| `Lsdb.Database.InstallRouterLsa` | src/link_state.cpp:102-134 | Removal of the key, then insertion at the end |
| `Lsdb.Database.InstallNetworkLsa` | src/link_state.cpp:136-153 | The same for network LSAs |
| `Lsdb.HoldsMaximum` | src/ospf.cpp:711-765 | After any run of received router LSAs each key holds a stored or received copy of maximal (sequence number, checksum) |
| `Lsdb.FloodingConverges` | src/ospf.cpp:711-765 | Any permutation or duplication of the received router LSAs gives the same map up to age, when equal (key, sequence number, checksum) means equal content |
| `Lsdb.StoredNeverOlder` | src/ospf.cpp:735-765 | In the code's own order a stored copy is only replaced by newer ones |
| `Lsdb.NetworkHoldsLast` | src/ospf.cpp:826-827 | The network branch keeps the copy received last |
| `Lsdb.NetworkConvergesIff` | src/ospf.cpp:826-827 | Two arrival orders agree on a network key if and only if their last copies of it do |
| `Lsdb.OldNetworkCopyWins` | src/ospf.cpp:826-827 | An old network copy that arrives late replaces a newer one |
| `LsuCodec.LsuRoundTrip` | src/lsa.cpp:95-195 | Parsing what was printed returns the same list in order, checksums passing, with every header field but the age, all router flags and links, and all attached routers; a network's mask is lost |
| `LsuCodec.WalkVisits` | src/ospf.cpp:672-674 | The walk by length stands exactly at the start of each printed advertisement |
| `LsuCodec.AdvertBack` | src/link_state.cpp:102-153 | One printed advertisement at any position is parsed back and passes the checksum test |
| `LsuCodec.LengthBack` | src/lsa.cpp:61-63 | The length field of a printed advertisement is its number of octets |
| `LsuCodec.PrintedChecksum` | src/link_state.cpp:206-215 | The receiver's recomputed checksum is the printed one, although the age was changed after it was computed |
| `LsuCodec.PrintedChecksumBalancesIff` | src/link_state.cpp:206-215 | The printed octets satisfy the Fletcher test of Annex B of RFC 905 if and only if neither sign patch misses |
| `LsuCodec.PrintedLayout` | src/lsa.cpp:116-184 | Octet by octet, in network byte order: the header fields, flags, link count and links of a printed router LSA; the mask and the attached routers of a printed network LSA |
| `LsuCodec.CountStands` | src/lsa.cpp:95-184 | A packet begins with the number of its advertisements in network byte order |
| `LsuCodec.CorruptionPassesIff` | src/ospf.cpp:675-679 | An accepted advertisement with one octet changed, age and length aside, passes the checksum test if and only if the octet is outside the checksum field and the change exchanges 0 and 255; free of overflow and missed patches |
| `LsuPrinter.Writer.PutLsu` | src/lsa.cpp:95-184 | The printer with its moving pointer, the count raised per advertisement, checksum and age patched in behind the pointer |
| `LsuPrinter.Writer.PutAdvert` | src/lsa.cpp:158-181 | Header, body, checksum, then age |
| `LsuPrinter.Writer.PutRouterBody` | src/lsa.cpp:161-179 | Flags, link count and links in order |
| `LsuPrinter.Writer.PutNetworkBody` | src/lsa.cpp:126-131 | Mask and attached routers in order |
| `LsuPrinter.LsaChecksum` | src/link_state.cpp:206-215 | Fletcher over a copy with the checksum field zeroed and the age skipped |
| `LsuPrinter.ParseRouter` | src/link_state.cpp:109-131 | The loop over as many links as the body announces |
| `LsuPrinter.ParseNetwork` | src/link_state.cpp:137-151 | The loop up to the end given by the length field |
| `LsuPrinter.Walk` | src/ospf.cpp:672-674 | The positions of the loop over a packet |
| `LsaOrigination.GenerateRouterLsa` | src/lsa.cpp:12-70 | One link per interface, length and sequence number as announced, counter incremented with wrap-around |
| `LsaOrigination.DescribePort` | src/lsa.cpp:33-60 | The loop over neighbours finds a transit link if and only if some neighbour in Full is the DR or we are it |
| `LsaOrigination.LinkDescribesPort` | src/lsa.cpp:33-60 | The link is a transit link, with the DR's address as id and the port's as data, if and only if the port neither loops nor waits and reaches its DR; a loopback gives a host route; else a stub link whose id is the port's address under the mask with no host bit |
| `LsaOrigination.NetworkIsLinkedBothWays` | src/lsa.cpp:12-93 | The two generators fit: the transit link of one router names the network LSA of the port's DR, its data is the address the DR knows it by, and the network LSA lists the id under which its router LSA is stored if the DR has it in Full |
| `LsaOrigination.PeersFindOwnRouterLsa` | src/lsa.cpp:12-70 | A printed own router LSA is stored by a peer under (router id, router id), with the number drawn, the options, no flag, and one link per port in order |
| `LsaOrigination.PeersFindOwnNetworkLsa` | src/lsa.cpp:72-93 | A printed own network LSA is stored under (interface address, router id) with the number drawn and the ids of the neighbours in Full |
| `LsaOrigination.GenerateNetworkLsa` | src/lsa.cpp:72-93 | The ids of the neighbours in Full, in order |
| `LsaOrigination.AttachedAreFull` | src/lsa.cpp:86-91 | An id is listed exactly as often as neighbours in Full have it |
| `LsaOrigination.AttachedCollected` | src/lsa.cpp:86-91 | The attached routers are the ids of the neighbours in Full, in list order |
| `LsaOrigination.OwnRouterLsaIsPrintableIff` | src/lsa.cpp:61-63 | The 16-bit length counts the octets if and only if there are at most 5459 interfaces |
| `LsaOrigination.OriginationIsReception` | src/lsa.cpp:138-151 | Storing an own router LSA follows the rule for received ones and keeps keys unique |
| `LsaOrigination.OwnNetworkLsaIsPrintableIff` | src/lsa.cpp:86-91 | The same bound for network LSAs is 16377 attached routers |
| `LsaOrigination.OwnPacketFitsIff` | src/lsa.cpp:95-184 | The update packet for the own LSAs fits its 1024-octet buffer if and only if 28 octets, 12 per interface, and for a DR that sends both LSAs another 24 and 4 per neighbour in Full, are at most 1024 |
| `LsaOrigination.StoreOwnRouterLsa` | src/lsa.cpp:140-151 | Append, replace or leave alone in the database, flooding exactly in the first two cases |
| `LsaOrigination.StoreOwnNetworkLsa` | src/lsa.cpp:105-115 | Append, remove or leave alone |
| `LsaOrigination.OwnCopyIsLatestIff` | src/lsa.cpp:138-151 | After a series of own router LSAs, whose numbers are drawn from the counter at any growing offsets below 2^32, the stored copy is the one generated last if and only if the counter did not wrap and the copy stored before, if any, is that LSA or older |
| `LsaOrigination.WrappedLastIsNotStored` | src/lsa.cpp:19-20 | If the counter wrapped within the series, the LSA generated last is not the stored one |
| `LsaOrigination.RouterOffsetsGrow` | src/lsa.cpp:19-20 | The router LSA of an update is numbered two after the one before if the router is DR, because the network LSA takes a number first, else one after |
| `LsaOrigination.NthCounts` | src/lsa.cpp:20 | Each further number is the successor of the one before in the 32-bit counter |
| `LsaOrigination.NetworkRefreshRemovesIff` | src/lsa.cpp:103-115 | The own network LSA disappears from the database if and only if an older one was stored |
| `LsaOrigination.OriginateNetworkAt` | src/lsa.cpp:103-115 | Key by key: other network LSAs stay, the own one is added, kept, or lost to its refresh |
| `LsaOrigination.EchoSupersedesOwnCopy` | src/lsa.cpp:138-184 | The stored own copy carries checksum 0, so the same instance received back always counts as newer and replaces it |
| `LsaOrigination.OwnRouterLsaIsEchoed` | src/lsa.cpp:12-70 | This holds for the LSA the router generates, which starts with age 1 and comes back with age 0 |
| `LsaOrigination.PrintedPacketIsReceived` | src/ospf.cpp:648-839 | From the octets one router prints to the database of another: exactly the sender's router LSAs are fed to the receiver's vector |
| `Fletcher.Fletcher16` | src/link_state.cpp:155-165 | The stepwise sums modulo 255 |
| `Fletcher.DeferredSums` | src/link_state.cpp:167-182 | The deferred sums with 32-bit wrap-around |
| `Fletcher.Fletcher16Ru` | src/link_state.cpp:167-204 | The two octets with the sign patches on truncating remainders |
| `Fletcher.DeferredIffNoOverflow` | src/link_state.cpp:171-182 | For every block a length field can describe, deferring the reduction gives the stepwise residues if and only if the second accumulator never leaves 32 bits |
| `Fletcher.DeferredRefinesStepwise` | src/link_state.cpp:155-182 | They agree for every buffer of at most 5803 octets |
| `Fletcher.DeferredBoundIsTight` | src/link_state.cpp:155-182 | 5804 octets of 0xFF break it |
| `Fletcher.FletcherExact` | src/link_state.cpp:167-204 | With zeroed check octets and no overflow, the returned octets balance both sums modulo 255 if and only if neither (c0 = 0 and c1 = 254) nor (mul >= c1 and (mul-c1) mod 255 = 254); neither octet is ever 0 |
| `Fletcher.OneOctetDetectedIff` | src/link_state.cpp:167-204 | Without overflow and missed patches, a change of one octet outside the checksum field leaves the check octets unchanged if and only if it exchanges 0 and 255 |
| `InternetChecksum.FoldCarries` | src/ospf.cpp:57-59 | The carry loop ends with a 16-bit value that keeps the sum modulo 65535 and nonzeroness |
| `InternetChecksum.FoldIsUnique` | src/ospf.cpp:57-59 | These two facts determine the value |
| `InternetChecksum.AddWords` | src/ospf.cpp:44-55 | The sum of little-endian words and an odd last octet, with 32-bit wrap-around |
| `InternetChecksum.OspfChecksum` | src/ospf.cpp:44-61 | The whole checksum |
| `InternetChecksum.NoOverflow` | src/ospf.cpp:44-55 | No 32-bit overflow up to 131074 octets |
| `InternetChecksum.OverflowBoundIsTight` | src/ospf.cpp:44-55 | 131075 octets can overflow |
| `InternetChecksum.StoredChecksumVerifies` | src/ospf.cpp:104-117 | Writing the checksum into its zeroed aligned field makes a recomputation return 0 |
| `InternetChecksum.ByteOrderIndependent` | src/ospf.cpp:44-61 | Native little-endian words give the same stored octets as network-order words, odd lengths included |

## Left out

- Threads, sleeps, joins and mutexes: a handler is one atomic step, a timer an event at any time; a join that blocks is not modelled.
- Sockets, packet capture, IP and OSPF packet headers, destination addresses: a step starts from a decoded packet, and what it sends is recorded in the history of the neighbour or in a channel.
- `lsdb_aging_thread` (src/link_state.cpp:221-240): it casts a database pointer to an area pointer.
- Object lifetime: `delete` after insertion in src/lsa.cpp, and the escaping pointer to the block-local entry of this router in the election, which is modelled as a value.
- The interface MTU of Database Description packets, which is never inspected.
- `send_lsr_packet_thread`, whose creation is commented out, and the octets of the reply to a request: its LSAs and its count are modelled.
- `retrans_sender_thread`: what a retransmission sends, and any guarantee that it arrives.
- Loading: it cannot be reached (`InterfaceRuns.RunKeepsFine`), so no claim is made about leaving it.
- Hello packets in flight: `EventStart` delivers a Hello in the step that sends it.
- Neighbours that appear or fall silent during the election of n routers: `EventStart` has Hello and wait-timer events only and starts once everybody has heard everybody.
- External and summary LSAs beyond the paths on which they are ignored, TOS metrics, authentication, NBMA, virtual links: stubs in the code.
- Malformed packets whose lengths lead past the receive buffer: octets behind the packet read as 0.
- `bad_ls_req` in the two-router system, and what follows a renegotiation that gets out of ExStart: such runs leave the negotiation that the exchange theorems are about.
- Router.Interface.RecvDdPacket: takes the headers of newly originated LSAs as an argument and queues them after the reply is built rather than before; the reply does not depend on the queues.
- Router.Neighbor.EventExchangeDone: leaves the call of `update_lsas` to its caller, `Router.Interface.RecvDdPacket`.
- Router.Neighbor.EventLoadingDone: leaves out the call of `update_lsas`; nothing in the code raises this event.
- Router.Interface.RecvLsuPacket: describes one interface; an accepted instance is also flooded to the neighbours of the area's other interfaces, by the same step but without the clean-up.
- Router.Interface.ReceiveOne: the same, and the immediate acknowledgement of a MaxAge instance, which a converted header never is.
- Router.Interface.RecvLsrPacket: the reply is a list of LSAs without a bound on its length.
- Router.Neighbor.ProcessDd: omits the options test (src/ospf.cpp:424-431), which compares a field with the value just assigned to it.
- Router.Interface.RecvHelloPacket: requires an election it causes to have a candidate, as the code does.
- LsuCodec.LsuRoundTrip: does not restore the age and the network mask, which the parser never reads.
- LsaOrigination.GenerateRouterLsa: the TOS octet the code never initialises is an argument.
