/**
 * TCP session reconstruction (src/sessions.rs): one pass over the packets
 * that keeps a table from flow key to (start time, optional end time,
 * packet list), reproduced exactly as the source writes it, including the
 * push of every packet onto every session that already exists.
 */
module Sessions {
  import opened Wrappers
  import opened Packet

  /** The directional 4-tuple (source port, destination port, source address, destination address). */
  datatype FlowKey = FlowKey(sourcePort: u16, destinationPort: u16, sourceIp: Ipv4Address, destinationIp: Ipv4Address)

  /** What the table holds per key: start time, optional end time, accumulated packets. */
  datatype Entry = Entry(start: Timestamp, end: Option<Timestamp>, packets: seq<NetworkPacket>)

  /** `TCPSession`: the key's four fields, both timestamps and the packet list. */
  datatype TCPSession = TCPSession(
    sourcePort: u16,
    destinationPort: u16,
    sourceIp: Ipv4Address,
    destinationIp: Ipv4Address,
    startTimestamp: Timestamp,
    endTimestamp: Option<Timestamp>,
    packets: seq<NetworkPacket>)

  type Table = map<FlowKey, Entry>

  /** The key of a SYN packet: the flow as seen from its sender. */
  function ForwardKey(p: NetworkPacket): FlowKey {
    FlowKey(p.tcpLayer.sourcePort, p.tcpLayer.destinationPort, p.ipLayer.sourceIp, p.ipLayer.destinationIp)
  }

  /** The key a FIN packet is looked up under: ports and addresses exchanged. */
  function ReverseKey(p: NetworkPacket): FlowKey {
    FlowKey(p.tcpLayer.destinationPort, p.tcpLayer.sourcePort, p.ipLayer.destinationIp, p.ipLayer.sourceIp)
  }

  /** A key seen from the other end. */
  function Swapped(k: FlowKey): FlowKey {
    FlowKey(k.destinationPort, k.sourcePort, k.destinationIp, k.sourceIp)
  }

  /** `p` is a SYN whose forward key is `k`. */
  predicate Opens(p: NetworkPacket, k: FlowKey) {
    p.tcpLayer.flags.syn && ForwardKey(p) == k
  }

  /** `p` is a FIN whose reverse key is `k`. */
  predicate Closes(p: NetworkPacket, k: FlowKey) {
    p.tcpLayer.flags.fin && ReverseKey(p) == k
  }

  // ------------------------------------------------------- one loop iteration

  /** The SYN branch: `entry(key).or_insert((ts, None, vec![])).2.push(packet)`. */
  function AfterSyn(m: Table, p: NetworkPacket): Table {
    if p.tcpLayer.flags.syn then
      var key := ForwardKey(p);
      var e := if key in m then m[key] else Entry(p.timestamp, None, []);
      m[key := e.(packets := e.packets + [p])]
    else m
  }

  /** The FIN branch: if the reverse key is present, set its end time and push the packet. */
  function AfterFin(m: Table, p: NetworkPacket): Table {
    if p.tcpLayer.flags.fin && ReverseKey(p) in m then
      var key := ReverseKey(p);
      m[key := m[key].(end := Some(p.timestamp), packets := m[key].packets + [p])]
    else m
  }

  /** The `values_mut()` loop: push the packet onto every entry. */
  function PushAll(m: Table, p: NetworkPacket): Table {
    map k | k in m :: m[k].(packets := m[k].packets + [p])
  }

  /** One iteration of the loop over the packets. */
  function Step(m: Table, p: NetworkPacket): Table {
    PushAll(AfterFin(AfterSyn(m, p), p), p)
  }

  /** The table after the loop has run over `ps`, starting from an empty table. */
  function Reconstruct(ps: seq<NetworkPacket>): (r: Table)
    ensures r.Keys == SynKeys(ps)
  {
    if ps == [] then map[]
    else
      SynKeysLast(ps);
      Step(Reconstruct(ps[..|ps| - 1]), ps[|ps| - 1])
  }

  function ToSession(k: FlowKey, e: Entry): TCPSession {
    TCPSession(k.sourcePort, k.destinationPort, k.sourceIp, k.destinationIp, e.start, e.end, e.packets)
  }

  /** The final conversion into session records, keyed by flow key (HashMap order is unspecified). */
  function Collect(m: Table): (r: map<FlowKey, TCPSession>)
    ensures r.Keys == m.Keys
  {
    map k | k in m :: ToSession(k, m[k])
  }

  /** What `find_tcp_sessions` returns for `ps`. */
  function SessionsOf(ps: seq<NetworkPacket>): (r: map<FlowKey, TCPSession>)
    ensures r.Keys == SynKeys(ps)
  {
    Collect(Reconstruct(ps))
  }

  /** The forward keys of the SYN packets of `ps`. */
  function SynKeys(ps: seq<NetworkPacket>): set<FlowKey> {
    set i | 0 <= i < |ps| && ps[i].tcpLayer.flags.syn :: ForwardKey(ps[i])
  }

  /** The SYN keys of a sequence are those of its prefix plus the last packet's, if it is a SYN. */
  lemma SynKeysLast(ps: seq<NetworkPacket>)
    requires ps != []
    ensures var q, p := ps[..|ps| - 1], ps[|ps| - 1];
            SynKeys(ps) == SynKeys(q) + (if p.tcpLayer.flags.syn then {ForwardKey(p)} else {})
  {
    var q, p := ps[..|ps| - 1], ps[|ps| - 1];
    forall k | k in SynKeys(q) ensures k in SynKeys(ps) {
      var i :| 0 <= i < |q| && q[i].tcpLayer.flags.syn && ForwardKey(q[i]) == k;
      assert ps[i] == q[i];
    }
    forall k | k in SynKeys(ps) ensures k in SynKeys(q) + (if p.tcpLayer.flags.syn then {ForwardKey(p)} else {}) {
      var i :| 0 <= i < |ps| && ps[i].tcpLayer.flags.syn && ForwardKey(ps[i]) == k;
      if i < |q| {
        assert ps[i] == q[i];
      }
    }
    if p.tcpLayer.flags.syn {
      assert ForwardKey(ps[|ps| - 1]) in SynKeys(ps);
    }
  }

  // ---------------------------------------------------------- the algorithm

  /** `find_tcp_sessions`: the single pass over the packets, with the table as local state. */
  method FindTcpSessions(packets: seq<NetworkPacket>) returns (sessions: map<FlowKey, TCPSession>)
    ensures sessions == SessionsOf(packets)
    ensures sessions.Keys == SynKeys(packets)
  {
    var table: Table := map[];
    for n := 0 to |packets|
      invariant table == Reconstruct(packets[..n])
    {
      table := ProcessPacket(table, packets[n]);
      assert packets[..n + 1][..n] == packets[..n];
    }
    assert packets[..|packets|] == packets;
    sessions := map k | k in table :: ToSession(k, table[k]);
  }

  /** The body of the loop over the packets: the SYN branch, the FIN branch, then the push onto every entry. */
  method ProcessPacket(table: Table, packet: NetworkPacket) returns (next: Table)
    ensures next == Step(table, packet)
  {
    next := table;
    if packet.tcpLayer.flags.syn {
      var key := ForwardKey(packet);
      var entry := if key in next then next[key] else Entry(packet.timestamp, None, []);
      next := next[key := entry.(packets := entry.packets + [packet])];
    }
    if packet.tcpLayer.flags.fin {
      var key := ReverseKey(packet);
      if key in next {
        var entry := next[key];
        next := next[key := entry.(end := Some(packet.timestamp), packets := entry.packets + [packet])];
      }
    }
    assert next == AfterFin(AfterSyn(table, packet), packet);
    ghost var before := next;
    var pending := next.Keys;
    while pending != {}
      invariant pending <= before.Keys && next.Keys == before.Keys
      invariant forall k :: k in before ==> next[k] == if k in pending then before[k]
                                                           else before[k].(packets := before[k].packets + [packet])
      decreases pending
    {
      var k :| k in pending;
      next := next[k := next[k].(packets := next[k].packets + [packet])];
      pending := pending - {k};
    }
    assert next == PushAll(before, packet);
  }

  // ------------------------------------------------- reference definitions

  /** The index of the first SYN of `ps` with forward key `k`, if any. */
  function FirstOpen(ps: seq<NetworkPacket>, k: FlowKey): (r: Option<nat>)
    ensures r.Some? ==> r.value < |ps| && Opens(ps[r.value], k)
                        && forall j :: 0 <= j < r.value ==> !Opens(ps[j], k)
    ensures r.None? ==> forall j :: 0 <= j < |ps| ==> !Opens(ps[j], k)
  {
    if ps == [] then None
    else
      match FirstOpen(ps[..|ps| - 1], k)
      case Some(c) => Some(c)
      case None => if Opens(ps[|ps| - 1], k) then Some(|ps| - 1) else None
  }

  /** The index of the last FIN at or after `c` whose reverse key is `k`, if any. */
  function LastClose(ps: seq<NetworkPacket>, k: FlowKey, c: nat): (r: Option<nat>)
    ensures r.Some? ==> c <= r.value < |ps| && Closes(ps[r.value], k)
                        && forall j :: r.value < j < |ps| ==> !Closes(ps[j], k)
    ensures r.None? ==> forall j :: c <= j < |ps| ==> !Closes(ps[j], k)
  {
    if |ps| <= c then None
    else if Closes(ps[|ps| - 1], k) then Some(|ps| - 1)
    else LastClose(ps[..|ps| - 1], k, c)
  }

  /** The packets an existing session for `k` receives while `p` is processed. */
  function Contribution(p: NetworkPacket, k: FlowKey): seq<NetworkPacket> {
    (if Opens(p, k) then [p] else []) + (if Closes(p, k) then [p] else []) + [p]
  }

  /** The contributions of the packets from index `c` on, in input order. */
  function Trail(ps: seq<NetworkPacket>, k: FlowKey, c: nat): seq<NetworkPacket> {
    if |ps| <= c then [] else Trail(ps[..|ps| - 1], k, c) + Contribution(ps[|ps| - 1], k)
  }

  /** The input index of every element of `Trail(ps, k, c)`. */
  function TrailIndices(ps: seq<NetworkPacket>, k: FlowKey, c: nat): seq<nat> {
    if |ps| <= c then []
    else
      var i := |ps| - 1;
      TrailIndices(ps[..i], k, c) + ContributionIndices(ps[i], k, i)
  }

  /** The number of packets with index at least `c` satisfying `Opens` (resp. `Closes`) for `k`. */
  function CountOpens(ps: seq<NetworkPacket>, k: FlowKey, c: nat): nat {
    if |ps| <= c then 0 else CountOpens(ps[..|ps| - 1], k, c) + (if Opens(ps[|ps| - 1], k) then 1 else 0)
  }

  function CountCloses(ps: seq<NetworkPacket>, k: FlowKey, c: nat): nat {
    if |ps| <= c then 0 else CountCloses(ps[..|ps| - 1], k, c) + (if Closes(ps[|ps| - 1], k) then 1 else 0)
  }

  /** The end time of a session for `k` opened at `c`: that of the last matching FIN. */
  function EndOf(ps: seq<NetworkPacket>, k: FlowKey, c: nat): Option<Timestamp> {
    match LastClose(ps, k, c)
    case None => None
    case Some(j) => Some(ps[j].timestamp)
  }

  /** The entry the reference definitions predict for `k`, opened at `c`. */
  function Expected(ps: seq<NetworkPacket>, k: FlowKey, c: nat): Entry
    requires c < |ps|
  {
    Entry(ps[c].timestamp, EndOf(ps, k, c), Trail(ps, k, c))
  }

  // ------------------------------------------------------------ flow keys

  /** The reverse key is the swapped forward key, and swapping twice gives the key back. */
  lemma ReverseKeyIsSwapped(p: NetworkPacket, k: FlowKey)
    ensures ReverseKey(p) == Swapped(ForwardKey(p))
    ensures Swapped(Swapped(k)) == k
  {
  }

  /** A FIN sent back along a SYN's flow is looked up under exactly that SYN's key. */
  lemma MirroredFinMatchesSyn(syn: NetworkPacket, fin: NetworkPacket)
    requires fin.tcpLayer.sourcePort == syn.tcpLayer.destinationPort
    requires fin.tcpLayer.destinationPort == syn.tcpLayer.sourcePort
    requires fin.ipLayer.sourceIp == syn.ipLayer.destinationIp
    requires fin.ipLayer.destinationIp == syn.ipLayer.sourceIp
    ensures ReverseKey(fin) == ForwardKey(syn)
  {
  }

  // ------------------------------------------------------------- one step

  /** How one iteration changes the entry of one key. */
  lemma StepAt(m: Table, p: NetworkPacket, k: FlowKey)
    ensures k in Step(m, p) <==> k in m || Opens(p, k)
    ensures k in m ==> Step(m, p)[k] == Entry(m[k].start, if Closes(p, k) then Some(p.timestamp) else m[k].end,
                                              m[k].packets + Contribution(p, k))
    ensures k !in m && Opens(p, k) ==> Step(m, p)[k] == Entry(p.timestamp, if Closes(p, k) then Some(p.timestamp) else None,
                                                              Contribution(p, k))
  {
    var m1 := AfterSyn(m, p);
    var m2 := AfterFin(m1, p);
    assert k in m1 <==> k in m || Opens(p, k);
    if k in m1 {
      var e1 := if k in m then m[k] else Entry(p.timestamp, None, []);
      assert m1[k] == if Opens(p, k) then e1.(packets := e1.packets + [p]) else e1;
      assert m2[k] == if Closes(p, k) then m1[k].(end := Some(p.timestamp), packets := m1[k].packets + [p]) else m1[k];
    }
  }

  /**
   * Entries are never removed and only grow: every existing session keeps
   * its start time and receives the packet as its new last element.
   */
  lemma StepOnlyAppends(m: Table, p: NetworkPacket)
    ensures m.Keys <= Step(m, p).Keys
    ensures forall k :: k in m ==>
              Step(m, p)[k].start == m[k].start
              && |Step(m, p)[k].packets| > |m[k].packets|
              && Step(m, p)[k].packets[..|m[k].packets|] == m[k].packets
              && Step(m, p)[k].packets[|Step(m, p)[k].packets| - 1] == p
  {
    forall k | k in m
      ensures k in Step(m, p)
      ensures Step(m, p)[k].start == m[k].start
      ensures |Step(m, p)[k].packets| > |m[k].packets|
      ensures Step(m, p)[k].packets[..|m[k].packets|] == m[k].packets
      ensures Step(m, p)[k].packets[|Step(m, p)[k].packets| - 1] == p
    {
      StepAt(m, p, k);
    }
  }

  /** A FIN (without SYN) that matches no entry only takes part in the push onto every session. */
  lemma UnmatchedFin(m: Table, p: NetworkPacket)
    requires !p.tcpLayer.flags.syn && p.tcpLayer.flags.fin && ReverseKey(p) !in m
    ensures Step(m, p) == PushAll(m, p)
  {
  }

  // ------------------------------------------------- the whole pass

  /**
   * The table after the pass holds an entry for `k` exactly when some SYN
   * opens `k`, and that entry is the one the reference definitions predict
   * from the first such SYN.
   */
  lemma {:induction false} ReconstructMatchesReference(ps: seq<NetworkPacket>, k: FlowKey)
    ensures k in Reconstruct(ps) <==> FirstOpen(ps, k).Some?
    ensures k in Reconstruct(ps) ==> Reconstruct(ps)[k] == Expected(ps, k, FirstOpen(ps, k).value)
  {
    if ps != [] {
      var q, p := ps[..|ps| - 1], ps[|ps| - 1];
      ReconstructMatchesReference(q, k);
      StepAt(Reconstruct(q), p, k);
      match FirstOpen(q, k)
      case Some(c) =>
        assert ps[c] == q[c];
        assert Trail(ps, k, c) == Trail(q, k, c) + Contribution(p, k);
      case None =>
        if Opens(p, k) {
          assert Trail(q, k, |q|) == [];
          assert Trail(ps, k, |q|) == Contribution(p, k);
          assert LastClose(q, k, |q|) == None;
        }
    }
  }

  /** No input, no sessions. */
  lemma EmptyInput()
    ensures SessionsOf([]) == map[]
  {
  }

  /** A session's key, start time and end time, as the first SYN and the last matching FIN give them. */
  lemma SessionFields(ps: seq<NetworkPacket>, k: FlowKey)
    requires k in SessionsOf(ps)
    ensures FirstOpen(ps, k).Some?
    ensures var s, c := SessionsOf(ps)[k], FirstOpen(ps, k).value;
            && s.sourcePort == k.sourcePort && s.destinationPort == k.destinationPort
            && s.sourceIp == k.sourceIp && s.destinationIp == k.destinationIp
            && s.startTimestamp == ps[c].timestamp
            && s.endTimestamp == EndOf(ps, k, c)
            && s.packets == Trail(ps, k, c)
  {
    ReconstructMatchesReference(ps, k);
  }

  /** The start time is that of the first SYN with the key; later SYNs on the key do not reset it. */
  lemma StartIsFirstSyn(ps: seq<NetworkPacket>, k: FlowKey)
    requires k in SessionsOf(ps)
    ensures exists c :: 0 <= c < |ps| && Opens(ps[c], k) && (forall j :: 0 <= j < c ==> !Opens(ps[j], k))
                        && SessionsOf(ps)[k].startTimestamp == ps[c].timestamp
  {
    SessionFields(ps, k);
    var c := FirstOpen(ps, k).value;
    assert Opens(ps[c], k) && (forall j :: 0 <= j < c ==> !Opens(ps[j], k));
  }

  /**
   * The end time is absent iff no FIN from the opening SYN on has the
   * session's key as its reverse key; otherwise it is the time of the last
   * such FIN, since each one overwrites it.
   */
  lemma EndIsLastFin(ps: seq<NetworkPacket>, k: FlowKey)
    requires k in SessionsOf(ps)
    ensures FirstOpen(ps, k).Some?
    ensures var s, c := SessionsOf(ps)[k], FirstOpen(ps, k).value;
            && (s.endTimestamp.None? <==> forall j :: c <= j < |ps| ==> !Closes(ps[j], k))
            && (s.endTimestamp.Some? ==>
                  exists j :: c <= j < |ps| && Closes(ps[j], k) && s.endTimestamp.value == ps[j].timestamp
                              && forall j' :: j < j' < |ps| ==> !Closes(ps[j'], k))
  {
    SessionFields(ps, k);
    var c := FirstOpen(ps, k).value;
    match LastClose(ps, k, c)
    case None =>
    case Some(j) =>
      assert c <= j < |ps| && Closes(ps[j], k) && forall j' :: j < j' < |ps| ==> !Closes(ps[j'], k);
  }

  /** A SYN followed (at the same index or later) by a FIN sent back along its flow yields a closed session. */
  lemma MirroredFinCloses(ps: seq<NetworkPacket>, i: nat, j: nat)
    requires i <= j < |ps| && ps[i].tcpLayer.flags.syn && ps[j].tcpLayer.flags.fin
    requires ps[j].tcpLayer.sourcePort == ps[i].tcpLayer.destinationPort
    requires ps[j].tcpLayer.destinationPort == ps[i].tcpLayer.sourcePort
    requires ps[j].ipLayer.sourceIp == ps[i].ipLayer.destinationIp
    requires ps[j].ipLayer.destinationIp == ps[i].ipLayer.sourceIp
    ensures ForwardKey(ps[i]) in SessionsOf(ps)
    ensures SessionsOf(ps)[ForwardKey(ps[i])].endTimestamp.Some?
  {
    var k := ForwardKey(ps[i]);
    assert Opens(ps[i], k);
    ReconstructMatchesReference(ps, k);
    SessionFields(ps, k);
    assert Closes(ps[j], k);
  }

  /**
   * A SYN, a plain reply and a FIN sent back along the SYN's flow give one
   * closed session: start and end are the SYN's and the FIN's times, and the
   * list holds the SYN and the FIN twice each (branch push and push onto all).
   */
  lemma SynReplyFin(syn: NetworkPacket, reply: NetworkPacket, fin: NetworkPacket)
    requires syn.tcpLayer.flags.syn && !syn.tcpLayer.flags.fin
    requires !reply.tcpLayer.flags.syn && !reply.tcpLayer.flags.fin
    requires fin.tcpLayer.flags.fin && !fin.tcpLayer.flags.syn
    requires ReverseKey(fin) == ForwardKey(syn)
    ensures var k := ForwardKey(syn);
            SessionsOf([syn, reply, fin])
              == map[k := TCPSession(k.sourcePort, k.destinationPort, k.sourceIp, k.destinationIp,
                                     syn.timestamp, Some(fin.timestamp), [syn, syn, reply, fin, fin])]
  {
    var k := ForwardKey(syn);
    var ps := [syn, reply, fin];
    var e0 := Entry(syn.timestamp, None, [syn]);
    var empty: Table := map[];
    assert [syn][..0] == [] && Reconstruct([]) == empty;
    assert k !in empty;
    var ne := Entry(syn.timestamp, None, []);
    assert ne.(packets := ne.packets + [syn]) == e0;
    assert AfterSyn(empty, syn) == empty[k := ne.(packets := ne.packets + [syn])];
    assert AfterSyn(empty, syn) == map[k := e0];
    assert AfterFin(map[k := e0], syn) == map[k := e0];
    PushOntoOne(k, e0, syn);
    var e1 := e0.(packets := e0.packets + [syn]);
    assert Reconstruct([syn]) == map[k := e1];
    assert ps[..2][..1] == [syn];
    assert AfterFin(AfterSyn(map[k := e1], reply), reply) == map[k := e1];
    PushOntoOne(k, e1, reply);
    var e2 := e1.(packets := e1.packets + [reply]);
    assert ps[..2] == [syn, reply];
    assert Reconstruct(ps[..2]) == map[k := e2];
    var e3 := e2.(end := Some(fin.timestamp), packets := e2.packets + [fin]);
    assert AfterFin(AfterSyn(map[k := e2], fin), fin) == map[k := e3];
    PushOntoOne(k, e3, fin);
    var e4 := e3.(packets := e3.packets + [fin]);
    assert Reconstruct(ps) == map[k := e4];
    assert e4.packets == [syn, syn, reply, fin, fin];
    assert Collect(map[k := e4]) == map[k := ToSession(k, e4)];
  }

  /** The push onto every entry, for a table of one entry. */
  lemma PushOntoOne(k: FlowKey, e: Entry, p: NetworkPacket)
    ensures PushAll(map[k := e], p) == map[k := e.(packets := e.packets + [p])]
  {
  }

  // ------------------------------------------------------ the packet list

  lemma {:induction false} TrailLength(ps: seq<NetworkPacket>, k: FlowKey, c: nat)
    ensures |Trail(ps, k, c)| == (if |ps| <= c then 0 else |ps| - c) + CountOpens(ps, k, c) + CountCloses(ps, k, c)
  {
    if |ps| > c {
      TrailLength(ps[..|ps| - 1], k, c);
    }
  }

  /**
   * A session opened at index c of n packets holds (n - c) packets plus one
   * per SYN and one per matching FIN from c on.
   */
  lemma PacketCount(ps: seq<NetworkPacket>, k: FlowKey)
    requires k in SessionsOf(ps)
    ensures FirstOpen(ps, k).Some?
    ensures var c := FirstOpen(ps, k).value;
            |SessionsOf(ps)[k].packets| == (|ps| - c) + CountOpens(ps, k, c) + CountCloses(ps, k, c)
  {
    SessionFields(ps, k);
    TrailLength(ps, k, FirstOpen(ps, k).value);
  }

  lemma {:induction false} TrailStartsWith(ps: seq<NetworkPacket>, k: FlowKey, c: nat)
    requires c < |ps|
    ensures |Contribution(ps[c], k)| <= |Trail(ps, k, c)|
    ensures Trail(ps, k, c)[..|Contribution(ps[c], k)|] == Contribution(ps[c], k)
  {
    var q := ps[..|ps| - 1];
    if |ps| - 1 == c {
      assert Trail(q, k, c) == [];
    } else {
      TrailStartsWith(q, k, c);
      assert q[c] == ps[c];
    }
  }

  /** Every session's list is non-empty and starts with its opening SYN twice. */
  lemma OpeningSynTwice(ps: seq<NetworkPacket>, k: FlowKey)
    requires k in SessionsOf(ps)
    ensures FirstOpen(ps, k).Some?
    ensures var s, c := SessionsOf(ps)[k], FirstOpen(ps, k).value;
            |s.packets| >= 2 && s.packets[0] == ps[c] && s.packets[1] == ps[c]
  {
    SessionFields(ps, k);
    var c := FirstOpen(ps, k).value;
    TrailStartsWith(ps, k, c);
    var t := Trail(ps, k, c);
    assert t[..|Contribution(ps[c], k)|][0] == t[0] && t[..|Contribution(ps[c], k)|][1] == t[1];
  }

  /** The last contribution's indices: `i` once per push. */
  function ContributionIndices(p: NetworkPacket, k: FlowKey, i: nat): (r: seq<nat>)
    ensures |r| == |Contribution(p, k)| && forall j :: 0 <= j < |r| ==> r[j] == i
  {
    (if Opens(p, k) then [i] else []) + (if Closes(p, k) then [i] else []) + [i]
  }

  /** The indices lie from `c` on, below `|ps|`, and never decrease. */
  lemma {:induction false} TrailIndicesSorted(ps: seq<NetworkPacket>, k: FlowKey, c: nat)
    ensures forall j :: 0 <= j < |TrailIndices(ps, k, c)| ==> c <= TrailIndices(ps, k, c)[j] < |ps|
    ensures forall j1, j2 :: 0 <= j1 <= j2 < |TrailIndices(ps, k, c)| ==> TrailIndices(ps, k, c)[j1] <= TrailIndices(ps, k, c)[j2]
  {
    if |ps| > c {
      var q, i := ps[..|ps| - 1], |ps| - 1;
      TrailIndicesSorted(q, k, c);
      var ai, bi := TrailIndices(q, k, c), ContributionIndices(ps[i], k, i);
      assert TrailIndices(ps, k, c) == ai + bi;
    }
  }

  /** Element j of the trail is the input packet at index j of the indices. */
  lemma {:induction false} TrailIndicesPoint(ps: seq<NetworkPacket>, k: FlowKey, c: nat)
    ensures |TrailIndices(ps, k, c)| == |Trail(ps, k, c)|
    ensures forall j :: 0 <= j < |Trail(ps, k, c)| ==>
              TrailIndices(ps, k, c)[j] < |ps| && Trail(ps, k, c)[j] == ps[TrailIndices(ps, k, c)[j]]
  {
    if |ps| > c {
      var q, i := ps[..|ps| - 1], |ps| - 1;
      TrailIndicesPoint(q, k, c);
      var a, ai := Trail(q, k, c), TrailIndices(q, k, c);
      var b, bi := Contribution(ps[i], k), ContributionIndices(ps[i], k, i);
      assert forall j :: 0 <= j < |b| ==> b[j] == ps[i];
      forall j | 0 <= j < |a| ensures ai[j] < |ps| && a[j] == ps[ai[j]] {
        assert ai[j] < |q| && q[ai[j]] == ps[ai[j]];
      }
      assert Trail(ps, k, c) == a + b;
      assert TrailIndices(ps, k, c) == ai + bi;
    }
  }

  /**
   * The list is in input order: element j is the packet at input index
   * idx[j], the indices lie from the opening SYN on, and they never decrease.
   */
  lemma PacketsInInputOrder(ps: seq<NetworkPacket>, k: FlowKey)
    requires k in SessionsOf(ps)
    ensures FirstOpen(ps, k).Some?
    ensures var s, c, idx := SessionsOf(ps)[k], FirstOpen(ps, k).value, TrailIndices(ps, k, FirstOpen(ps, k).value);
            && |idx| == |s.packets|
            && (forall j :: 0 <= j < |idx| ==> c <= idx[j] < |ps| && s.packets[j] == ps[idx[j]])
            && (forall j1, j2 :: 0 <= j1 <= j2 < |idx| ==> idx[j1] <= idx[j2])
  {
    SessionFields(ps, k);
    TrailIndicesPoint(ps, k, FirstOpen(ps, k).value);
    TrailIndicesSorted(ps, k, FirstOpen(ps, k).value);
  }

  lemma {:induction false} TrailContains(ps: seq<NetworkPacket>, k: FlowKey, c: nat, j: nat)
    requires c <= j < |ps|
    ensures ps[j] in Trail(ps, k, c)
  {
    var q := ps[..|ps| - 1];
    if j < |ps| - 1 {
      TrailContains(q, k, c, j);
      assert q[j] == ps[j];
    } else {
      var b := Contribution(ps[j], k);
      assert b[|b| - 1] == ps[j];
    }
  }

  /**
   * Every packet from a SYN on lands in the session of that SYN's key,
   * whatever its own flow: each session accumulates all later traffic.
   */
  lemma SessionHoldsAllLaterTraffic(ps: seq<NetworkPacket>, i: nat, j: nat)
    requires i <= j < |ps| && ps[i].tcpLayer.flags.syn
    ensures ForwardKey(ps[i]) in SessionsOf(ps)
    ensures ps[j] in SessionsOf(ps)[ForwardKey(ps[i])].packets
  {
    var k := ForwardKey(ps[i]);
    assert Opens(ps[i], k);
    ReconstructMatchesReference(ps, k);
    SessionFields(ps, k);
    TrailContains(ps, k, FirstOpen(ps, k).value, j);
  }
}
