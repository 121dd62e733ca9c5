/** What reaches the wire: the sending threads run beside all the steps of SocketLife, each popping its
    own queue and handling one packet per step. */
module SendPath {
  import opened Text
  import opened SocketLife

  type Bytes = seq<bv8>

  /** A packet without a body asks for a disconnect; one that cannot be printed is dropped. */
  datatype Body = NoBody | Unprintable | Printed(bytes: Bytes)

  datatype Packet = Packet(addrinfo: string, body: Body, closing: bool)

  /** What became of a popped packet: nothing written, all of it, or only its first `sent` bytes. */
  datatype Outcome = Skipped | Whole | Cut(sent: nat)

  datatype Done = Done(packet: Packet, outcome: Outcome)

  datatype State = State(net: Net, pushed: seq<seq<Packet>>, sendq: seq<seq<Packet>>, done: seq<seq<Done>>,
                         wire: map<string, Bytes>)

  datatype Act =
    | Other(m: Move)
    | PushSend(packet: Packet)
    | SendOne(i: nat, accepted: nat)

  function Written(s: State, a: string): Bytes {
    if a in s.wire then s.wire[a] else []
  }

  predicate Sizes(s: State) {
    Sized(s.net) && |s.pushed| == |s.sendq| == |s.done| == |s.net.recv|
  }

  predicate Can(s: State, act: Act) {
    match act
    case Other(m) => !m.SendSide? && Enabled(s.net, m)
    case PushSend(packet) => true
    case SendOne(i, _) => i < |s.sendq| && s.sendq[i] != []
  }

  /** The descriptor the sending thread finds under the packet's address, 0 when there is none. */
  function Lookup(net: Net, a: string): nat {
    if a in net.socketmap && net.socketmap[a] in net.objs then net.objs[net.socketmap[a]].socketfd else 0
  }

  /** `accepted` is how many bytes the socket took before it refused more. */
  function Verdict(net: Net, pk: Packet, accepted: nat): Outcome {
    if !pk.body.Printed? || pk.body.bytes == [] || Lookup(net, pk.addrinfo) == 0 then Skipped
    else if accepted < |pk.body.bytes| then Cut(accepted) else Whole
  }

  /** The part of the packet that was written. */
  function Sent(d: Done): Bytes {
    match d.outcome
    case Skipped => []
    case Whole => if d.packet.body.Printed? then d.packet.body.bytes else []
    case Cut(n) => if d.packet.body.Printed? && n <= |d.packet.body.bytes| then d.packet.body.bytes[..n] else []
  }

  /** What the handling of one packet does to the connections. */
  function AfterSend(net: Net, pk: Packet, out: Outcome): Net
    requires Sized(net)
  {
    var a := pk.addrinfo;
    match out
    case Cut(_) => Next(net, SendSide(SendError, a))
    case Whole =>
      var t := Next(net, SendSide(SendActive, a));
      if pk.closing && Sized(t) then Next(t, SendSide(SendDisconnect, a)) else t
    case Skipped =>
      if pk.body.NoBody? || (pk.body.Printed? && pk.body.bytes == []) then Next(net, SendSide(SendDisconnect, a))
      else if pk.body.Unprintable? then net
      else Next(net, SendSide(SendClosed, a))
  }

  function Do(s: State, act: Act): State
    requires Sizes(s)
  {
    if !Can(s, act) then s else
    match act
    case Other(m) => s.(net := Next(s.net, m))
    case PushSend(pk) =>
      var i := Index(pk.addrinfo, |s.sendq|);
      s.(pushed := s.pushed[i := s.pushed[i] + [pk]], sendq := s.sendq[i := s.sendq[i] + [pk]])
    case SendOne(i, accepted) =>
      var pk := s.sendq[i][0];
      var d := Done(pk, Verdict(s.net, pk, accepted));
      s.(net := AfterSend(s.net, pk, d.outcome), sendq := s.sendq[i := s.sendq[i][1..]],
          done := s.done[i := s.done[i] + [d]],
         wire := s.wire[pk.addrinfo := Written(s, pk.addrinfo) + Sent(d)])
  }

  // ---- the shape of what was written ----

  function Packets(ds: seq<Done>): seq<Packet> {
    if ds == [] then [] else Packets(ds[..|ds| - 1]) + [ds[|ds| - 1].packet]
  }

  /** Everything one thread wrote for one address. */
  function AllSent(ds: seq<Done>, a: string): Bytes {
    if ds == [] then []
    else AllSent(ds[..|ds| - 1], a) + (if ds[|ds| - 1].packet.addrinfo == a then Sent(ds[|ds| - 1]) else [])
  }

  /** The packets written whole for one address, one after the other, in the order they were popped. */
  function Wholes(ds: seq<Done>, a: string): Bytes {
    if ds == [] then []
    else
      var d := ds[|ds| - 1];
      Wholes(ds[..|ds| - 1], a) + (if d.packet.addrinfo == a && d.outcome.Whole? then Sent(d) else [])
  }

  predicate IsCut(d: Done, a: string) {
    d.packet.addrinfo == a && d.outcome.Cut?
  }

  /** After a packet was cut short nothing more was written for its address. */
  ghost predicate CutsLast(ds: seq<Done>) {
    forall j, k | 0 <= j < k < |ds| && ds[j].outcome.Cut? && ds[k].packet.addrinfo == ds[j].packet.addrinfo ::
      ds[k].outcome.Skipped?
  }

  /** Whole packets, then at most one proper beginning of a packet. */
  lemma {:induction false} WholePacketsThenOnePart(ds: seq<Done>, a: string)
    requires CutsLast(ds)
    ensures (forall j | 0 <= j < |ds| :: !IsCut(ds[j], a)) ==> AllSent(ds, a) == Wholes(ds, a)
    ensures forall j | 0 <= j < |ds| && IsCut(ds[j], a) :: AllSent(ds, a) == Wholes(ds, a) + Sent(ds[j])
  {
    if ds != [] {
      WholePacketsThenOnePart(ds[..|ds| - 1], a);
      if forall j | 0 <= j < |ds| :: !IsCut(ds[j], a) {
        assert forall j | 0 <= j < |ds| - 1 :: ds[..|ds| - 1][j] == ds[j];
      } else {
        forall j | 0 <= j < |ds| && IsCut(ds[j], a) ensures AllSent(ds, a) == Wholes(ds, a) + Sent(ds[j]) {
          CutAt(ds, a, j);
        }
      }
    }
  }

  lemma CutAt(ds: seq<Done>, a: string, j: nat)
    requires CutsLast(ds) && j < |ds| && IsCut(ds[j], a)
    requires
      var r := ds[..|ds| - 1];
      && ((forall i | 0 <= i < |r| :: !IsCut(r[i], a)) ==> AllSent(r, a) == Wholes(r, a))
      && forall i | 0 <= i < |r| && IsCut(r[i], a) :: AllSent(r, a) == Wholes(r, a) + Sent(r[i])
    ensures AllSent(ds, a) == Wholes(ds, a) + Sent(ds[j])
  {
    var n := |ds| - 1;
    var r := ds[..n];
    if j < n {
      assert r[j] == ds[j] && IsCut(r[j], a);
      assert ds[n].packet.addrinfo == a ==> Sent(ds[n]) == [];
    } else {
      assert forall i | 0 <= i < n :: r[i] == ds[i] && !IsCut(r[i], a);
    }
  }

  // ---- the invariant ----

  ghost predicate QueuesRight(s: State)
    requires Sizes(s)
  {
    && (forall i | 0 <= i < |s.done| :: Packets(s.done[i]) + s.sendq[i] == s.pushed[i])
    && (forall i, j | 0 <= i < |s.sendq| && 0 <= j < |s.sendq[i]| :: Index(s.sendq[i][j].addrinfo, |s.sendq|) == i)
  }

  ghost predicate WireRight(s: State)
    requires Sizes(s)
  {
    forall a :: Written(s, a) == AllSent(s.done[Index(a, |s.done|)], a)
  }

  ghost predicate CutsRight(s: State) {
    && (forall i | 0 <= i < |s.done| :: CutsLast(s.done[i]))
    && (forall i, j | 0 <= i < |s.done| && 0 <= j < |s.done[i]| && s.done[i][j].outcome.Cut? ::
          && ProperCut(s.done[i][j])
          && s.done[i][j].packet.addrinfo in s.net.used
          && s.done[i][j].packet.addrinfo !in OpenAddrs(s.net))
  }

  /** A cut packet lost at least one byte. */
  predicate ProperCut(d: Done) {
    d.outcome.Cut? && d.packet.body.Printed? && d.outcome.sent < |d.packet.body.bytes|
  }

  ghost predicate WInv(s: State) {
    Sizes(s) && Inv(s.net) && QueuesRight(s) && WireRight(s) && CutsRight(s)
  }

  lemma OtherKeeps(s: State, m: Move)
    requires WInv(s)
    ensures WInv(s.(net := Next(s.net, m)))
  {
    MoveKeeps(s.net, m);
    var t := s.(net := Next(s.net, m));
    SameSize(s.net, m);
    forall i, j | 0 <= i < |t.done| && 0 <= j < |t.done[i]| && t.done[i][j].outcome.Cut?
      ensures ProperCut(t.done[i][j])
      ensures t.done[i][j].packet.addrinfo in t.net.used && t.done[i][j].packet.addrinfo !in OpenAddrs(t.net)
    {
      NeverReopens(s.net, m, s.done[i][j].packet.addrinfo);
    }
    assert WireRight(t) by {
      forall a ensures Written(t, a) == AllSent(t.done[Index(a, |t.done|)], a) {
        assert Written(t, a) == Written(s, a);
      }
    }
  }

  lemma AfterSendKeeps(net: Net, pk: Packet, out: Outcome)
    requires Inv(net)
    ensures Inv(AfterSend(net, pk, out)) && |AfterSend(net, pk, out).recv| == |net.recv|
    ensures forall a | a in net.used && a !in OpenAddrs(net) ::
      a in AfterSend(net, pk, out).used && a !in OpenAddrs(AfterSend(net, pk, out))
  {
    hide Next, Inv, OpenAddrs;
    var a := pk.addrinfo;
    SideKeeps(net, SendError, a);
    SideKeeps(net, SendDisconnect, a);
    SideKeeps(net, SendClosed, a);
    SideKeeps(net, SendActive, a);
    SideKeeps(Next(net, SendSide(SendActive, a)), SendDisconnect, a);
  }

  lemma SideKeeps(net: Net, kind: Kind, a: string)
    requires Inv(net)
    ensures Inv(Next(net, SendSide(kind, a))) && |Next(net, SendSide(kind, a)).recv| == |net.recv|
    ensures forall b | b in net.used && b !in OpenAddrs(net) ::
      b in Next(net, SendSide(kind, a)).used && b !in OpenAddrs(Next(net, SendSide(kind, a)))
    ensures Sized(net) && Sized(Next(net, SendSide(kind, a)))
  {
    MoveKeeps(net, SendSide(kind, a));
    SameSize(net, SendSide(kind, a));
    forall b | b in net.used && b !in OpenAddrs(net)
      ensures b in Next(net, SendSide(kind, a)).used && b !in OpenAddrs(Next(net, SendSide(kind, a)))
    {
      NeverReopens(net, SendSide(kind, a), b);
    }
  }

  /** Bytes are only written on a connection that is open, and a cut closes it. */
  lemma CutCloses(net: Net, pk: Packet, accepted: nat)
    requires Inv(net)
    ensures !Verdict(net, pk, accepted).Skipped? ==> pk.addrinfo in OpenAddrs(net) && pk.addrinfo in net.used
    ensures Verdict(net, pk, accepted).Cut? ==> ProperCut(Done(pk, Verdict(net, pk, accepted)))
    ensures Verdict(net, pk, accepted).Cut? ==>
      var t := AfterSend(net, pk, Verdict(net, pk, accepted));
      pk.addrinfo in t.used && pk.addrinfo !in OpenAddrs(t)
  {
    if !Verdict(net, pk, accepted).Skipped? {
      var p := net.socketmap[pk.addrinfo];
      assert p in net.objs && !net.objs[p].closed && net.objs[p].addrinfo == pk.addrinfo;
      CloseByOpen(net, SendError, pk.addrinfo);
    }
  }

  lemma SendFields(s: State, i: nat, accepted: nat)
    requires WInv(s) && Can(s, SendOne(i, accepted))
    ensures
      var t := Do(s, SendOne(i, accepted));
      var pk := s.sendq[i][0];
      var d := Done(pk, Verdict(s.net, pk, accepted));
      && Index(pk.addrinfo, |s.done|) == i
      && t.pushed == s.pushed && t.sendq == s.sendq[i := s.sendq[i][1..]] && t.done == s.done[i := s.done[i] + [d]]
      && t.wire == s.wire[pk.addrinfo := Written(s, pk.addrinfo) + Sent(d)]
      && t.net == AfterSend(s.net, pk, d.outcome)
  {
  }

  /** Popping the front of a send queue and recording it keeps log and queue adding up. */
  lemma PopFront(ds: seq<Done>, q: seq<Packet>, d: Done, pushed: seq<Packet>)
    requires q != [] && d.packet == q[0] && Packets(ds) + q == pushed
    ensures Packets(ds + [d]) + q[1..] == pushed
  {
    assert q == [q[0]] + q[1..];
  }

  lemma SendQueues(s: State, i: nat, accepted: nat)
    requires WInv(s) && Can(s, SendOne(i, accepted)) && Sizes(Do(s, SendOne(i, accepted)))
    ensures QueuesRight(Do(s, SendOne(i, accepted)))
  {
    SendFields(s, i, accepted);
    var t := Do(s, SendOne(i, accepted));
    var d := Done(s.sendq[i][0], Verdict(s.net, s.sendq[i][0], accepted));
    PopFront(s.done[i], s.sendq[i], d, s.pushed[i]);
    hide AfterSend, Do, Inv, CutsRight, WireRight, Verdict, Packets, WInv, Can;
    forall k | 0 <= k < |t.done| ensures Packets(t.done[k]) + t.sendq[k] == t.pushed[k] {
      assert k != i ==> t.done[k] == s.done[k] && t.sendq[k] == s.sendq[k];
    }
    forall k, j | 0 <= k < |t.sendq| && 0 <= j < |t.sendq[k]| ensures Index(t.sendq[k][j].addrinfo, |t.sendq|) == k {
      assert k == i ==> t.sendq[k][j] == s.sendq[k][j + 1];
    }
  }

  lemma SendWireAt(s: State, i: nat, accepted: nat, a: string)
    requires WInv(s) && Can(s, SendOne(i, accepted)) && Sizes(Do(s, SendOne(i, accepted)))
    ensures
      var t := Do(s, SendOne(i, accepted));
      Written(t, a) == AllSent(t.done[Index(a, |t.done|)], a)
  {
    SendFields(s, i, accepted);
    var t := Do(s, SendOne(i, accepted));
    var pk := s.sendq[i][0];
    var d := Done(pk, Verdict(s.net, pk, accepted));
    hide WInv, Do, Verdict, Can;
    WireGrows(s, t, i, d, a);
  }

  lemma WireGrows(s: State, t: State, i: nat, d: Done, a: string)
    requires |s.done| > 0 && i < |s.done| && Index(d.packet.addrinfo, |s.done|) == i
    requires t.done == s.done[i := s.done[i] + [d]]
    requires t.wire == s.wire[d.packet.addrinfo := Written(s, d.packet.addrinfo) + Sent(d)]
    requires Written(s, a) == AllSent(s.done[Index(a, |s.done|)], a)
    ensures Written(t, a) == AllSent(t.done[Index(a, |t.done|)], a)
  {
    var n := Index(a, |s.done|);
    hide AllSent, Sent, Index;
    if n == i {
      assert t.done[n] == s.done[i] + [d];
    } else {
      assert t.done[n] == s.done[n] && a != d.packet.addrinfo;
    }
  }

  lemma SendWire(s: State, i: nat, accepted: nat)
    requires WInv(s) && Can(s, SendOne(i, accepted)) && Sizes(Do(s, SendOne(i, accepted)))
    ensures WireRight(Do(s, SendOne(i, accepted)))
  {
    var t := Do(s, SendOne(i, accepted));
    forall a ensures Written(t, a) == AllSent(t.done[Index(a, |t.done|)], a) {
      hide Do, WInv, AllSent, Written;
      SendWireAt(s, i, accepted, a);
    }
  }

  lemma SendCuts(s: State, i: nat, accepted: nat)
    requires WInv(s) && Can(s, SendOne(i, accepted))
    ensures CutsRight(Do(s, SendOne(i, accepted)))
  {
    var t := Do(s, SendOne(i, accepted));
    var pk := s.sendq[i][0];
    CutCloses(s.net, pk, accepted);
    AfterSendKeeps(s.net, pk, Verdict(s.net, pk, accepted));
    SendFields(s, i, accepted);
    hide AfterSend, Inv, Verdict, OpenAddrs, Do, QueuesRight, WireRight, Index, Written, Sent, Can;
    assert CutsLast(t.done[i]);
  }

  lemma SendKeeps(s: State, i: nat, accepted: nat)
    requires WInv(s) && Can(s, SendOne(i, accepted))
    ensures WInv(Do(s, SendOne(i, accepted)))
  {
    var pk := s.sendq[i][0];
    AfterSendKeeps(s.net, pk, Verdict(s.net, pk, accepted));
    hide AfterSend, Inv, Verdict;
    SendQueues(s, i, accepted);
    SendWire(s, i, accepted);
    SendCuts(s, i, accepted);
  }

  lemma DoKeeps(s: State, act: Act)
    requires WInv(s)
    ensures WInv(Do(s, act))
  {
    match act {
      case Other(m) => if Can(s, act) { OtherKeeps(s, m); }
      case PushSend(pk) =>
      case SendOne(i, accepted) => if Can(s, act) { SendKeeps(s, i, accepted); }
    }
  }

  predicate Begin(s: State) {
    && Sizes(s) && Initial(s.net) && s.wire == map[]
    && forall i | 0 <= i < |s.done| :: s.done[i] == [] && s.sendq[i] == [] && s.pushed[i] == []
  }

  ghost predicate IsTrace(states: seq<State>, acts: seq<Act>) {
    && |states| == |acts| + 1 && Begin(states[0])
    && (forall i | 0 <= i < |states| :: Sizes(states[i]))
    && forall i | 0 <= i < |acts| :: states[i + 1] == Do(states[i], acts[i])
  }

  lemma {:induction false} TraceInv(states: seq<State>, acts: seq<Act>, i: nat)
    requires IsTrace(states, acts) && i < |states|
    ensures WInv(states[i])
  {
    hide Do, WInv, Begin;
    if i == 0 {
      BeginInv(states[0]);
    } else {
      TraceInv(states, acts, i - 1);
      DoKeeps(states[i - 1], acts[i - 1]);
    }
  }

  lemma BeginInv(s: State)
    requires Begin(s)
    ensures WInv(s)
  {
    InitialInv(s.net);
    hide Inv, Initial;
  }

  /** On every connection, at every moment of every interleaving: the bytes written are the packets
      written whole, in the order they were pushed, and then at most one proper beginning of a packet,
      after which nothing more is written. */
  lemma BytesOnTheWire(states: seq<State>, acts: seq<Act>, i: nat, a: string)
    requires IsTrace(states, acts) && i < |states|
    ensures
      var n := Index(a, |states[i].done|);
      var ds := states[i].done[n];
      && Packets(ds) <= states[i].pushed[n]
      && CutsLast(ds)
      && (Written(states[i], a) == Wholes(ds, a)
          || exists j ::
               && 0 <= j < |ds| && IsCut(ds[j], a) && ProperCut(ds[j])
               && Written(states[i], a) == Wholes(ds, a) + Sent(ds[j]))
  {
    TraceInv(states, acts, i);
    var n := Index(a, |states[i].done|);
    var ds := states[i].done[n];
    assert Packets(ds) + states[i].sendq[n] == states[i].pushed[n];
    WholePacketsThenOnePart(ds, a);
    if exists j :: 0 <= j < |ds| && IsCut(ds[j], a) {
      var j :| 0 <= j < |ds| && IsCut(ds[j], a);
      assert Written(states[i], a) == Wholes(ds, a) + Sent(ds[j]);
    }
  }

  // ---- what the handling of one packet does ----

  /** A packet that is pushed waits behind the others of its thread, the one its address selects, and nothing else
      changes; and no step but a send takes one out or writes. */
  lemma PushWaits(s: State, pk: Packet)
    requires WInv(s)
    ensures
      var t, q := Do(s, PushSend(pk)), Atoi(pk.addrinfo) % |s.sendq|;
      && t.net == s.net && t.wire == s.wire && t.done == s.done
      && t.sendq == s.sendq[q := s.sendq[q] + [pk]] && t.pushed == s.pushed[q := s.pushed[q] + [pk]]
    ensures forall m: Move | !m.SendSide? && Enabled(s.net, m) ::
      Do(s, Other(m)) == State(Next(s.net, m), s.pushed, s.sendq, s.done, s.wire)
  {
    hide Next, Enabled;
  }

  /** There is something to write, and a connection to write it to. */
  ghost predicate Writable(net: Net, pk: Packet) {
    && pk.body.Printed? && pk.body.bytes != []
    && pk.addrinfo in net.socketmap && net.socketmap[pk.addrinfo] in net.objs
    && net.objs[net.socketmap[pk.addrinfo]].socketfd != 0
  }

  function Min(a: nat, b: nat): nat {
    if a <= b then a else b
  }

  /** A packet that can be written is: as much of it as the socket takes goes out behind what was written before, on no
      other connection, and nothing goes out if and only if the packet cannot be written or the socket takes nothing. */
  lemma WritesThePacket(s: State, i: nat, accepted: nat)
    requires WInv(s) && i < |s.sendq| && s.sendq[i] != []
    ensures
      var pk, t := s.sendq[i][0], Do(s, SendOne(i, accepted));
      && t.sendq == s.sendq[i := s.sendq[i][1..]] && t.pushed == s.pushed
      && (forall b | b != pk.addrinfo :: Written(t, b) == Written(s, b))
      && (Writable(s.net, pk) ==>
            Written(t, pk.addrinfo) ==
              Written(s, pk.addrinfo) + pk.body.bytes[..Min(accepted, |pk.body.bytes|)])
      && (Written(t, pk.addrinfo) == Written(s, pk.addrinfo) <==> !Writable(s.net, pk) || accepted == 0)
  {
    var pk := s.sendq[i][0];
    if Writable(s.net, pk) {
      assert pk.body.bytes[..|pk.body.bytes|] == pk.body.bytes;
      var w := pk.body.bytes[..Min(accepted, |pk.body.bytes|)];
      assert |Written(s, pk.addrinfo) + w| == |Written(s, pk.addrinfo)| + |w|;
    }
  }

  lemma ClosesAs(net: Net, kind: Kind, a: string)
    requires Inv(net) && Terminal(kind)
    ensures
      var there := a in net.socketmap;
      Reported(net, Next(net, SendSide(kind, a)), a, if there then [kind] else [], there)
  {
    ConnectionStep(net, SendSide(kind, a));
    hide Next, Reported, Inv;
  }

  lemma StaysActive(net: Net, a: string)
    requires Inv(net)
    ensures Reported(net, Next(net, SendSide(SendActive, a)), a, [SendActive], false)
  {
    ConnectionStep(net, SendSide(SendActive, a));
    hide Next, Reported, Inv;
  }

  lemma ActiveThenGone(net: Net, t: Net, u: Net, a: string)
    requires Sized(net) && Reported(net, t, a, [SendActive], false) && Sized(t) && a in net.socketmap
    requires Reported(t, u, a, [SendDisconnect], true)
    ensures Reported(net, u, a, [SendActive, SendDisconnect], true)
  {
    var q := Atoi(a) % |net.recv|;
    assert Events([SendActive, SendDisconnect], a) == Events([SendActive], a) + Events([SendDisconnect], a);
    assert net.recv[q] + Events([SendActive, SendDisconnect], a)
        == (net.recv[q] + Events([SendActive], a)) + Events([SendDisconnect], a);
  }

  /** What is reported. No body and an empty one ask for a disconnect; one that cannot be printed is dropped without a
      word; a connection without a descriptor is closed; a whole write is reported, and closes when the packet asks
      for it; a write that breaks off is an error. Reports that close reach only a connection still in the map. */
  lemma ReportsThePacket(s: State, i: nat, accepted: nat)
    requires WInv(s) && i < |s.sendq| && s.sendq[i] != []
    ensures
      var pk, t := s.sendq[i][0], Do(s, SendOne(i, accepted)).net;
      var a, there := pk.addrinfo, pk.addrinfo in s.net.socketmap;
      if pk.body.NoBody? || (pk.body.Printed? && pk.body.bytes == []) then
        Reported(s.net, t, a, if there then [SendDisconnect] else [], there)
      else if pk.body.Unprintable? then t == s.net
      else if !Writable(s.net, pk) then Reported(s.net, t, a, if there then [SendClosed] else [], there)
      else if accepted < |pk.body.bytes| then Reported(s.net, t, a, [SendError], true)
      else Reported(s.net, t, a, if pk.closing then [SendActive, SendDisconnect] else [SendActive], pk.closing)
  {
    var pk := s.sendq[i][0];
    var a := pk.addrinfo;
    SendFields(s, i, accepted);
    ClosesAs(s.net, SendDisconnect, a);
    ClosesAs(s.net, SendClosed, a);
    ClosesAs(s.net, SendError, a);
    StaysActive(s.net, a);
    assert Writable(s.net, pk) <==> pk.body.Printed? && pk.body.bytes != [] && Lookup(s.net, a) != 0;
    var u := Next(s.net, SendSide(SendActive, a));
    SideKeeps(s.net, SendActive, a);
    ClosesAs(u, SendDisconnect, a);
    hide Next, Inv, WInv, Do;
    if Writable(s.net, pk) && accepted >= |pk.body.bytes| && pk.closing {
      assert u.socketmap == s.net.socketmap by { hide Writable; }
      hide Reported;
      ActiveThenGone(s.net, u, Next(u, SendSide(SendDisconnect, a)), a);
    }
  }
}
