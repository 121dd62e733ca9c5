/** What the receive queues carry: the receiving threads read and cut blocks beside all the other steps of
    SocketLife. Every packet in a receive queue has a payload, empty unless it is a received message. */
module ReceivePath {
  import opened SocketLife
  import opened Text

  type Bytes = seq<bv8>

  /** `data` holds the payloads of the receive queues, event by event; `rest` is m_recvbuffer, and `got` everything
      recv returned, both by printed address. */
  datatype State = State(net: Net, data: seq<seq<Bytes>>, rest: map<string, Bytes>, got: map<string, Bytes>)

  /** Receive is one recv of some bytes into the buffer of a work-list object; Cut takes one complete block, of the
      length the parser found, from the front of the buffer and queues it. */
  datatype Act =
    | Other(m: Move)
    | Receive(i: nat, k: nat, input: Bytes)
    | Cut(i: nat, k: nat, packetlen: nat)

  function At(m: map<string, Bytes>, a: string): Bytes {
    if a in m then m[a] else []
  }

  predicate Sizes(s: State) {
    Sized(s.net) && |s.data| == |s.net.recv| && forall i | 0 <= i < |s.data| :: |s.data[i]| == |s.net.recv[i]|
  }

  /** The object at a place of a work list. */
  predicate Holds(net: Net, i: nat, k: nat) {
    InWork(net, i, k) && net.work[i][k] in net.objs
  }

  predicate Can(s: State, act: Act) {
    match act
    case Other(m) => !m.ReadMessage? && Enabled(s.net, m)
    case Receive(i, k, _) => Holds(s.net, i, k)
    case Cut(i, k, n) => Holds(s.net, i, k) && 0 < n <= |At(s.rest, s.net.objs[s.net.work[i][k]].addrinfo)|
  }

  /** Events queued since then have no payload. */
  function Padded(d: seq<Bytes>, n: nat): (r: seq<Bytes>)
    ensures |d| <= n ==> |r| == n && r[..|d|] == d && forall i | |d| <= i < n :: r[i] == []
  {
    if |d| <= n then d + seq(n - |d|, _ => []) else d
  }

  function Do(s: State, act: Act): State
    requires Sizes(s)
  {
    if !Can(s, act) then s else
    match act
    case Other(m) =>
      var t := Next(s.net, m);
      s.(net := t,
         data := seq(|s.data|, i requires 0 <= i < |s.data| =>
           Padded(s.data[i], if i < |t.recv| then |t.recv[i]| else 0)))
    case Receive(i, k, input) =>
      var a := s.net.objs[s.net.work[i][k]].addrinfo;
      s.(rest := s.rest[a := At(s.rest, a) + input], got := s.got[a := At(s.got, a) + input])
    case Cut(i, k, n) =>
      var a := s.net.objs[s.net.work[i][k]].addrinfo;
      var q := Index(a, |s.data|);
      s.(net := Next(s.net, ReadMessage(i, k)),
         data := s.data[q := s.data[q] + [At(s.rest, a)[..n]]],
         rest := s.rest[a := At(s.rest, a)[n..]])
  }

  predicate IsMessage(e: Event, a: string) {
    e.kind.RecvMessage? && e.addrinfo == a
  }

  /** The payloads of the messages of one address, in queue order. */
  function Messages(q: seq<Event>, d: seq<Bytes>, a: string): seq<Bytes>
    requires |q| == |d|
  {
    if q == [] then []
    else
      var n := |q| - 1;
      Messages(q[..n], d[..n], a) + (if IsMessage(q[n], a) then [d[n]] else [])
  }

  ghost predicate NoMessage(q: seq<Event>, a: string) {
    forall j | 0 <= j < |q| :: !IsMessage(q[j], a)
  }

  ghost predicate BytesRight(s: State, a: string)
    requires Sizes(s)
  {
    var n := Index(a, |s.data|);
    && At(s.got, a) == Joined(Messages(s.net.recv[n], s.data[n], a)) + At(s.rest, a)
    && forall i | 0 <= i < |s.data| && i != n :: NoMessage(s.net.recv[i], a)
  }

  ghost predicate RInv(s: State) {
    Sizes(s) && Inv(s.net) && forall a :: BytesRight(s, a)
  }

  lemma JoinedSnoc(bs: seq<Bytes>, b: Bytes)
    ensures Joined(bs + [b]) == Joined(bs) + b
  {
    assert (bs + [b])[..|bs|] == bs;
  }

  /** Longer queues whose new events are no messages. */
  ghost predicate GrowsBy(q: seq<Event>, r: seq<Event>) {
    q <= r && forall j | |q| <= j < |r| :: !r[j].kind.RecvMessage?
  }

  lemma {:induction false} MessagesPadded(q: seq<Event>, r: seq<Event>, d: seq<Bytes>, a: string)
    requires |q| == |d| && GrowsBy(q, r)
    ensures Messages(r, Padded(d, |r|), a) == Messages(q, d, a)
    ensures NoMessage(q, a) ==> NoMessage(r, a)
    decreases |r|
  {
    if r == q {
      assert Padded(d, |r|) == d;
    } else {
      var n := |r| - 1;
      assert GrowsBy(q, r[..n]);
      MessagesPadded(q, r[..n], d, a);
      assert Padded(d, |r|)[..n] == Padded(d, n);
    }
  }

  lemma QueuedGrows(s: Net, kind: Kind, a: string)
    requires Sized(s) && !kind.RecvMessage?
    ensures |Queued(s, kind, a).recv| == |s.recv|
    ensures forall i | 0 <= i < |s.recv| :: GrowsBy(s.recv[i], Queued(s, kind, a).recv[i])
  {
  }

  lemma CloseByGrows(s: Net, kind: Kind, a: string)
    requires Sized(s) && !kind.RecvMessage?
    ensures |CloseBy(s, kind, a).recv| == |s.recv|
    ensures forall i | 0 <= i < |s.recv| :: GrowsBy(s.recv[i], CloseBy(s, kind, a).recv[i])
  {
    QueuedGrows(s, kind, a);
    hide Queued, GrowsBy;
    assert forall i | 0 <= i < |s.recv| :: GrowsBy(s.recv[i], s.recv[i]) by { SameGrows(s); }
    QueuedRecv(s, kind, a);
  }

  lemma SameGrows(s: Net)
    ensures forall i | 0 <= i < |s.recv| :: GrowsBy(s.recv[i], s.recv[i])
  {
  }

  lemma QueuedRecv(s: Net, kind: Kind, a: string)
    requires Sized(s)
    ensures CloseBy(s, kind, a).recv == s.recv || CloseBy(s, kind, a).recv == Queued(s, kind, a).recv
  {
  }

  /** No step but a read queues a message. */
  lemma OthersQueueNone(s: Net, m: Move)
    requires Sized(s) && !m.ReadMessage?
    ensures |Next(s, m).recv| == |s.recv|
    ensures forall i | 0 <= i < |s.recv| :: GrowsBy(s.recv[i], Next(s, m).recv[i])
  {
    SameGrows(s);
    if Enabled(s, m) && PointersLive(s, m) {
      match m {
        case Announce(p, a, fd) => QueuedGrows(s, Connect, a);
        case Accept(i, epoll) => CloseByGrows(Popped(s, i), EpollError, s.objs[s.accept[i][0]].addrinfo);
        case TimeoutDelete(p) => CloseByGrows(s, Timeout, s.objs[p].addrinfo);
        case ReadFailed(i, k, kind) => CloseByGrows(s, kind, s.objs[s.work[i][k]].addrinfo);
        case SendSide(kind, a) =>
          if kind.SendActive? {
            QueuedGrows(s, kind, a);
          } else if Terminal(kind) {
            CloseByGrows(s, kind, a);
          }
        case _ =>
      }
      hide Queued, CloseBy, GrowsBy;
    }
  }

  lemma OtherKeeps(s: State, m: Move)
    requires RInv(s) && Can(s, Other(m))
    ensures RInv(Do(s, Other(m)))
  {
    var t := Do(s, Other(m));
    MoveKeeps(s.net, m);
    OthersQueueNone(s.net, m);
    hide Next, Inv, Enabled, GrowsBy, BytesRight;
    assert Sizes(t) by { SameSize(s.net, m); }
    forall a
      ensures BytesRight(t, a)
    {
      assert BytesRight(s, a);
      OtherBytes(s, t, a);
    }
  }

  lemma OtherBytes(s: State, t: State, a: string)
    requires Sizes(s) && Sizes(t) && BytesRight(s, a) && |t.data| == |s.data| && t.rest == s.rest && t.got == s.got
    requires forall i | 0 <= i < |s.net.recv| :: GrowsBy(s.net.recv[i], t.net.recv[i])
    requires forall i | 0 <= i < |s.data| :: t.data[i] == Padded(s.data[i], |t.net.recv[i]|)
    ensures BytesRight(t, a)
  {
    var n := Index(a, |s.data|);
    forall i | 0 <= i < |s.data|
      ensures Messages(t.net.recv[i], t.data[i], a) == Messages(s.net.recv[i], s.data[i], a)
      ensures NoMessage(s.net.recv[i], a) ==> NoMessage(t.net.recv[i], a)
    {
      MessagesPadded(s.net.recv[i], t.net.recv[i], s.data[i], a);
    }
    hide Messages, NoMessage, Padded, GrowsBy;
  }

  lemma ReceiveKeeps(s: State, i: nat, k: nat, input: Bytes)
    requires RInv(s) && Can(s, Receive(i, k, input))
    ensures RInv(Do(s, Receive(i, k, input)))
  {
    var t := Do(s, Receive(i, k, input));
    var c := s.net.objs[s.net.work[i][k]].addrinfo;
    assert t == s.(rest := s.rest[c := At(s.rest, c) + input], got := s.got[c := At(s.got, c) + input]);
    hide Do, Messages, NoMessage, Inv, Joined, Index;
    forall a
      ensures BytesRight(t, a)
    {
      assert BytesRight(s, a);
      Longer(Joined(Messages(s.net.recv[Index(a, |s.data|)], s.data[Index(a, |s.data|)], a)), At(s.rest, a), input);
    }
  }

  lemma Longer(a: Bytes, b: Bytes, c: Bytes)
    ensures (a + b) + c == a + (b + c)
  {
  }

  lemma CutNet(s: State, i: nat, k: nat, n: nat)
    requires RInv(s) && Can(s, Cut(i, k, n))
    ensures Inv(Next(s.net, ReadMessage(i, k)))
    ensures Next(s.net, ReadMessage(i, k)) == Queued(s.net, RecvMessage, s.net.objs[s.net.work[i][k]].addrinfo)
  {
    MoveKeeps(s.net, ReadMessage(i, k));
    EnabledIsSafe(s.net, ReadMessage(i, k));
    hide Inv, Queued;
  }

  /** What a cut does to queues, payloads and buffers. */
  ghost predicate CutTo(s: State, t: State, c: string, n: nat)
    requires Sizes(s)
  {
    && 0 < n <= |At(s.rest, c)| && Sizes(t) && t.got == s.got
    && var q := Index(c, |s.data|);
    && t.net.recv == s.net.recv[q := s.net.recv[q] + [Event(RecvMessage, c)]]
    && t.data == s.data[q := s.data[q] + [At(s.rest, c)[..n]]]
    && t.rest == s.rest[c := At(s.rest, c)[n..]]
  }

  lemma QueueAfterCut(s: State, t: State, c: string, n: nat, i: nat, a: string)
    requires Sizes(s) && CutTo(s, t, c, n) && i < |s.data|
    ensures
      Messages(t.net.recv[i], t.data[i], a) ==
        Messages(s.net.recv[i], s.data[i], a) + (if i == Index(c, |s.data|) && a == c then [At(s.rest, c)[..n]] else [])
    ensures NoMessage(s.net.recv[i], a) && (a != c || i != Index(c, |s.data|)) ==> NoMessage(t.net.recv[i], a)
  {
  }

  lemma Recombine(got: Bytes, sent: seq<Bytes>, rest: Bytes, n: nat)
    requires n <= |rest| && got == Joined(sent) + rest
    ensures got == Joined(sent + [rest[..n]]) + rest[n..]
  {
    JoinedSnoc(sent, rest[..n]);
    hide Joined;
    assert rest == rest[..n] + rest[n..];
  }

  lemma CutBytes(s: State, t: State, c: string, n: nat, a: string)
    requires Sizes(s) && BytesRight(s, a) && CutTo(s, t, c, n)
    ensures BytesRight(t, a)
  {
    hide Messages, Joined, NoMessage;
    var m := Index(a, |s.data|);
    forall i | 0 <= i < |s.data|
      ensures Messages(t.net.recv[i], t.data[i], a) ==
        Messages(s.net.recv[i], s.data[i], a) + (if i == Index(c, |s.data|) && a == c then [At(s.rest, c)[..n]] else [])
      ensures NoMessage(s.net.recv[i], a) && (a != c || i != Index(c, |s.data|)) ==> NoMessage(t.net.recv[i], a)
    {
      QueueAfterCut(s, t, c, n, i, a);
    }
    assert At(t.rest, a) == if a == c then At(s.rest, c)[n..] else At(s.rest, a);
    assert |t.data| == |s.data| && t.got == s.got;
    hide CutTo, At, Index;
    var sent := Messages(s.net.recv[m], s.data[m], a);
    if a == c {
      Recombine(At(s.got, a), sent, At(s.rest, a), n);
    } else {
      assert sent + [] == sent;
    }
  }

  lemma CutKeeps(s: State, i: nat, k: nat, n: nat)
    requires RInv(s) && Can(s, Cut(i, k, n))
    ensures RInv(Do(s, Cut(i, k, n)))
  {
    var c := s.net.objs[s.net.work[i][k]].addrinfo;
    var t := Do(s, Cut(i, k, n));
    CutNet(s, i, k, n);
    assert CutTo(s, t, c, n) by { hide Inv, Next; }
    hide Inv, Next, BytesRight, Queued, Index, CutTo;
    forall a
      ensures BytesRight(t, a)
    {
      assert BytesRight(s, a);
      CutBytes(s, t, c, n, a);
    }
  }

  lemma DoKeeps(s: State, act: Act)
    requires RInv(s)
    ensures RInv(Do(s, act))
  {
    assert Sizes(s);
    hide RInv;
    if Can(s, act) {
      match act {
        case Other(m) => OtherKeeps(s, m);
        case Receive(i, k, input) => ReceiveKeeps(s, i, k, input);
        case Cut(i, k, n) => CutKeeps(s, i, k, n);
      }
    }
  }

  predicate Begin(s: State) {
    Sizes(s) && Initial(s.net) && s.rest == map[] && s.got == map[] && forall i | 0 <= i < |s.data| :: s.data[i] == []
  }

  ghost predicate IsTrace(states: seq<State>, acts: seq<Act>) {
    && |states| == |acts| + 1 && Begin(states[0])
    && (forall i | 0 <= i < |states| :: Sizes(states[i]))
    && forall i | 0 <= i < |acts| :: states[i + 1] == Do(states[i], acts[i])
  }

  lemma BeginInv(s: State)
    requires Begin(s)
    ensures RInv(s)
  {
    InitialInv(s.net);
    hide Inv, Initial;
  }

  lemma {:induction false} TraceInv(states: seq<State>, acts: seq<Act>, i: nat)
    requires IsTrace(states, acts) && i < |states|
    ensures RInv(states[i])
  {
    hide Do, RInv, Begin;
    if i == 0 {
      BeginInv(states[0]);
    } else {
      TraceInv(states, acts, i - 1);
      DoKeeps(states[i - 1], acts[i - 1]);
    }
  }

  /** On every connection, at every moment of every interleaving: the bytes received are the payloads of its messages
      in queue order, all of them in the one queue its address selects, followed by what is still in the buffer. */
  lemma BytesReceived(states: seq<State>, acts: seq<Act>, i: nat, a: string)
    requires IsTrace(states, acts) && i < |states|
    ensures
      var s := states[i];
      var n := Index(a, |s.data|);
      && At(s.got, a) == Joined(Messages(s.net.recv[n], s.data[n], a)) + At(s.rest, a)
      && forall k | 0 <= k < |s.data| && k != n :: NoMessage(s.net.recv[k], a)
  {
    TraceInv(states, acts, i);
    assert BytesRight(states[i], a);
  }

  // ---- what each step does ----

  /** The printed address of the connection at a place of a work list. */
  function AddrAt(net: Net, i: nat, k: nat): string {
    if i < |net.work| && k < |net.work[i]| && net.work[i][k] in net.objs then net.objs[net.work[i][k]].addrinfo else ""
  }

  /** A recv adds its bytes to the buffer of its own connection and to what that connection has received. A cut moves
      the first bytes of the buffer into a new message, the last in the queue its address selects. Every other step is
      the one of the framework and leaves buffers alone. */
  lemma ReceivingStep(s: State, act: Act)
    requires RInv(s) && (act.Other? ==> !act.m.ReadMessage? && Enabled(s.net, act.m))
    requires !act.Other? ==> act.i < |s.net.work| && act.k < |s.net.work[act.i]|
    requires act.Cut? ==> 0 < act.packetlen <= |At(s.rest, AddrAt(s.net, act.i, act.k))|
    ensures
      var t := Do(s, act);
      match act
      case Other(m) => t.net == Next(s.net, m) && t.rest == s.rest && t.got == s.got
      case Receive(i, k, input) =>
        && t.net == s.net && t.data == s.data
        && forall a ::
             var more := if a == AddrAt(s.net, i, k) then input else [];
             At(t.rest, a) == At(s.rest, a) + more && At(t.got, a) == At(s.got, a) + more
      case Cut(i, k, n) =>
        var c, q := AddrAt(s.net, i, k), Atoi(AddrAt(s.net, i, k)) % |s.data|;
        && t.net == s.net.(recv := s.net.recv[q := s.net.recv[q] + [Event(RecvMessage, c)]]) && t.got == s.got
        && At(s.rest, c) == t.data[q][|s.data[q]|] + At(t.rest, c) && |t.data[q][|s.data[q]|]| == n
        && t.data == s.data[q := s.data[q] + [t.data[q][|s.data[q]|]]]
        && forall a | a != c :: At(t.rest, a) == At(s.rest, a)
  {
    if !act.Other? {
      WorkLive(s.net, act.i, act.k);
    }
    match act {
      case Cut(i, k, n) =>
        CutNet(s, i, k, n);
        var b := At(s.rest, s.net.objs[s.net.work[i][k]].addrinfo);
        assert b == b[..n] + b[n..];
      case _ =>
    }
    hide Next, Enabled, Inv, BytesRight;
  }

  // ---- messages behind the terminal event ----

  ghost predicate MessageAt(q: seq<Event>, a: string, k: int) {
    0 <= k < |q| && IsMessage(q[k], a)
  }

  /** The queue holds a message of this address behind a terminal event of it. */
  ghost predicate Late(q: seq<Event>, a: string) {
    exists j, k :: j < k && TerminalAt(q, a, j) && MessageAt(q, a, k)
  }

  lemma LateGrows(q: seq<Event>, r: seq<Event>, a: string)
    requires GrowsBy(q, r)
    ensures Late(r, a) <==> Late(q, a)
  {
    if Late(q, a) {
      var j, k :| j < k && TerminalAt(q, a, j) && MessageAt(q, a, k);
      assert TerminalAt(r, a, j) && MessageAt(r, a, k);
    }
    if Late(r, a) {
      var j, k :| j < k && TerminalAt(r, a, j) && MessageAt(r, a, k);
      assert TerminalAt(q, a, j) && MessageAt(q, a, k);
    }
  }

  lemma LateSnoc(q: seq<Event>, c: string, a: string)
    ensures Late(q + [Event(RecvMessage, c)], a) <==> Late(q, a) || (a == c && exists j :: TerminalAt(q, a, j))
  {
    var r := q + [Event(RecvMessage, c)];
    if Late(q, a) {
      var j, k :| j < k && TerminalAt(q, a, j) && MessageAt(q, a, k);
      assert TerminalAt(r, a, j) && MessageAt(r, a, k);
    }
    if a == c && exists j :: TerminalAt(q, a, j) {
      var j :| TerminalAt(q, a, j);
      assert TerminalAt(r, a, j) && MessageAt(r, a, |q|);
    }
    if Late(r, a) {
      var j, k :| j < k && TerminalAt(r, a, j) && MessageAt(r, a, k);
      assert TerminalAt(q, a, j);
      if k < |q| {
        assert MessageAt(q, a, k);
      }
    }
  }

  /** A block is queued for an object that has been flagged and not swept yet. */
  ghost predicate ReadsFlagged(s: Net, m: Move, a: string) {
    && m.ReadMessage? && Holds(s, m.i, m.k)
    && s.objs[s.work[m.i][m.k]].closed && s.objs[s.work[m.i][m.k]].addrinfo == a
  }

  lemma FlaggedHasEnded(s: Net, p: Ptr)
    requires Inv(s) && p in s.objs
    ensures
      var a := s.objs[p].addrinfo;
      s.objs[p].closed <==> exists j :: TerminalAt(s.recv[Index(a, |s.recv|)], a, j)
  {
    var a := s.objs[p].addrinfo;
    var q := s.recv[Index(a, |s.recv|)];
    assert Story(q, a) == Expected(s, Index(a, |s.recv|), a);
    StoryMeans(q, a);
    if s.objs[p].closed {
      assert a !in OpenAddrs(s);
      var j, k :| j < k && OneConnect(q, a, j) && OneTerminal(q, a, k);
      assert TerminalAt(q, a, k);
    } else {
      assert a in OpenAddrs(s);
    }
  }

  lemma ReadLate(s: Net, i: nat, k: nat, n: nat, a: string)
    requires Inv(s) && Enabled(s, ReadMessage(i, k)) && n < |s.recv| == |Next(s, ReadMessage(i, k)).recv|
    ensures Late(Next(s, ReadMessage(i, k)).recv[n], a)
       <==> Late(s.recv[n], a) || (n == Index(a, |s.recv|) && ReadsFlagged(s, ReadMessage(i, k), a))
  {
    EnabledIsSafe(s, ReadMessage(i, k));
    var p := s.work[i][k];
    FlaggedHasEnded(s, p);
    hide Inv, Late, TerminalAt;
    LateSnoc(s.recv[n], s.objs[p].addrinfo, a);
  }

  /** Move by move: a message gets behind the terminal event of its address if and only if the move queues a block
      for a flagged object. */
  lemma MoveLate(s: Net, m: Move, n: nat, a: string)
    requires Inv(s) && Enabled(s, m) && n < |s.recv|
    ensures n < |Next(s, m).recv|
    ensures Late(Next(s, m).recv[n], a)
       <==> Late(s.recv[n], a) || (n == Index(a, |s.recv|) && ReadsFlagged(s, m, a))
  {
    SameSize(s, m);
    hide Next, Inv, Late, Enabled;
    if m.ReadMessage? {
      ReadLate(s, m.i, m.k, n, a);
    } else {
      OthersQueueNone(s, m);
      LateGrows(s.recv[n], Next(s, m).recv[n], a);
    }
  }

  ghost predicate ReadFlagged(states: seq<Net>, moves: seq<Move>, i: nat, a: string)
    requires i <= |moves| < |states|
  {
    exists k :: 0 <= k < i && ReadsFlagged(states[k], moves[k], a)
  }

  /** Over every interleaving: a receive queue holds a message of an address behind the terminal event of that address
      if and only if it is the queue the address selects and some block of the address was queued after its object
      had been flagged and before the sweep that deletes it. */
  lemma {:induction false} LateIff(states: seq<Net>, moves: seq<Move>, i: nat, n: nat, a: string)
    requires IsRun(states, moves) && i <= |moves| && n < |states[i].recv|
    ensures Late(states[i].recv[n], a) <==> n == Index(a, |states[i].recv|) && ReadFlagged(states, moves, i, a)
    ensures |states[i].recv| == |states[0].recv|
  {
    hide Next, Late, ReadsFlagged, Enabled, Initial;
    if i == 0 {
      NothingLate(states[0], n, a);
    } else {
      NoDanglingPointer(states, moves, i - 1);
      var s, m := states[i - 1], moves[i - 1];
      assert Enabled(s, m) && states[(i - 1) + 1] == Next(s, m);
      SameSize(s, m);
      LateIff(states, moves, i - 1, n, a);
      hide Inv;
      MoveLate(s, m, n, a);
    }
  }

  lemma NothingLate(s: Net, n: nat, a: string)
    requires Initial(s) && n < |s.recv|
    ensures !Late(s.recv[n], a)
  {
  }
}
