/** Connections of the socket framework as a state machine: accepting, receiving and sending threads
    share the socket map, the accept queues, the work lists and the receive queues. Every mutex section
    and every unlocked step of a thread is one step, and steps of all threads interleave freely. */
module SocketLife {
  import opened Text

  /** The address of a CSocketInfo object; objects are deleted by hand, so the heap is explicit. */
  type Ptr = int

  datatype Info = Info(addrinfo: string, socketfd: nat, closed: bool)

  datatype Kind =
    | Connect | Timeout | RecvError | RecvClosed | RecvMessage | EpollError
    | SendError | SendActive | SendClosed | SendDisconnect

  datatype Event = Event(kind: Kind, addrinfo: string)

  /** AppendSocketInfo between its three sections: announced, then in the map, then handed over. */
  datatype Stage = Announced | Mapped

  datatype Net = Net(objs: map<Ptr, Info>, socketmap: map<string, Ptr>, appending: map<Ptr, Stage>,
                     accept: seq<seq<Ptr>>, work: seq<seq<Ptr>>, expiring: set<Ptr>,
                     recv: seq<seq<Event>>, used: set<string>)

  /** The thread that serves a connection, taken from the number its printed address starts with. */
  function Index(a: string, n: nat): nat
    requires n > 0
  {
    Atoi(a) % n
  }

  predicate Sized(s: Net) {
    |s.recv| > 0 && |s.accept| == |s.work| == |s.recv|
  }

  function Queued(s: Net, kind: Kind, a: string): Net
    requires Sized(s)
  {
    var i := Index(a, |s.recv|);
    s.(recv := s.recv[i := s.recv[i] + [Event(kind, a)]])
  }

  /** CloseSocketInfo: only the one that still finds the address in the map flags and reports it. */
  function CloseBy(s: Net, kind: Kind, a: string): Net
    requires Sized(s)
  {
    if a !in s.socketmap || s.socketmap[a] !in s.objs then s
    else
      var p := s.socketmap[a];
      Queued(s, kind, a).(objs := s.objs[p := s.objs[p].(closed := true)], socketmap := s.socketmap - {a})
  }

  function RemoveAt<T>(q: seq<T>, k: nat): seq<T>
    requires k < |q|
  {
    q[..k] + q[k + 1..]
  }

  /** Handing a pointer from an accept queue to the work list of the same thread. */
  function Popped(s: Net, i: nat): Net
    requires Sized(s) && i < |s.accept| && s.accept[i] != []
  {
    s.(accept := s.accept[i := s.accept[i][1..]], work := s.work[i := s.work[i] + [s.accept[i][0]]])
  }

  datatype Move =
    | Announce(p: Ptr, addrinfo: string, socketfd: nat)
    | MapInsert(p: Ptr)
    | HandOver(p: Ptr)
    | Accept(i: nat, epoll: bool)
    | SweepFlagged(i: nat, k: nat)
    | Expire(i: nat, k: nat)
    | TimeoutDelete(p: Ptr)
    | ReadMessage(i: nat, k: nat)
    | ReadFailed(i: nat, k: nat, kind: Kind)
    | SendSide(kind: Kind, addrinfo: string)

  predicate Terminal(kind: Kind) {
    !(kind.Connect? || kind.RecvMessage? || kind.SendActive?)
  }

  predicate InWork(s: Net, i: nat, k: nat) {
    i < |s.work| && k < |s.work[i]|
  }

  /** When a step can happen. A new object gets an unused heap address and a never used printed address
      whose number is its descriptor; a sending thread may act on any address at any time. */
  predicate Enabled(s: Net, m: Move) {
    match m
    case Announce(p, a, fd) => p !in s.objs && a !in s.used && Atoi(a) == fd
    case MapInsert(p) => p in s.appending && s.appending[p].Announced?
    case HandOver(p) => p in s.appending && s.appending[p].Mapped?
    case Accept(i, epoll) => i < |s.accept| && s.accept[i] != []
    case SweepFlagged(i, k) => InWork(s, i, k) && s.work[i][k] in s.objs && s.objs[s.work[i][k]].closed
    case Expire(i, k) => InWork(s, i, k) && s.work[i][k] in s.objs && !s.objs[s.work[i][k]].closed
    case TimeoutDelete(p) => p in s.expiring
    case ReadMessage(i, k) => InWork(s, i, k)
    case ReadFailed(i, k, kind) => InWork(s, i, k) && (kind.RecvError? || kind.RecvClosed?)
    case SendSide(kind, a) => true
  }

  /** Every object a step is about to follow a pointer to is still there. */
  predicate PointersLive(s: Net, m: Move) {
    match m
    case MapInsert(p) => p in s.objs
    case HandOver(p) => p in s.objs
    case Accept(i, _) => i < |s.accept| && s.accept[i] != [] ==> s.accept[i][0] in s.objs
    case SweepFlagged(i, k) => InWork(s, i, k) ==> s.work[i][k] in s.objs
    case Expire(i, k) => InWork(s, i, k) ==> s.work[i][k] in s.objs
    case TimeoutDelete(p) => p in s.objs
    case ReadMessage(i, k) => InWork(s, i, k) ==> s.work[i][k] in s.objs
    case ReadFailed(i, k, _) => InWork(s, i, k) ==> s.work[i][k] in s.objs
    case SendSide(_, a) => a in s.socketmap ==> s.socketmap[a] in s.objs
    case Announce(_, _, _) => true
  }

  function Next(s: Net, m: Move): Net
    requires Sized(s)
  {
    if !Enabled(s, m) || !PointersLive(s, m) then s else
    match m
    case Announce(p, a, fd) =>
      Queued(s, Connect, a).(objs := s.objs[p := Info(a, fd, false)], appending := s.appending[p := Announced],
          used := s.used + {a})
    case MapInsert(p) =>
      s.(socketmap := s.socketmap[s.objs[p].addrinfo := p], appending := s.appending[p := Mapped])
    case HandOver(p) =>
      var i := s.objs[p].socketfd % |s.accept|;
      s.(accept := s.accept[i := s.accept[i] + [p]], appending := s.appending - {p})
    case Accept(i, epoll) =>
      if epoll then Popped(s, i) else CloseBy(Popped(s, i), EpollError, s.objs[s.accept[i][0]].addrinfo)
    case SweepFlagged(i, k) =>
      s.(work := s.work[i := RemoveAt(s.work[i], k)], objs := s.objs - {s.work[i][k]})
    case Expire(i, k) =>
      s.(work := s.work[i := RemoveAt(s.work[i], k)], expiring := s.expiring + {s.work[i][k]})
    case TimeoutDelete(p) =>
      var t := CloseBy(s, Timeout, s.objs[p].addrinfo);
      t.(objs := t.objs - {p}, expiring := s.expiring - {p})
    case ReadMessage(i, k) => Queued(s, RecvMessage, s.objs[s.work[i][k]].addrinfo)
    case ReadFailed(i, k, kind) => CloseBy(s, kind, s.objs[s.work[i][k]].addrinfo)
    case SendSide(kind, a) =>
      if kind.SendActive? then Queued(s, kind, a) else if Terminal(kind) then CloseBy(s, kind, a) else s
  }

  lemma SameSize(s: Net, m: Move)
    requires Sized(s)
    ensures Sized(Next(s, m)) && |Next(s, m).recv| == |s.recv|
  {
  }

  // ---- the story each receive queue tells about an address ----

  datatype Phase = Fresh | Open | Closed | Wrong

  function After(ph: Phase, e: Event, a: string): Phase {
    if e.addrinfo != a then ph
    else if e.kind.Connect? then (if ph.Fresh? then Open else Wrong)
    else if Terminal(e.kind) then (if ph.Open? then Closed else Wrong)
    else ph
  }

  function Story(q: seq<Event>, a: string): Phase {
    if q == [] then Fresh else After(Story(q[..|q| - 1], a), q[|q| - 1], a)
  }

  /** What the story means: a closed one has exactly one connect and exactly one terminal event of the
      address, the connect first; an open one has the connect and no terminal event. */
  ghost predicate ConnectAt(q: seq<Event>, a: string, j: int) {
    0 <= j < |q| && q[j] == Event(Connect, a)
  }

  ghost predicate TerminalAt(q: seq<Event>, a: string, k: int) {
    0 <= k < |q| && q[k].addrinfo == a && Terminal(q[k].kind)
  }

  ghost predicate OneConnect(q: seq<Event>, a: string, j: int) {
    ConnectAt(q, a, j) && forall i :: ConnectAt(q, a, i) ==> i == j
  }

  ghost predicate OneTerminal(q: seq<Event>, a: string, k: int) {
    TerminalAt(q, a, k) && forall i :: TerminalAt(q, a, i) ==> i == k
  }

  lemma {:induction false} StoryMeans(q: seq<Event>, a: string)
    ensures Story(q, a).Fresh? ==> forall j :: !ConnectAt(q, a, j) && !TerminalAt(q, a, j)
    ensures Story(q, a).Open? ==> (exists j :: OneConnect(q, a, j)) && forall k :: !TerminalAt(q, a, k)
    ensures Story(q, a).Closed? ==> exists j, k :: j < k && OneConnect(q, a, j) && OneTerminal(q, a, k)
  {
    if q != [] {
      var n := |q| - 1;
      var r := q[..n];
      StoryMeans(r, a);
      EventsSnoc(q, a);
      if Story(q, a).Open? {
        if Story(r, a).Fresh? {
          assert OneConnect(q, a, n);
        } else {
          var j :| OneConnect(r, a, j);
          assert OneConnect(q, a, j);
        }
      } else if Story(q, a).Closed? {
        if Story(r, a).Open? {
          var j :| OneConnect(r, a, j);
          assert OneConnect(q, a, j) && OneTerminal(q, a, n);
        } else {
          var j, k :| j < k && OneConnect(r, a, j) && OneTerminal(r, a, k);
          assert OneConnect(q, a, j) && OneTerminal(q, a, k);
        }
      }
    }
  }

  lemma EventsSnoc(q: seq<Event>, a: string)
    requires q != []
    ensures
      var n := |q| - 1;
      && (forall i :: ConnectAt(q, a, i) <==> ConnectAt(q[..n], a, i) || (i == n && q[n] == Event(Connect, a)))
      && (forall i ::
            TerminalAt(q, a, i) <==> TerminalAt(q[..n], a, i) || (i == n && q[n].addrinfo == a && Terminal(q[n].kind)))
  {
  }

  lemma StorySnoc(q: seq<Event>, e: Event, a: string)
    ensures Story(q + [e], a) == After(Story(q, a), e, a)
  {
    assert (q + [e])[..|q|] == q;
  }

  // ---- the invariant ----

  function Sum(qs: seq<seq<Ptr>>): multiset<Ptr> {
    if qs == [] then multiset{} else Sum(qs[..|qs| - 1]) + multiset(qs[|qs| - 1])
  }

  lemma Exchange(a: multiset<Ptr>, b: multiset<Ptr>, c: multiset<Ptr>, d: multiset<Ptr>, e: multiset<Ptr>)
    requires a + b == c + d
    ensures (a + e) + b == (c + e) + d
  {
    assert (a + e) + b == (a + b) + e;
    assert (c + e) + d == (c + d) + e;
  }

  lemma {:induction false} SumUpdate(qs: seq<seq<Ptr>>, i: nat, q: seq<Ptr>)
    requires i < |qs|
    ensures Sum(qs[i := q]) + multiset(qs[i]) == Sum(qs) + multiset(q)
  {
    var n := |qs| - 1;
    var rs := qs[i := q];
    assert Sum(rs) == Sum(rs[..n]) + multiset(rs[n]);
    if i < n {
      SumUpdate(qs[..n], i, q);
      assert rs[..n] == qs[..n][i := q];
      assert Sum(rs[..n]) + multiset(qs[i]) == Sum(qs[..n]) + multiset(q);
      assert rs[n] == qs[n];
      Exchange(Sum(rs[..n]), multiset(qs[i]), Sum(qs[..n]), multiset(q), multiset(qs[n]));
    } else {
      assert rs[..n] == qs[..n];
    }
  }

  lemma Cancel(a: multiset<Ptr>, q: multiset<Ptr>, b: multiset<Ptr>, r: multiset<Ptr>, x: multiset<Ptr>)
    requires a + q == b + r && r == q + x
    ensures a == b + x
  {
    forall e: Ptr ensures a[e] == (b + x)[e] {
      assert (a + q)[e] == (b + r)[e];
    }
  }

  lemma SumPush(qs: seq<seq<Ptr>>, i: nat, p: Ptr)
    requires i < |qs|
    ensures Sum(qs[i := qs[i] + [p]]) == Sum(qs) + multiset{p}
  {
    SumUpdate(qs, i, qs[i] + [p]);
    Cancel(Sum(qs[i := qs[i] + [p]]), multiset(qs[i]), Sum(qs), multiset(qs[i] + [p]), multiset{p});
  }

  lemma SumRemove(qs: seq<seq<Ptr>>, i: nat, k: nat)
    requires i < |qs| && k < |qs[i]|
    ensures Sum(qs) == Sum(qs[i := RemoveAt(qs[i], k)]) + multiset{qs[i][k]}
  {
    SumUpdate(qs, i, RemoveAt(qs[i], k));
    RemoveAtContents(qs[i], k);
    Cancel(Sum(qs), multiset(RemoveAt(qs[i], k)), Sum(qs[i := RemoveAt(qs[i], k)]), multiset(qs[i]),
        multiset{qs[i][k]});
  }

  lemma {:induction false} SumHas(qs: seq<seq<Ptr>>, i: nat, k: nat)
    requires i < |qs| && k < |qs[i]|
    ensures qs[i][k] in Sum(qs)
  {
    var n := |qs| - 1;
    if i < n { SumHas(qs[..n], i, k); }
  }

  lemma RemoveAtContents(q: seq<Ptr>, k: nat)
    requires k < |q|
    ensures multiset(RemoveAt(q, k)) + multiset{q[k]} == multiset(q)
  {
    assert q == q[..k] + [q[k]] + q[k + 1..];
  }

  /** Every place that holds a pointer, counted with multiplicity. */
  function Held(s: Net): multiset<Ptr> {
    multiset(s.appending.Keys) + Sum(s.accept) + Sum(s.work) + multiset(s.expiring)
  }

  /** Each live object is held in exactly one place, and no place holds a deleted one. */
  predicate Places(s: Net) {
    Held(s) == multiset(s.objs.Keys)
  }

  ghost predicate MapRight(s: Net) {
    forall a | a in s.socketmap ::
      s.socketmap[a] in s.objs && s.objs[s.socketmap[a]].addrinfo == a && !s.objs[s.socketmap[a]].closed
  }

  ghost predicate AddrsRight(s: Net) {
    && (forall p | p in s.objs :: s.objs[p].addrinfo in s.used && Atoi(s.objs[p].addrinfo) == s.objs[p].socketfd)
    && (forall p, q | p in s.objs && q in s.objs && s.objs[p].addrinfo == s.objs[q].addrinfo :: p == q)
  }

  predicate IsAnnounced(s: Net, p: Ptr) {
    p in s.appending && s.appending[p].Announced?
  }

  /** An object is in the map from its insertion until it is flagged. */
  ghost predicate FlagRight(s: Net) {
    && (forall p | p in s.objs && !s.objs[p].closed && !IsAnnounced(s, p) ::
          s.objs[p].addrinfo in s.socketmap && s.socketmap[s.objs[p].addrinfo] == p)
    && (forall p | p in s.objs && IsAnnounced(s, p) :: !s.objs[p].closed && s.objs[p].addrinfo !in s.socketmap)
  }

  ghost function OpenAddrs(s: Net): set<string> {
    set p | p in s.objs && !s.objs[p].closed :: s.objs[p].addrinfo
  }

  ghost function Expected(s: Net, i: int, a: string): Phase
    requires Sized(s)
  {
    if i != Index(a, |s.recv|) || a !in s.used then Fresh
    else if a in OpenAddrs(s) then Open else Closed
  }

  ghost predicate Stories(s: Net)
    requires Sized(s)
  {
    forall i, a | 0 <= i < |s.recv| :: Story(s.recv[i], a) == Expected(s, i, a)
  }

  ghost predicate Inv(s: Net) {
    Sized(s) && Places(s) && MapRight(s) && AddrsRight(s) && FlagRight(s) && Stories(s)
  }

  lemma QueuedStories(s: Net, kind: Kind, a: string, i: int, b: string)
    requires Sized(s) && 0 <= i < |s.recv|
    ensures Story(Queued(s, kind, a).recv[i], b)
         == if i == Index(a, |s.recv|) then After(Story(s.recv[i], b), Event(kind, a), b) else Story(s.recv[i], b)
  {
    StorySnoc(s.recv[i], Event(kind, a), b);
  }

  lemma CloseByFields(s: Net, kind: Kind, a: string)
    requires Inv(s)
    ensures
      var t := CloseBy(s, kind, a);
      && Places(t) && t.accept == s.accept && t.work == s.work && t.expiring == s.expiring
      && t.appending == s.appending && t.used == s.used && t.objs.Keys == s.objs.Keys && |t.recv| == |s.recv|
      && MapRight(t) && AddrsRight(t) && FlagRight(t)
  {
    var t := CloseBy(s, kind, a);
    if a in s.socketmap {
      var p := s.socketmap[a];
      assert t.objs == s.objs[p := s.objs[p].(closed := true)] && t.socketmap == s.socketmap - {a};
      assert Held(t) == Held(s);
      hide CloseBy, Stories, Held;
      assert forall q | q in s.objs && q != p :: t.objs[q] == s.objs[q] && s.objs[q].addrinfo != a;
      assert AddrsRight(t);
      assert MapRight(t);
      assert FlagRight(t);
    }
  }

  lemma CloseByOpen(s: Net, kind: Kind, a: string)
    requires Sized(s) && MapRight(s) && AddrsRight(s)
    ensures OpenAddrs(CloseBy(s, kind, a)) == (if a in s.socketmap then OpenAddrs(s) - {a} else OpenAddrs(s))
  {
    var t := CloseBy(s, kind, a);
    if a in s.socketmap {
      var p := s.socketmap[a];
      forall b | b in OpenAddrs(s) - {a} ensures b in OpenAddrs(t) {
        var q :| q in s.objs && !s.objs[q].closed && s.objs[q].addrinfo == b;
        assert q != p && q in t.objs && t.objs[q] == s.objs[q];
      }
      forall b | b in OpenAddrs(t) ensures b in OpenAddrs(s) - {a} {
        var q :| q in t.objs && !t.objs[q].closed && t.objs[q].addrinfo == b;
        assert q != p && t.objs[q] == s.objs[q];
      }
    }
  }

  lemma CloseByKeeps(s: Net, kind: Kind, a: string)
    requires Inv(s) && Terminal(kind)
    ensures Inv(CloseBy(s, kind, a))
  {
    var t := CloseBy(s, kind, a);
    CloseByFields(s, kind, a);
    CloseByOpen(s, kind, a);
    if a in s.socketmap {
      var p := s.socketmap[a];
      assert a in OpenAddrs(s) by { assert p in s.objs && !s.objs[p].closed; }
      forall i, b | 0 <= i < |t.recv| ensures Story(t.recv[i], b) == Expected(t, i, b) {
        QueuedStories(s, kind, a, i, b);
        assert Story(s.recv[i], b) == Expected(s, i, b);
      }
    }
  }

  /** A packet that neither opens nor ends a connection changes no story. */
  lemma QueuedKeeps(s: Net, kind: Kind, a: string)
    requires Inv(s) && !Terminal(kind) && !kind.Connect?
    ensures Inv(Queued(s, kind, a))
  {
    var t := Queued(s, kind, a);
    assert OpenAddrs(t) == OpenAddrs(s);
    forall i, b | 0 <= i < |t.recv| ensures Story(t.recv[i], b) == Expected(t, i, b) {
      QueuedStories(s, kind, a, i, b);
    }
  }

  // ---- every step keeps it ----

  /** The parts of the invariant that do not look at where pointers are held. */
  ghost predicate Core(s: Net) {
    Sized(s) && MapRight(s) && AddrsRight(s) && FlagRight(s) && Stories(s)
  }

  lemma HeldOnce(s: Net, p: Ptr)
    requires Places(s) && p in Held(s)
    ensures p in s.objs && Held(s)[p] == 1
  {
  }

  lemma SetMinus(x: set<Ptr>, p: Ptr)
    requires p in x
    ensures multiset(x) == multiset(x - {p}) + multiset{p}
  {
  }

  lemma SetPlus(x: set<Ptr>, p: Ptr)
    requires p !in x
    ensures multiset(x + {p}) == multiset(x) + multiset{p}
  {
  }

  // Where an extra element sits in the sum of the four places does not matter.
  lemma Shift(a: multiset<Ptr>, b: multiset<Ptr>, c: multiset<Ptr>, d: multiset<Ptr>, x: multiset<Ptr>)
    ensures (a + x) + b + c + d == (a + b + c + d) + x
    ensures a + (b + x) + c + d == (a + b + c + d) + x
    ensures a + b + (c + x) + d == (a + b + c + d) + x
    ensures a + b + c + (d + x) == (a + b + c + d) + x
  {
  }

  /** Adding or removing one object in one place, and in the heap, keeps the places right. */
  lemma PlacesGrow(s: Net, t: Net, p: Ptr)
    requires Places(s) && p !in s.objs && t.objs.Keys == s.objs.Keys + {p} && Held(t) == Held(s) + multiset{p}
    ensures Places(t)
  {
    SetPlus(s.objs.Keys, p);
  }

  lemma PlacesShrink(s: Net, t: Net, p: Ptr)
    requires Places(s) && p in s.objs && t.objs.Keys == s.objs.Keys - {p} && Held(s) == Held(t) + multiset{p}
    ensures Places(t)
  {
    SetMinus(s.objs.Keys, p);
    Cancel(multiset(t.objs.Keys), multiset{p}, Held(t), multiset{p}, multiset{});
  }

  lemma AnnouncePlaces(s: Net, p: Ptr, a: string, fd: nat)
    requires Sized(s) && Places(s) && Enabled(s, Announce(p, a, fd))
    ensures p !in s.appending && Places(Next(s, Announce(p, a, fd)))
  {
    var t := Next(s, Announce(p, a, fd));
    if p in s.appending { HeldOnce(s, p); }
    SetPlus(s.appending.Keys, p);
    assert t.appending.Keys == s.appending.Keys + {p};
    Shift(multiset(s.appending.Keys), Sum(s.accept), Sum(s.work), multiset(s.expiring), multiset{p});
    PlacesGrow(s, t, p);
  }

  lemma AnnounceCore(s: Net, p: Ptr, a: string, fd: nat)
    requires Core(s) && p !in s.appending && Enabled(s, Announce(p, a, fd))
    ensures Core(Next(s, Announce(p, a, fd)))
  {
    var t := Next(s, Announce(p, a, fd));
    assert forall q | q in s.objs :: t.objs[q] == s.objs[q] && IsAnnounced(t, q) == IsAnnounced(s, q);
    assert forall q | q in t.objs && q != p :: q in s.objs;
    assert t.objs[p] == Info(a, fd, false) && IsAnnounced(t, p);
    AnnounceFlags(s, t, p, a);
    AnnounceOpens(s, p, a, fd);
    AnnounceStories(s, p, a, fd);
  }

  lemma AnnounceFlags(s: Net, t: Net, p: Ptr, a: string)
    requires MapRight(s) && AddrsRight(s) && FlagRight(s) && p !in s.objs && a !in s.used
    requires t.objs.Keys == s.objs.Keys + {p} && t.objs[p].addrinfo == a && !t.objs[p].closed
    requires t.socketmap == s.socketmap && IsAnnounced(t, p)
    requires forall q | q in s.objs :: t.objs[q] == s.objs[q] && IsAnnounced(t, q) == IsAnnounced(s, q)
    ensures FlagRight(t)
  {
    forall b | b in s.socketmap ensures b in s.used {
      var q := s.socketmap[b];
      assert s.objs[q].addrinfo == b;
    }
  }

  lemma AnnounceStories(s: Net, p: Ptr, a: string, fd: nat)
    requires Sized(s) && Stories(s) && Enabled(s, Announce(p, a, fd))
    ensures Stories(Next(s, Announce(p, a, fd)))
  {
    var t := Next(s, Announce(p, a, fd));
    AnnounceOpens(s, p, a, fd);
    assert t.recv == Queued(s, Connect, a).recv && t.used == s.used + {a};
    hide Next, Enabled, OpenAddrs, Queued;
    forall i, b | 0 <= i < |t.recv| ensures Story(t.recv[i], b) == Expected(t, i, b) {
      QueuedStories(s, Connect, a, i, b);
      assert Story(s.recv[i], b) == Expected(s, i, b);
    }
  }

  lemma AnnounceOpens(s: Net, p: Ptr, a: string, fd: nat)
    requires Sized(s) && Enabled(s, Announce(p, a, fd))
    ensures OpenAddrs(Next(s, Announce(p, a, fd))) == OpenAddrs(s) + {a}
  {
    var t := Next(s, Announce(p, a, fd));
    assert t.objs[p].addrinfo == a && !t.objs[p].closed;
    forall b | b in OpenAddrs(s) ensures b in OpenAddrs(t) {
      var q :| q in s.objs && !s.objs[q].closed && s.objs[q].addrinfo == b;
      assert t.objs[q] == s.objs[q];
    }
  }

  lemma MapInsertKeeps(s: Net, p: Ptr)
    requires Inv(s) && IsAnnounced(s, p) && p in s.objs
    ensures Inv(Next(s, MapInsert(p)))
  {
    var t := Next(s, MapInsert(p));
    assert t.appending.Keys == s.appending.Keys;
    assert OpenAddrs(t) == OpenAddrs(s);
    assert Stories(t);
  }

  lemma SameCore(s: Net, t: Net)
    requires Core(s) && Sized(t)
    requires t.objs == s.objs && t.socketmap == s.socketmap && t.recv == s.recv && t.used == s.used
    requires forall p | p in s.objs :: IsAnnounced(t, p) == IsAnnounced(s, p)
    ensures Core(t)
  {
    assert OpenAddrs(t) == OpenAddrs(s);
    forall i, b | 0 <= i < |t.recv| ensures Story(t.recv[i], b) == Expected(t, i, b) {
      assert Story(s.recv[i], b) == Expected(s, i, b);
    }
  }

  lemma HandOverPlaces(s: Net, p: Ptr)
    requires Sized(s) && Places(s) && Enabled(s, HandOver(p)) && p in s.objs
    ensures Places(Next(s, HandOver(p)))
  {
    var t := Next(s, HandOver(p));
    SumPush(s.accept, s.objs[p].socketfd % |s.accept|, p);
    SetMinus(s.appending.Keys, p);
    assert t.appending.Keys == s.appending.Keys - {p};
    Shift(multiset(t.appending.Keys), Sum(s.accept), Sum(s.work), multiset(s.expiring), multiset{p});
  }

  lemma PoppedPlaces(s: Net, i: nat)
    requires Sized(s) && Places(s) && i < |s.accept| && s.accept[i] != []
    ensures Places(Popped(s, i))
  {
    var p := s.accept[i][0];
    var t := Popped(s, i);
    SumRemove(s.accept, i, 0);
    assert RemoveAt(s.accept[i], 0) == s.accept[i][1..];
    SumPush(s.work, i, p);
    Shift(multiset(s.appending.Keys), Sum(t.accept), Sum(s.work), multiset(s.expiring), multiset{p});
  }

  lemma AcceptKeeps(s: Net, i: nat, epoll: bool)
    requires Inv(s) && Enabled(s, Accept(i, epoll)) && s.accept[i][0] in s.objs
    ensures Inv(Next(s, Accept(i, epoll)))
  {
    PoppedKeeps(s, i);
    hide Inv, CloseBy, Popped;
    CloseByKeeps(Popped(s, i), EpollError, s.objs[s.accept[i][0]].addrinfo);
  }

  lemma PoppedKeeps(s: Net, i: nat)
    requires Inv(s) && i < |s.accept| && s.accept[i] != []
    ensures Inv(Popped(s, i))
  {
    PoppedPlaces(s, i);
    SameCore(s, Popped(s, i));
  }

  /** Deleting a flagged object disturbs nothing: the map no longer holds it and its story is over. */
  lemma DropClosed(s: Net, t: Net, p: Ptr)
    requires Core(s) && p in s.objs && s.objs[p].closed && Sized(t)
    requires t.objs == s.objs - {p} && t.socketmap == s.socketmap && t.recv == s.recv && t.used == s.used
        && t.appending == s.appending
    ensures Core(t) && OpenAddrs(t) == OpenAddrs(s)
  {
    forall b | b in OpenAddrs(s) ensures b in OpenAddrs(t) {
      var q :| q in s.objs && !s.objs[q].closed && s.objs[q].addrinfo == b;
      assert q in t.objs;
    }
    assert OpenAddrs(t) == OpenAddrs(s);
    forall i, b | 0 <= i < |t.recv| ensures Story(t.recv[i], b) == Expected(t, i, b) {
      assert Story(s.recv[i], b) == Expected(s, i, b);
    }
  }

  lemma SweepFlaggedKeeps(s: Net, i: nat, k: nat)
    requires Inv(s) && Enabled(s, SweepFlagged(i, k))
    ensures Inv(Next(s, SweepFlagged(i, k)))
  {
    DropClosed(s, Next(s, SweepFlagged(i, k)), s.work[i][k]);
    SweepPlaces(s, i, k);
  }

  lemma SweepPlaces(s: Net, i: nat, k: nat)
    requires Sized(s) && Places(s) && Enabled(s, SweepFlagged(i, k))
    ensures Places(Next(s, SweepFlagged(i, k)))
  {
    var t := Next(s, SweepFlagged(i, k));
    var p := s.work[i][k];
    SumRemove(s.work, i, k);
    Shift(multiset(s.appending.Keys), Sum(s.accept), Sum(t.work), multiset(s.expiring), multiset{p});
    PlacesShrink(s, t, p);
  }

  lemma ExpirePlaces(s: Net, i: nat, k: nat)
    requires Sized(s) && Places(s) && Enabled(s, Expire(i, k))
    ensures Places(Next(s, Expire(i, k)))
  {
    var t := Next(s, Expire(i, k));
    var p := s.work[i][k];
    SumRemove(s.work, i, k);
    SumHas(s.work, i, k);
    HeldOnce(s, p);
    SetPlus(s.expiring, p);
    Shift(multiset(s.appending.Keys), Sum(s.accept), Sum(t.work), multiset(s.expiring), multiset{p});
  }

  lemma TimeoutDeleteKeeps(s: Net, p: Ptr)
    requires Inv(s) && p in s.expiring && p in s.objs
    ensures Inv(Next(s, TimeoutDelete(p)))
  {
    var a := s.objs[p].addrinfo;
    var t := CloseBy(s, Timeout, a);
    CloseByKeeps(s, Timeout, a);
    CloseByFields(s, Timeout, a);
    TimedOutIsFlagged(s, p);
    var u := t.(objs := t.objs - {p}, expiring := s.expiring - {p});
    assert Next(s, TimeoutDelete(p)) == u;
    hide CloseBy, Next, Held, Stories, FlagRight, MapRight, AddrsRight;
    DropClosed(t, u, p);
    DeletePlaces(t, u, p);
  }

  lemma TimedOutIsFlagged(s: Net, p: Ptr)
    requires Inv(s) && p in s.expiring && p in s.objs
    ensures
      var t := CloseBy(s, Timeout, s.objs[p].addrinfo);
      p in t.objs && t.objs[p].closed
  {
    HeldOnce(s, p);
    assert !IsAnnounced(s, p);
  }

  lemma DeletePlaces(t: Net, u: Net, p: Ptr)
    requires Places(t) && p in t.expiring && p in t.objs && u == t.(objs := t.objs - {p}, expiring := t.expiring - {p})
    ensures Places(u)
  {
    SetMinus(t.expiring, p);
    Shift(multiset(t.appending.Keys), Sum(t.accept), Sum(t.work), multiset(u.expiring), multiset{p});
    PlacesShrink(t, u, p);
  }

  /** Whatever pointer an enabled step follows names a live object. */
  lemma EnabledIsSafe(s: Net, m: Move)
    requires Inv(s) && Enabled(s, m)
    ensures PointersLive(s, m)
  {
    hide Core, Stories, FlagRight, AddrsRight, Held, Sum;
    match m {
      case MapInsert(p) => AppendingLive(s, p);
      case HandOver(p) => AppendingLive(s, p);
      case Accept(i, _) => AcceptLive(s, i);
      case SweepFlagged(i, k) => WorkLive(s, i, k);
      case Expire(i, k) => WorkLive(s, i, k);
      case TimeoutDelete(p) => ExpiringLive(s, p);
      case ReadMessage(i, k) => WorkLive(s, i, k);
      case ReadFailed(i, k, _) => WorkLive(s, i, k);
      case SendSide(_, a) =>
      case Announce(_, _, _) =>
    }
  }

  lemma AppendingLive(s: Net, p: Ptr)
    requires Places(s) && p in s.appending
    ensures p in s.objs
  {
    HeldOnce(s, p);
  }

  lemma ExpiringLive(s: Net, p: Ptr)
    requires Places(s) && p in s.expiring
    ensures p in s.objs
  {
    HeldOnce(s, p);
  }

  lemma AcceptLive(s: Net, i: nat)
    requires Places(s) && i < |s.accept| && s.accept[i] != []
    ensures s.accept[i][0] in s.objs
  {
    SumHas(s.accept, i, 0);
    HeldOnce(s, s.accept[i][0]);
  }

  lemma WorkLive(s: Net, i: nat, k: nat)
    requires Places(s) && InWork(s, i, k)
    ensures s.work[i][k] in s.objs
  {
    SumHas(s.work, i, k);
    HeldOnce(s, s.work[i][k]);
  }

  lemma MoveKeeps(s: Net, m: Move)
    requires Inv(s)
    ensures Inv(Next(s, m))
  {
    hide Inv, Held, Core, Queued, CloseBy, Popped;
    if Enabled(s, m) {
      EnabledIsSafe(s, m);
      match m {
        case Announce(p, a, fd) => AnnounceKeeps(s, p, a, fd);
        case MapInsert(p) => MapInsertKeeps(s, p);
        case HandOver(p) => HandOverKeeps(s, p);
        case Accept(i, epoll) => AcceptKeeps(s, i, epoll);
        case SweepFlagged(i, k) => SweepFlaggedKeeps(s, i, k);
        case Expire(i, k) => ExpireKeeps(s, i, k);
        case TimeoutDelete(p) => TimeoutDeleteKeeps(s, p);
        case ReadMessage(i, k) => QueuedKeeps(s, RecvMessage, s.objs[s.work[i][k]].addrinfo);
        case ReadFailed(i, k, kind) => CloseByKeeps(s, kind, s.objs[s.work[i][k]].addrinfo);
        case SendSide(kind, a) => SendSideKeeps(s, kind, a);
      }
    }
  }

  lemma AnnounceKeeps(s: Net, p: Ptr, a: string, fd: nat)
    requires Inv(s) && Enabled(s, Announce(p, a, fd))
    ensures Inv(Next(s, Announce(p, a, fd)))
  {
    hide Next, Held, Enabled;
    AnnouncePlaces(s, p, a, fd);
    AnnounceCore(s, p, a, fd);
  }

  lemma HandOverKeeps(s: Net, p: Ptr)
    requires Inv(s) && Enabled(s, HandOver(p)) && p in s.objs
    ensures Inv(Next(s, HandOver(p)))
  {
    hide Held;
    HandOverPlaces(s, p);
    SameCore(s, Next(s, HandOver(p)));
  }

  lemma ExpireKeeps(s: Net, i: nat, k: nat)
    requires Inv(s) && Enabled(s, Expire(i, k))
    ensures Inv(Next(s, Expire(i, k)))
  {
    ExpirePlaces(s, i, k);
    SameCore(s, Next(s, Expire(i, k)));
  }

  lemma SendSideKeeps(s: Net, kind: Kind, a: string)
    requires Inv(s)
    ensures Inv(Next(s, SendSide(kind, a)))
  {
    if kind.SendActive? {
      QueuedKeeps(s, kind, a);
    } else if Terminal(kind) {
      CloseByKeeps(s, kind, a);
    }
  }

  // ---- what each step does and reports ----

  function Events(kinds: seq<Kind>, a: string): seq<Event> {
    seq(|kinds|, i requires 0 <= i < |kinds| => Event(kinds[i], a))
  }

  function Flagged(s: Net, p: Ptr): map<Ptr, Info>
    requires p in s.objs
  {
    s.objs[p := s.objs[p].(closed := true)]
  }

  /** These events, all of the address, are queued behind what its queue held, and the address is still in the map or
      its object is flagged and taken out. Nothing else happens to the connections. */
  ghost predicate Reported(before: Net, after: Net, a: string, kinds: seq<Kind>, closed: bool)
    requires Sized(before)
  {
    var q := Atoi(a) % |before.recv|;
    && after.recv == before.recv[q := before.recv[q] + Events(kinds, a)]
    && (closed ==> a in before.socketmap && before.socketmap[a] in before.objs)
    && after.socketmap == (if closed then before.socketmap - {a} else before.socketmap)
    && after.objs == (if closed then Flagged(before, before.socketmap[a]) else before.objs)
    && after.accept == before.accept && after.work == before.work && after.appending == before.appending
    && after.expiring == before.expiring && after.used == before.used
  }

  lemma QueuedReports(s: Net, kind: Kind, a: string)
    requires Sized(s)
    ensures Reported(s, Queued(s, kind, a), a, [kind], false)
  {
    assert Events([kind], a) == [Event(kind, a)];
  }

  lemma CloseReports(s: Net, kind: Kind, a: string)
    requires Sized(s) && MapRight(s)
    ensures
      var there := a in s.socketmap;
      Reported(s, CloseBy(s, kind, a), a, if there then [kind] else [], there)
  {
    var q := Atoi(a) % |s.recv|;
    assert Events([kind], a) == [Event(kind, a)] && s.recv[q] + Events([], a) == s.recv[q];
    assert s.recv[q := s.recv[q]] == s.recv;
  }

  /** A timed-out object that the map no longer holds was flagged before. */
  lemma TimeoutReports(s: Net, p: Ptr)
    requires Inv(s) && p in s.expiring && p in s.objs
    ensures
      var a, t := s.objs[p].addrinfo, Next(s, TimeoutDelete(p));
      var there := a in s.socketmap;
      && t.objs == s.objs - {p} && t.expiring == s.expiring - {p}
      && Reported(s, t.(objs := Flagged(s, p), expiring := s.expiring), a,
                  if there then [Timeout] else [], there)
  {
    var a := s.objs[p].addrinfo;
    var c := CloseBy(s, Timeout, a);
    CloseReports(s, Timeout, a);
    TimedOutIsFlagged(s, p);
    CloseByFields(s, Timeout, a);
    assert a in s.socketmap ==> s.socketmap[a] == p;
    assert c.objs == Flagged(s, p);
    assert c.objs - {p} == s.objs - {p};
  }

  /** Every step of a thread: what it puts where, which events it queues in the queue the address selects, and when a
      connection leaves the map. An event that closes is queued only by the step that still finds the address there. */
  lemma ConnectionStep(s: Net, m: Move)
    requires Inv(s) && Enabled(s, m)
    ensures
      var t := Next(s, m);
      match m
      case Announce(p, a, fd) =>
        Reported(s.(objs := s.objs[p := Info(a, fd, false)], appending := s.appending[p := Announced],
                    used := s.used + {a}), t, a, [Connect], false)
      case MapInsert(p) =>
        p in s.objs
        && t == s.(socketmap := s.socketmap[s.objs[p].addrinfo := p], appending := s.appending[p := Mapped])
      case HandOver(p) =>
        p in s.objs
        && var q := s.objs[p].socketfd % |s.accept|;
        t == s.(accept := s.accept[q := s.accept[q] + [p]], appending := s.appending - {p})
      case Accept(i, epoll) =>
        var p := s.accept[i][0];
        var u := s.(accept := s.accept[i := s.accept[i][1..]], work := s.work[i := s.work[i] + [p]]);
        p in s.objs
        && var there := s.objs[p].addrinfo in s.socketmap;
        if epoll then t == u else Reported(u, t, s.objs[p].addrinfo, if there then [EpollError] else [], there)
      case SweepFlagged(i, k) =>
        t == s.(work := s.work[i := s.work[i][..k] + s.work[i][k + 1..]], objs := s.objs - {s.work[i][k]})
      case Expire(i, k) =>
        t == s.(work := s.work[i := s.work[i][..k] + s.work[i][k + 1..]], expiring := s.expiring + {s.work[i][k]})
      case TimeoutDelete(p) =>
        p in s.objs
        && var there := s.objs[p].addrinfo in s.socketmap;
        && t.objs == s.objs - {p} && t.expiring == s.expiring - {p}
        && Reported(s, t.(objs := Flagged(s, p), expiring := s.expiring),
                    s.objs[p].addrinfo, if there then [Timeout] else [], there)
      case ReadMessage(i, k) =>
        s.work[i][k] in s.objs && Reported(s, t, s.objs[s.work[i][k]].addrinfo, [RecvMessage], false)
      case ReadFailed(i, k, kind) =>
        s.work[i][k] in s.objs
        && var there := s.objs[s.work[i][k]].addrinfo in s.socketmap;
        Reported(s, t, s.objs[s.work[i][k]].addrinfo, if there then [kind] else [], there)
      case SendSide(kind, a) =>
        if kind.Connect? || kind.RecvMessage? then t == s
        else if kind.SendActive? then Reported(s, t, a, [SendActive], false)
        else Reported(s, t, a, if a in s.socketmap then [kind] else [], a in s.socketmap)
  {
    EnabledIsSafe(s, m);
    assert Sized(s) && MapRight(s);
    match m {
      case Announce(p, a, fd) =>
        QueuedReports(s.(objs := s.objs[p := Info(a, fd, false)], appending := s.appending[p := Announced],
                         used := s.used + {a}), Connect, a);
      case Accept(i, epoll) =>
        PoppedKeeps(s, i);
        CloseReports(Popped(s, i), EpollError, s.objs[s.accept[i][0]].addrinfo);
      case TimeoutDelete(p) => TimeoutReports(s, p);
      case ReadMessage(i, k) => QueuedReports(s, RecvMessage, s.objs[s.work[i][k]].addrinfo);
      case ReadFailed(i, k, kind) => CloseReports(s, kind, s.objs[s.work[i][k]].addrinfo);
      case SendSide(kind, a) =>
        QueuedReports(s, kind, a);
        CloseReports(s, kind, a);
      case _ =>
    }
    hide Reported, Inv, MapRight;
  }

  // ---- whole runs ----

  predicate Initial(s: Net) {
    && Sized(s) && s.objs == map[] && s.socketmap == map[] && s.appending == map[] && s.expiring == {} && s.used == {}
    && forall i | 0 <= i < |s.recv| :: s.accept[i] == [] && s.work[i] == [] && s.recv[i] == []
  }

  /** Any interleaving of the threads' steps. */
  ghost predicate IsRun(states: seq<Net>, moves: seq<Move>) {
    && |states| == |moves| + 1 && Initial(states[0])
    && (forall i | 0 <= i < |states| :: Sized(states[i]))
    && forall i | 0 <= i < |moves| :: Enabled(states[i], moves[i]) && states[i + 1] == Next(states[i], moves[i])
  }

  lemma {:induction false} SumEmpty(qs: seq<seq<Ptr>>)
    requires forall i | 0 <= i < |qs| :: qs[i] == []
    ensures Sum(qs) == multiset{}
  {
    if qs != [] { SumEmpty(qs[..|qs| - 1]); }
  }

  lemma InitialInv(s: Net)
    requires Initial(s)
    ensures Inv(s)
  {
    SumEmpty(s.accept);
    SumEmpty(s.work);
  }

  /** Under any interleaving of append, receive sweep, read and send steps: every pointer a thread is
      about to follow names a live object, and the map holds no deleted and no flagged object. */
  lemma {:induction false} NoDanglingPointer(states: seq<Net>, moves: seq<Move>, i: nat)
    requires IsRun(states, moves) && i < |states|
    ensures Inv(states[i]) && MapRight(states[i])
    ensures i < |moves| ==> PointersLive(states[i], moves[i])
  {
    if i == 0 {
      InitialInv(states[0]);
    } else {
      NoDanglingPointer(states, moves, i - 1);
      MoveKeeps(states[i - 1], moves[i - 1]);
    }
    if i < |moves| {
      EnabledIsSafe(states[i], moves[i]);
    }
  }

  /** A connection object is deleted only after exactly one terminal event for it was queued, and its
      one connect event stands before that in the same receive queue. */
  lemma DeletedAfterOneTerminal(states: seq<Net>, moves: seq<Move>, i: nat, p: Ptr)
    requires IsRun(states, moves) && i < |moves| && p in states[i].objs && p !in states[i + 1].objs
    ensures
      var a := states[i].objs[p].addrinfo;
      var q := states[i + 1].recv[Index(a, |states[i + 1].recv|)];
      exists j, k :: j < k && OneConnect(q, a, j) && OneTerminal(q, a, k)
  {
    NoDanglingPointer(states, moves, i);
    NoDanglingPointer(states, moves, i + 1);
    var t := states[i + 1];
    var a := states[i].objs[p].addrinfo;
    var n := Index(a, |t.recv|);
    assert Story(t.recv[n], a) == Expected(t, n, a) == Closed;
    StoryMeans(t.recv[n], a);
  }

  /** A connection that is still open has been announced once and has no terminal event anywhere; all
      three queues of a connection carry the index its printed address starts with. */
  lemma OpenIsAnnouncedOnce(s: Net, p: Ptr)
    requires Inv(s) && p in s.objs && !s.objs[p].closed
    ensures Index(s.objs[p].addrinfo, |s.recv|) == s.objs[p].socketfd % |s.accept|
    ensures exists j :: OneConnect(s.recv[s.objs[p].socketfd % |s.recv|], s.objs[p].addrinfo, j)
    ensures forall i, k | 0 <= i < |s.recv| :: !TerminalAt(s.recv[i], s.objs[p].addrinfo, k)
  {
    var a := s.objs[p].addrinfo;
    assert a in OpenAddrs(s);
    forall i | 0 <= i < |s.recv| ensures forall k :: !TerminalAt(s.recv[i], a, k) {
      assert Story(s.recv[i], a) == Expected(s, i, a);
      StoryMeans(s.recv[i], a);
    }
    var n := Index(a, |s.recv|);
    assert Story(s.recv[n], a) == Expected(s, n, a);
    StoryMeans(s.recv[n], a);
  }

  /** An address once used and no longer open never opens again. */
  lemma NeverReopens(s: Net, m: Move, a: string)
    requires Inv(s) && a in s.used && a !in OpenAddrs(s)
    ensures a in Next(s, m).used && a !in OpenAddrs(Next(s, m))
  {
    if m.Announce? && Enabled(s, m) {
      AnnounceOpens(s, m.p, m.addrinfo, m.socketfd);
      hide Inv;
    } else {
      hide Next, Inv;
      assert OpenAddrs(Next(s, m)) <= OpenAddrs(s);
    }
  }
}
