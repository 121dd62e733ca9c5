/** The socket class as the source runs it, each method proved against the steps of SocketLife. */
module TcpSocket {
  import opened Text
  import opened SocketLife
  import opened SendPath

  const MAX_RECV_SIZE: nat := 10 * 1024

  /** Several steps one after the other. */
  ghost function Play(s: Net, moves: seq<Move>): Net
    requires Sized(s)
    decreases |moves|
  {
    if moves == [] then s
    else
      var t := Play(s, moves[..|moves| - 1]);
      if Sized(t) then Next(t, moves[|moves| - 1]) else t
  }

  lemma PlayNone(s: Net)
    requires Sized(s)
    ensures Play(s, []) == s
  {
  }

  lemma PlayOneMore(s: Net, moves: seq<Move>, m: Move)
    requires Sized(s) && Sized(Play(s, moves))
    ensures Play(s, moves + [m]) == Next(Play(s, moves), m)
  {
    assert (moves + [m])[..|moves|] == moves;
  }

  /** What a sweep leaves on a work list: neither flagged nor timed out, in the old order. */
  function Kept(list: seq<Ptr>, objs: map<Ptr, Info>, timedout: set<Ptr>): seq<Ptr> {
    if list == [] then []
    else
      var rest := Kept(list[..|list| - 1], objs, timedout);
      var p := list[|list| - 1];
      if p in objs && !objs[p].closed && p !in timedout then rest + [p] else rest
  }

  lemma KeptSnoc(list: seq<Ptr>, k: nat, objs: map<Ptr, Info>, timedout: set<Ptr>)
    requires k < |list|
    ensures Kept(list[..k + 1], objs, timedout) ==
      Kept(list[..k], objs, timedout)
      + (if list[k] in objs && !objs[list[k]].closed && list[k] !in timedout then [list[k]] else [])
  {
    assert list[..k + 1][..k] == list[..k];
  }

  /** List by list and one by one, that is: those that are live, not flagged and not timed out. */
  lemma {:induction false} KeptIs(a: seq<Ptr>, b: seq<Ptr>, objs: map<Ptr, Info>, timedout: set<Ptr>)
    ensures Kept(a + b, objs, timedout) == Kept(a, objs, timedout) + Kept(b, objs, timedout)
    ensures forall p :: p in Kept(b, objs, timedout) <==> p in b && p in objs && !objs[p].closed && p !in timedout
    ensures forall p :: Kept([p], objs, timedout) == [p] || Kept([p], objs, timedout) == []
  {
    if b == [] {
      assert a + b == a;
    } else {
      var n := |b| - 1;
      assert (a + b)[..|a + b| - 1] == a + b[..n] && b == b[..n] + [b[n]];
      KeptIs(a, b[..n], objs, timedout);
    }
  }

  lemma JoinOne(blocks: seq<Bytes>, b: Bytes, rest: Bytes)
    ensures Joined(blocks + [b]) + rest == Joined(blocks) + (b + rest)
  {
    assert (blocks + [b])[..|blocks|] == blocks;
  }

  class CTcpSocket {
    var objs: map<Ptr, Info>
    var socketmap: map<string, Ptr>
    var accept: seq<seq<Ptr>>
    var work: seq<seq<Ptr>>
    var recv: seq<seq<Event>>
    ghost var appending: map<Ptr, Stage>
    ghost var expiring: set<Ptr>
    ghost var used: set<string>

    ghost function State(): Net
      reads this
    {
      Net(objs, socketmap, appending, accept, work, expiring, recv, used)
    }

    constructor (threadcount: nat)
      requires threadcount > 0
      ensures Initial(State()) && |recv| == threadcount && Inv(State())
    {
      objs, socketmap, appending, expiring, used := map[], map[], map[], {}, {};
      accept := seq(threadcount, _ => []);
      work := seq(threadcount, _ => []);
      recv := seq(threadcount, _ => []);
      new;
      InitialInv(State());
    }

    method DoRecvSocket(kind: Kind, addrinfo: string)
      requires Sized(State())
      modifies this`recv
      ensures State() == Queued(old(State()), kind, addrinfo)
    {
      var threadindex := Atoi(addrinfo) % |recv|;
      recv := recv[threadindex := recv[threadindex] + [Event(kind, addrinfo)]];
    }

    method CloseSocketInfo(kind: Kind, addrinfo: string)
      requires Sized(State()) && MapRight(State())
      modifies this`recv, this`objs, this`socketmap
      ensures State() == CloseBy(old(State()), kind, addrinfo)
    {
      if addrinfo in socketmap {
        var p := socketmap[addrinfo];
        objs := objs[p := objs[p].(closed := true)];
        DoRecvSocket(kind, addrinfo);
        socketmap := socketmap - {addrinfo};
      }
    }

    /** First section of a new connection: the object is made and its connect event queued. */
    method AnnounceSocket(p: Ptr, addrinfo: string, socketfd: nat)
      requires Inv(State()) && p !in objs && addrinfo !in used && Atoi(addrinfo) == socketfd
      modifies this
      ensures Inv(State()) && State() == Next(old(State()), Announce(p, addrinfo, socketfd))
    {
      MoveKeeps(State(), Announce(p, addrinfo, socketfd));
      objs := objs[p := Info(addrinfo, socketfd, false)];
      DoRecvSocket(Connect, addrinfo);
      used, appending := used + {addrinfo}, appending[p := Announced];
    }

    /** Second section: the object goes into the map. */
    method InsertSocket(p: Ptr)
      requires Inv(State()) && Enabled(State(), MapInsert(p))
      modifies this
      ensures Inv(State()) && State() == Next(old(State()), MapInsert(p))
      ensures p in objs && objs[p].addrinfo in socketmap && socketmap[objs[p].addrinfo] == p
    {
      MoveKeeps(State(), MapInsert(p));
      EnabledIsSafe(State(), MapInsert(p));
      socketmap := socketmap[objs[p].addrinfo := p];
      appending := appending[p := Mapped];
    }

    /** Third section: the object goes to the accept queue its descriptor selects. */
    method HandSocketOver(p: Ptr)
      requires Inv(State()) && Enabled(State(), HandOver(p))
      modifies this
      ensures Inv(State()) && State() == Next(old(State()), HandOver(p))
      ensures p in objs && p in accept[objs[p].socketfd % |accept|]
    {
      MoveKeeps(State(), HandOver(p));
      EnabledIsSafe(State(), HandOver(p));
      var i := objs[p].socketfd % |accept|;
      accept := accept[i := accept[i] + [p]];
      appending := appending - {p};
    }

    /** AppendSocketInfo when no other thread gets in between its sections: the connection is in the
        map under its address, waiting in its accept queue, and announced. */
    method AppendSocketInfo(p: Ptr, addrinfo: string, socketfd: nat)
      requires Inv(State()) && p !in objs && addrinfo !in used && Atoi(addrinfo) == socketfd
      modifies this
      ensures Inv(State())
      ensures State() == Next(Next(Next(old(State()), Announce(p, addrinfo, socketfd)), MapInsert(p)), HandOver(p))
      ensures addrinfo in socketmap && socketmap[addrinfo] == p && p in accept[socketfd % |accept|]
    {
      AnnounceSocket(p, addrinfo, socketfd);
      assert objs[p] == Info(addrinfo, socketfd, false);
      InsertSocket(p);
      assert objs[p] == Info(addrinfo, socketfd, false);
      HandSocketOver(p);
    }

    /** One connection from the accept queue to the work list. */
    method TakeOne(i: nat, registered: bool)
      requires Inv(State()) && i < |accept| && accept[i] != []
      modifies this
      ensures Inv(State()) && State() == Next(old(State()), Accept(i, registered))
      ensures |accept| == old(|accept|) && Sized(State())
      ensures work[i] == old(work[i]) + old(accept[i])[..1] && accept[i] == old(accept[i])[1..]
    {
      hide Inv, Next, Enabled, PointersLive, CloseBy, MapRight;
      TakeFacts(State(), i, registered);
      var socketinfo := accept[i][0];
      var addrinfo := objs[socketinfo].addrinfo;
      accept, work := accept[i := accept[i][1..]], work[i := work[i] + [socketinfo]];
      if !registered {
        CloseSocketInfo(EpollError, addrinfo);
      }
    }

    /** The top of the receiving loop: takes connections from the accept queue until it is empty or the
        work list is full; registered(j) says whether the j-th one could be registered for reading. */
    method TakeAccepted(i: nat, registered: nat -> bool) returns (taken: nat)
      requires Inv(State()) && i < |accept|
      modifies this
      ensures Inv(State()) && |accept| == old(|accept|) && taken <= |old(accept[i])|
      ensures State() == Play(old(State()), seq(taken, j requires 0 <= j => Accept(i, registered(j))))
      ensures work[i] == old(work[i]) + old(accept[i])[..taken] && accept[i] == old(accept[i])[taken..]
      ensures accept[i] == [] || |work[i]| >= MAX_RECV_SIZE
    {
      hide Inv, Next, MapRight;
      ghost var moves: seq<Move> := [];
      assert Sized(State()) by { SizedInv(State()); }
      var worksize := |work[i]|;
      taken := 0;
      while worksize < MAX_RECV_SIZE
        invariant Inv(State()) && Sized(State()) && State() == Play(old(State()), moves) && |accept| == old(|accept|)
        invariant worksize <= |work[i]| && taken <= |old(accept[i])|
        invariant moves == seq(taken, j requires 0 <= j => Accept(i, registered(j)))
        invariant work[i] == old(work[i]) + old(accept[i])[..taken] && accept[i] == old(accept[i])[taken..]
        decreases |accept[i]|
      {
        if accept[i] == [] {
          break;
        }
        PlayOneMore(old(State()), moves, Accept(i, registered(taken)));
        TakeOne(i, registered(taken));
        if registered(taken) {
          worksize := worksize + 1;
        }
        moves := moves + [Accept(i, registered(taken))];
        taken := taken + 1;
      }
    }

    /** One recv on an object of a work list, `input` being empty when the peer has closed or recv failed. The parser
        looks at the buffer and answers the length of a complete block, 0 for "not yet" or a negative number for
        "broken". Nothing received is lost or repeated; every block is reported, and so is the end. */
    method ReadMsg(i: nat, k: nat, buffer: Bytes, input: Bytes, parser: Bytes -> int)
      returns (blocks: seq<Bytes>, rest: Bytes, broken: bool)
      requires Inv(State()) && InWork(State(), i, k) && forall b :: parser(b) <= |b|
      modifies this
      ensures Joined(blocks) + rest == buffer + input
      ensures forall j | 0 <= j < |blocks| :: |blocks[j]| > 0
      ensures input == [] ==> blocks == [] && !broken
      ensures input != [] ==> (broken <==> rest != [] && parser(rest) < 0) && (rest == [] || parser(rest) <= 0)
      ensures Inv(State()) && State() == Play(old(State()), ReadMoves(i, k, |blocks|, input, broken))
      ensures TurnReported(old(State()), State(), i, k, |blocks|, input, broken)
    {
      hide Inv, Next, Play, Queued, CloseBy, ReadMoves, MapRight, TurnReported;
      ReadFacts(State(), i, k);
      PlayNone(State());
      var addrinfo := objs[work[i][k]].addrinfo;
      rest := buffer + input;
      blocks, broken := [], false;
      ghost var s := State();
      if input == [] {
        CloseSocketInfo(RecvClosed, addrinfo);
        ClosedMoves(i, k);
        PlayOneMore(s, [], ReadFailed(i, k, RecvClosed));
        TurnIsReported(s, i, k, 0, input, false);
        return;
      }
      OneMoreRead(i, k, 0, input);
      while rest != []
        invariant Joined(blocks) + rest == buffer + input && !broken
        invariant forall j | 0 <= j < |blocks| :: |blocks[j]| > 0
        invariant Inv(State()) && Sized(State()) && State() == Play(s, ReadMoves(i, k, |blocks|, input, false))
        invariant objs == s.objs && work == s.work
        decreases |rest|
      {
        var packetlen := parser(rest);
        OneMoreRead(i, k, |blocks|, input);
        ReadFacts(State(), i, k);
        if packetlen > 0 {
          PlayOneMore(s, ReadMoves(i, k, |blocks|, input, false), ReadMessage(i, k));
          assert rest == rest[..packetlen] + rest[packetlen..];
          JoinOne(blocks, rest[..packetlen], rest[packetlen..]);
          blocks := blocks + [rest[..packetlen]];
          rest := rest[packetlen..];
          DoRecvSocket(RecvMessage, addrinfo);
        } else {
          if packetlen < 0 {
            PlayOneMore(s, ReadMoves(i, k, |blocks|, input, false), ReadFailed(i, k, RecvError));
            broken := true;
            CloseSocketInfo(RecvError, addrinfo);
          }
          break;
        }
      }
      TurnIsReported(s, i, k, |blocks|, input, broken);
    }

    /** Deletes the flagged object at one position of a work list. */
    method DropFlagged(i: nat, k: nat)
      requires Inv(State()) && Enabled(State(), SweepFlagged(i, k))
      modifies this
      ensures Inv(State()) && State() == Next(old(State()), SweepFlagged(i, k))
    {
      MoveKeeps(State(), SweepFlagged(i, k));
      var p := work[i][k];
      work := work[i := work[i][..k] + work[i][k + 1..]];
      objs := objs - {p};
    }

    /** Takes a timed-out object off its work list, reports it unless someone else already did, and
        deletes it. */
    method DropTimedOut(i: nat, k: nat)
      requires Inv(State()) && Enabled(State(), Expire(i, k))
      modifies this
      ensures Inv(State()) && State() == Next(Next(old(State()), Expire(i, k)), TimeoutDelete(old(work[i][k])))
      ensures work == old(work)[i := RemoveAt(old(work[i]), k)] && objs.Keys == old(objs.Keys) - {old(work[i][k])}
      ensures forall q | q in objs :: objs[q] == old(objs)[q]
    {
      hide Inv, Next, Enabled, PointersLive, CloseBy, MapRight;
      ExpireFacts(State(), i, k);
      var p := work[i][k];
      work := work[i := work[i][..k] + work[i][k + 1..]];
      expiring := expiring + {p};
      CloseSocketInfo(Timeout, objs[p].addrinfo);
      objs := objs - {p};
      expiring := expiring - {p};
    }

    /** The sweep over a work list: flagged objects are deleted, timed-out ones reported and deleted,
        the others stay in order. */
    method Sweep(i: nat, timedout: set<Ptr>) returns (ghost moves: seq<Move>)
      requires Inv(State()) && i < |work|
      modifies this
      ensures Inv(State()) && State() == Play(old(State()), moves) && |work| == old(|work|)
      ensures work[i] == Kept(old(work[i]), old(objs), timedout)
      ensures forall p | p in work[i] :: p in objs && !objs[p].closed
      ensures forall q | q in objs :: q in old(objs) && objs[q] == old(objs)[q]
      ensures forall q | q in old(objs) :: q in objs <==> q !in old(work[i]) || q in work[i]
    {
      hide Inv, MapRight, Play, Next, Enabled;
      SizedInv(State());
      moves := [];
      var it := 0;
      ghost var list, done := work[i], 0;
      assert list[0..] == list && list[..0] == [];
      PlayNone(State());
      while it < |work[i]|
        invariant Inv(State()) && Sized(State()) && State() == Play(old(State()), moves) && |work| == old(|work|)
        invariant 0 <= done <= |list| && it <= |work[i]|
        invariant work[i][..it] == Kept(list[..done], old(objs), timedout) && work[i][it..] == list[done..]
        invariant forall q | q in objs :: q in old(objs) && objs[q] == old(objs)[q]
        invariant forall k | 0 <= k < it :: work[i][k] in objs && !objs[work[i][k]].closed
        invariant forall q | q in old(objs) :: q in objs <==> q !in list[..done] || q in work[i][..it]
        decreases |work[i]| - it
      {
        var p := work[i][it];
        assert p == work[i][it..][0] == list[done];
        KeptSnoc(list, done, old(objs), timedout);
        SweepFacts(State(), i, it, list);
        RemovedOne(work[i], it, list, done);
        hide RemoveAt, Kept;
        if objs[p].closed {
          PlayOneMore(old(State()), moves, SweepFlagged(i, it));
          DropFlagged(i, it);
          moves := moves + [SweepFlagged(i, it)];
        } else if p in timedout {
          ExpireFacts(State(), i, it);
          PlayOneMore(old(State()), moves, Expire(i, it));
          PlayOneMore(old(State()), moves + [Expire(i, it)], TimeoutDelete(p));
          DropTimedOut(i, it);
          moves := moves + [Expire(i, it)] + [TimeoutDelete(p)];
        } else {
          it := it + 1;
        }
        done := done + 1;
        SizedInv(State());
      }
      assert list[..done] == list && work[i][..it] == work[i];
    }
  }

  /** The steps of one reading turn: one for each block, and one that closes when the peer did or the parser gave up. */
  function ReadMoves(i: nat, k: nat, blocks: nat, input: Bytes, broken: bool): seq<Move> {
    seq(blocks, j => ReadMessage(i, k))
    + (if input == [] then [ReadFailed(i, k, RecvClosed)] else if broken then [ReadFailed(i, k, RecvError)] else [])
  }

  lemma OneMoreRead(i: nat, k: nat, n: nat, input: Bytes)
    requires input != []
    ensures ReadMoves(i, k, 0, input, false) == []
    ensures ReadMoves(i, k, n + 1, input, false) == ReadMoves(i, k, n, input, false) + [ReadMessage(i, k)]
    ensures ReadMoves(i, k, n, input, true) == ReadMoves(i, k, n, input, false) + [ReadFailed(i, k, RecvError)]
  {
  }

  lemma ClosedMoves(i: nat, k: nat)
    ensures ReadMoves(i, k, 0, [], false) == [ReadFailed(i, k, RecvClosed)] == [] + [ReadFailed(i, k, RecvClosed)]
  {
  }

  /** As many messages of one address. */
  ghost function Blocks(n: nat, a: string): (r: seq<Event>)
    ensures |r| == n && forall j | 0 <= j < n :: r[j] == Event(RecvMessage, a)
  {
    if n == 0 then [] else Blocks(n - 1, a) + [Event(RecvMessage, a)]
  }

  /** These events stand behind what the queue of the address held, and nothing else was queued. */
  ghost predicate Grown(before: seq<seq<Event>>, after: seq<seq<Event>>, a: string, more: seq<Event>) {
    && |after| == |before| > 0
    && var q := Atoi(a) % |before|;
       after[q] == before[q] + more && forall j | 0 <= j < |before| && j != q :: after[j] == before[j]
  }

  lemma GrownTwice(s: seq<seq<Event>>, t: seq<seq<Event>>, u: seq<seq<Event>>, a: string, x: seq<Event>, y: seq<Event>)
    requires Grown(s, t, a, x) && Grown(t, u, a, y)
    ensures Grown(s, u, a, x + y)
  {
    var q := Atoi(a) % |s|;
    assert s[q] + (x + y) == (s[q] + x) + y;
  }

  lemma QueuedGrown(s: Net, kind: Kind, a: string)
    requires Sized(s)
    ensures Grown(s.recv, s.recv, a, []) && Grown(s.recv, Queued(s, kind, a).recv, a, [Event(kind, a)])
  {
    var q := Atoi(a) % |s.recv|;
    assert s.recv[q] + [] == s.recv[q];
  }

  /** A block read from a place of a work list, and the end of its connection. */
  lemma ReadGrown(s: Net, i: nat, k: nat, kind: Kind)
    requires Inv(s) && InWork(s, i, k) && (kind.RecvClosed? || kind.RecvError?)
    ensures s.work[i][k] in s.objs && Sized(s) && Grown(s.recv, s.recv, s.objs[s.work[i][k]].addrinfo, [])
    ensures
      var a, t := s.objs[s.work[i][k]].addrinfo, Next(s, ReadMessage(i, k));
      && Inv(t) && Sized(t) && t.objs == s.objs && t.work == s.work && t.socketmap == s.socketmap
      && Grown(s.recv, t.recv, a, [Event(RecvMessage, a)])
    ensures
      var a, t := s.objs[s.work[i][k]].addrinfo, Next(s, ReadFailed(i, k, kind));
      if a in s.socketmap then t.socketmap == s.socketmap - {a} && Grown(s.recv, t.recv, a, [Event(kind, a)])
      else t == s
  {
    ReadFacts(s, i, k);
    QueuedGrown(s, RecvMessage, s.objs[s.work[i][k]].addrinfo);
    QueuedGrown(s, kind, s.objs[s.work[i][k]].addrinfo);
    assert MapRight(s);
    hide Inv, Next, Grown;
  }

  /** Blocks of the address were queued, and nothing else happened. */
  ghost predicate HasRead(s: Net, t: Net, a: string, n: nat) {
    && Inv(t) && Sized(t) && t.objs == s.objs && t.work == s.work && t.socketmap == s.socketmap
    && Grown(s.recv, t.recv, a, Blocks(n, a))
  }

  lemma ReadsMore(s: Net, t: Net, i: nat, k: nat, n: nat)
    requires InWork(s, i, k) && s.work[i][k] in s.objs && HasRead(s, t, s.objs[s.work[i][k]].addrinfo, n)
    ensures HasRead(s, Next(t, ReadMessage(i, k)), s.objs[s.work[i][k]].addrinfo, n + 1)
  {
    var a := s.objs[s.work[i][k]].addrinfo;
    ReadGrown(t, i, k, RecvClosed);
    hide Inv, Next, Grown;
    GrownTwice(s.recv, t.recv, Next(t, ReadMessage(i, k)).recv, a, Blocks(n, a), [Event(RecvMessage, a)]);
  }

  lemma {:induction false} BlocksReported(s: Net, i: nat, k: nat, moves: seq<Move>)
    requires Inv(s) && InWork(s, i, k) && forall j | 0 <= j < |moves| :: moves[j] == ReadMessage(i, k)
    ensures s.work[i][k] in s.objs && Sized(s)
    ensures HasRead(s, Play(s, moves), s.objs[s.work[i][k]].addrinfo, |moves|)
    decreases |moves|
  {
    ReadGrown(s, i, k, RecvClosed);
    if moves == [] {
      hide Inv, Next, Grown;
    } else {
      var n := |moves| - 1;
      BlocksReported(s, i, k, moves[..n]);
      var t := Play(s, moves[..n]);
      ReadsMore(s, t, i, k, n);
      assert Sized(t);
      hide HasRead, Inv, Grown, Next;
      assert moves[n] == ReadMessage(i, k);
    }
  }

  /** A reading turn queues a message for each block, in the queue the address selects, and then what ended it; the
      end takes the connection out of the map, and is reported only when it is still there. */
  ghost predicate TurnReported(s: Net, t: Net, i: nat, k: nat, n: nat, input: Bytes, broken: bool)
    requires Sized(s) && InWork(s, i, k)
  {
    s.work[i][k] in s.objs &&
    var a := s.objs[s.work[i][k]].addrinfo;
    if (input == [] || broken) && a in s.socketmap then
      && t.socketmap == s.socketmap - {a}
      && Grown(s.recv, t.recv, a, Blocks(n, a) + [Event(if input == [] then RecvClosed else RecvError, a)])
    else
      t.socketmap == s.socketmap && Grown(s.recv, t.recv, a, Blocks(n, a))
  }

  lemma TurnIsReported(s: Net, i: nat, k: nat, n: nat, input: Bytes, broken: bool)
    requires Inv(s) && InWork(s, i, k)
    ensures Sized(s) && TurnReported(s, Play(s, ReadMoves(i, k, n, input, broken)), i, k, n, input, broken)
  {
    var moves := seq(n, _ => ReadMessage(i, k));
    BlocksReported(s, i, k, moves);
    var a, t := s.objs[s.work[i][k]].addrinfo, Play(s, moves);
    hide Inv, Next, Play, Grown;
    if input == [] || broken {
      var kind := if input == [] then RecvClosed else RecvError;
      assert ReadMoves(i, k, n, input, broken) == moves + [ReadFailed(i, k, kind)];
      PlayOneMore(s, moves, ReadFailed(i, k, kind));
      ReadGrown(t, i, k, kind);
      if a in s.socketmap {
        GrownTwice(s.recv, t.recv, Next(t, ReadFailed(i, k, kind)).recv, a, Blocks(n, a), [Event(kind, a)]);
      }
    } else {
      assert ReadMoves(i, k, n, input, broken) == moves;
    }
  }

  lemma ReadFacts(s: Net, i: nat, k: nat)
    requires Inv(s) && InWork(s, i, k)
    ensures s.work[i][k] in s.objs && Sized(s) && MapRight(s)
    ensures
      var t := Queued(s, RecvMessage, s.objs[s.work[i][k]].addrinfo);
      Next(s, ReadMessage(i, k)) == t && Inv(t) && Sized(t) && t.objs == s.objs && t.work == s.work
    ensures forall kind: Kind | kind.RecvError? || kind.RecvClosed? ::
      var t := CloseBy(s, kind, s.objs[s.work[i][k]].addrinfo);
      Next(s, ReadFailed(i, k, kind)) == t && Inv(t)
  {
    hide Held, Stories, FlagRight, AddrsRight, CloseBy;
    EnabledIsSafe(s, ReadMessage(i, k));
    MoveKeeps(s, ReadMessage(i, k));
    forall kind: Kind | kind.RecvError? || kind.RecvClosed?
      ensures Inv(Next(s, ReadFailed(i, k, kind)))
    {
      MoveKeeps(s, ReadFailed(i, k, kind));
    }
    SizedInv(s);
    hide Inv;
  }

  lemma TakeFacts(s: Net, i: nat, registered: bool)
    requires Inv(s) && i < |s.accept| && s.accept[i] != []
    ensures Sized(s) && s.accept[i][0] in s.objs
    ensures
      var t := Popped(s, i);
      var a := s.objs[s.accept[i][0]].addrinfo;
      && MapRight(t) && Sized(t)
      && Next(s, Accept(i, registered)) == (if registered then t else CloseBy(t, EpollError, a))
      && CloseBy(t, EpollError, a).accept == t.accept && CloseBy(t, EpollError, a).work == t.work
    ensures Inv(Next(s, Accept(i, registered))) && Sized(Next(s, Accept(i, registered)))
  {
    hide Held, Stories, FlagRight, AddrsRight;
    MoveKeeps(s, Accept(i, registered));
    EnabledIsSafe(s, Accept(i, registered));
    PoppedKeeps(s, i);
  }

  lemma ExpireFacts(s: Net, i: nat, k: nat)
    requires Inv(s) && Enabled(s, Expire(i, k))
    ensures Sized(s) && InWork(s, i, k)
    ensures
      var p := s.work[i][k];
      var t := s.(work := s.work[i := RemoveAt(s.work[i], k)], expiring := s.expiring + {p});
      && p in s.objs && MapRight(t) && Sized(t) && Next(s, Expire(i, k)) == t
      && var c := CloseBy(t, Timeout, s.objs[p].addrinfo);
      && var u := Next(t, TimeoutDelete(p));
      && Inv(u) && Sized(u) && u == c.(objs := c.objs - {p}, expiring := t.expiring - {p})
      && c.objs.Keys == s.objs.Keys && c.expiring == t.expiring && c.work == t.work
      && forall q | q in u.objs :: u.objs[q] == s.objs[q]
  {
    var p := s.work[i][k];
    var t := Next(s, Expire(i, k));
    MoveKeeps(s, Expire(i, k));
    EnabledIsSafe(s, Expire(i, k));
    assert t == s.(work := s.work[i := RemoveAt(s.work[i], k)], expiring := s.expiring + {p});
    SizedInv(s);
    SizedInv(t);
    MoveKeeps(t, TimeoutDelete(p));
    TimeoutFields(t, p);
    SizedInv(Next(t, TimeoutDelete(p)));
    hide Inv, MapRight, Next, CloseBy;
  }

  /** Timing an object out deletes it and leaves every other object as it was. */
  lemma TimeoutFields(s: Net, p: Ptr)
    requires Inv(s) && p in s.expiring && p in s.objs
    ensures
      var c := CloseBy(s, Timeout, s.objs[p].addrinfo);
      var t := Next(s, TimeoutDelete(p));
      && t == c.(objs := c.objs - {p}, expiring := s.expiring - {p})
      && c.objs.Keys == s.objs.Keys && c.expiring == s.expiring && c.work == s.work
      && forall q | q in t.objs :: t.objs[q] == s.objs[q]
  {
    var a := s.objs[p].addrinfo;
    if a in s.socketmap {
      var q := s.socketmap[a];
      assert s.objs[q].addrinfo == a;
      assert q == p;
    }
  }

  lemma SweepFacts(s: Net, i: nat, k: nat, list: seq<Ptr>)
    requires Inv(s) && InWork(s, i, k)
    ensures Sized(s) && s.work[i][k] in s.objs
    ensures s.objs[s.work[i][k]].closed ==> Enabled(s, SweepFlagged(i, k))
    ensures s.objs[s.work[i][k]].closed ==>
      Next(s, SweepFlagged(i, k)) == s.(work := s.work[i := RemoveAt(s.work[i], k)], objs := s.objs - {s.work[i][k]})
    ensures !s.objs[s.work[i][k]].closed ==> Enabled(s, Expire(i, k))
    ensures forall j | 0 <= j < |s.work[i]| && j != k :: s.work[i][j] in s.objs && s.work[i][j] != s.work[i][k]
  {
    OthersStand(s, i, k);
  }

  lemma RemovedOne(now: seq<Ptr>, it: nat, list: seq<Ptr>, done: nat)
    requires it < |now| && done < |list| && now[it..] == list[done..]
    ensures RemoveAt(now, it)[..it] == now[..it] && RemoveAt(now, it)[it..] == list[done + 1..]
    ensures list[..done + 1] == list[..done] + [list[done]] && now[it + 1..] == list[done + 1..]
    ensures now[..it + 1] == now[..it] + [now[it]] && |RemoveAt(now, it)| == |now| - 1
  {
    assert now[it..][1..] == now[it + 1..] && list[done..][1..] == list[done + 1..];
  }

  lemma SizedInv(s: Net)
    requires Inv(s)
    ensures Sized(s) && MapRight(s)
  {
  }

  /** No other position of a work list holds the object at one position. */
  lemma OthersStand(s: Net, i: nat, k: nat)
    requires Inv(s) && InWork(s, i, k)
    ensures s.work[i][k] in s.objs
    ensures forall j | 0 <= j < |s.work[i]| && j != k :: s.work[i][j] in s.objs && s.work[i][j] != s.work[i][k]
  {
    SumHas(s.work, i, k);
    HeldOnce(s, s.work[i][k]);
    forall j | 0 <= j < |s.work[i]| && j != k
      ensures s.work[i][j] in s.objs && s.work[i][j] != s.work[i][k]
    {
      SumHas(s.work, i, j);
      HeldOnce(s, s.work[i][j]);
      HeldElsewhere(s, i, k, j);
    }
  }

  lemma HeldElsewhere(s: Net, i: nat, k: nat, j: nat)
    requires Places(s) && InWork(s, i, k) && InWork(s, i, j) && j != k
    ensures s.work[i][j] != s.work[i][k]
  {
    SumTwice(s.work, i, k, j);
    var p := s.work[i][k];
    hide Sum;
    assert s.work[i][j] == p ==> Held(s)[p] >= 2;
    assert multiset(s.objs.Keys)[p] <= 1;
  }

  lemma SumTwice(qs: seq<seq<Ptr>>, i: nat, k: nat, j: nat)
    requires i < |qs| && k < |qs[i]| && j < |qs[i]| && j != k
    ensures qs[i][j] == qs[i][k] ==> Sum(qs)[qs[i][k]] >= 2
  {
    SumRemove(qs, i, k);
    var r := RemoveAt(qs[i], k);
    var j' := if j < k then j else j - 1;
    assert r[j'] == qs[i][j];
    hide Sum;
    SumHas(qs[i := r], i, j');
  }

  /** The partial-send loop. takes(t) is what the t-th attempt yields: how many of the remaining bytes
      the socket took, or nothing (0 or less) when polling or sending failed. */
  method SendMsg(outbuf: Bytes, takes: nat -> int) returns (ok: bool, written: Bytes)
    ensures ok ==> written == outbuf
    ensures !ok ==> written < outbuf
    ensures ok <==> exists t :: Goes(takes, t) && Taken(takes, t) >= |outbuf|
    ensures !ok ==> exists t :: Goes(takes, t) && takes(t) <= 0 && |written| == Taken(takes, t)
  {
    written := [];
    var rest := outbuf;
    var t := 0;
    while |rest| > 0
      invariant written + rest == outbuf && Goes(takes, t)
      invariant |rest| > 0 ==> |written| == Taken(takes, t)
      invariant |rest| == 0 ==> Taken(takes, t) >= |outbuf|
      decreases |rest|
    {
      var len := takes(t);
      if len <= 0 {
        NoFurther(takes, t);
        BrokenOff(written, rest);
        return false, written;
      }
      if len > |rest| {
        len := |rest|;
      }
      Moved(written, rest, len);
      written, rest := written + rest[..len], rest[len..];
      t := t + 1;
    }
    assert written == outbuf by { Nothing(written, rest); }
    ok := true;
  }

  /** Each of the first attempts takes something. */
  ghost predicate Goes(takes: nat -> int, t: nat) {
    forall j: nat | j < t :: takes(j) > 0
  }

  /** What the first attempts would take of an endless text. */
  ghost function Taken(takes: nat -> int, t: nat): int {
    if t == 0 then 0 else Taken(takes, t - 1) + takes(t - 1)
  }

  lemma {:induction false} TakenGrows(takes: nat -> int, t: nat, u: nat)
    requires t <= u && Goes(takes, u)
    ensures Taken(takes, t) <= Taken(takes, u)
  {
    if t < u {
      TakenGrows(takes, t, u - 1);
    }
  }

  /** Behind an attempt that fails no other is made. */
  lemma NoFurther(takes: nat -> int, t: nat)
    requires Goes(takes, t) && takes(t) <= 0
    ensures forall u: nat | Goes(takes, u) :: Taken(takes, u) <= Taken(takes, t)
  {
    forall u: nat | Goes(takes, u)
      ensures Taken(takes, u) <= Taken(takes, t)
    {
      TakenGrows(takes, u, t);
    }
  }

  lemma BrokenOff(written: Bytes, rest: Bytes)
    requires rest != []
    ensures written < written + rest
  {
  }

  lemma Moved(written: Bytes, rest: Bytes, len: nat)
    requires len <= |rest|
    ensures (written + rest[..len]) + rest[len..] == written + rest
  {
  }

  lemma Nothing(written: Bytes, rest: Bytes)
    requires rest == []
    ensures written + rest == written
  {
  }
}
