/** A chat that is stored while its receiver logs in, on one node. The message module inserts the chat before it looks
    up the receiver; the presence module writes the session's row before it reads the waiting chats. Each access to
    a table is one step, and the steps of all handlers interleave freely. */
module StoreAndLogin {
  import opened Message
  import opened ChatProtocol

  /** The columns of im_online_info that the look-up reads. */
  datatype OnlineRow = OnlineRow(name: string, status: int)

  /** im_msg_chat, im_online_info by jid, and the users of the sessions in the index by address. */
  datatype Node = Node(chats: seq<Row>, online: map<string, OnlineRow>, sessions: map<string, string>)

  /** Steps that change something, and the three that only read: the replay query, the look-up and the relay. A write
      that fails is no step. */
  datatype Act =
    | Register(addr: string, user: string)
    | Leave(addr: string)
    | WriteRow(jid: string, user: string)
    | SetStatus(jid: string, status: int)
    | Insert(row: Row)
    | Acked(id: string, keep: bool)
    | ReadChats(user: string, answer: seq<Row>)
    | LookUp(user: string)
    | Deliver(id: string)

  ghost predicate Can(s: Node, act: Act) {
    act.ReadChats? ==> IsAnswer(act.answer, s.chats, act.user)
  }

  function Do(s: Node, act: Act): Node {
    match act
    case Register(a, user) => s.(sessions := s.sessions[a := user])
    case Leave(a) => s.(sessions := s.sessions - {a})
    case WriteRow(jid, user) => s.(online := s.online[jid := OnlineRow(user, 1)])
    case SetStatus(jid, status) =>
      if jid in s.online then s.(online := s.online[jid := s.online[jid].(status := status)]) else s
    case Insert(r) => s.(chats := s.chats + [r])
    case Acked(id, keep) => s.(chats := if keep then MarkedDone(s.chats, id) else WithoutId(s.chats, id))
    case ReadChats(_, _) => s
    case LookUp(_) => s
    case Deliver(_) => s
  }

  /** What the look-up of a user returns on the node `self`, grouped by module. */
  ghost function Modules(s: Node, user: string, self: string): Query<seq<string>> {
    Got(if exists j | j in s.online :: s.online[j] == OnlineRow(user, 1) then [self] else [])
  }

  /** What presence queues when an id is relayed to it: the row, when it is the only one, for every session of its
      user. */
  function Live(s: Node, id: string): set<(string, Chat)> {
    var found := RowsWith(s.chats, id);
    if |found| != 1 then {}
    else set a | a in s.sessions && s.sessions[a] == found[0].touser :: (a, Delivered(found[0]))
  }

  /** What each step does: the events named as exceptions below do what their names say. */
  lemma ActsAre(s: Node, act: Act)
    ensures
      var t := Do(s, act);
      match act
      case Register(a, user) => t == Node(s.chats, s.online, s.sessions[a := user])
      case Leave(a) => t.chats == s.chats && t.online == s.online && t.sessions == s.sessions - {a}
      case WriteRow(jid, user) => t == Node(s.chats, s.online[jid := OnlineRow(user, 1)], s.sessions)
      case SetStatus(jid, status) =>
        && t.chats == s.chats && t.sessions == s.sessions && t.online.Keys == s.online.Keys
        && forall j | j in s.online ::
             t.online[j] == OnlineRow(s.online[j].name, if j == jid then status else s.online[j].status)
      case Insert(r) => t == Node(s.chats + [r], s.online, s.sessions)
      case Acked(id, keep) =>
        t == Node(AckStep(Tables(s.chats, []), id, true, keep, false, true).chats, s.online, s.sessions)
      case _ => t == s
  {
  }

  ghost predicate IsTrace(states: seq<Node>, acts: seq<Act>) {
    && |states| == |acts| + 1
    && forall n | 0 <= n < |acts| :: Can(states[n], acts[n]) && states[n + 1] == Do(states[n], acts[n])
  }

  /** An acknowledgement of this id was carried out between the two steps. */
  ghost predicate AckedBetween(acts: seq<Act>, k: int, j: int, id: string) {
    exists x :: k < x < j && 0 <= x < |acts| && acts[x].Acked? && acts[x].id == id
  }

  /** The row of this jid was set to another status, or given to another user. */
  ghost predicate Overwritten(acts: seq<Act>, i: int, m: int, jid: string, user: string) {
    exists x :: i < x < m && 0 <= x < |acts| && Overwrites(acts[x], jid, user)
  }

  predicate Overwrites(act: Act, jid: string, user: string) {
    || (act.SetStatus? && act.jid == jid && act.status != 1)
    || (act.WriteRow? && act.jid == jid && act.user != user)
  }

  /** The session at this address closed, was kicked out or became another user's. */
  ghost predicate Left(acts: seq<Act>, h: int, d: int, a: string, user: string) {
    exists x :: h < x < d && 0 <= x < |acts| && Leaves(acts[x], a, user)
  }

  predicate Leaves(act: Act, a: string, user: string) {
    (act.Leave? && act.addr == a) || (act.Register? && act.addr == a && act.user != user)
  }

  lemma OneStepKeepsRow(s: Node, act: Act, r: Row)
    requires r in s.chats && !(act.Acked? && act.id == r.id)
    ensures r in Do(s, act).chats
  {
    if act.Acked? {
      WithoutIdIs(s.chats, act.id);
      MarkedDoneIs(s.chats, act.id);
    }
  }

  lemma {:induction false} RowStays(states: seq<Node>, acts: seq<Act>, k: nat, x: nat, r: Row)
    requires IsTrace(states, acts) && k < x <= |acts| && acts[k] == Insert(r) && !AckedBetween(acts, k, x, r.id)
    ensures r in states[x].chats
  {
    if x == k + 1 {
      assert states[k + 1] == Do(states[k], acts[k]);
    } else {
      assert !(acts[x - 1].Acked? && acts[x - 1].id == r.id);
      RowStays(states, acts, k, x - 1, r);
      OneStepKeepsRow(states[x - 1], acts[x - 1], r);
      assert states[(x - 1) + 1] == Do(states[x - 1], acts[x - 1]);
    }
  }

  lemma {:induction false} OnlineStays(states: seq<Node>, acts: seq<Act>, i: nat, m: nat, jid: string, user: string)
    requires IsTrace(states, acts) && i < m <= |acts| && acts[i] == WriteRow(jid, user)
    requires !Overwritten(acts, i, m, jid, user)
    ensures jid in states[m].online && states[m].online[jid] == OnlineRow(user, 1)
  {
    if m == i + 1 {
      assert states[i + 1] == Do(states[i], acts[i]);
    } else {
      assert !Overwrites(acts[m - 1], jid, user);
      OnlineStays(states, acts, i, m - 1, jid, user);
      assert states[(m - 1) + 1] == Do(states[m - 1], acts[m - 1]);
    }
  }

  lemma {:induction false} SessionStays(states: seq<Node>, acts: seq<Act>, h: nat, d: nat, a: string, user: string)
    requires IsTrace(states, acts) && h < d <= |acts| && acts[h] == Register(a, user) && !Left(acts, h, d, a, user)
    ensures a in states[d].sessions && states[d].sessions[a] == user
  {
    if d == h + 1 {
      assert states[h + 1] == Do(states[h], acts[h]);
    } else {
      assert !Leaves(acts[d - 1], a, user);
      SessionStays(states, acts, h, d - 1, a, user);
      assert states[(d - 1) + 1] == Do(states[d - 1], acts[d - 1]);
    }
  }

  /** The positions of the accesses of one login: registered, row written, waiting chats read. */
  ghost predicate IsLogin(acts: seq<Act>, h: int, i: int, j: int, a: string, jid: string, user: string) {
    && 0 <= h < i < j < |acts| && acts[h] == Register(a, user) && acts[i] == WriteRow(jid, user)
    && acts[j].ReadChats? && acts[j].user == user
  }

  /** Those of one stored copy of a chat: inserted, receiver looked up. */
  ghost predicate IsStore(acts: seq<Act>, k: int, m: int, r: Row) {
    0 <= k < m < |acts| && acts[k] == Insert(r) && acts[m] == LookUp(r.touser)
  }

  /** Whatever else happens in between: a chat stored for a user before a login of that user queries the waiting chats
      is in the answer, unless it was acknowledged in between; for one stored after the query the look-up finds the
      user online and the chat goes to the router, unless the row that the login wrote was overwritten. */
  lemma StoreMeetsLogin(states: seq<Node>, acts: seq<Act>, h: nat, i: nat, j: nat, k: nat, m: nat, a: string,
                        jid: string, c: Chat, r: Row, self: string)
    requires IsTrace(states, acts) && IsLogin(acts, h, i, j, a, jid, r.touser) && IsStore(acts, k, m, r)
    requires r.status == 0 && r.id == c.id
    ensures
      if k < j then
        (r in acts[j].answer && Replay(r) in Replays(acts[j].answer)) || AckedBetween(acts, k, j, r.id)
      else
        || Route(c, r.touser, Modules(states[m], r.touser, self)) == [ToRouter(c.id, self)]
        || Overwritten(acts, i, m, jid, r.touser)
  {
    var user := r.touser;
    if k < j {
      if !AckedBetween(acts, k, j, r.id) {
        RowStays(states, acts, k, j, r);
        assert Can(states[j], acts[j]);
        var answer := acts[j].answer;
        InAnswer(answer, states[j].chats, user);
        var n :| 0 <= n < |answer| && answer[n] == r;
        assert Replays(answer)[n] == Replay(r);
      }
    } else if !Overwritten(acts, i, m, jid, user) {
      OnlineStays(states, acts, i, m, jid, user);
    }
  }

  /** And to the end: the session is sent the chat as the sender wrote it, in the replay of its login or when the
      relayed id arrives; unless an acknowledgement, another write of the row, the end of the session or a second row
      with the id comes between. */
  lemma SessionIsSentTheChat(states: seq<Node>, acts: seq<Act>, h: nat, i: nat, j: nat, k: nat, m: nat, d: nat,
                             a: string, jid: string, c: Chat, touser: string, gmsg: string, now: int, self: string)
    requires IsTrace(states, acts) && IsLogin(acts, h, i, j, a, jid, touser)
    requires IsStore(acts, k, m, Stored(c, touser, gmsg, now)) && m < d < |acts| && acts[d] == Deliver(c.id)
    requires (DirectType(c.mtype) || c.mtype == "groupchat") && c.to != ""
    ensures
      var r := Stored(c, touser, gmsg, now);
      if k < j then
        || (exists q | q in Replays(acts[j].answer) :: q.Show? && q.chat.id == c.id && SameContent(q.chat, c))
        || AckedBetween(acts, k, j, c.id)
      else
        || (&& Route(c, touser, Modules(states[m], touser, self)) == [ToRouter(c.id, self)]
            && (a, Delivered(r)) in Live(states[d], c.id)
            && (c.mtype != "customchat" ==> SameContent(Delivered(r), c)))
        || AckedBetween(acts, k, d, c.id) || |RowsWith(states[d].chats, c.id)| > 1
        || Overwritten(acts, i, m, jid, touser) || Left(acts, h, d, a, touser)
  {
    var r := Stored(c, touser, gmsg, now);
    StoreThenShow(c, touser, gmsg, now);
    StoreMeetsLogin(states, acts, h, i, j, k, m, a, jid, c, r, self);
    if k < j {
      if !AckedBetween(acts, k, j, c.id) {
        assert Replay(r) == Show(Replayed(r));
      }
    } else if !AckedBetween(acts, k, d, c.id) && !Left(acts, h, d, a, touser) {
      RowStays(states, acts, k, d, r);
      SessionStays(states, acts, h, d, a, touser);
      RowsWithIs(states[d].chats, c.id);
      var found := RowsWith(states[d].chats, c.id);
      assert r in found;
      if |found| == 1 {
        assert found[0] == r;
      }
    }
  }

  // ---- both orders are needed ----

  /** One login and one store, each in its own order, interleaved in any way, with nothing else happening. */
  ghost predicate IsMeeting(states: seq<Node>, acts: seq<Act>, r: Row, jid: string, writeFirst: bool,
                            insertFirst: bool)
  {
    && IsTrace(states, acts) && |acts| == 4 && r.touser !in Names(states[0]) && r.status == 0 && states[0].chats == []
    && exists i, j, k, m ::
         && IsWrite(acts, i, jid, r.touser) && IsRead(acts, j, r.touser) && (i < j <==> writeFirst)
         && IsInsert(acts, k, r) && IsLookUp(acts, m, r.touser) && (k < m <==> insertFirst)
  }

  function Names(s: Node): set<string> {
    set j | j in s.online :: s.online[j].name
  }

  predicate IsWrite(acts: seq<Act>, i: int, jid: string, user: string) {
    0 <= i < |acts| && acts[i] == WriteRow(jid, user)
  }

  predicate IsRead(acts: seq<Act>, j: int, user: string) {
    0 <= j < |acts| && acts[j].ReadChats? && acts[j].user == user
  }

  predicate IsInsert(acts: seq<Act>, k: int, r: Row) {
    0 <= k < |acts| && acts[k] == Insert(r)
  }

  predicate IsLookUp(acts: seq<Act>, m: int, user: string) {
    0 <= m < |acts| && acts[m] == LookUp(user)
  }

  /** The chat is in the answer, or the look-up finds its receiver. */
  ghost predicate Caught(states: seq<Node>, acts: seq<Act>, r: Row, self: string)
    requires |states| == |acts| + 1
  {
    || (exists j :: IsRead(acts, j, r.touser) && r in acts[j].answer)
    || exists m :: IsLookUp(acts, m, r.touser) && Modules(states[m], r.touser, self) == Got([self])
  }

  ghost predicate AlwaysCaught(r: Row, jid: string, self: string, writeFirst: bool, insertFirst: bool) {
    forall states, acts | IsMeeting(states, acts, r, jid, writeFirst, insertFirst) :: Caught(states, acts, r, self)
  }

  lemma NothingElse(acts: seq<Act>, r: Row, jid: string, i: int, j: int, k: int, m: int)
    requires |acts| == 4 && IsWrite(acts, i, jid, r.touser) && IsRead(acts, j, r.touser)
    requires IsInsert(acts, k, r) && IsLookUp(acts, m, r.touser)
    ensures forall x, y, id :: !AckedBetween(acts, x, y, id)
    ensures forall x, y :: !Overwritten(acts, x, y, jid, r.touser)
  {
    assert i != j && i != k && i != m && j != k && j != m && k != m;
    forall x | 0 <= x < |acts|
      ensures !acts[x].Acked? && !Overwrites(acts[x], jid, r.touser)
    {
      assert x == i || x == j || x == k || x == m;
    }
  }

  lemma InOrderCaught(states: seq<Node>, acts: seq<Act>, r: Row, jid: string, self: string,
                      i: nat, j: nat, k: nat, m: nat)
    requires IsTrace(states, acts) && |acts| == 4 && r.status == 0 && i < j && k < m
    requires IsWrite(acts, i, jid, r.touser) && IsRead(acts, j, r.touser)
    requires IsInsert(acts, k, r) && IsLookUp(acts, m, r.touser)
    ensures Caught(states, acts, r, self)
  {
    NothingElse(acts, r, jid, i, j, k, m);
    if k < j {
      RowStays(states, acts, k, j, r);
      assert Can(states[j], acts[j]);
      hide IsTrace, AckedBetween, Overwritten, Modules;
      InAnswer(acts[j].answer, states[j].chats, r.touser);
    } else {
      OnlineStays(states, acts, i, m, jid, r.touser);
      hide IsTrace, AckedBetween, Overwritten;
      assert Modules(states[m], r.touser, self) == Got([self]);
    }
  }

  const NOTHING: Node := Node([], map[], map[])

  /** Nothing is online when the receiver is looked up, and nothing stored when the login reads. */
  ghost predicate Misses(states: seq<Node>, acts: seq<Act>, r: Row, jid: string, i: int, j: int, k: int, m: int) {
    && IsTrace(states, acts) && |acts| == 4 && states[0] == NOTHING
    && IsWrite(acts, i, jid, r.touser) && IsRead(acts, j, r.touser)
    && IsInsert(acts, k, r) && IsLookUp(acts, m, r.touser)
    && acts[j].answer == [] && states[m].online == map[]
  }

  lemma MissesIs(states: seq<Node>, acts: seq<Act>, r: Row, jid: string, self: string, i: int, j: int, k: int, m: int)
    requires Misses(states, acts, r, jid, i, j, k, m) && r.status == 0
    ensures IsMeeting(states, acts, r, jid, i < j, k < m) && !Caught(states, acts, r, self)
  {
    hide IsTrace;
    assert i != j && i != k && i != m && j != k && j != m && k != m;
    forall x | 0 <= x < |acts|
      ensures IsRead(acts, x, r.touser) ==> x == j
      ensures IsLookUp(acts, x, r.touser) ==> x == m
    {
      assert x == i || x == j || x == k || x == m;
    }
  }

  lemma Traced(s: Node, a: Act, b: Act, c: Act, d: Act) returns (states: seq<Node>)
    requires
      var t := Do(s, a);
      var u := Do(t, b);
      Can(s, a) && Can(t, b) && Can(u, c) && Can(Do(u, c), d)
    ensures IsTrace(states, [a, b, c, d]) && states[0] == s && states[2] == Do(Do(s, a), b)
  {
    hide Can, Do;
    var t := Do(s, a);
    var u := Do(t, b);
    var v := Do(u, c);
    states := [s, t, u, v, Do(v, d)];
  }

  lemma EmptyAnswer(s: Node, user: string)
    requires s.chats == []
    ensures Can(s, ReadChats(user, []))
  {
  }

  lemma ReadFirst(r: Row, jid: string) returns (states: seq<Node>, acts: seq<Act>)
    ensures Misses(states, acts, r, jid, 3, 0, 1, 2)
  {
    var u := r.touser;
    acts := [ReadChats(u, []), Insert(r), LookUp(u), WriteRow(jid, u)];
    EmptyAnswer(NOTHING, u);
    hide IsAnswer, IsTrace;
    states := Traced(NOTHING, ReadChats(u, []), Insert(r), LookUp(u), WriteRow(jid, u));
  }

  lemma LookUpFirst(r: Row, jid: string) returns (states: seq<Node>, acts: seq<Act>)
    ensures Misses(states, acts, r, jid, 1, 2, 3, 0)
  {
    var u := r.touser;
    acts := [LookUp(u), WriteRow(jid, u), ReadChats(u, []), Insert(r)];
    EmptyAnswer(Do(NOTHING, WriteRow(jid, u)), u);
    hide IsAnswer, IsTrace;
    states := Traced(NOTHING, LookUp(u), WriteRow(jid, u), ReadChats(u, []), Insert(r));
  }

  lemma BothWrong(r: Row, jid: string) returns (states: seq<Node>, acts: seq<Act>)
    ensures Misses(states, acts, r, jid, 2, 1, 3, 0)
  {
    var u := r.touser;
    acts := [LookUp(u), ReadChats(u, []), WriteRow(jid, u), Insert(r)];
    EmptyAnswer(NOTHING, u);
    hide IsAnswer, IsTrace;
    states := Traced(NOTHING, LookUp(u), ReadChats(u, []), WriteRow(jid, u), Insert(r));
  }

  /** A chat is caught in every interleaving with a login if and only if the login writes before it reads and the
      message module inserts before it looks up. */
  lemma BothOrdersNeeded(r: Row, jid: string, self: string, writeFirst: bool, insertFirst: bool)
    requires r.status == 0
    ensures AlwaysCaught(r, jid, self, writeFirst, insertFirst) <==> writeFirst && insertFirst
  {
    if writeFirst && insertFirst {
      forall states, acts | IsMeeting(states, acts, r, jid, writeFirst, insertFirst)
        ensures Caught(states, acts, r, self)
      {
        var i, j, k, m :|
          && IsWrite(acts, i, jid, r.touser) && IsRead(acts, j, r.touser) && i < j
          && IsInsert(acts, k, r) && IsLookUp(acts, m, r.touser) && k < m;
        InOrderCaught(states, acts, r, jid, self, i, j, k, m);
      }
    } else if insertFirst {
      var states, acts := ReadFirst(r, jid);
      MissesIs(states, acts, r, jid, self, 3, 0, 1, 2);
    } else if writeFirst {
      var states, acts := LookUpFirst(r, jid);
      MissesIs(states, acts, r, jid, self, 1, 2, 3, 0);
    } else {
      var states, acts := BothWrong(r, jid);
      MissesIs(states, acts, r, jid, self, 2, 1, 3, 0);
    }
    hide IsMeeting, Caught, Misses;
  }
}
