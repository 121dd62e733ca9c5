/** The store-and-forward protocol as a whole: senders, the message module's table, the relay through
    router and presence, replay at login, and receivers that acknowledge what they show. Everything in
    flight may be lost, repeated or reordered: what was once put on a channel stays available, and no
    step is forced to take it. */
module ChatProtocol {
  import opened Message

  // ---- replay at login ----

  function Unacked(rows: seq<Row>, user: string): seq<Row> {
    if rows == [] then []
    else
      var r := rows[|rows| - 1];
      Unacked(rows[..|rows| - 1], user) + (if r.touser == user && r.status == 0 then [r] else [])
  }

  /** A correct answer to the login query: the user's rows with status 0, in an order that sorts by recvtime. */
  ghost predicate IsAnswer(answer: seq<Row>, rows: seq<Row>, user: string) {
    && multiset(answer) == multiset(Unacked(rows, user))
    && forall i, j | 0 <= i < j < |answer| :: answer[i].recvtime <= answer[j].recvtime
  }

  /** What login queues for a row: the stored bytes of an "iq", or a chat. */
  datatype Queued = Raw(body: string) | Show(chat: Chat)

  function Replay(r: Row): Queued {
    if r.mtype == "iq" then Raw(r.body) else Show(Replayed(r))
  }

  function Replays(rows: seq<Row>): (q: seq<Queued>)
    ensures |q| == |rows|
  {
    seq(|rows|, i requires 0 <= i < |rows| => Replay(rows[i]))
  }

  /** What a login owes a user, given the table: a replay of every row of the user with status 0 and nothing else,
      the chats in the order of their times. */
  ghost predicate Owed(out: seq<Queued>, rows: seq<Row>, user: string) {
    && multiset(out) == multiset(Replays(Unacked(rows, user)))
    && forall i, j | 0 <= i < j < |out| && out[i].Show? && out[j].Show? :: out[i].chat.time <= out[j].chat.time
  }

  /** The loop of a successful login over the answer to its query. */
  method ReplayUnacked(read: bool, answer: seq<Row>, ghost rows: seq<Row>, ghost user: string)
    returns (out: seq<Queued>)
    requires read ==> IsAnswer(answer, rows, user)
    ensures read ==> out == Replays(answer) && Owed(out, rows, user)
    ensures !read ==> out == []
  {
    out := [];
    if read {
      var index := 0;
      while index < |answer|
        invariant 0 <= index == |out| <= |answer|
        invariant forall i | 0 <= i < index :: out[i] == Replay(answer[i])
      {
        var r := answer[index];
        if r.mtype == "iq" {
          out := out + [Raw(r.body)];
        } else {
          var to := if |r.togroup| == 0 then r.touser else r.togroup;
          out := out + [Show(Chat(r.id, r.fromuser, to, "", r.mtype, r.category, r.recvtime, r.body))];
        }
        index := index + 1;
      }
      assert out == Replays(answer);
      SameReplays(answer, Unacked(rows, user));
    }
  }

  lemma ReplaysWithout(b: seq<Row>, j: nat)
    requires j < |b|
    ensures multiset(Replays(b)) == multiset(Replays(b[..j] + b[j + 1..])) + multiset{Replay(b[j])}
  {
    hide Replay;
    assert Replays(b) == Replays(b[..j]) + [Replay(b[j])] + Replays(b[j + 1..]);
    assert Replays(b[..j] + b[j + 1..]) == Replays(b[..j]) + Replays(b[j + 1..]);
  }

  lemma RowsWithout(b: seq<Row>, j: nat)
    requires j < |b|
    ensures multiset(b) == multiset(b[..j] + b[j + 1..]) + multiset{b[j]}
  {
    assert b == b[..j] + [b[j]] + b[j + 1..];
  }

  lemma TakeLast(a: seq<Row>)
    requires a != []
    ensures multiset(a) == multiset(a[..|a| - 1]) + multiset{a[|a| - 1]}
    ensures multiset(Replays(a)) == multiset(Replays(a[..|a| - 1])) + multiset{Replay(a[|a| - 1])}
  {
    var n := |a| - 1;
    RowsWithout(a, n);
    ReplaysWithout(a, n);
    hide *;
    assert a[..n] + a[n + 1..] == a[..n];
  }

  lemma Cancel(a: multiset<Row>, b: multiset<Row>, x: Row)
    requires a + multiset{x} == b + multiset{x}
    ensures a == b
  {
    assert a == (a + multiset{x}) - multiset{x} == b;
  }

  /** The same rows in another order give the same replays in another order. */
  lemma {:induction false} SameReplays(a: seq<Row>, b: seq<Row>)
    requires multiset(a) == multiset(b)
    ensures multiset(Replays(a)) == multiset(Replays(b))
    decreases |a|
  {
    hide *;
    assert |multiset(a)| == |multiset(b)|;
    if a == [] {
      assert b == a;
    } else {
      var n := |a| - 1;
      TakeLast(a);
      assert a[n] in multiset(b);
      var j :| 0 <= j < |b| && b[j] == a[n];
      RowsWithout(b, j);
      ReplaysWithout(b, j);
      Cancel(multiset(a[..n]), multiset(b[..j] + b[j + 1..]), a[n]);
      SameReplays(a[..n], b[..j] + b[j + 1..]);
    }
  }

  lemma {:induction false} UnackedIs(rows: seq<Row>, user: string)
    ensures forall r :: r in Unacked(rows, user) <==> r in rows && r.touser == user && r.status == 0
  {
    if rows != [] {
      var n := |rows| - 1;
      UnackedIs(rows[..n], user);
      assert rows == rows[..n] + [rows[n]];
    }
  }

  lemma InAnswer(answer: seq<Row>, rows: seq<Row>, user: string)
    requires IsAnswer(answer, rows, user)
    ensures forall r :: r in answer <==> r in rows && r.touser == user && r.status == 0
  {
    UnackedIs(rows, user);
    forall r
      ensures r in answer <==> r in Unacked(rows, user)
    {
      assert r in answer <==> r in multiset(answer);
      assert r in Unacked(rows, user) <==> r in multiset(Unacked(rows, user));
    }
  }

  // ---- the system ----

  /** What an id stands for: the fields of its row that never change. */
  datatype Letter = Letter(from: string, touser: string, to: string, mtype: string, category: string, body: string)

  function LetterOf(r: Row): Letter {
    Letter(r.fromuser, r.touser, Replayed(r).to, r.mtype, r.category, r.body)
  }

  /** A chat on its way to, or shown by, one user's clients. */
  datatype Copy = Copy(touser: string, chat: Chat)

  /** `relay` holds ids sent towards the receiver's presence module, `sent` what presence queued for clients,
      `shown` what clients have shown and acknowledged, `done` the ids whose acknowledgement the message module
      carried out since a row with them last went in, `stored` the ids of all rows that ever went into the table, and
      `promised` the direct chats acknowledged to their sender. */
  datatype System = System(tables: Tables, relay: set<string>, sent: set<Copy>, shown: set<Copy>, done: set<string>,
                           stored: set<string>, promised: set<Chat>)

  datatype Move =
    | Send(c: Chat, w: World)
    | Relay(id: string)
    | Login(user: string, answer: seq<Row>)
    | ShowAndAck(copy: Copy)
    | Ack(id: string, selected: bool, keep: bool, record: bool, written: bool)

  /** The rows a message adds to im_msg_chat. */
  function Added(c: Chat, w: World): seq<Row> {
    if c.body == "" || |c.body| > MAX_BODY || c.addr != "" then []
    else if c.mtype == "groupchat" then
      if w.members.Failed? || !w.gchatInserted then [] else FanRows(c, w.members.value, w.ids, w.answers, w.now)
    else if DirectType(c.mtype) && w.answers(0).inserted then [Stored(c, c.to, "", w.now)]
    else []
  }

  function AddedIds(c: Chat, w: World): set<string> {
    set r | r in Added(c, w) :: r.id
  }

  predicate IsDirect(c: Chat) {
    c.addr == "" && DirectType(c.mtype)
  }

  ghost predicate Acknowledges(out: seq<Output>, id: string) {
    exists o | o in out :: o.SenderAck? && o.id == id
  }

  /** The only demand on the environment's ids is that one id never stands for two different messages;
      the book says what each id stands for. Clients acknowledge only what they were sent. */
  ghost predicate Enabled(book: string -> Letter, s: System, m: Move) {
    match m
    case Send(c, w) => forall r | r in Added(c, w) :: book(r.id) == LetterOf(r)
    case Relay(id) => id in s.relay
    case Login(user, answer) => IsAnswer(answer, s.tables.chats, user)
    case ShowAndAck(copy) => copy in s.sent
    case Ack(id, _, _, _, _) => exists x | x in s.shown :: x.chat.id == id
  }

  /** Presence re-reads the row of a relayed id, and delivers it as a chat only when it is the only one and no "iq". */
  function RelayedCopies(rows: seq<Row>, id: string): set<Copy> {
    var found := RowsWith(rows, id);
    if |found| == 1 && found[0].mtype != "iq" then {Copy(found[0].touser, Delivered(found[0]))} else {}
  }

  ghost function Next(s: System, m: Move): System {
    match m
    case Send(c, w) =>
      var (t, out) := MessageStep(s.tables, c, w);
      s.(tables := t,
         relay := s.relay + (set o | o in out && o.ToRouter? :: o.id),
         stored := s.stored + AddedIds(c, w),
         done := s.done - AddedIds(c, w),
         promised := if IsDirect(c) && Acknowledges(out, c.id) then s.promised + {c} else s.promised)
    case Relay(id) => s.(sent := s.sent + RelayedCopies(s.tables.chats, id))
    case Login(user, answer) => s.(sent := s.sent + set q | q in Replays(answer) && q.Show? :: Copy(user, q.chat))
    case ShowAndAck(copy) => s.(shown := s.shown + {copy})
    case Ack(id, selected, keep, record, written) =>
      s.(tables := AckStep(s.tables, id, selected, keep, record, written),
         done := if selected && written then s.done + {id} else s.done)
  }

  /** A direct chat's row is still in the table with status 0. */
  predicate Waiting(rows: seq<Row>, id: string) {
    exists r | r in rows :: r.id == id && r.status == 0
  }

  /** A copy shows what its id stands for; customchat is shown live under another addressee. */
  predicate Carries(x: Copy, l: Letter) {
    && x.touser == l.touser && x.chat.from == l.from && x.chat.mtype == l.mtype
    && x.chat.category == l.category && x.chat.body == l.body
    && (l.mtype != "customchat" ==> x.chat.to == l.to)
  }

  ghost predicate RowsInBook(book: string -> Letter, s: System) {
    forall r | r in s.tables.chats :: book(r.id) == LetterOf(r)
  }

  ghost predicate CopiesInBook(book: string -> Letter, s: System) {
    && s.shown <= s.sent
    && forall x | x in s.sent :: Carries(x, book(x.chat.id))
  }

  /** Every id that was ever stored waits or has been acknowledged since, and every chat acknowledged to its sender
      was stored. */
  ghost predicate StoredOrDone(s: System) {
    && (forall id | id in s.stored :: Waiting(s.tables.chats, id) || id in s.done)
    && forall c | c in s.promised :: c.id in s.stored && IsDirect(c)
  }

  ghost predicate Kept(book: string -> Letter, s: System) {
    && (forall id | id in s.done :: exists x | x in s.shown :: x.chat.id == id)
    && forall c | c in s.promised :: book(c.id) == DirectLetter(c)
  }

  function DirectLetter(c: Chat): Letter {
    Letter(c.from, c.to, c.to, c.mtype, c.category, c.body)
  }

  ghost predicate Inv(book: string -> Letter, s: System) {
    RowsInBook(book, s) && CopiesInBook(book, s) && Kept(book, s) && StoredOrDone(s)
  }

  ghost predicate Start(book: string -> Letter, s: System) {
    RowsInBook(book, s) && s.relay == {} && s.sent == {} && s.shown == {}
    && s.done == {} && s.stored == {} && s.promised == {}
  }

  // ---- what a message adds, and what it answers ----

  lemma SendAdds(t: Tables, c: Chat, w: World)
    ensures MessageStep(t, c, w).0.chats == t.chats + Added(c, w)
  {
    if c.mtype == "groupchat" && w.members.Got? && w.gchatInserted {
      FanOutAdds(t.(gchats := t.gchats + [GroupRowOf(c, w.now)]), c, w.members.value, w.ids, w.answers, w.now);
    }
  }

  lemma {:induction false} RowsWithAdd(rows: seq<Row>, r: Row)
    ensures RowsWith(rows + [r], r.id) == RowsWith(rows, r.id) + [r]
  {
    assert (rows + [r])[..|rows|] == rows;
  }

  lemma {:induction false} RowsWithIs(rows: seq<Row>, id: string)
    ensures forall r :: r in RowsWith(rows, id) <==> r in rows && r.id == id
  {
    if rows != [] {
      var n := |rows| - 1;
      RowsWithIs(rows[..n], id);
      assert rows == rows[..n] + [rows[n]];
    }
  }

  lemma AckForOneMore(rows: seq<Row>, r: Row, c: Chat)
    ensures AckFor(Got(Times(rows + [r])), c) == if rows == [] then [SenderAck(c.id, r.recvtime, c.from)] else []
  {
    var times := Times(rows + [r]);
    assert |times| == |rows| + 1;
    if rows == [] {
      assert times[0] == r.recvtime;
    }
  }

  lemma DirectOutput(t: Tables, c: Chat, w: World)
    requires IsDirect(c) && 0 < |c.body| <= MAX_BODY
    ensures MessageStep(t, c, w).1 ==
      if !w.answers(0).inserted then []
      else
        Route(c, c.to, w.answers(0).modules)
        + (if w.selected && RowsWith(t.chats, c.id) == [] then [SenderAck(c.id, w.now, c.from)] else [])
  {
    var row := Stored(c, c.to, "", w.now);
    RowsWithAdd(t.chats, row);
    AckForOneMore(RowsWith(t.chats, c.id), row, c);
    hide Route, RowsWith, AckFor, Times;
  }

  /** A direct chat that is let in is acknowledged to its sender exactly when its row went in, could be read
      back, and no row with its id was there before: a repeated send is stored but never acknowledged. */
  lemma DirectAckIff(t: Tables, c: Chat, w: World)
    requires IsDirect(c) && 0 < |c.body| <= MAX_BODY
    ensures Acknowledges(MessageStep(t, c, w).1, c.id)
       <==> w.answers(0).inserted && w.selected && forall r | r in t.chats :: r.id != c.id
    ensures forall o | o in MessageStep(t, c, w).1 && o.SenderAck? :: o == SenderAck(c.id, w.now, c.from)
  {
    var before := RowsWith(t.chats, c.id);
    RowsWithIs(t.chats, c.id);
    DirectOutput(t, c, w);
    hide MessageStep, Route, RowsWith;
    if w.answers(0).inserted && w.selected && before == [] {
      var out := MessageStep(t, c, w).1;
      assert out[|out| - 1] == SenderAck(c.id, w.now, c.from);
      assert forall r | r in t.chats :: r !in before;
    } else if before != [] {
      assert before[0] in before;
    }
  }

  /** All that a direct chat sends: to router or push as its receiver is online, and then the acknowledgement. */
  lemma DirectSends(t: Tables, c: Chat, w: World)
    requires IsDirect(c) && 0 < |c.body| <= 1408 && w.answers(0).inserted
    ensures
      var modules := w.answers(0).modules;
      MessageStep(t, c, w).1 ==
        (if modules.Failed? || |modules.value| > 1 then []
         else if |modules.value| == 1 then [ToRouter(c.id, modules.value[0])]
         else [ToPush(Chat(c.id, c.from, c.to, "", c.mtype, c.category, 0, c.body))])
        + (if w.selected && forall r | r in t.chats :: r.id != c.id then [SenderAck(c.id, w.now, c.from)] else [])
    ensures MessageStep(t, c, w).0.chats ==
      t.chats + [Row(c.id, c.from, c.to, "", "", c.mtype, c.category, c.body, 0, w.now)]
  {
    DirectOutput(t, c, w);
    RowsWithIs(t.chats, c.id);
    var before := RowsWith(t.chats, c.id);
    if before != [] {
      assert before[0] in before;
    } else {
      assert forall r | r in t.chats :: r !in before;
    }
    hide RowsWith;
  }

  lemma AckedIsStored(t: Tables, c: Chat, w: World)
    requires IsDirect(c) && Acknowledges(MessageStep(t, c, w).1, c.id)
    ensures Added(c, w) == [Stored(c, c.to, "", w.now)] && Waiting(MessageStep(t, c, w).0.chats, c.id)
  {
    SendAdds(t, c, w);
    if 0 < |c.body| <= MAX_BODY {
      DirectAckIff(t, c, w);
      var rows := MessageStep(t, c, w).0.chats;
      assert rows[|rows| - 1] == Stored(c, c.to, "", w.now);
    }
  }

  // ---- what an acknowledgement removes ----

  lemma {:induction false} WithoutIdIs(rows: seq<Row>, id: string)
    ensures forall r :: r in WithoutId(rows, id) <==> r in rows && r.id != id
  {
    if rows != [] {
      var n := |rows| - 1;
      WithoutIdIs(rows[..n], id);
      assert rows == rows[..n] + [rows[n]];
    }
  }

  /** A row of this id, with status 1 now, that says what one of the rows says. */
  predicate MarkedFrom(rows: seq<Row>, r: Row, id: string) {
    r.id == id && r.status == 1 && exists o | o in rows :: LetterOf(o) == LetterOf(r) && o.id == id
  }

  lemma MarkedDoneIs(rows: seq<Row>, id: string)
    ensures forall r | r in rows && r.id != id :: r in MarkedDone(rows, id)
    ensures forall r | r in MarkedDone(rows, id) :: (r in rows && r.id != id) || MarkedFrom(rows, r, id)
  {
    var marked := MarkedDone(rows, id);
    forall r | r in rows && r.id != id
      ensures r in marked
    {
      var i :| 0 <= i < |rows| && rows[i] == r;
      assert marked[i] == r;
    }
    forall r | r in marked
      ensures (r in rows && r.id != id) || MarkedFrom(rows, r, id)
    {
      var i :| 0 <= i < |marked| && marked[i] == r;
      assert rows[i] in rows;
      if rows[i].id == id {
        assert LetterOf(rows[i]) == LetterOf(r);
      }
    }
  }

  /** An acknowledgement ends the waiting of its own id exactly when its SELECT and its write worked, leaves
      every other id's rows alone, and never changes what a row says. */
  lemma AckEndsWaiting(t: Tables, id: string, selected: bool, keep: bool, record: bool, written: bool)
    ensures
      var u := AckStep(t, id, selected, keep, record, written);
      && (Waiting(u.chats, id) <==> Waiting(t.chats, id) && !(selected && written))
      && (forall other | other != id :: Waiting(u.chats, other) <==> Waiting(t.chats, other))
      && (forall r | r in u.chats :: exists o | o in t.chats :: o.id == r.id && LetterOf(o) == LetterOf(r))
  {
    var u := AckStep(t, id, selected, keep, record, written);
    WithoutIdIs(t.chats, id);
    MarkedDoneIs(t.chats, id);
    forall r | r in u.chats
      ensures exists o | o in t.chats :: o.id == r.id && LetterOf(o) == LetterOf(r)
    {
      if r in t.chats {
        assert r.id == r.id && LetterOf(r) == LetterOf(r);
      }
    }
    forall other | other != id
      ensures Waiting(u.chats, other) <==> Waiting(t.chats, other)
    {
      assert forall r: Row | r.id == other :: r in u.chats <==> r in t.chats;
    }
  }

  // ---- every step keeps the invariant ----

  lemma {:induction false} FanRowsWait(c: Chat, members: seq<string>, ids: nat -> string, answers: nat -> Answer,
      now: int)
    ensures forall r | r in FanRows(c, members, ids, answers, now) :: r.status == 0
  {
    if members != [] {
      FanRowsWait(c, members[..|members| - 1], ids, answers, now);
    }
  }

  lemma AddedWait(c: Chat, w: World)
    ensures forall r | r in Added(c, w) :: r.status == 0
  {
    if w.members.Got? {
      FanRowsWait(c, w.members.value, w.ids, w.answers, w.now);
    }
  }

  lemma SendStores(s: System, c: Chat, w: World, id: string)
    requires forall i | i in s.stored :: Waiting(s.tables.chats, i) || i in s.done
    requires id in Next(s, Send(c, w)).stored
    ensures Waiting(Next(s, Send(c, w)).tables.chats, id) || id in Next(s, Send(c, w)).done
  {
    SendAdds(s.tables, c, w);
    AddedWait(c, w);
    hide MessageStep, Added;
    var t := Next(s, Send(c, w));
    if id in AddedIds(c, w) {
      var r :| r in Added(c, w) && r.id == id;
      assert r in t.tables.chats;
    } else if Waiting(s.tables.chats, id) {
      var r :| r in s.tables.chats && r.id == id && r.status == 0;
      assert r in t.tables.chats;
    }
  }

  lemma SendStoredOrDone(s: System, c: Chat, w: World)
    requires StoredOrDone(s)
    ensures StoredOrDone(Next(s, Send(c, w)))
  {
    var t := Next(s, Send(c, w));
    hide MessageStep, Added, Waiting;
    forall id | id in t.stored
      ensures Waiting(t.tables.chats, id) || id in t.done
    {
      SendStores(s, c, w, id);
    }
    forall d | d in t.promised
      ensures d.id in t.stored && IsDirect(d)
    {
      if d !in s.promised {
        AckedIsStored(s.tables, c, w);
        assert Added(c, w)[0] in Added(c, w);
      }
    }
  }

  /** Whatever the environment does. */
  lemma AnyMoveStoredOrDone(s: System, m: Move)
    requires StoredOrDone(s)
    ensures StoredOrDone(Next(s, m))
  {
    match m
    case Send(c, w) => SendStoredOrDone(s, c, w);
    case Ack(id, selected, keep, record, written) =>
      AckEndsWaiting(s.tables, id, selected, keep, record, written);
      hide AckStep, Waiting;
    case _ => hide MessageStep;
  }

  lemma SendKeeps(book: string -> Letter, s: System, c: Chat, w: World)
    requires Inv(book, s) && Enabled(book, s, Send(c, w))
    ensures Inv(book, Next(s, Send(c, w)))
  {
    var t := Next(s, Send(c, w));
    SendAdds(s.tables, c, w);
    SendStoredOrDone(s, c, w);
    hide MessageStep, Added, Waiting, StoredOrDone;
    assert RowsInBook(book, t);
    forall d | d in t.promised
      ensures book(d.id) == DirectLetter(d)
    {
      if d !in s.promised {
        AckedIsStored(s.tables, c, w);
        assert Added(c, w)[0] in Added(c, w);
      }
    }
  }

  lemma RelayKeeps(book: string -> Letter, s: System, id: string)
    requires Inv(book, s)
    ensures Inv(book, Next(s, Relay(id)))
  {
    RowsWithIs(s.tables.chats, id);
    var found := RowsWith(s.tables.chats, id);
    if |found| == 1 {
      assert found[0] in found;
      assert Carries(Copy(found[0].touser, Delivered(found[0])), LetterOf(found[0]));
    }
  }

  lemma LoginKeeps(book: string -> Letter, s: System, user: string, answer: seq<Row>)
    requires Inv(book, s) && Enabled(book, s, Login(user, answer))
    ensures Inv(book, Next(s, Login(user, answer)))
  {
    InAnswer(answer, s.tables.chats, user);
    forall q | q in Replays(answer) && q.Show?
      ensures Carries(Copy(user, q.chat), book(q.chat.id))
    {
      var i :| 0 <= i < |answer| && Replays(answer)[i] == q;
      assert answer[i] in answer && book(answer[i].id) == LetterOf(answer[i]);
    }
    hide IsAnswer;
  }

  lemma AckKeeps(book: string -> Letter, s: System, m: Move)
    requires Inv(book, s) && m.Ack? && Enabled(book, s, m)
    ensures Inv(book, Next(s, m))
  {
    AnyMoveStoredOrDone(s, m);
    AckEndsWaiting(s.tables, m.id, m.selected, m.keep, m.record, m.written);
    hide AckStep, LetterOf, StoredOrDone, Waiting;
  }

  lemma MoveKeeps(book: string -> Letter, s: System, m: Move)
    requires Inv(book, s) && Enabled(book, s, m)
    ensures Inv(book, Next(s, m))
  {
    match m
    case Send(c, w) => SendKeeps(book, s, c, w);
    case Relay(id) => RelayKeeps(book, s, id);
    case Login(user, answer) => LoginKeeps(book, s, user, answer);
    case ShowAndAck(copy) =>
    case Ack(_, _, _, _, _) => AckKeeps(book, s, m);
  }

  ghost predicate IsRun(book: string -> Letter, states: seq<System>, moves: seq<Move>) {
    && |states| == |moves| + 1 && Start(book, states[0])
    && forall i | 0 <= i < |moves| :: Enabled(book, states[i], moves[i]) && states[i + 1] == Next(states[i], moves[i])
  }

  lemma {:induction false} RunKeeps(book: string -> Letter, states: seq<System>, moves: seq<Move>, k: nat)
    requires IsRun(book, states, moves) && k < |states|
    ensures Inv(book, states[k])
  {
    if k > 0 {
      RunKeeps(book, states, moves, k - 1);
      MoveKeeps(book, states[k - 1], moves[k - 1]);
    }
  }

  /** What the sender of a direct chat wrote, as one of the receiver's clients shows it. */
  predicate ShowsAsWritten(x: Copy, c: Chat) {
    && x.touser == c.to && x.chat.id == c.id && x.chat.from == c.from && x.chat.mtype == c.mtype
    && x.chat.category == c.category && x.chat.body == c.body && (c.mtype != "customchat" ==> x.chat.to == c.to)
  }

  /** Any moves at all: whatever ids senders use, whoever acknowledges whatever. */
  ghost predicate IsAnyRun(states: seq<System>, moves: seq<Move>) {
    && |states| == |moves| + 1 && states[0].stored == {} && states[0].promised == {}
    && forall i | 0 <= i < |moves| :: states[i + 1] == Next(states[i], moves[i])
  }

  lemma {:induction false} AnyRunStoredOrDone(states: seq<System>, moves: seq<Move>, k: nat)
    requires IsAnyRun(states, moves) && k < |states|
    ensures StoredOrDone(states[k])
  {
    if k > 0 {
      AnyRunStoredOrDone(states, moves, k - 1);
      AnyMoveStoredOrDone(states[k - 1], moves[k - 1]);
    }
  }

  /** No loss, in every state of every run and with no demand on senders or clients: a direct chat acknowledged to
      its sender, and any other row that ever went into the table, is still stored with status 0, or an
      acknowledgement with its id was carried out since. */
  lemma NoLoss(states: seq<System>, moves: seq<Move>, k: nat)
    requires IsAnyRun(states, moves) && k < |states|
    ensures forall c | c in states[k].promised :: c.id in states[k].stored
    ensures forall id | id in states[k].stored :: Waiting(states[k].tables.chats, id) || id in states[k].done
  {
    AnyRunStoredOrDone(states, moves, k);
  }

  /** When clients acknowledge only what they have shown and no id stands for two messages: what no longer waits has
      been shown by a client of the addressee exactly as the sender wrote it. */
  lemma GoneMeansShown(book: string -> Letter, states: seq<System>, moves: seq<Move>, k: nat, c: Chat)
    requires IsRun(book, states, moves) && k < |states| && c in states[k].promised
    ensures !Waiting(states[k].tables.chats, c.id) ==> exists x | x in states[k].shown :: ShowsAsWritten(x, c)
  {
    RunKeeps(book, states, moves, k);
    var s := states[k];
    if !Waiting(s.tables.chats, c.id) {
      var x :| x in s.shown && x.chat.id == c.id;
      assert ShowsAsWritten(x, c);
    }
  }

  /** The same for every row that ever went into the table, a group chat's copies included. */
  lemma NothingStoredIsLost(book: string -> Letter, states: seq<System>, moves: seq<Move>, k: nat, id: string)
    requires IsRun(book, states, moves) && k < |states| && id in states[k].stored
    ensures Waiting(states[k].tables.chats, id)
         || exists x | x in states[k].shown :: x.chat.id == id && Carries(x, book(id))
  {
    RunKeeps(book, states, moves, k);
    var s := states[k];
    if !Waiting(s.tables.chats, id) {
      var x :| x in s.shown && x.chat.id == id;
      assert Carries(x, book(id));
    }
  }

  /** As long as it waits, whatever a login owes the addressee holds it, as the sender wrote it. */
  lemma NextLoginReplays(book: string -> Letter, states: seq<System>, moves: seq<Move>, k: nat, c: Chat,
      out: seq<Queued>)
    requires IsRun(book, states, moves) && k < |states| && c in states[k].promised
    requires Waiting(states[k].tables.chats, c.id) && Owed(out, states[k].tables.chats, c.to)
    ensures exists q | q in out :: q.Show? && ShowsAsWritten(Copy(c.to, q.chat), c) && SameContent(q.chat, c)
  {
    RunKeeps(book, states, moves, k);
    var s := states[k];
    var r :| r in s.tables.chats && r.id == c.id && r.status == 0;
    assert LetterOf(r) == DirectLetter(c);
    var rows := Unacked(s.tables.chats, c.to);
    UnackedIs(s.tables.chats, c.to);
    var i :| 0 <= i < |rows| && rows[i] == r;
    var q := Show(Replayed(r));
    assert Replays(rows)[i] == q;
    assert q in multiset(Replays(rows));
    assert q in multiset(out);
    assert ShowsAsWritten(Copy(c.to, q.chat), c) && SameContent(q.chat, c);
  }

  /** The rows whose replays a login owes: each row of the user with status 0 as often as it is stored. */
  lemma OwedRows(rows: seq<Row>, user: string)
    ensures forall r ::
      multiset(Unacked(rows, user))[r] == if r.touser == user && r.status == 0 then multiset(rows)[r] else 0
  {
    UnackedCounts(rows, user);
  }

  lemma {:induction false} UnackedCounts(rows: seq<Row>, user: string)
    ensures forall r ::
      multiset(Unacked(rows, user))[r] == if r.touser == user && r.status == 0 then multiset(rows)[r] else 0
  {
    if rows != [] {
      var n := |rows| - 1;
      UnackedCounts(rows[..n], user);
      assert rows == rows[..n] + [rows[n]];
    }
  }

  // ---- what each move does ----

  /** A message puts on the relay what it sends to the router, and its rows are stored from then on and not done. */
  lemma SendDoes(s: System, c: Chat, w: World)
    ensures
      var t, added := Next(s, Send(c, w)), Added(c, w);
      && t.tables == MessageStep(s.tables, c, w).0 && t.tables.chats == s.tables.chats + added
      && (forall id :: id in t.relay <==>
            id in s.relay || exists o :: o in MessageStep(s.tables, c, w).1 && o.ToRouter? && o.id == id)
      && (forall id :: id in t.stored <==> id in s.stored || exists r :: r in added && r.id == id)
      && (forall id :: id in t.done <==> id in s.done && !exists r :: r in added && r.id == id)
      && (forall d :: d in t.promised <==>
            d in s.promised
            || (d == c && IsDirect(c)
                && exists o :: o in MessageStep(s.tables, c, w).1 && o.SenderAck? && o.id == c.id))
      && t.sent == s.sent && t.shown == s.shown
  {
    SendAdds(s.tables, c, w);
    hide MessageStep, Added;
  }

  /** A relayed id reaches every client of the receiver when one row alone has it and holds no "iq"; a login sends every
      row of its answer that holds none; and a client shows what it says it shows. */
  lemma DeliveriesDo(s: System, m: Move)
    requires m.Relay? || m.Login? || m.ShowAndAck?
    ensures
      var t := Next(s, m);
      t.tables == s.tables && t.relay == s.relay && t.done == s.done && t.stored == s.stored && t.promised == s.promised
    ensures m.Relay? ==>
      && Next(s, m).shown == s.shown
      && forall x :: x in Next(s, m).sent <==>
           x in s.sent || exists i :: OnlyRow(s.tables.chats, m.id, i) && s.tables.chats[i].mtype != "iq"
                                      && x == Copy(s.tables.chats[i].touser, Delivered(s.tables.chats[i]))
    ensures m.Login? ==>
      && Next(s, m).shown == s.shown
      && forall x :: x in Next(s, m).sent <==>
           x in s.sent || exists r :: r in m.answer && r.mtype != "iq" && x == Copy(m.user, Replayed(r))
    ensures m.ShowAndAck? ==>
      Next(s, m).sent == s.sent && forall x :: x in Next(s, m).shown <==> x in s.shown || x == m.copy
  {
    match m
    case Relay(id) => OneRowIs(s.tables.chats, id);
    case Login(user, answer) => ShownAre(answer, user);
    case _ =>
  }

  lemma ShownAre(answer: seq<Row>, user: string)
    ensures
      var shown := set q | q in Replays(answer) && q.Show? :: Copy(user, q.chat);
      forall x :: x in shown <==> exists r :: r in answer && r.mtype != "iq" && x == Copy(user, Replayed(r))
  {
    var shown := set q | q in Replays(answer) && q.Show? :: Copy(user, q.chat);
    forall x | x in shown
      ensures exists r :: r in answer && r.mtype != "iq" && x == Copy(user, Replayed(r))
    {
      var q :| q in Replays(answer) && q.Show? && x == Copy(user, q.chat);
      var i :| 0 <= i < |answer| && Replays(answer)[i] == q;
      assert answer[i] in answer;
    }
    forall r | r in answer && r.mtype != "iq"
      ensures Copy(user, Replayed(r)) in shown
    {
      var i :| 0 <= i < |answer| && answer[i] == r;
      assert Replays(answer)[i] == Show(Replayed(r));
    }
  }

  /** An acknowledgement does to the table what the handler does, and its id is done exactly when both accesses
      worked. */
  lemma AckDoes(s: System, id: string, selected: bool, keep: bool, record: bool, written: bool)
    ensures
      var t := Next(s, Ack(id, selected, keep, record, written));
      && t.tables == AckStep(s.tables, id, selected, keep, record, written)
      && (forall i :: i in t.done <==> i in s.done || (i == id && selected && written))
      && t.sent == s.sent && t.shown == s.shown
      && t.relay == s.relay && t.stored == s.stored && t.promised == s.promised
  {
    hide AckStep;
  }
}
