/** The message module: chats are stored in im_msg_chat, routed by id, fanned out to groups, and
    removed when their receiver's acknowledgement arrives. */
module Message {

  /** A row of im_msg_chat; status 0 means not yet acknowledged. */
  datatype Row = Row(id: string, fromuser: string, touser: string, togroup: string, gmsg: string, mtype: string,
                     category: string, body: string, status: int, recvtime: int)

  /** A row of im_msg_gchat. */
  datatype GroupRow = GroupRow(id: string, fromuser: string, togroup: string, mtype: string, category: string,
                               body: string, recvtime: int)

  /** A chat message as it travels; addr is set once it was routed to a module. */
  datatype Chat = Chat(id: string, from: string, to: string, addr: string, mtype: string, category: string,
                       time: int, body: string)

  datatype Query<T> = Failed | Got(value: T)

  datatype Output =
    | ToRouter(id: string, addr: string)
    | ToPush(chat: Chat)
    | SenderAck(id: string, time: int, name: string)

  /** What the outside world answers while one stored copy is handled: whether the INSERT worked, and
      the modules on which the receiver is online. */
  datatype Answer = Answer(inserted: bool, modules: Query<seq<string>>)

  const MAX_BODY: nat := 1024 + 256 + 128

  // ---- the row a chat is stored as, and the two ways it is shown again ----

  /** The INSERT: the group is stored only when the receiver is not the addressee itself. */
  function Stored(c: Chat, touser: string, gmsg: string, now: int): Row {
    Row(c.id, c.from, touser, if c.to == touser then "" else c.to, gmsg, c.mtype, c.category, c.body, 0, now)
  }

  /** Replay at login: an empty group means the receiver was the addressee. */
  function Replayed(r: Row): Chat {
    Chat(r.id, r.fromuser, if r.togroup == "" then r.touser else r.togroup, "", r.mtype, r.category, r.recvtime, r.body)
  }

  /** Live delivery by the presence module, which treats customchat rows apart. */
  function Delivered(r: Row): Chat {
    Chat(r.id, r.fromuser,
         if r.mtype == "customchat" then (if r.category == "system" then r.touser else r.togroup)
         else if r.togroup == "" then r.touser else r.togroup,
         "", r.mtype, r.category, r.recvtime, r.body)
  }

  /** Same sender, addressee, type, category and body. */
  predicate SameContent(a: Chat, b: Chat) {
    a.from == b.from && a.to == b.to && a.mtype == b.mtype && a.category == b.category && a.body == b.body
  }

  /** The store rule and the rebuild rule undo each other, for every chat and receiver, exactly when the
      addressee is named or the receiver is the addressee. */
  lemma StoreThenShow(c: Chat, touser: string, gmsg: string, now: int)
    ensures SameContent(Replayed(Stored(c, touser, gmsg, now)), c) <==> c.to != "" || touser == ""
    ensures c.mtype != "customchat" ==>
      Delivered(Stored(c, touser, gmsg, now)) == Replayed(Stored(c, touser, gmsg, now))
  {
  }

  /** For customchat the two views differ unless the row is a plain direct one marked "system" or was
      stored with its group. */
  lemma CustomchatViews(c: Chat, touser: string, gmsg: string, now: int)
    requires c.mtype == "customchat"
    ensures Delivered(Stored(c, touser, gmsg, now)).to == Replayed(Stored(c, touser, gmsg, now)).to
       <==> (if c.category == "system" then c.to == touser || c.to == ""
             else touser == "" || (c.to != touser && c.to != ""))
  {
  }

  // ---- the handlers as functions of the tables ----

  datatype Tables = Tables(chats: seq<Row>, gchats: seq<GroupRow>)

  function RowsWith(rows: seq<Row>, id: string): seq<Row> {
    if rows == [] then []
    else RowsWith(rows[..|rows| - 1], id) + (if rows[|rows| - 1].id == id then [rows[|rows| - 1]] else [])
  }

  function GroupRowsWith(rows: seq<GroupRow>, id: string): seq<GroupRow> {
    if rows == [] then []
    else GroupRowsWith(rows[..|rows| - 1], id) + (if rows[|rows| - 1].id == id then [rows[|rows| - 1]] else [])
  }

  /** Where the copy goes: to the one module the receiver is online at, to push when offline. */
  function Route(c: Chat, touser: string, modules: Query<seq<string>>): seq<Output> {
    if modules.Failed? || |modules.value| > 1 then []
    else if |modules.value| == 1 then [ToRouter(c.id, modules.value[0])]
    else [ToPush(Chat(c.id, c.from, touser, "", c.mtype, c.category, 0, c.body))]
  }

  function StoreStep(t: Tables, c: Chat, touser: string, gmsg: string, now: int, a: Answer): (Tables, seq<Output>) {
    if a.inserted then (t.(chats := t.chats + [Stored(c, touser, gmsg, now)]), Route(c, touser, a.modules)) else (t, [])
  }

  /** The acknowledgement to the sender needs exactly one stored row with the id. */
  function AckFor(times: Query<seq<int>>, c: Chat): seq<Output> {
    if times.Got? && |times.value| == 1 then [SenderAck(c.id, times.value[0], c.from)] else []
  }

  function Times(rows: seq<Row>): seq<int> {
    seq(|rows|, i requires 0 <= i < |rows| => rows[i].recvtime)
  }

  function GroupTimes(rows: seq<GroupRow>): seq<int> {
    seq(|rows|, i requires 0 <= i < |rows| => rows[i].recvtime)
  }

  /** The copy of a group chat for one member, under an id of its own. */
  function CopyFor(c: Chat, id: string): Chat {
    Chat(id, c.from, c.to, "", c.mtype, c.category, 0, c.body)
  }

  function FanOut(t: Tables, c: Chat, members: seq<string>, ids: nat -> string, answers: nat -> Answer,
      now: int): (Tables, seq<Output>)
    decreases |members|
  {
    if members == [] then (t, [])
    else
      var k := |members| - 1;
      var (t1, out1) := FanOut(t, c, members[..k], ids, answers, now);
      var (t2, out2) := StoreStep(t1, CopyFor(c, ids(k)), members[k], c.id, now, answers(k));
      (t2, out1 + out2)
  }

  predicate DirectType(mtype: string) {
    mtype == "chat" || mtype == "customchat" || mtype == "maishouchat"
  }

  /** What the outside world answers while one message is handled: the clock, the member list, whether
      the group INSERT and the SELECT for the acknowledgement worked, and one answer per copy. */
  datatype World = World(now: int, members: Query<seq<string>>, ids: nat -> string, gchatInserted: bool,
                         selected: bool, answers: nat -> Answer)

  function GroupRowOf(c: Chat, now: int): GroupRow {
    GroupRow(c.id, c.from, c.to, c.mtype, c.category, c.body, now)
  }

  function MessageStep(t: Tables, c: Chat, w: World): (Tables, seq<Output>) {
    if c.body == "" || |c.body| > MAX_BODY then (t, [])
    else if c.addr != "" then (t, [ToPush(c)])
    else if c.mtype == "groupchat" then
      if w.members.Failed? || !w.gchatInserted then (t, [])
      else
        var t1 := t.(gchats := t.gchats + [GroupRowOf(c, w.now)]);
        var ack := if w.selected then AckFor(Got(GroupTimes(GroupRowsWith(t1.gchats, c.id))), c) else [];
        var (t2, outs) := FanOut(t1, c, w.members.value, w.ids, w.answers, w.now);
        (t2, ack + outs)
    else if DirectType(c.mtype) then
      var (t1, outs) := StoreStep(t, c, c.to, "", w.now, w.answers(0));
      if !w.answers(0).inserted then (t1, outs)
      else (t1, outs + (if w.selected then AckFor(Got(Times(RowsWith(t1.chats, c.id))), c) else []))
    else (t, [])
  }

  /** Where a stored direct chat goes: to the router exactly when the receiver is online at one module and
      then to that module, to push exactly when it is offline, with the chat as the sender wrote it; online at
      several modules, or unknown, it only waits in the table. */
  lemma DirectIsRouted(t: Tables, c: Chat, w: World)
    requires c.addr == "" && DirectType(c.mtype) && 0 < |c.body| <= MAX_BODY && w.answers(0).inserted
    ensures
      var out := MessageStep(t, c, w).1;
      var modules := w.answers(0).modules;
      && (forall id, addr :: ToRouter(id, addr) in out <==> id == c.id && modules == Got([addr]))
      && ((exists p :: ToPush(p) in out) <==> modules == Got([]))
      && forall p | ToPush(p) in out :: p.id == c.id && SameContent(p, c)
  {
    var modules := w.answers(0).modules;
    if modules.Got? && |modules.value| == 1 {
      assert modules.value == [modules.value[0]];
    }
    if modules == Got([]) {
      var p := Chat(c.id, c.from, c.to, "", c.mtype, c.category, 0, c.body);
      assert MessageStep(t, c, w).1[0] == ToPush(p);
    }
  }

  function WithoutId(rows: seq<Row>, id: string): seq<Row> {
    if rows == [] then []
    else WithoutId(rows[..|rows| - 1], id) + (if rows[|rows| - 1].id == id then [] else [rows[|rows| - 1]])
  }

  function MarkedDone(rows: seq<Row>, id: string): seq<Row> {
    seq(|rows|, i requires 0 <= i < |rows| => if rows[i].id == id then rows[i].(status := 1) else rows[i])
  }

  /** An acknowledgement from a receiver. `keep` says that the pair of users saves or shares messages,
      `record` that the module was built to keep acknowledged rows. */
  function AckStep(t: Tables, id: string, selected: bool, keep: bool, record: bool, written: bool): Tables {
    if !selected || !written then t
    else if keep || record then t.(chats := MarkedDone(t.chats, id))
    else t.(chats := WithoutId(t.chats, id))
  }

  // ---- one row alone has an id ----

  datatype Stamp = Stamp(id: string, time: int)

  function Stamps(rows: seq<Row>): seq<Stamp> {
    seq(|rows|, i requires 0 <= i < |rows| => Stamp(rows[i].id, rows[i].recvtime))
  }

  function GroupStamps(rows: seq<GroupRow>): seq<Stamp> {
    seq(|rows|, i requires 0 <= i < |rows| => Stamp(rows[i].id, rows[i].recvtime))
  }

  ghost predicate OnlyAt(stamps: seq<Stamp>, id: string, i: int) {
    && 0 <= i < |stamps| && stamps[i].id == id
    && forall j | 0 <= j < |stamps| && stamps[j].id == id :: j == i
  }

  /** The times stamped with an id. */
  function Stamped(stamps: seq<Stamp>, id: string): seq<int> {
    if stamps == [] then []
    else
      var last := stamps[|stamps| - 1];
      Stamped(stamps[..|stamps| - 1], id) + (if last.id == id then [last.time] else [])
  }

  lemma {:induction false} StampedNone(stamps: seq<Stamp>, id: string)
    ensures Stamped(stamps, id) == [] <==> forall i | 0 <= i < |stamps| :: stamps[i].id != id
  {
    if stamps != [] {
      var n := |stamps| - 1;
      StampedNone(stamps[..n], id);
      if i :| 0 <= i < n && stamps[i].id == id {
        assert stamps[..n][i].id == id;
      }
    }
  }

  lemma {:induction false} StampedIs(stamps: seq<Stamp>, id: string)
    ensures |Stamped(stamps, id)| == 1 <==> exists i :: OnlyAt(stamps, id, i)
    ensures forall i | OnlyAt(stamps, id, i) :: Stamped(stamps, id) == [stamps[i].time]
  {
    if stamps != [] {
      var n := |stamps| - 1;
      StampedNone(stamps[..n], id);
      StampedIs(stamps[..n], id);
      if stamps[n].id == id {
        if Stamped(stamps[..n], id) == [] {
          assert OnlyAt(stamps, id, n);
        } else {
          var k :| 0 <= k < n && stamps[k].id == id;
          assert forall i :: !OnlyAt(stamps, id, i);
        }
      } else {
        assert forall i :: OnlyAt(stamps, id, i) <==> OnlyAt(stamps[..n], id, i);
      }
    }
  }

  lemma {:induction false} TimesAreStamps(rows: seq<Row>, id: string)
    ensures Times(RowsWith(rows, id)) == Stamped(Stamps(rows), id)
  {
    if rows != [] {
      var n := |rows| - 1;
      TimesAreStamps(rows[..n], id);
      assert Stamps(rows)[..n] == Stamps(rows[..n]);
    }
  }

  lemma {:induction false} GroupTimesAreStamps(rows: seq<GroupRow>, id: string)
    ensures GroupTimes(GroupRowsWith(rows, id)) == Stamped(GroupStamps(rows), id)
  {
    if rows != [] {
      var n := |rows| - 1;
      GroupTimesAreStamps(rows[..n], id);
      assert GroupStamps(rows)[..n] == GroupStamps(rows[..n]);
    }
  }

  /** An output that acknowledges exactly for a lone row is the acknowledgement of the message step. */
  lemma AckIsFor(stamps: seq<Stamp>, c: Chat, out: seq<Output>)
    requires |out| <= 1 && (out != [] <==> exists i :: OnlyAt(stamps, c.id, i))
    requires forall i | OnlyAt(stamps, c.id, i) && out != [] :: out == [SenderAck(c.id, stamps[i].time, c.from)]
    ensures out == AckFor(Got(Stamped(stamps, c.id)), c)
  {
    StampedIs(stamps, c.id);
  }

  class TMSModule {
    var chats: seq<Row>
    var gchats: seq<GroupRow>

    ghost function State(): Tables
      reads this
    {
      Tables(chats, gchats)
    }

    constructor (rows: seq<Row>, grouprows: seq<GroupRow>)
      ensures State() == Tables(rows, grouprows)
    {
      chats, gchats := rows, grouprows;
    }

    /** Stores one copy and sends it on. */
    method ProcessChat(c: Chat, touser: string, gmsg: string, now: int, a: Answer)
      returns (stored: bool, out: seq<Output>)
      modifies this`chats
      ensures stored == a.inserted
      ensures (State(), out) == StoreStep(old(State()), c, touser, gmsg, now, a)
    {
      out := [];
      if !a.inserted {
        return false, out;
      }
      chats := chats + [Stored(c, touser, gmsg, now)];
      if a.modules.Failed? {
      } else if |a.modules.value| == 1 {
        out := [ToRouter(c.id, a.modules.value[0])];
      } else if |a.modules.value| == 0 {
        out := [ToPush(Chat(c.id, c.from, touser, "", c.mtype, c.category, 0, c.body))];
      }
      stored := true;
    }

    /** Looks the row up again. An acknowledgement goes out if and only if the query worked and one row alone has
        the id; it goes to the sender, with that row's time. */
    method ProcessChatAck(c: Chat, ischat: bool, selected: bool) returns (out: seq<Output>)
      ensures
        var stamps := if ischat then Stamps(chats) else GroupStamps(gchats);
        && |out| <= 1
        && (out != [] <==> selected && exists i :: OnlyAt(stamps, c.id, i))
        && forall i | OnlyAt(stamps, c.id, i) && out != [] :: out == [SenderAck(c.id, stamps[i].time, c.from)]
    {
      out := [];
      if selected {
        var times := if ischat then Times(RowsWith(chats, c.id)) else GroupTimes(GroupRowsWith(gchats, c.id));
        if ischat {
          TimesAreStamps(chats, c.id);
        } else {
          GroupTimesAreStamps(gchats, c.id);
        }
        ghost var stamps := if ischat then Stamps(chats) else GroupStamps(gchats);
        StampedIs(stamps, c.id);
        if |times| == 1 {
          out := [SenderAck(c.id, times[0], c.from)];
        }
      }
    }

    method ProcessMessage(c: Chat, w: World) returns (out: seq<Output>)
      modifies this
      ensures (State(), out) == MessageStep(old(State()), c, w)
    {
      out := [];
      if |c.body| == 0 || |c.body| > MAX_BODY {
        return;
      }
      if c.addr != "" {
        out := [ToPush(c)];
      } else if c.mtype == "groupchat" {
        if w.members.Failed? || !w.gchatInserted {
          return;
        }
        gchats := gchats + [GroupRowOf(c, w.now)];
        ghost var t1 := State();
        var ack := ProcessChatAck(c, false, w.selected);
        if w.selected {
          AckIsFor(GroupStamps(gchats), c, ack);
          GroupTimesAreStamps(gchats, c.id);
        }
        var users := w.members.value;
        var sent: seq<Output> := [];
        var index := 0;
        while index < |users|
          invariant 0 <= index <= |users|
          invariant (State(), sent) == FanOut(t1, c, users[..index], w.ids, w.answers, w.now)
        {
          assert users[..index + 1][..index] == users[..index];
          var copy := CopyFor(c, w.ids(index));
          var stored, more := ProcessChat(copy, users[index], c.id, w.now, w.answers(index));
          sent := sent + more;
          index := index + 1;
        }
        assert users[..index] == users;
        out := ack + sent;
      } else if DirectType(c.mtype) {
        var stored;
        stored, out := ProcessChat(c, c.to, "", w.now, w.answers(0));
        if stored {
          var ack := ProcessChatAck(c, true, w.selected);
          if w.selected {
            AckIsFor(Stamps(chats), c, ack);
            TimesAreStamps(chats, c.id);
          }
          out := out + ack;
        }
      }
    }

    method ProcessAck(id: string, selected: bool, keep: bool, record: bool, written: bool)
      modifies this`chats
      ensures State() == AckStep(old(State()), id, selected, keep, record, written)
    {
      if !selected {
        return;
      }
      if keep {
        if written {
          chats := MarkedDone(chats, id);
        }
        return;
      }
      if written {
        chats := if record then MarkedDone(chats, id) else WithoutId(chats, id);
      }
    }
  }

  // ---- group fan-out ----

  /** The rows a fan-out adds, in member order: one per member whose INSERT worked. */
  function FanRows(c: Chat, members: seq<string>, ids: nat -> string, answers: nat -> Answer, now: int): seq<Row> {
    if members == [] then []
    else
      var k := |members| - 1;
      FanRows(c, members[..k], ids, answers, now)
      + (if answers(k).inserted then [Stored(CopyFor(c, ids(k)), members[k], c.id, now)] else [])
  }

  lemma {:induction false} FanOutAdds(t: Tables, c: Chat, members: seq<string>, ids: nat -> string,
      answers: nat -> Answer, now: int)
    ensures FanOut(t, c, members, ids, answers, now).0 == t.(chats := t.chats + FanRows(c, members, ids, answers, now))
  {
    if members != [] {
      FanOutAdds(t, c, members[..|members| - 1], ids, answers, now);
    }
  }

  lemma {:induction false} FanRowsCount(c: Chat, members: seq<string>, ids: nat -> string, answers: nat -> Answer,
      now: int)
    ensures |FanRows(c, members, ids, answers, now)| <= |members|
    ensures |FanRows(c, members, ids, answers, now)| == |members|
      <==> forall k: nat | k < |members| :: answers(k).inserted
    ensures (forall k: nat | k < |members| :: answers(k).inserted) ==>
      forall k | 0 <= k < |members| ::
        FanRows(c, members, ids, answers, now)[k] == Stored(CopyFor(c, ids(k)), members[k], c.id, now)
  {
    if members != [] {
      var n := |members| - 1;
      FanRowsCount(c, members[..n], ids, answers, now);
      if |FanRows(c, members, ids, answers, now)| == |members| {
        assert answers(n).inserted;
      }
    }
  }

  /** A group chat adds exactly one row per listed member, each showing the member what the sender wrote,
      exactly when every INSERT worked. The sender is acknowledged either way. */
  lemma GroupReachesEveryMember(t: Tables, c: Chat, w: World)
    requires c.mtype == "groupchat" && c.addr == "" && 0 < |c.body| <= MAX_BODY && w.members.Got? && w.gchatInserted
    ensures
      var added := FanRows(c, w.members.value, w.ids, w.answers, w.now);
      && MessageStep(t, c, w).0.chats == t.chats + added
      && (|added| == |w.members.value| <==> forall k: nat | k < |w.members.value| :: w.answers(k).inserted)
      && (|added| == |w.members.value| ==> forall k | 0 <= k < |added| ::
            && added[k].touser == w.members.value[k] && added[k].gmsg == c.id && added[k].status == 0
            && (c.to != "" ==> SameContent(Replayed(added[k]), c) && SameContent(Delivered(added[k]), c)))
  {
    var t1 := t.(gchats := t.gchats + [GroupRowOf(c, w.now)]);
    FanOutAdds(t1, c, w.members.value, w.ids, w.answers, w.now);
    FanRowsCount(c, w.members.value, w.ids, w.answers, w.now);
  }

  lemma {:induction false} FanRowsAre(c: Chat, members: seq<string>, ids: nat -> string, answers: nat -> Answer,
      now: int, r: Row)
    ensures r in FanRows(c, members, ids, answers, now)
      <==> exists k: nat ::
             k < |members| && answers(k).inserted && r == Stored(CopyFor(c, ids(k)), members[k], c.id, now)
  {
    if members != [] {
      var n := |members| - 1;
      FanRowsAre(c, members[..n], ids, answers, now, r);
      if k: nat :| k < |members| && answers(k).inserted && r == Stored(CopyFor(c, ids(k)), members[k], c.id, now) {
        if k < n {
          assert members[..n][k] == members[k];
        }
      }
    }
  }

  /** Member by member: a row under the id of a member's copy is added exactly when its INSERT worked, and it shows
      that member what the sender wrote, unless the chat names no group. */
  lemma MemberReachedIff(t: Tables, c: Chat, w: World, k: nat)
    requires c.mtype == "groupchat" && c.addr == "" && 0 < |c.body| <= MAX_BODY && w.members.Got? && w.gchatInserted
    requires k < |w.members.value| && forall i: nat, j: nat | i < j < |w.members.value| :: w.ids(i) != w.ids(j)
    ensures
      var chats := MessageStep(t, c, w).0.chats;
      && t.chats <= chats
      && ((exists r | r in chats[|t.chats|..] :: r.id == w.ids(k)) <==> w.answers(k).inserted)
      && forall r | r in chats[|t.chats|..] && r.id == w.ids(k) ::
           && r.touser == w.members.value[k]
           && (c.to != "" ==> SameContent(Replayed(r), c) && SameContent(Delivered(r), c))
  {
    GroupAdds(t, c, w);
    hide MessageStep;
    var added := FanRows(c, w.members.value, w.ids, w.answers, w.now);
    assert (t.chats + added)[|t.chats|..] == added;
    forall r
      ensures r in added <==> exists i: nat :: i < |w.members.value| && w.answers(i).inserted
                                && r == Stored(CopyFor(c, w.ids(i)), w.members.value[i], c.id, w.now)
    {
      FanRowsAre(c, w.members.value, w.ids, w.answers, w.now, r);
    }
    hide FanRows;
    CopyShows(c, w.ids(k), w.members.value[k], w.now);
    forall i: nat | i < |w.members.value| && w.ids(i) == w.ids(k) ensures i == k {
    }
    StoredId(c, w);
    hide Stored, CopyFor, Replayed, Delivered, SameContent;
    if w.answers(k).inserted {
      var r := Stored(CopyFor(c, w.ids(k)), w.members.value[k], c.id, w.now);
      assert r in added && r.id == w.ids(k);
    }
  }

  lemma CopyShows(c: Chat, id: string, member: string, now: int)
    requires c.mtype == "groupchat"
    ensures
      var r := Stored(CopyFor(c, id), member, c.id, now);
      && r.touser == member
      && (c.to != "" ==> SameContent(Replayed(r), c) && SameContent(Delivered(r), c))
  {
  }

  lemma StoredId(c: Chat, w: World)
    ensures forall id, member :: Stored(CopyFor(c, id), member, c.id, w.now).id == id
  {
  }

  /** A row of im_pub_groupuser. */
  datatype GroupUser = GroupUser(gid: string, uid: string, status: int)

  /** The member list of a fan-out: the active members of the group without the sender. */
  function ActiveOthers(table: seq<GroupUser>, gid: string, from: string): seq<string> {
    if table == [] then []
    else
      var m := table[|table| - 1];
      ActiveOthers(table[..|table| - 1], gid, from)
      + (if m.status == 1 && m.gid == gid && m.uid != from then [m.uid] else [])
  }

  /** How often a user is listed as an active member. */
  function Memberships(table: seq<GroupUser>, gid: string, user: string): nat {
    if table == [] then 0
    else
      var m := table[|table| - 1];
      Memberships(table[..|table| - 1], gid, user) + (if m == GroupUser(gid, user, 1) then 1 else 0)
  }

  function RowsFor(rows: seq<Row>, user: string): nat {
    if rows == [] then 0
    else RowsFor(rows[..|rows| - 1], user) + (if rows[|rows| - 1].touser == user then 1 else 0)
  }

  lemma {:induction false} ActiveOthersCount(table: seq<GroupUser>, gid: string, from: string, user: string)
    ensures multiset(ActiveOthers(table, gid, from))[user] == if user == from then 0 else Memberships(table, gid, user)
  {
    if table != [] {
      ActiveOthersCount(table[..|table| - 1], gid, from, user);
    }
  }

  lemma {:induction false} FanRowsFor(c: Chat, members: seq<string>, ids: nat -> string, answers: nat -> Answer,
      now: int, user: string)
    requires forall k: nat | k < |members| :: answers(k).inserted
    ensures RowsFor(FanRows(c, members, ids, answers, now), user) == multiset(members)[user]
  {
    if members != [] {
      var n := |members| - 1;
      FanRowsFor(c, members[..n], ids, answers, now, user);
      var rows := FanRows(c, members, ids, answers, now);
      assert rows[..|rows| - 1] == FanRows(c, members[..n], ids, answers, now);
      assert members == members[..n] + [members[n]];
      hide FanRows;
    }
  }

  lemma GroupAdds(t: Tables, c: Chat, w: World)
    requires c.mtype == "groupchat" && c.addr == "" && 0 < |c.body| <= MAX_BODY && w.members.Got? && w.gchatInserted
    ensures MessageStep(t, c, w).0.chats == t.chats + FanRows(c, w.members.value, w.ids, w.answers, w.now)
  {
    FanOutAdds(t.(gchats := t.gchats + [GroupRowOf(c, w.now)]), c, w.members.value, w.ids, w.answers, w.now);
  }

  /** When the inserts succeed, a group chat makes exactly one row for each active membership other than the
      sender's, and none for anyone else. */
  lemma OneRowPerActiveMember(t: Tables, c: Chat, w: World, table: seq<GroupUser>, user: string)
    requires c.mtype == "groupchat" && c.addr == "" && 0 < |c.body| <= MAX_BODY && w.gchatInserted
    requires w.members == Got(ActiveOthers(table, c.to, c.from))
    requires forall k: nat | k < |w.members.value| :: w.answers(k).inserted
    ensures
      var chats := MessageStep(t, c, w).0.chats;
      && t.chats <= chats
      && RowsFor(chats[|t.chats|..], user) == if user == c.from then 0 else Memberships(table, c.to, user)
  {
    GroupAdds(t, c, w);
    hide *;
    var added := FanRows(c, w.members.value, w.ids, w.answers, w.now);
    assert (t.chats + added)[|t.chats|..] == added;
    FanRowsFor(c, w.members.value, w.ids, w.answers, w.now, user);
    ActiveOthersCount(table, c.to, c.from, user);
  }

  /** A group chat's sender can hold an acknowledgement although no member's copy was stored. */
  lemma GroupAckBeforeFanOut(t: Tables, c: Chat, w: World)
    requires c.mtype == "groupchat" && c.addr == "" && 0 < |c.body| <= MAX_BODY && w.gchatInserted && w.selected
    requires w.members.Got? && forall k: nat :: !w.answers(k).inserted
    requires GroupRowsWith(t.gchats, c.id) == []
    ensures MessageStep(t, c, w).0.chats == t.chats
    ensures SenderAck(c.id, w.now, c.from) in MessageStep(t, c, w).1
  {
    var t1 := t.(gchats := t.gchats + [GroupRowOf(c, w.now)]);
    FanOutAdds(t1, c, w.members.value, w.ids, w.answers, w.now);
    NothingStored(c, w.members.value, w.ids, w.answers, w.now);
    assert t1.gchats[..|t1.gchats| - 1] == t.gchats;
    assert GroupRowsWith(t1.gchats, c.id) == [GroupRowOf(c, w.now)];
    assert GroupTimes(GroupRowsWith(t1.gchats, c.id)) == [w.now];
  }

  lemma {:induction false} NothingStored(c: Chat, members: seq<string>, ids: nat -> string, answers: nat -> Answer,
      now: int)
    requires forall k: nat :: !answers(k).inserted
    ensures FanRows(c, members, ids, answers, now) == []
  {
    if members != [] {
      NothingStored(c, members[..|members| - 1], ids, answers, now);
    }
  }

  // ---- what one message sends and stores ----

  /** A message that is neither stored nor answered: an empty or over-long body, a type the module does not know, a
      group whose member query or whose own INSERT failed. One that carries an address goes to push as it came. */
  lemma NotStored(t: Tables, c: Chat, w: World)
    ensures |c.body| == 0 || |c.body| > 1408 ==> MessageStep(t, c, w) == (t, [])
    ensures 0 < |c.body| <= 1408 && c.addr != "" ==> MessageStep(t, c, w) == (t, [ToPush(c)])
    ensures (0 < |c.body| <= 1408 && c.addr == "" && c.mtype == "groupchat"
             && (w.members.Failed? || !w.gchatInserted)) ==>
      MessageStep(t, c, w) == (t, [])
    ensures c.addr == "" && c.mtype !in {"groupchat", "chat", "customchat", "maishouchat"} ==>
      MessageStep(t, c, w) == (t, [])
    ensures 0 < |c.body| <= 1408 && c.addr == "" && c.mtype in {"chat", "customchat", "maishouchat"} ==>
      MessageStep(t, c, w).0.gchats == t.gchats && (!w.answers(0).inserted ==> MessageStep(t, c, w) == (t, []))
  {
  }

  /** The group's own row. */
  lemma GroupRowAdded(t: Tables, c: Chat, w: World)
    requires c.mtype == "groupchat" && c.addr == "" && 0 < |c.body| <= 1408 && w.members.Got? && w.gchatInserted
    ensures MessageStep(t, c, w).0.gchats ==
      t.gchats + [GroupRow(c.id, c.from, c.to, "groupchat", c.category, c.body, w.now)]
  {
    FanOutAdds(t.(gchats := t.gchats + [GroupRowOf(c, w.now)]), c, w.members.value, w.ids, w.answers, w.now);
  }

  /** What leaves for a stored copy: its id to the one module the receiver is online at, or the chat itself to push when
      the receiver is online nowhere. */
  predicate Leaves(o: Output, c: Chat, id: string, receiver: string, a: Answer) {
    && a.inserted && a.modules.Got?
    && ((|a.modules.value| == 1 && o == ToRouter(id, a.modules.value[0]))
        || (a.modules.value == []
            && o == ToPush(Chat(id, c.from, receiver, "", c.mtype, c.category, 0, c.body))))
  }

  lemma {:induction false} FanOutSends(t: Tables, c: Chat, members: seq<string>, ids: nat -> string,
      answers: nat -> Answer, now: int)
    ensures forall o ::
      var out := FanOut(t, c, members, ids, answers, now).1;
      o in out <==> exists k: nat :: k < |members| && Leaves(o, c, ids(k), members[k], answers(k))
  {
    if members != [] {
      var n := |members| - 1;
      FanOutSends(t, c, members[..n], ids, answers, now);
      forall o
        ensures o in FanOut(t, c, members, ids, answers, now).1
          <==> exists k: nat :: k < |members| && Leaves(o, c, ids(k), members[k], answers(k))
      {
        LastLeaves(t, c, members, ids, answers, now, o);
        if k: nat :| k < n && Leaves(o, c, ids(k), members[..n][k], answers(k)) {
          assert Leaves(o, c, ids(k), members[k], answers(k));
        }
        if k: nat :| k < |members| && Leaves(o, c, ids(k), members[k], answers(k)) {
          assert k < n ==> members[..n][k] == members[k];
        }
      }
    }
  }

  lemma LastLeaves(t: Tables, c: Chat, members: seq<string>, ids: nat -> string, answers: nat -> Answer, now: int,
      o: Output)
    requires members != []
    ensures
      var n := |members| - 1;
      var before, out := FanOut(t, c, members[..n], ids, answers, now).1, FanOut(t, c, members, ids, answers, now).1;
      o in out <==> o in before || Leaves(o, c, ids(n), members[n], answers(n))
  {
  }

  /** Copies of a group chat have ids of their own. */
  ghost predicate OwnIds(ids: nat -> string, n: nat) {
    forall i: nat, j: nat | i < j < n :: ids(i) != ids(j)
  }

  lemma {:induction false} FanOutOnce(t: Tables, c: Chat, members: seq<string>, ids: nat -> string,
      answers: nat -> Answer, now: int)
    requires OwnIds(ids, |members|)
    ensures
      var out := FanOut(t, c, members, ids, answers, now).1;
      forall i, j | 0 <= i < j < |out| :: out[i] != out[j]
  {
    if members != [] {
      var n := |members| - 1;
      FanOutOnce(t, c, members[..n], ids, answers, now);
      FanOutSends(t, c, members[..n], ids, answers, now);
      var before, out := FanOut(t, c, members[..n], ids, answers, now).1, FanOut(t, c, members, ids, answers, now).1;
      forall o | o in before
        ensures !Leaves(o, c, ids(n), members[n], answers(n))
      {
        var k: nat :| k < n && Leaves(o, c, ids(k), members[..n][k], answers(k));
        assert ids(k) != ids(n);
      }
      LastOut(t, c, members, ids, answers, now);
    }
  }

  lemma LastOut(t: Tables, c: Chat, members: seq<string>, ids: nat -> string, answers: nat -> Answer, now: int)
    requires members != []
    ensures
      var n := |members| - 1;
      var before, out := FanOut(t, c, members[..n], ids, answers, now).1, FanOut(t, c, members, ids, answers, now).1;
      && before <= out && |out| <= |before| + 1
      && (|out| > |before| ==> Leaves(out[|before|], c, ids(n), members[n], answers(n)))
  {
  }

  lemma GroupOut(t: Tables, c: Chat, w: World)
    requires c.mtype == "groupchat" && c.addr == "" && 0 < |c.body| <= 1408 && w.members.Got? && w.gchatInserted
    ensures
      var t1 := t.(gchats := t.gchats + [GroupRowOf(c, w.now)]);
      var sent := FanOut(t1, c, w.members.value, w.ids, w.answers, w.now).1;
      MessageStep(t, c, w).1 ==
        (if w.selected && forall r | r in t.gchats :: r.id != c.id then [SenderAck(c.id, w.now, c.from)] else []) + sent
  {
    var t1 := t.(gchats := t.gchats + [GroupRowOf(c, w.now)]);
    assert t1.gchats[..|t1.gchats| - 1] == t.gchats;
    GroupRowsWithIs(t.gchats, c.id);
    var before := GroupRowsWith(t.gchats, c.id);
    assert GroupRowsWith(t1.gchats, c.id) == before + [GroupRowOf(c, w.now)];
    var times := GroupTimes(GroupRowsWith(t1.gchats, c.id));
    assert |times| == |before| + 1 && times[|before|] == w.now;
    if before != [] {
      assert before[0] in before;
    }
    hide FanOut;
  }

  lemma {:induction false} GroupRowsWithIs(rows: seq<GroupRow>, id: string)
    ensures forall r :: r in GroupRowsWith(rows, id) <==> r in rows && r.id == id
  {
    if rows != [] {
      var n := |rows| - 1;
      GroupRowsWithIs(rows[..n], id);
      assert rows == rows[..n] + [rows[n]];
    }
  }

  ghost predicate ToRouterIff(out: seq<Output>, w: World)
    requires w.members.Got?
  {
    forall k: nat, addr: string | k < |w.members.value| ::
      ToRouter(w.ids(k), addr) in out <==> w.answers(k).inserted && w.answers(k).modules == Got([addr])
  }

  ghost predicate ToPushIff(out: seq<Output>, c: Chat, w: World)
    requires w.members.Got?
  {
    forall k: nat, p: Chat | k < |w.members.value| && p.id == w.ids(k) ::
      ToPush(p) in out <==>
        && w.answers(k).inserted && w.answers(k).modules == Got([])
        && p == Chat(w.ids(k), c.from, w.members.value[k], "", "groupchat", c.category, 0, c.body)
  }

  /** Copy by copy: its id goes to the router for the one module its member is online at, the chat goes to push for a
      member who is online nowhere, both exactly when its INSERT worked, and each once. Nothing else leaves for the
      group but an acknowledgement. */
  ghost predicate CopiesRouted(out: seq<Output>, c: Chat, w: World)
    requires w.members.Got?
  {
    var members := w.members.value;
    && ToRouterIff(out, w) && ToPushIff(out, c, w)
    && (forall o | o in out && o.ToRouter? :: exists k: nat :: k < |members| && o.id == w.ids(k))
    && (forall o | o in out && o.ToPush? :: exists k: nat :: k < |members| && o.chat.id == w.ids(k))
    && (forall i, j | 0 <= i < j < |out| :: out[i] != out[j])
  }

  /** What a group chat sends: what its copies send, and before that the acknowledgement to the sender, exactly when the
      id was new to the group table and could be read back. */
  lemma GroupIsRouted(t: Tables, c: Chat, w: World)
    requires c.mtype == "groupchat" && c.addr == "" && 0 < |c.body| <= 1408 && w.members.Got? && w.gchatInserted
    requires OwnIds(w.ids, |w.members.value|)
    ensures CopiesRouted(MessageStep(t, c, w).1, c, w)
    ensures
      var out := MessageStep(t, c, w).1;
      && (forall i | 0 <= i < |out| && out[i].SenderAck? :: i == 0 && out[0] == SenderAck(c.id, w.now, c.from))
      && ((out != [] && out[0].SenderAck?) <==> w.selected && forall r | r in t.gchats :: r.id != c.id)
  {
    GroupOut(t, c, w);
    var t1 := t.(gchats := t.gchats + [GroupRowOf(c, w.now)]);
    var sent := FanOut(t1, c, w.members.value, w.ids, w.answers, w.now).1;
    FanOutSends(t1, c, w.members.value, w.ids, w.answers, w.now);
    FanOutOnce(t1, c, w.members.value, w.ids, w.answers, w.now);
    hide FanOut, MessageStep;
    assert SentAre(sent, c, w);
    hide SentAre;
    RoutedAre(c, w, sent);
    NoAckLeaves(c, w, sent);
    hide CopiesRouted;
    if w.selected && forall r | r in t.gchats :: r.id != c.id {
      BehindAck(c, w, sent, SenderAck(c.id, w.now, c.from));
    } else {
      assert [] + sent == sent;
    }
  }

  ghost predicate SentAre(sent: seq<Output>, c: Chat, w: World)
    requires w.members.Got?
  {
    forall o ::
      (o in sent <==>
        exists k: nat :: k < |w.members.value| && Leaves(o, c, w.ids(k), w.members.value[k], w.answers(k)))
  }

  lemma BehindAck(c: Chat, w: World, sent: seq<Output>, ack: Output)
    requires w.members.Got? && CopiesRouted(sent, c, w) && ack.SenderAck? && forall o | o in sent :: !o.SenderAck?
    ensures CopiesRouted([ack] + sent, c, w)
  {
    var out := [ack] + sent;
    SameBehind(sent, ack);
    ToRouterBehind(w, sent, out);
    ToPushBehind(c, w, sent, out);
    hide ToRouterIff, ToPushIff;
    forall i, j | 0 <= i < j < |out|
      ensures out[i] != out[j]
    {
      assert out[j] == sent[j - 1] && sent[j - 1] in sent;
    }
  }

  lemma SameBehind(sent: seq<Output>, ack: Output)
    requires ack.SenderAck?
    ensures forall o: Output | !o.SenderAck? :: o in [ack] + sent <==> o in sent
  {
  }

  lemma ToRouterBehind(w: World, sent: seq<Output>, out: seq<Output>)
    requires w.members.Got? && ToRouterIff(sent, w) && forall o: Output | !o.SenderAck? :: o in out <==> o in sent
    ensures ToRouterIff(out, w)
  {
    forall k: nat, addr: string | k < |w.members.value|
      ensures ToRouter(w.ids(k), addr) in out <==> w.answers(k).inserted && w.answers(k).modules == Got([addr])
    {
      assert ToRouter(w.ids(k), addr) in out <==> ToRouter(w.ids(k), addr) in sent;
    }
  }

  lemma ToPushBehind(c: Chat, w: World, sent: seq<Output>, out: seq<Output>)
    requires w.members.Got? && ToPushIff(sent, c, w) && forall o: Output | !o.SenderAck? :: o in out <==> o in sent
    ensures ToPushIff(out, c, w)
  {
  }

  lemma NoAckLeaves(c: Chat, w: World, sent: seq<Output>)
    requires w.members.Got? && SentAre(sent, c, w)
    ensures forall o | o in sent :: !o.SenderAck?
  {
  }

  lemma RoutedAre(c: Chat, w: World, sent: seq<Output>)
    requires c.mtype == "groupchat" && w.members.Got? && OwnIds(w.ids, |w.members.value|) && SentAre(sent, c, w)
    requires forall i, j | 0 <= i < j < |sent| :: sent[i] != sent[j]
    ensures CopiesRouted(sent, c, w)
  {
    var members := w.members.value;
    forall k: nat, addr | k < |members|
      ensures ToRouter(w.ids(k), addr) in sent <==> w.answers(k).inserted && w.answers(k).modules == Got([addr])
    {
      var o := ToRouter(w.ids(k), addr);
      if o in sent {
        var i: nat :| i < |members| && Leaves(o, c, w.ids(i), members[i], w.answers(i));
        OneOwner(w.ids, |members|, i, k);
        assert w.answers(k).modules.value == [addr];
      }
      if w.answers(k).inserted && w.answers(k).modules == Got([addr]) {
        assert Leaves(o, c, w.ids(k), members[k], w.answers(k));
      }
    }
    forall k: nat, p: Chat | k < |members| && p.id == w.ids(k)
      ensures ToPush(p) in sent <==>
                && w.answers(k).inserted && w.answers(k).modules == Got([])
                && p == Chat(w.ids(k), c.from, members[k], "", "groupchat", c.category, 0, c.body)
    {
      var o := ToPush(p);
      if o in sent {
        var i: nat :| i < |members| && Leaves(o, c, w.ids(i), members[i], w.answers(i));
        OneOwner(w.ids, |members|, i, k);
      }
      if w.answers(k).inserted && w.answers(k).modules == Got([]) &&
         p == Chat(w.ids(k), c.from, members[k], "", "groupchat", c.category, 0, c.body) {
        assert Leaves(o, c, w.ids(k), members[k], w.answers(k));
      }
    }
  }

  lemma OneOwner(ids: nat -> string, n: nat, i: nat, k: nat)
    requires OwnIds(ids, n) && i < n && k < n && ids(i) == ids(k)
    ensures i == k
  {
  }

  // ---- what an acknowledgement leaves ----

  /** Nothing when its SELECT or its write fails. Otherwise the rows of the id are marked when messages are saved or
      shared or the module records them, and are gone when not; the other rows stay, those of one id in their order. */
  lemma AckedRows(t: Tables, id: string, selected: bool, keep: bool, record: bool, written: bool)
    ensures AckStep(t, id, selected, keep, record, written).gchats == t.gchats
    ensures !selected || !written ==> AckStep(t, id, selected, keep, record, written) == t
    ensures selected && written && (keep || record) ==>
      var rows := AckStep(t, id, selected, keep, record, written).chats;
      && |rows| == |t.chats|
      && forall i | 0 <= i < |rows| :: rows[i] == if t.chats[i].id == id then t.chats[i].(status := 1) else t.chats[i]
    ensures selected && written && !keep && !record ==>
      var rows := AckStep(t, id, selected, keep, record, written).chats;
      && (forall r :: multiset(rows)[r] == if r.id == id then 0 else multiset(t.chats)[r])
      && forall x | x != id :: RowsWith(rows, x) == RowsWith(t.chats, x)
  {
    WithoutIdCounts(t.chats, id);
    forall x | x != id
      ensures RowsWith(WithoutId(t.chats, id), x) == RowsWith(t.chats, x)
    {
      OthersOrdered(t.chats, id, x);
    }
    hide WithoutId, RowsWith;
  }

  lemma {:induction false} OthersOrdered(rows: seq<Row>, id: string, x: string)
    requires x != id
    ensures RowsWith(WithoutId(rows, id), x) == RowsWith(rows, x)
  {
    if rows != [] {
      var n := |rows| - 1;
      OthersOrdered(rows[..n], id, x);
      if rows[n].id != id {
        assert WithoutId(rows, id)[..|WithoutId(rows, id)| - 1] == WithoutId(rows[..n], id);
      } else {
        assert WithoutId(rows, id) == WithoutId(rows[..n], id);
      }
    }
  }

  lemma {:induction false} WithoutIdCounts(rows: seq<Row>, id: string)
    ensures forall r :: multiset(WithoutId(rows, id))[r] == if r.id == id then 0 else multiset(rows)[r]
  {
    if rows != [] {
      var n := |rows| - 1;
      WithoutIdCounts(rows[..n], id);
      assert rows == rows[..n] + [rows[n]];
    }
  }

  // ---- the one row of an id ----

  ghost predicate OnlyRow(rows: seq<Row>, id: string, i: int) {
    && 0 <= i < |rows| && rows[i].id == id
    && forall j | 0 <= j < |rows| && rows[j].id == id :: j == i
  }

  /** The row that is read again is the one that alone has the id. */
  lemma OneRowIs(rows: seq<Row>, id: string)
    ensures |RowsWith(rows, id)| == 1 <==> exists i :: OnlyRow(rows, id, i)
    ensures forall i | OnlyRow(rows, id, i) :: RowsWith(rows, id) == [rows[i]]
    ensures RowsWith(rows, id) == [] <==> forall i | 0 <= i < |rows| :: rows[i].id != id
  {
    NoRow(rows, id);
    if |RowsWith(rows, id)| == 1 {
      TheRow(rows, id);
    }
    forall i | OnlyRow(rows, id, i)
      ensures RowsWith(rows, id) == [rows[i]]
    {
      TheOnly(rows, id, i);
    }
  }

  lemma {:induction false} NoRow(rows: seq<Row>, id: string)
    ensures RowsWith(rows, id) == [] <==> forall i | 0 <= i < |rows| :: rows[i].id != id
  {
    if rows != [] {
      var n := |rows| - 1;
      NoRow(rows[..n], id);
      assert forall i | 0 <= i < n :: rows[..n][i] == rows[i];
    }
  }

  lemma {:induction false} TheRow(rows: seq<Row>, id: string)
    requires |RowsWith(rows, id)| == 1
    ensures exists i :: OnlyRow(rows, id, i)
  {
    var n := |rows| - 1;
    NoRow(rows[..n], id);
    if rows[n].id == id {
      assert RowsWith(rows[..n], id) == [];
      assert forall j | 0 <= j < n :: rows[..n][j] == rows[j];
      assert OnlyRow(rows, id, n);
    } else {
      TheRow(rows[..n], id);
      var i :| OnlyRow(rows[..n], id, i);
      assert forall j | 0 <= j < n :: rows[..n][j] == rows[j];
      assert OnlyRow(rows, id, i);
    }
  }

  lemma {:induction false} TheOnly(rows: seq<Row>, id: string, i: int)
    requires OnlyRow(rows, id, i)
    ensures RowsWith(rows, id) == [rows[i]]
  {
    var n := |rows| - 1;
    if i == n {
      NoRow(rows[..n], id);
    } else {
      assert OnlyRow(rows[..n], id, i);
      TheOnly(rows[..n], id, i);
    }
  }

  /** What the two views show, field by field. */
  lemma ViewsAre(r: Row)
    ensures Replayed(r) == Chat(r.id, r.fromuser, if r.togroup == "" then r.touser else r.togroup, "", r.mtype,
                                r.category, r.recvtime, r.body)
    ensures Delivered(r).(to := "") == Replayed(r).(to := "")
    ensures r.mtype != "customchat" ==> Delivered(r).to == Replayed(r).to
    ensures r.mtype == "customchat" ==> Delivered(r).to == if r.category == "system" then r.touser else r.togroup
  {
  }
}
