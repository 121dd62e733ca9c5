/** The presence module's handlers, as the source runs them under m_mutex, proved against the steps of
    module Presence. */
module PresenceModule {
  import opened Presence
  import opened Text
  import Message

  /** What the SELECT on the other modules returned: the module addresses with their protocols. */
  datatype QueryResult = Failed | Rows(rows: seq<(string, string)>)

  function CloseRequests(username: string, rows: seq<(string, string)>): seq<Response> {
    if rows == [] then []
    else
      var row := rows[|rows| - 1];
      CloseRequests(username, rows[..|rows| - 1]) + [CloseElsewhere(username, row.0, row.1)]
  }

  /** The kick-out a login sends: to the connection of the session that holds its name and resource. The object of
      the newcomer has been overwritten by then. */
  function KickoutOf(s: Registry, user: Account): seq<Response>
    requires user.addrinfo in s.addrmap
  {
    var heap := s.heap[s.addrmap[user.addrinfo] := user];
    var rs := Inner(s.usermap, user.username);
    if user.resource in rs && rs[user.resource] in heap
    then [Kickout(heap[rs[user.resource]].addrinfo, heap[rs[user.resource]].prototype)]
    else []
  }

  /** It goes to the session kicked out, under that session's protocol. */
  lemma KickoutToHolder(s: Registry, user: Account)
    requires Inv(s) && AtGate(s, user.addrinfo) && !Listed(s, s.addrmap[user.addrinfo])
    ensures Holder(s, user) == {} ==> KickoutOf(s, user) == []
    ensures forall q | q in Holder(s, user) ::
      q in s.heap && KickoutOf(s, user) == [Kickout(s.heap[q].addrinfo, s.heap[q].prototype)]
  {
    KickoutFindsHolder(s, user);
    HolderIs(s, user);
  }

  lemma RegisterFree(s: Registry, user: Account)
    requires user.addrinfo in s.addrmap && user.resource !in Inner(s.usermap, user.username)
    ensures
      var p := s.addrmap[user.addrinfo];
      && RegisterStep(s, user) ==
           s.(heap := s.heap[p := user],
              usermap := s.usermap[user.username := Inner(s.usermap, user.username)[user.resource := p]])
      && KickoutOf(s, user) == []
  {
  }

  lemma RegisterOver(s: Registry, user: Account)
    requires Inv(s) && AtGate(s, user.addrinfo) && user.resource in Inner(s.usermap, user.username)
    ensures
      var p, rs := s.addrmap[user.addrinfo], Inner(s.usermap, user.username);
      var q, h := rs[user.resource], s.heap[p := user];
      && q in h && h[q].addrinfo in s.addrmap
      && RegisterStep(s, user) ==
           s.(heap := h - {s.addrmap[h[q].addrinfo]}, addrmap := s.addrmap - {h[q].addrinfo},
              usermap := s.usermap[user.username := rs[user.resource := p]],
              loggedout := s.loggedout - {s.addrmap[h[q].addrinfo]})
      && KickoutOf(s, user) == [Kickout(h[q].addrinfo, h[q].prototype)]
  {
    KickoutFindsHolder(s, user);
  }

  /** What a login sends, place by place. Nothing when the connection is not at the gate. When the look-up of other
      modules fails, a disconnect. Otherwise a close request for each row of its answer, a kick-out when another session
      holds the name and resource, and one reply to the connection itself, which stays open exactly when its row was
      written. */
  ghost predicate Answered(out: seq<Response>, s: Registry, a: string, m: LoginMsg, others: QueryResult, ok: bool) {
    var atGate := a in s.addrmap && s.addrmap[a] in s.heap && s.heap[s.addrmap[a]].username == "";
    if !atGate then out == []
    else if others.Failed? then out == [Disconnect(a, m.prototype)]
    else
      var n, r := |others.rows|, "@" + m.domain + "/" + m.resource;
      && |out| == n + (if Has(s.usermap, m.from, r) then 2 else 1)
      && (forall i | 0 <= i < n :: out[i] == CloseElsewhere(m.from, others.rows[i].0, others.rows[i].1))
      && (Has(s.usermap, m.from, r) && s.usermap[m.from][r] != s.addrmap[a] && s.usermap[m.from][r] in s.heap ==>
            var q := s.heap[s.usermap[m.from][r]];
            out[n] == Kickout(q.addrinfo, q.prototype))
      && out[|out| - 1] == LoginReply(a, if ok then 0 else 1, !ok)
  }

  lemma {:induction false} RequestsAre(username: string, rows: seq<(string, string)>)
    ensures |CloseRequests(username, rows)| == |rows|
    ensures forall i | 0 <= i < |rows| ::
      CloseRequests(username, rows)[i] == CloseElsewhere(username, rows[i].0, rows[i].1)
  {
    if rows != [] {
      RequestsAre(username, rows[..|rows| - 1]);
    }
  }

  lemma LoginAnswers(s: Registry, a: string, m: LoginMsg, others: QueryResult, ok: bool)
    requires Inv(s)
    ensures Answered(LoginResponses(s, a, m, others, ok), s, a, m, others, ok)
  {
    if AtGate(s, a) && others.Rows? {
      RequestsAre(m.from, others.rows);
      KickoutFindsHolder(s, AccountOf(a, m));
      HolderIs(s, AccountOf(a, m));
      hide CloseRequests, Inv;
    }
  }

  // ---- the order of a std::map ----

  ghost predicate IsLeast(s: set<string>, k: string) {
    k in s && forall j | j in s && j != k :: Less(k, j)
  }

  lemma {:induction false} LeastExists(s: set<string>)
    requires s != {}
    ensures exists k :: IsLeast(s, k)
  {
    hide Less;
    var a :| a in s;
    if s == {a} {
      assert IsLeast(s, a);
    } else {
      LeastExists(s - {a});
      var k :| IsLeast(s - {a}, k);
      LessTotal(a, k);
      if Less(a, k) {
        forall j | j in s && j != a && j != k
          ensures Less(a, j)
        {
          LessThrough(a, k, j);
        }
        assert IsLeast(s, a);
      } else {
        assert IsLeast(s, k);
      }
    }
  }

  ghost function Least(s: set<string>): (k: string)
    requires s != {}
    ensures IsLeast(s, k)
  {
    LeastExists(s);
    var k :| IsLeast(s, k);
    k
  }

  lemma LeastIs(s: set<string>, k: string)
    requires IsLeast(s, k)
    ensures InOrder(s) == [k] + InOrder(s - {k})
  {
    hide Less;
    if Least(s) != k {
      LessOneWay(Least(s), k);
    }
  }

  /** The key a walk over the map comes to first. */
  method LeastOf(s: set<string>) returns (k: string)
    requires s != {}
    ensures k in s && InOrder(s) == [k] + InOrder(s - {k})
  {
    LeastExists(s);
    k :| k in s && forall j | j in s && j != k :: Less(k, j);
    LeastIs(s, k);
  }

  /** Keys in ascending order. */
  ghost function InOrder(s: set<string>): seq<string> {
    if s == {} then [] else [Least(s)] + InOrder(s - {Least(s)})
  }

  /** Strictly ascending, and each key once. */
  lemma {:induction false} InOrderIs(s: set<string>)
    ensures forall k :: k in InOrder(s) <==> k in s
    ensures |InOrder(s)| == |s| && forall i, j | 0 <= i < j < |s| :: Less(InOrder(s)[i], InOrder(s)[j])
  {
    hide Less;
    if s != {} {
      var k := Least(s);
      InOrderIs(s - {k});
      var rest := InOrder(s - {k});
      forall i, j | 0 <= i < j < |s|
        ensures Less(InOrder(s)[i], InOrder(s)[j])
      {
        assert rest[j - 1] in rest;
      }
    }
  }

  function AddressOf(s: Registry, rs: Resources, r: string): string {
    if r in rs && rs[r] in s.heap then s.heap[rs[r]].addrinfo else ""
  }

  function AddressesAt(s: Registry, rs: Resources, keys: seq<string>): (addrs: seq<string>)
    ensures |addrs| == |keys|
  {
    seq(|keys|, i requires 0 <= i < |keys| => AddressOf(s, rs, keys[i]))
  }

  lemma OneMoreAddress(s: Registry, rs: Resources, keys: seq<string>, r: string)
    ensures AddressesAt(s, rs, keys + [r]) == AddressesAt(s, rs, keys) + [AddressOf(s, rs, r)]
  {
    hide AddressOf;
  }

  /** Where each live session of a user can be reached, in the order of the resources. */
  ghost function AddressesInOrder(s: Registry, username: string): seq<string> {
    var rs := Inner(s.usermap, username);
    AddressesAt(s, rs, InOrder(rs.Keys))
  }

  /** That is every live session of the user once, and no other connection. */
  lemma AddressesAre(s: Registry, username: string)
    requires Inv(s)
    ensures forall a :: a in AddressesInOrder(s, username) <==> a in SessionsOf(s, username)
    ensures
      var addrs := AddressesInOrder(s, username);
      forall i, j | 0 <= i < j < |addrs| :: addrs[i] != addrs[j]
  {
    var rs := Inner(s.usermap, username);
    var keys := InOrder(rs.Keys);
    var addrs := AddressesInOrder(s, username);
    InOrderIs(rs.Keys);
    hide Less, InOrder;
    forall i | 0 <= i < |keys|
      ensures addrs[i] in SessionsOf(s, username) && Holds(s, username, keys[i], addrs[i])
    {
      assert keys[i] in keys;
      assert Has(s.usermap, username, keys[i]) && Session(s, rs[keys[i]]);
    }
    forall p | Session(s, p) && s.heap[p].username == username
      ensures s.heap[p].addrinfo in addrs
    {
      assert Has(s.usermap, username, s.heap[p].resource);
      var i :| 0 <= i < |keys| && keys[i] == s.heap[p].resource;
      assert addrs[i] == s.heap[p].addrinfo;
    }
    forall i, j | 0 <= i < j < |addrs|
      ensures addrs[i] != addrs[j]
    {
      assert Holds(s, username, keys[i], addrs[i]) && Holds(s, username, keys[j], addrs[j]);
      if keys[i] == keys[j] {
        LessOneWay(keys[i], keys[j]);
      }
    }
  }

  /** The session of this user and resource is at this address. */
  ghost predicate Holds(s: Registry, username: string, r: string, a: string) {
    a in s.addrmap && s.addrmap[a] in s.heap && s.heap[s.addrmap[a]].username == username
    && s.heap[s.addrmap[a]].resource == r
  }

  /** What a login answers: close requests to other modules, a kick-out to the holder's own connection
      when there is one, and the reply, which closes the connection when the row could not be written. */
  function LoginResponses(s: Registry, a: string, m: LoginMsg, others: QueryResult, ok: bool): seq<Response> {
    if !AtGate(s, a) then []
    else if others.Failed? then [Disconnect(a, m.prototype)]
    else
      CloseRequests(m.from, others.rows) + KickoutOf(s, AccountOf(a, m)) + [LoginReply(a, if ok then 0 else 1, !ok)]
  }

  /** One INSERT into im_online_history: whose session, the status it notes, and whether the row was written. */
  datatype History = History(user: Account, status: int, op: bool)

  function LoginHistory(s: Registry, a: string, m: LoginMsg, others: QueryResult, ok: bool): seq<History> {
    if AtGate(s, a) && others.Rows? && m.platform != "linux" then [History(AccountOf(a, m), 1, ok)] else []
  }

  /** The addresses of a user's live sessions. */
  ghost function SessionsOf(s: Registry, username: string): set<string> {
    set p | p in s.heap && Session(s, p) && s.heap[p].username == username :: s.heap[p].addrinfo
  }

  lemma CloseParts(s: Registry, a: string, ok: bool)
    requires Inv(s) && a in s.addrmap
    ensures
      var p := s.addrmap[a];
      var u, r := s.heap[p].username, s.heap[p].resource;
      && CloseStep(s, a, ok) ==
           Registry(s.heap - {p}, s.addrmap - {a}, RemoveResource(s.usermap, u, r),
                    if Has(s.usermap, u, r) && ok && u + r in s.online then s.online[u + r := 0] else s.online,
                    s.loggedout - {p})
      && (Has(s.usermap, u, r) ==> s.usermap[u][r] == p)
  {
  }

  class TPSModule {
    var heap: map<Ptr, Account>
    var addrmap: map<string, Ptr>
    var usermap: map<string, Resources>
    var online: map<string, int>
    ghost var loggedout: set<Ptr>
    var history: seq<History>

    ghost function State(): Registry
      reads this
    {
      Registry(heap, addrmap, usermap, online, loggedout)
    }

    ghost predicate Valid()
      reads this
    {
      Inv(State())
    }

    /** Start-up, on the status and moduleaddr of every row: those this module left online are set offline. The table
        then shows nobody online if and only if no other module's row was at 1. */
    constructor (rows: map<string, (int, string)>, moduleaddr: string)
      ensures Valid() && online.Keys == rows.Keys && heap == map[] && addrmap == map[] && usermap == map[]
      ensures history == []
      ensures forall j | j in rows :: online[j] == if rows[j].0 == 1 && rows[j].1 == moduleaddr then 0 else rows[j].0
      ensures Start(State()) <==> forall j | j in rows && rows[j].0 == 1 :: rows[j].1 == moduleaddr
    {
      heap, addrmap, usermap := map[], map[], map[];
      online := map j | j in rows :: if rows[j].0 == 1 && rows[j].1 == moduleaddr then 0 else rows[j].0;
      loggedout, history := {}, [];
    }

    /** SOCK_TYPE_CONNECT; p is what the allocator returns for a new User. */
    method Connect(a: string, p: Ptr) returns (out: seq<Response>)
      requires Valid() && p !in heap
      modifies this
      ensures Valid() && State() == ConnectStep(old(State()), a, p) && history == old(history)
      ensures a in old(addrmap) ==> State() == old(State())
      ensures a !in old(addrmap) ==>
        addrmap == old(addrmap)[a := p] && heap == old(heap)[p := Account("", a, "", "", "", "")]
      ensures usermap == old(usermap) && online == old(online) && loggedout == old(loggedout)
      ensures out == if a in old(addrmap) then [Disconnect(a, "XML"), Disconnect(a, "BINARY")] else []
    {
      ConnectKeeps(State(), a, p);
      if a !in addrmap {
        heap := heap[p := Account("", a, "", "", "", "")];
        addrmap := addrmap[a := p];
        out := [];
      } else {
        out := [Disconnect(a, "XML"), Disconnect(a, "BINARY")];
      }
    }

    /** SOCK_TYPE_CLOSE. The entry is erased without looking at the pointer it holds; that it is this
        connection's own is the invariant's doing. */
    method Close(a: string, ok: bool)
      requires Valid()
      modifies this
      ensures Valid() && State() == CloseStep(old(State()), a, ok) && history == old(history)
    {
      CloseKeeps(State(), a, ok);
      if a in addrmap {
        var p := addrmap[a];
        var username, resource := heap[p].username, heap[p].resource;
        CloseParts(State(), a, ok);
        hide Inv, CloseStep;
        if username in usermap {
          var resources := usermap[username];
          if resource in resources {
            assert resources[resource] == p;
            if ok && username + resource in online {
              online := online[username + resource := 0];
            }
            resources := resources - {resource};
          }
          assert resources == usermap[username] - {resource};
          usermap := if resources == map[] then usermap - {username} else usermap[username := resources];
        }
        heap, loggedout, addrmap := heap - {p}, loggedout - {p}, addrmap - {a};
      }
    }

    /** Copies the User of a connection that is still open. */
    method IsClose(a: string) returns (closed: bool, user: Account)
      requires Valid()
      ensures closed <==> a !in addrmap
      ensures !closed ==> addrmap[a] in heap && user == heap[addrmap[a]] && user.addrinfo == a
    {
      user := Account("", "", "", "", "", "");
      if a !in addrmap {
        closed := true;
      } else {
        user := heap[addrmap[a]];
        closed := false;
      }
    }

    /** A login message, from the gate to the reply. */
    method ProcessLogin(a: string, m: LoginMsg, others: QueryResult, ok: bool)
      returns (success: bool, out: seq<Response>)
      requires Valid()
      modifies this
      ensures State() == LoginStep(old(State()), a, m, others.Rows?, ok)
      ensures Valid() <==> !old(Relogin(State(), a, others.Rows?))
      ensures success <==> old(AtGate(State(), a)) && others.Rows? && ok
      ensures out == LoginResponses(old(State()), a, m, others, ok)
      ensures Answered(out, old(State()), a, m, others, ok)
      ensures history == old(history) + LoginHistory(old(State()), a, m, others, ok)
      ensures
        var r := "@" + m.domain + "/" + m.resource;
        history[|old(history)|..] ==
          if out == [] || others.Failed? || m.platform == "linux" then []
          else [History(Account(m.from + r, a, m.from, r, m.platform, m.prototype), 1, ok)]
    {
      success, out := false, [];
      LoginAnswers(State(), a, m, others, ok);
      hide Answered;
      var closed, user := IsClose(a);
      if closed || user.username != "" {
        return;
      }
      assert AtGate(State(), a);
      user := AccountOf(a, m);
      if others.Failed? {
        out := [Disconnect(a, user.prototype)];
        return;
      }
      LoginKeeps(State(), a, m, true, ok);
      out := TellOthers(user.username, others.rows);
      hide Inv, Listed, EntriesLive, RegisterStep, KickoutOf, CloseRequests;
      var kick := Register(user);
      out := out + kick;
      if ok {
        online := online[user.jid := 1];
      }
      out := out + [LoginReply(a, if ok then 0 else 1, !ok)];
      if "linux" != user.platform {
        history := history + [History(user, 1, ok)];
      }
      success := ok;
    }

    /** Its loop over the modules on which the user is online. */
    method TellOthers(username: string, rows: seq<(string, string)>) returns (out: seq<Response>)
      ensures out == CloseRequests(username, rows)
    {
      out := [];
      var index := 0;
      while index < |rows|
        invariant 0 <= index <= |rows|
        invariant out == CloseRequests(username, rows[..index])
      {
        assert rows[..index + 1][..index] == rows[..index];
        out := out + [CloseElsewhere(username, rows[index].0, rows[index].1)];
        index := index + 1;
      }
      assert rows[..index] == rows;
    }

    /** The second mutex section of a login. */
    method Register(user: Account) returns (out: seq<Response>)
      requires Valid() && AtGate(State(), user.addrinfo) && user.resource != ""
      modifies this
      ensures State() == RegisterStep(old(State()), user) && history == old(history)
      ensures Valid() <==> !old(Listed(State(), addrmap[user.addrinfo]))
      ensures out == KickoutOf(old(State()), user)
    {
      RegisterKeeps(State(), user);
      if user.resource in Inner(usermap, user.username) {
        RegisterOver(State(), user);
      } else {
        RegisterFree(State(), user);
      }
      hide Inv, Listed, EntriesLive, RegisterStep, KickoutOf, AtGate;
      out := [];
      var p := addrmap[user.addrinfo];
      heap := heap[p := user];
      if user.username !in usermap {
        usermap := usermap[user.username := map[user.resource := p]];
      } else {
        var resources := usermap[user.username];
        if user.resource in resources {
          var q := resources[user.resource];
          var kickoutaddrinfo := heap[q].addrinfo;
          out := [Kickout(kickoutaddrinfo, heap[q].prototype)];
          var gone := addrmap[kickoutaddrinfo];
          heap, loggedout, addrmap := heap - {gone}, loggedout - {gone}, addrmap - {kickoutaddrinfo};
        }
        usermap := usermap[user.username := resources[user.resource := p]];
      }
    }

    /** A logout message: the row goes to 2 and the connection is told to close. */
    method ProcessLogout(a: string, ok: bool) returns (out: seq<Response>)
      requires Valid()
      modifies this
      ensures Valid() && State() == LogoutStep(old(State()), a, ok)
      ensures heap == old(heap) && addrmap == old(addrmap) && usermap == old(usermap)
      ensures
        var written := ok && a in addrmap && heap[addrmap[a]].username != "";
        && online == (if written && heap[addrmap[a]].jid in online then old(online)[heap[addrmap[a]].jid := 2]
                      else old(online))
        && loggedout == if written then old(loggedout) + {addrmap[a]} else old(loggedout)
      ensures out ==
        if a in addrmap && LoggedIn(old(State()), addrmap[a]) then [LogoutReply(a, if ok then 0 else 1, ok)] else []
      ensures history == old(history) +
        if a in addrmap && LoggedIn(old(State()), addrmap[a]) then [History(heap[addrmap[a]], 2, ok)] else []
    {
      out := [];
      var closed, user := IsClose(a);
      if closed || user.username == "" {
        return;
      }
      LogoutKeeps(State(), a, ok);
      hide Inv;
      if ok {
        online, loggedout := UpdateRow(online, user.jid, 2), loggedout + {addrmap[a]};
      }
      out := [LogoutReply(a, if ok then 0 else 1, ok)];
      history := history + [History(user, 2, ok)];
    }

    /** The walk over a user's resources that every delivery makes: one entry per live session of that
        user, and no other connection, in the order of the resources. */
    method Sessions(username: string) returns (addrs: seq<string>)
      requires Valid()
      ensures addrs == AddressesInOrder(State(), username)
      ensures forall a :: a in addrs <==> a in SessionsOf(State(), username)
      ensures forall i, j | 0 <= i < j < |addrs| :: addrs[i] != addrs[j]
    {
      addrs := [];
      hide Inv, Less, InOrder, SessionsOf, AddressesAt, IsLeast;
      if username in usermap {
        var resources := usermap[username];
        var rest := resources.Keys;
        ghost var done: seq<string> := [];
        ghost var s := State();
        while rest != {}
          invariant rest <= resources.Keys && done + InOrder(rest) == InOrder(resources.Keys)
          invariant addrs == AddressesAt(s, resources, done)
        {
          var r := LeastOf(rest);
          EntryIs(s, username, r);
          OneMoreAddress(s, resources, done, r);
          var addrinfo := heap[resources[r]].addrinfo;
          rest := rest - {r};
          done := done + [r];
          addrs := addrs + [addrinfo];
        }
        NoKeys();
        assert done == InOrder(resources.Keys);
      } else {
        assert Inner(usermap, username).Keys == {};
        NoKeys();
      }
      AddressesAre(State(), username);
    }

    /** A chat that comes back from the router carries only its id: its row is read again and goes to every
        live session of the receiver, an "iq" row only, as raw bytes, to those that speak the protocol of the
        message. When the query fails the message is sent upstream once more. */
    method DeliverChat(read: bool, rows: seq<Message.Row>, id: string, prototype: string)
      returns (again: bool, out: seq<(string, Message.Chat)>, raw: seq<string>)
      requires Valid()
      ensures again <==> !read
      ensures
        var found := Message.RowsWith(rows, id);
        if !read || |found| != 1 then out == [] && raw == []
        else if found[0].mtype == "iq" then
          && out == []
          && (forall a :: a in raw <==> a in SpeakersOf(State(), found[0].touser, prototype))
          && forall i, j | 0 <= i < j < |raw| :: raw[i] != raw[j]
        else
          && raw == [] && DeliveredTo(out, SessionsOf(State(), found[0].touser), Message.Delivered(found[0]))
          && out == ToEach(AddressesInOrder(State(), found[0].touser), Message.Delivered(found[0]))
    {
      again, out, raw := !read, [], [];
      if read {
        var found := Message.RowsWith(rows, id);
        if |found| != 1 {
          return;
        }
        var r := found[0];
        if r.touser in usermap {
          var to := if r.mtype == "customchat" then (if r.category == "system" then r.touser else r.togroup)
                    else if |r.togroup| == 0 then r.touser else r.togroup;
          var chat := Message.Chat(r.id, r.fromuser, to, "", r.mtype, r.category, r.recvtime, r.body);
          var addrs := Sessions(r.touser);
          if r.mtype == "iq" {
            raw := Speakers(addrs, r.touser, prototype);
          } else {
            out := ToEach(addrs, chat);
            AddressesOnce(State(), addrs, r.touser, chat);
          }
        }
      }
    }

    /** Those of a user's sessions that speak this protocol. */
    method Speakers(addrs: seq<string>, username: string, prototype: string) returns (raw: seq<string>)
      requires Valid()
      requires forall a :: a in addrs <==> a in SessionsOf(State(), username)
      requires forall i, j | 0 <= i < j < |addrs| :: addrs[i] != addrs[j]
      ensures forall a :: a in raw <==> a in SpeakersOf(State(), username, prototype)
      ensures forall i, j | 0 <= i < j < |raw| :: raw[i] != raw[j]
    {
      raw := [];
      var index := 0;
      while index < |addrs|
        invariant 0 <= index <= |addrs|
        invariant forall a :: a in raw <==> a in addrs[..index] && a in SpeakersOf(State(), username, prototype)
        invariant forall i, j | 0 <= i < j < |raw| :: raw[i] != raw[j]
      {
        assert addrs[index] in addrs;
        SpeakerIff(State(), addrs[index], username, prototype);
        if heap[addrmap[addrs[index]]].prototype == prototype {
          raw := raw + [addrs[index]];
        }
        index := index + 1;
      }
      assert addrs[..index] == addrs;
    }

    /** An acknowledgement without a time comes from a receiver and goes upstream; one with a time is for the
        sender and goes to every session the sender has. */
    method ProcessAck(time: string, name: string) returns (upstream: bool, addrs: seq<string>)
      requires Valid()
      ensures upstream <==> time == ""
      ensures time == "" ==> addrs == []
      ensures time != "" ==>
        && addrs == AddressesInOrder(State(), name)
        && (forall a :: a in addrs <==> a in SessionsOf(State(), name))
        && forall i, j | 0 <= i < j < |addrs| :: addrs[i] != addrs[j]
    {
      upstream, addrs := |time| == 0, [];
      if |time| != 0 {
        if name in usermap {
          addrs := Sessions(name);
        }
      }
    }
  }

  ghost function SpeakersOf(s: Registry, username: string, prototype: string): set<string> {
    set p | p in s.heap && Session(s, p) && s.heap[p].username == username && s.heap[p].prototype == prototype ::
      s.heap[p].addrinfo
  }

  lemma SpeakerIff(s: Registry, a: string, username: string, prototype: string)
    requires Inv(s) && a in SessionsOf(s, username)
    ensures a in s.addrmap && s.addrmap[a] in s.heap
    ensures a in SpeakersOf(s, username, prototype) <==> s.heap[s.addrmap[a]].prototype == prototype
  {
  }

  /** Exactly one copy of the chat for each of these addresses. */
  ghost predicate DeliveredTo(out: seq<(string, Message.Chat)>, addrs: set<string>, chat: Message.Chat) {
    && (forall i | 0 <= i < |out| :: out[i].0 in addrs && out[i].1 == chat)
    && (forall a | a in addrs :: (a, chat) in out)
    && forall i, j | 0 <= i < j < |out| :: out[i].0 != out[j].0
  }

  function ToEach(addrs: seq<string>, chat: Message.Chat): seq<(string, Message.Chat)> {
    seq(|addrs|, i requires 0 <= i < |addrs| => (addrs[i], chat))
  }

  lemma AddressesOnce(s: Registry, addrs: seq<string>, username: string, chat: Message.Chat)
    requires forall a :: a in addrs <==> a in SessionsOf(s, username)
    requires forall i, j | 0 <= i < j < |addrs| :: addrs[i] != addrs[j]
    ensures DeliveredTo(ToEach(addrs, chat), SessionsOf(s, username), chat)
  {
    var out := ToEach(addrs, chat);
    forall a | a in SessionsOf(s, username)
      ensures (a, chat) in out
    {
      var i :| 0 <= i < |addrs| && addrs[i] == a;
      assert out[i] == (a, chat);
    }
    forall i | 0 <= i < |out|
      ensures out[i].0 in SessionsOf(s, username)
    {
      assert addrs[i] in addrs;
    }
  }

  lemma NoKeys()
    ensures InOrder({}) == []
  {
  }

  lemma EntryIs(s: Registry, username: string, r: string)
    requires Inv(s) && Has(s.usermap, username, r)
    ensures s.usermap[username][r] in s.heap
  {
  }
}
