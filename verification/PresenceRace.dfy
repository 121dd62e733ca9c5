/** Logins of different connections interleaved: the gate, the mutex section and the table write of a
    login are separate steps, and other connections' events may fall between them. */
module PresenceRace {
  import opened Presence

  /** How far the one message being handled for a connection has got, with its private User copy. */
  datatype Pending = Gated(user: Account) | Registered(user: Account) | LoggingOut(user: Account)

  datatype State = State(reg: Registry, pending: map<string, Pending>)

  datatype Move =
    | Open(addr: string, p: Ptr)
    | Shut(addr: string, ok: bool)
    | LoginGate(addr: string, msg: LoginMsg)
    | LoginRegister(addr: string)
    | LoginWrite(addr: string, ok: bool)
    | LogoutGate(addr: string)
    | LogoutWrite(addr: string, ok: bool)

  /** Messages of one connection are handled one at a time: none of its events starts while a message
      of it is pending. The allocator returns unused addresses. */
  ghost predicate Enabled(s: State, m: Move) {
    match m
    case Open(a, p) => a !in s.pending && p !in s.reg.heap
    case Shut(a, ok) => a !in s.pending
    case LoginGate(a, msg) => a !in s.pending && AtGate(s.reg, a)
    case LoginRegister(a) => a in s.pending && s.pending[a].Gated?
    case LoginWrite(a, ok) => a in s.pending && s.pending[a].Registered?
    case LogoutGate(a) => a !in s.pending && a in s.reg.addrmap && LoggedIn(s.reg, s.reg.addrmap[a])
    case LogoutWrite(a, ok) => a in s.pending && s.pending[a].LoggingOut?
  }

  /** The session a connection holds, while it is in the index. */
  function Own(r: Registry, a: string): set<Ptr> {
    if a in r.addrmap then {r.addrmap[a]} else {}
  }

  ghost function Next(s: State, m: Move): State
  {
    if !Enabled(s, m) then s else
    match m
    case Open(a, p) => s.(reg := ConnectStep(s.reg, a, p))
    case Shut(a, ok) => s.(reg := CloseStep(s.reg, a, ok))
    case LoginGate(a, msg) => s.(pending := s.pending[a := Gated(AccountOf(a, msg))])
    case LoginRegister(a) =>
      var user := s.pending[a].user;
      if a in s.reg.addrmap then State(RegisterStep(s.reg, user), s.pending[a := Registered(user)])
      else s.(pending := s.pending - {a})
    case LoginWrite(a, ok) =>
      State(if ok then s.reg.(online := s.reg.online[s.pending[a].user.jid := 1]) else s.reg, s.pending - {a})
    case LogoutGate(a) => s.(pending := s.pending[a := LoggingOut(s.reg.heap[s.reg.addrmap[a]])])
    case LogoutWrite(a, ok) =>
      State(if ok then s.reg.(online := UpdateRow(s.reg.online, s.pending[a].user.jid, 2),
                              loggedout := s.reg.loggedout + Own(s.reg, a)) else s.reg, s.pending - {a})
  }

  /** The separate steps of one message, with nothing in between, are the event that Presence handles in one go. */
  lemma UninterruptedIsOneEvent(s: State, a: string, m: LoginMsg, ok: bool, p: Ptr)
    requires a !in s.pending
    ensures p !in s.reg.heap ==> Next(s, Open(a, p)) == s.(reg := Step(s.reg, Connect(a, p)))
    ensures Next(s, Shut(a, ok)) == s.(reg := Step(s.reg, Close(a, ok)))
    ensures Next(Next(Next(s, LoginGate(a, m)), LoginRegister(a)), LoginWrite(a, ok))
         == s.(reg := Step(s.reg, Login(a, m, true, ok)))
    ensures Next(Next(s, LogoutGate(a)), LogoutWrite(a, ok)) == s.(reg := Step(s.reg, Logout(a, ok)))
  {
    UninterruptedLogout(s, a, ok);
    hide LoginStep, LogoutStep, RegisterStep, CloseStep, ConnectStep, AccountOf;
  }

  lemma UninterruptedLogout(s: State, a: string, ok: bool)
    requires a !in s.pending
    ensures Next(Next(s, LogoutGate(a)), LogoutWrite(a, ok)) == s.(reg := LogoutStep(s.reg, a, ok))
  {
    if a in s.reg.addrmap && LoggedIn(s.reg, s.reg.addrmap[a]) {
      var user := s.reg.heap[s.reg.addrmap[a]];
      assert s.pending[a := LoggingOut(user)] - {a} == s.pending;
    }
  }

  /** A login whose connection was closed behind its gate is dropped. */
  lemma LateRegisterDrops(s: State, a: string)
    requires a in s.pending && s.pending[a].Gated? && a !in s.reg.addrmap
    ensures Next(s, LoginRegister(a)) == s.(pending := s.pending - {a})
  {
  }

  /** A row is written under the jid that the gate saw, whatever has become of the session since. */
  lemma WritesWhatTheGateSaw(s: State, a: string, ok: bool)
    requires a in s.pending && !s.pending[a].Gated?
    ensures
      var j := s.pending[a].user.jid;
      var t := if s.pending[a].Registered? then Next(s, LoginWrite(a, ok)) else Next(s, LogoutWrite(a, ok));
      && t.pending == s.pending - {a} && t.reg.heap == s.reg.heap && t.reg.addrmap == s.reg.addrmap
      && t.reg.usermap == s.reg.usermap
      && t.reg.online ==
           if !ok then s.reg.online
           else if s.pending[a].Registered? then s.reg.online[j := 1]
           else if j in s.reg.online then s.reg.online[j := 2]
           else s.reg.online
  {
  }

  /** The indexes agree, a connection whose login passed the gate is still not logged in, and any other message
      being handled is that of the session its connection holds. */
  ghost predicate RaceInv(s: State) {
    && Inv(s.reg)
    && forall a | a in s.pending :: PendingRight(s.reg, a, s.pending[a])
  }

  ghost predicate PendingRight(r: Registry, a: string, d: Pending) {
    && d.user.addrinfo == a && d.user.resource != "" && (d.LoggingOut? ==> d.user.username != "")
    && (a in r.addrmap ==>
          && (d.Gated? ==> AtGate(r, a))
          && (!d.Gated? ==> r.addrmap[a] in r.heap && r.heap[r.addrmap[a]] == d.user)
          && (d.Registered? ==> r.addrmap[a] !in r.loggedout))
  }

  ghost predicate IsRun(states: seq<State>, moves: seq<Move>) {
    && |states| == |moves| + 1
    && forall i | 0 <= i < |moves| :: Enabled(states[i], moves[i]) && states[i + 1] == Next(states[i], moves[i])
  }

  lemma OpenKeeps(s: State, a: string, p: Ptr)
    requires RaceInv(s) && Enabled(s, Open(a, p))
    ensures RaceInv(Next(s, Open(a, p)))
  {
    ConnectKeeps(s.reg, a, p);
    forall b | b in s.pending
      ensures PendingRight(ConnectStep(s.reg, a, p), b, s.pending[b])
    {
    }
    hide Inv, PendingRight, ConnectStep;
  }

  lemma ShutKeeps(s: State, a: string, ok: bool)
    requires RaceInv(s) && Enabled(s, Shut(a, ok))
    ensures RaceInv(Next(s, Shut(a, ok)))
  {
    CloseKeeps(s.reg, a, ok);
    forall b | b in s.pending
      ensures PendingRight(CloseStep(s.reg, a, ok), b, s.pending[b])
    {
    }
    hide Inv, PendingRight, CloseStep;
  }

  /** A login registers on a connection whose object is listed already: an earlier login there had an empty name. */
  ghost predicate Relogs(s: State, m: Move) {
    m.LoginRegister? && Enabled(s, m) && m.addr in s.reg.addrmap && Listed(s.reg, s.reg.addrmap[m.addr])
  }

  ghost predicate Live(s: State) {
    EntriesLive(s.reg.heap, s.reg.usermap)
  }

  lemma RegisteringKeeps(s: State, a: string)
    requires RaceInv(s) && Enabled(s, LoginRegister(a))
    ensures RaceInv(Next(s, LoginRegister(a))) <==> !Relogs(s, LoginRegister(a))
    ensures Live(Next(s, LoginRegister(a))) <==> !Relogs(s, LoginRegister(a))
  {
    var user := s.pending[a].user;
    if a in s.reg.addrmap {
      RegisterKeeps(s.reg, user);
      if !Listed(s.reg, s.reg.addrmap[a]) {
        forall b | b in s.pending && b != a
          ensures PendingRight(RegisterStep(s.reg, user), b, s.pending[b])
        {
        }
      }
      hide Inv, PendingRight, RegisterStep, Listed, EntriesLive;
    }
  }

  lemma MoveKeeps(s: State, m: Move)
    requires RaceInv(s) && Enabled(s, m)
    ensures RaceInv(Next(s, m)) <==> !Relogs(s, m)
    ensures Live(Next(s, m)) <==> !Relogs(s, m)
  {
    match m {
      case Open(a, p) => OpenKeeps(s, a, p);
      case Shut(a, ok) => ShutKeeps(s, a, ok);
      case LoginRegister(a) => RegisteringKeeps(s, a);
      case _ =>
    }
  }

  ghost predicate AgreeUpTo(states: seq<State>, n: nat)
    requires n < |states|
  {
    forall k | 0 <= k <= n :: RaceInv(states[k])
  }

  ghost predicate LiveUpTo(states: seq<State>, n: nat)
    requires n < |states|
  {
    forall k | 0 <= k <= n :: Live(states[k])
  }

  ghost predicate NoneRelogsUpTo(states: seq<State>, moves: seq<Move>, n: nat)
    requires n <= |moves| < |states|
  {
    forall k | 0 <= k < n :: !Relogs(states[k], moves[k])
  }

  /** In every interleaving, with names of any kind, the indexes agree at every moment, and every entry at every
      moment leads to a live object of its name and resource, if and only if no login registers on a connection whose
      object is listed already. So every dereference and every erase stays safe even when logins of different
      connections overlap. */
  lemma {:induction false} IndexesAgreeUnderInterleaving(states: seq<State>, moves: seq<Move>, n: nat)
    requires IsRun(states, moves) && n <= |moves|
    requires Start(states[0].reg) && states[0].pending == map[]
    ensures AgreeUpTo(states, n) <==> NoneRelogsUpTo(states, moves, n)
    ensures LiveUpTo(states, n) <==> NoneRelogsUpTo(states, moves, n)
  {
    if n == 0 {
      EmptyAgrees(states[0].reg);
    } else {
      IndexesAgreeUnderInterleaving(states, moves, n - 1);
      if NoneRelogsUpTo(states, moves, n - 1) {
        var s := states[n - 1];
        assert RaceInv(s) && states[(n - 1) + 1] == Next(s, moves[n - 1]);
        MoveKeeps(s, moves[n - 1]);
      }
      hide RaceInv, Live, Relogs, Next, Enabled;
    }
  }

  // ---- what the table says while logins overlap ----

  ghost predicate Active(s: State, p: Ptr) {
    Session(s.reg, p) && p !in s.reg.loggedout
  }

  /** A live session that has not logged out, and whose login has written its row. */
  ghost predicate Settled(s: State, p: Ptr) {
    Active(s, p) && (s.reg.heap[p].addrinfo in s.pending ==> !s.pending[s.reg.heap[p].addrinfo].Registered?)
  }

  ghost function JidOf(s: State, p: Ptr): string {
    if p in s.reg.heap then s.reg.heap[p].jid else ""
  }

  predicate RowOne(online: map<string, int>, j: string) {
    j in online && online[j] == 1
  }

  ghost predicate Owned(s: State, j: string) {
    exists p :: Active(s, p) && JidOf(s, p) == j
  }

  /** The table tells the truth: a row says online only for a jid that an active session holds, and it does say so
      for every settled session. */
  ghost predicate Truth(s: State) {
    && (forall j | RowOne(s.reg.online, j) :: Owned(s, j))
    && forall p | Settled(s, p) :: RowOne(s.reg.online, JidOf(s, p))
  }

  /** No settled session outside `own` has this jid. */
  ghost predicate NoOtherSettled(s: State, j: string, own: set<Ptr>) {
    forall q | Settled(s, q) && q !in own :: JidOf(s, q) != j
  }

  ghost predicate OtherActive(s: State, j: string, own: set<Ptr>) {
    exists q :: Active(s, q) && q !in own && JidOf(s, q) == j
  }

  /** When a move leaves the truth alone. A row written late needs an active session that holds its jid; a logout or
      a close that writes its row needs that no other settled session holds it; and a write that fails must have
      had nothing to say. */
  ghost predicate Harmless(s: State, m: Move) {
    match m
    case Shut(a, ok) =>
      a in s.reg.addrmap && Session(s.reg, s.reg.addrmap[a]) ==>
        var j := JidOf(s, s.reg.addrmap[a]);
        if ok then NoOtherSettled(s, j, Own(s.reg, a)) else RowOne(s.reg.online, j) ==> OtherActive(s, j, Own(s.reg, a))
    case LoginWrite(a, ok) =>
      a in s.pending ==>
        var j := s.pending[a].user.jid;
        if ok then Owned(s, j) else a in s.reg.addrmap ==> RowOne(s.reg.online, j)
    case LogoutWrite(a, ok) => a in s.pending && ok ==> NoOtherSettled(s, s.pending[a].user.jid, Own(s.reg, a))
    case _ => true
  }

  ghost predicate FormInv(s: State) {
    && JidForm(s.reg)
    && forall a | a in s.pending ::
         s.pending[a].user.jid == s.pending[a].user.username + s.pending[a].user.resource
  }

  lemma FormKeeps(s: State, m: Move)
    requires RaceInv(s) && FormInv(s) && Enabled(s, m) && !Relogs(s, m)
    ensures FormInv(Next(s, m))
  {
    match m {
      case LoginRegister(a) =>
        if a in s.reg.addrmap {
          RegisterIs(s.reg, s.pending[a].user);
          hide Inv, RegisterStep, PendingRight;
        }
      case _ =>
    }
  }

  // ---- rows ----

  /** Sessions `own`, all of one jid, are no longer active, and nothing else happened to sessions. */
  ghost predicate Left(s: State, t: State, j: string, own: set<Ptr>) {
    && (forall q :: Active(t, q) <==> Active(s, q) && q !in own)
    && (forall q :: Settled(t, q) <==> Settled(s, q) && q !in own)
    && (forall q | Active(t, q) :: JidOf(t, q) == JidOf(s, q))
    && (forall q | q in own && Active(s, q) :: JidOf(s, q) == j)
  }

  /** Their row stops saying online. */
  lemma ClearsRow(s: State, t: State, j: string, own: set<Ptr>)
    requires Truth(s) && Left(s, t, j, own) && !RowOne(t.reg.online, j)
    requires forall i | i != j :: RowOne(t.reg.online, i) <==> RowOne(s.reg.online, i)
    ensures Truth(t) <==> NoOtherSettled(s, j, own)
  {
    forall i | RowOne(t.reg.online, i)
      ensures Owned(t, i)
    {
    }
    forall q | Settled(t, q)
      ensures Settled(s, q) && q !in own && JidOf(t, q) == JidOf(s, q)
    {
    }
    hide Active, Settled, JidOf, Owned;
    if Truth(t) {
      forall q | Settled(s, q) && q !in own
        ensures JidOf(s, q) != j
      {
        assert Settled(t, q);
      }
    }
  }

  /** Their row stays as it was. */
  lemma LeavesRow(s: State, t: State, j: string, own: set<Ptr>)
    requires Truth(s) && Left(s, t, j, own) && t.reg.online == s.reg.online
    ensures Truth(t) <==> (RowOne(s.reg.online, j) ==> OtherActive(s, j, own))
  {
    forall i | RowOne(t.reg.online, i) && i != j
      ensures Owned(t, i)
    {
    }
    forall q | Settled(t, q)
      ensures RowOne(t.reg.online, JidOf(t, q))
    {
      assert Settled(s, q);
    }
    assert Owned(t, j) <==> OtherActive(s, j, own) by {
      hide Active, Settled, JidOf;
      if Owned(t, j) {
        var q :| Active(t, q) && JidOf(t, q) == j;
        assert Active(s, q) && q !in own;
      }
      if OtherActive(s, j, own) {
        var q :| Active(s, q) && q !in own && JidOf(s, q) == j;
        assert Active(t, q) && JidOf(t, q) == j;
      }
    }
    hide Active, Settled, JidOf, Owned, OtherActive, Left;
  }

  /** Nothing happened to sessions, except that those in `own`, all active and of one jid, are settled now. */
  ghost predicate Landed(s: State, t: State, j: string, own: set<Ptr>) {
    && (forall q :: Active(t, q) <==> Active(s, q))
    && (forall q :: Settled(t, q) <==> Settled(s, q) || q in own)
    && (forall q :: JidOf(t, q) == JidOf(s, q))
    && (forall q | q in own :: Active(s, q) && JidOf(s, q) == j)
  }

  /** Their row is set to online. */
  lemma SetsRow(s: State, t: State, j: string, own: set<Ptr>)
    requires Truth(s) && Landed(s, t, j, own) && t.reg.online == s.reg.online[j := 1]
    ensures Truth(t) <==> Owned(s, j)
  {
    forall i
      ensures Owned(t, i) <==> Owned(s, i)
    {
    }
    hide Active, Settled, JidOf, Owned;
    assert RowOne(t.reg.online, j);
  }

  /** Their row could not be written. */
  lemma MissesRow(s: State, t: State, j: string, own: set<Ptr>, p: Ptr)
    requires Truth(s) && Landed(s, t, j, own) && t.reg.online == s.reg.online && p in own
    ensures Truth(t) <==> RowOne(s.reg.online, j)
  {
    forall i
      ensures Owned(t, i) <==> Owned(s, i)
    {
    }
    hide Active, Settled, JidOf, Owned;
    assert Settled(t, p) && JidOf(t, p) == j;
  }

  lemma NothingHappened(s: State, t: State, j: string)
    requires Truth(s) && Landed(s, t, j, {}) && t.reg.online == s.reg.online
    ensures Truth(t)
  {
    forall i
      ensures Owned(t, i) <==> Owned(s, i)
    {
    }
    hide Active, Settled, JidOf, Owned;
  }

  // ---- each move, exactly ----

  lemma PendingQuiet(s: State, t: State)
    requires t.reg == s.reg
    requires forall b :: b in t.pending && t.pending[b].Registered? <==> b in s.pending && s.pending[b].Registered?
    ensures Landed(s, t, "", {})
  {
  }

  lemma OpenQuiet(s: State, t: State, a: string, p: Ptr)
    requires p !in s.reg.heap && t.reg.heap == s.reg.heap[p := Account("", a, "", "", "", "")]
    requires t.pending == s.pending && t.reg.loggedout == s.reg.loggedout
    ensures forall q | q != p :: JidOf(t, q) == JidOf(s, q)
    ensures JidOf(t, p) == "" == JidOf(s, p) && Landed(s, t, "", {})
  {
  }

  lemma QuietTruth(s: State, m: Move)
    requires RaceInv(s) && Truth(s) && Enabled(s, m)
    requires m.Open? || m.LoginGate? || m.LogoutGate? || (m.LoginRegister? && m.addr !in s.reg.addrmap)
    ensures Truth(Next(s, m))
  {
    var t := Next(s, m);
    hide Truth, RaceInv, Landed;
    if m.Open? && m.addr !in s.reg.addrmap {
      OpenQuiet(s, t, m.addr, m.p);
    } else {
      PendingQuiet(s, t);
    }
    assert t.reg.online == s.reg.online;
    hide Next, Enabled;
    NothingHappened(s, t, "");
  }

  /** A newcomer takes the place of sessions of its jid; its own row comes later. */
  ghost predicate TookOver(s: State, t: State, j: string, gone: set<Ptr>, p: Ptr) {
    && (forall q :: Active(t, q) <==> q == p || (Active(s, q) && q !in gone))
    && (forall q :: Settled(t, q) <==> Settled(s, q) && q !in gone)
    && (forall q | Active(t, q) && q != p :: JidOf(t, q) == JidOf(s, q))
    && JidOf(t, p) == j && !Active(s, p)
    && (forall q | q in gone && Active(s, q) :: JidOf(s, q) == j)
  }

  lemma TakesOver(s: State, t: State, j: string, gone: set<Ptr>, p: Ptr)
    requires Truth(s) && TookOver(s, t, j, gone, p) && t.reg.online == s.reg.online
    ensures Truth(t)
  {
    forall i | RowOne(t.reg.online, i)
      ensures Owned(t, i)
    {
      hide Active, Settled, JidOf;
      var q :| Active(s, q) && JidOf(s, q) == i;
      if q in gone {
        assert Active(t, p) && JidOf(t, p) == i;
      } else {
        assert Active(t, q) && JidOf(t, q) == i;
      }
    }
    forall q | Settled(t, q)
      ensures RowOne(t.reg.online, JidOf(t, q))
    {
      hide Active, Settled, JidOf, Owned;
    }
  }

  lemma TookOverBy(s: State, t: State, a: string, user: Account, p: Ptr, gone: set<Ptr>)
    requires t.reg.heap == s.reg.heap[p := user] - gone && t.reg.loggedout == s.reg.loggedout - gone
    requires t.pending == s.pending[a := Registered(user)] && user.resource != "" && user.addrinfo == a
    requires p in s.reg.heap && s.reg.heap[p].resource == "" && p !in gone && p !in s.reg.loggedout
    requires forall q | q in s.reg.heap && q != p :: s.reg.heap[q].addrinfo != a
    requires forall q | q in gone :: q in s.reg.heap && s.reg.heap[q].jid == user.jid
    ensures TookOver(s, t, user.jid, gone, p)
  {
  }

  lemma RegisterFields(s: State, a: string)
    requires RaceInv(s) && FormInv(s) && Enabled(s, LoginRegister(a)) && a in s.reg.addrmap
    requires !Relogs(s, LoginRegister(a))
    ensures
      var user, p, t := s.pending[a].user, s.reg.addrmap[a], Next(s, LoginRegister(a));
      var gone := Holder(s.reg, user);
      && t.reg.heap == s.reg.heap[p := user] - gone && t.reg.loggedout == s.reg.loggedout - gone
      && t.pending == s.pending[a := Registered(user)] && user.resource != "" && user.addrinfo == a
      && p in s.reg.heap && s.reg.heap[p].resource == "" && p !in gone && p !in s.reg.loggedout
      && (forall q | q in gone :: q in s.reg.heap && s.reg.heap[q].jid == user.jid)
      && t.reg.online == s.reg.online
  {
    var user := s.pending[a].user;
    RegisterIs(s.reg, user);
    HolderIs(s.reg, user);
    KickoutFindsHolder(s.reg, user);
    ListedIff(s.reg, s.reg.addrmap[a]);
    hide RegisterStep;
  }

  lemma OwnAddress(s: State, a: string)
    requires RaceInv(s)
    ensures forall q | q in s.reg.heap && q !in Own(s.reg, a) :: s.reg.heap[q].addrinfo != a
  {
  }

  lemma RegisterTookOver(s: State, a: string)
    requires RaceInv(s) && FormInv(s) && Enabled(s, LoginRegister(a)) && a in s.reg.addrmap
    requires !Relogs(s, LoginRegister(a))
    ensures
      var user, t := s.pending[a].user, Next(s, LoginRegister(a));
      TookOver(s, t, user.jid, Holder(s.reg, user), s.reg.addrmap[a]) && t.reg.online == s.reg.online
  {
    RegisterFields(s, a);
    OwnAddress(s, a);
    hide Next, RaceInv, FormInv, Holder, TookOver;
    TookOverBy(s, Next(s, LoginRegister(a)), a, s.pending[a].user, s.reg.addrmap[a], Holder(s.reg, s.pending[a].user));
  }

  lemma RegisterTruth(s: State, a: string)
    requires RaceInv(s) && FormInv(s) && Truth(s) && Enabled(s, LoginRegister(a)) && !Relogs(s, LoginRegister(a))
    ensures Truth(Next(s, LoginRegister(a)))
  {
    if a in s.reg.addrmap {
      RegisterTookOver(s, a);
      hide Next, RaceInv, FormInv, Truth, Holder, TookOver;
      TakesOver(s, Next(s, LoginRegister(a)), s.pending[a].user.jid, Holder(s.reg, s.pending[a].user),
          s.reg.addrmap[a]);
    } else {
      QuietTruth(s, LoginRegister(a));
    }
  }

  lemma ShutIs(s: State, a: string, ok: bool)
    requires RaceInv(s) && FormInv(s) && Enabled(s, Shut(a, ok))
    ensures
      var t := Next(s, Shut(a, ok));
      && t.pending == s.pending
      && t.reg.heap == s.reg.heap - Own(s.reg, a) && t.reg.loggedout == s.reg.loggedout - Own(s.reg, a)
      && t.reg.online == if ok && a in s.reg.addrmap && Session(s.reg, s.reg.addrmap[a])
                         then UpdateRow(s.reg.online, JidOf(s, s.reg.addrmap[a]), 0) else s.reg.online
  {
    if a in s.reg.addrmap {
      var p := s.reg.addrmap[a];
      var u, r := s.reg.heap[p].username, s.reg.heap[p].resource;
      if r != "" {
        assert Has(s.reg.usermap, u, r);
      } else {
        assert !Has(s.reg.usermap, u, r);
      }
    }
  }

  lemma ClosedBy(s: State, t: State, j: string, own: set<Ptr>)
    requires t.pending == s.pending && t.reg.heap == s.reg.heap - own && t.reg.loggedout == s.reg.loggedout - own
    requires forall q | q in own && Session(s.reg, q) :: JidOf(s, q) == j
    ensures Left(s, t, j, own)
  {
  }

  lemma ShutLeft(s: State, a: string, ok: bool, j: string)
    requires RaceInv(s) && FormInv(s) && Enabled(s, Shut(a, ok))
    requires a in s.reg.addrmap && Session(s.reg, s.reg.addrmap[a]) ==> j == JidOf(s, s.reg.addrmap[a])
    ensures Left(s, Next(s, Shut(a, ok)), j, Own(s.reg, a))
  {
    ShutIs(s, a, ok);
    hide Next, RaceInv, FormInv, Left;
    ClosedBy(s, Next(s, Shut(a, ok)), j, Own(s.reg, a));
  }

  lemma ShutTruth(s: State, a: string, ok: bool)
    requires RaceInv(s) && FormInv(s) && Truth(s) && Enabled(s, Shut(a, ok))
    ensures Truth(Next(s, Shut(a, ok))) <==> Harmless(s, Shut(a, ok))
  {
    var t, own := Next(s, Shut(a, ok)), Own(s.reg, a);
    ShutIs(s, a, ok);
    hide Next, RaceInv, FormInv, Truth, Left, JidOf;
    if a in s.reg.addrmap && Session(s.reg, s.reg.addrmap[a]) {
      var j := JidOf(s, s.reg.addrmap[a]);
      ShutLeft(s, a, ok, j);
      if ok {
        ClearsRow(s, t, j, own);
      } else {
        LeavesRow(s, t, j, own);
      }
    } else {
      ShutLeft(s, a, ok, "");
      LeavesRow(s, t, "", own);
    }
  }

  lemma LandedBy(s: State, t: State, a: string, user: Account, own: set<Ptr>)
    requires t.reg.heap == s.reg.heap && t.reg.loggedout == s.reg.loggedout && t.pending == s.pending - {a}
    requires user.addrinfo == a && user.resource != ""
    requires forall q | q in s.reg.heap && q !in own :: s.reg.heap[q].addrinfo != a
    requires forall q | q in own :: q in s.reg.heap && s.reg.heap[q] == user && q !in s.reg.loggedout
    ensures Landed(s, t, user.jid, own)
  {
  }

  lemma OwnIs(s: State, a: string)
    requires RaceInv(s) && a in s.pending && !s.pending[a].Gated?
    ensures forall q | q in Own(s.reg, a) :: q in s.reg.heap && s.reg.heap[q] == s.pending[a].user
    ensures s.pending[a].Registered? ==> forall q | q in Own(s.reg, a) :: q !in s.reg.loggedout
    ensures s.pending[a].user.addrinfo == a && s.pending[a].user.resource != ""
  {
  }

  lemma LoginWriteLanded(s: State, a: string, ok: bool)
    requires RaceInv(s) && Enabled(s, LoginWrite(a, ok))
    ensures
      var t, j := Next(s, LoginWrite(a, ok)), s.pending[a].user.jid;
      Landed(s, t, j, Own(s.reg, a)) && t.reg.online == if ok then s.reg.online[j := 1] else s.reg.online
  {
    OwnIs(s, a);
    OwnAddress(s, a);
    hide RaceInv, Own, Landed;
    LandedBy(s, Next(s, LoginWrite(a, ok)), a, s.pending[a].user, Own(s.reg, a));
  }

  lemma LoginWriteTruth(s: State, a: string, ok: bool)
    requires RaceInv(s) && Truth(s) && Enabled(s, LoginWrite(a, ok))
    ensures Truth(Next(s, LoginWrite(a, ok))) <==> Harmless(s, LoginWrite(a, ok))
  {
    LoginWriteLanded(s, a, ok);
    var t, j := Next(s, LoginWrite(a, ok)), s.pending[a].user.jid;
    hide Next, RaceInv, Truth, Landed;
    if ok {
      SetsRow(s, t, j, Own(s.reg, a));
    } else if a in s.reg.addrmap {
      MissesRow(s, t, j, Own(s.reg, a), s.reg.addrmap[a]);
    } else {
      NothingHappened(s, t, j);
    }
  }

  lemma LeftBy(s: State, t: State, a: string, user: Account, own: set<Ptr>)
    requires t.reg.heap == s.reg.heap && t.reg.loggedout == s.reg.loggedout + own && t.pending == s.pending - {a}
    requires a in s.pending && s.pending[a].LoggingOut?
    requires forall q | q in own :: q in s.reg.heap && s.reg.heap[q] == user
    ensures Left(s, t, user.jid, own)
  {
  }

  lemma LogoutWriteLeft(s: State, a: string, ok: bool)
    requires RaceInv(s) && Enabled(s, LogoutWrite(a, ok))
    ensures
      var t, j := Next(s, LogoutWrite(a, ok)), s.pending[a].user.jid;
      && Left(s, t, j, if ok then Own(s.reg, a) else {})
      && t.reg.online == if ok then UpdateRow(s.reg.online, j, 2) else s.reg.online
  {
    OwnIs(s, a);
    var t, own := Next(s, LogoutWrite(a, ok)), if ok then Own(s.reg, a) else {};
    hide RaceInv, Own, Left;
    assert t.reg.loggedout == s.reg.loggedout + own;
    LeftBy(s, t, a, s.pending[a].user, own);
  }

  lemma LogoutWriteTruth(s: State, a: string, ok: bool)
    requires RaceInv(s) && Truth(s) && Enabled(s, LogoutWrite(a, ok))
    ensures Truth(Next(s, LogoutWrite(a, ok))) <==> Harmless(s, LogoutWrite(a, ok))
  {
    LogoutWriteLeft(s, a, ok);
    var t, j := Next(s, LogoutWrite(a, ok)), s.pending[a].user.jid;
    hide Next, RaceInv, Left;
    if ok {
      hide Truth;
      ClearsRow(s, t, j, Own(s.reg, a));
    } else {
      LeavesRow(s, t, j, {});
      if RowOne(s.reg.online, j) {
        var q :| Active(s, q) && JidOf(s, q) == j;
        assert OtherActive(s, j, {});
      }
    }
  }

  /** Move by move: when the indexes go on agreeing, the table goes on telling the truth if and only if the move is
      harmless. */
  lemma MoveTruthIff(s: State, m: Move)
    requires RaceInv(s) && FormInv(s) && Truth(s) && Enabled(s, m) && !Relogs(s, m)
    ensures Truth(Next(s, m)) <==> Harmless(s, m)
  {
    hide Truth, RaceInv, FormInv, Next;
    match m {
      case Open(a, p) => QuietTruth(s, m);
      case Shut(a, ok) => ShutTruth(s, a, ok);
      case LoginRegister(a) => RegisterTruth(s, a);
      case LoginWrite(a, ok) => LoginWriteTruth(s, a, ok);
      case LogoutWrite(a, ok) => LogoutWriteTruth(s, a, ok);
      case LoginGate(_, _) => QuietTruth(s, m);
      case LogoutGate(_) => QuietTruth(s, m);
    }
  }

  ghost predicate RightUpTo(states: seq<State>, n: nat)
    requires n < |states|
  {
    forall k | 0 <= k <= n :: RaceInv(states[k]) && Truth(states[k])
  }

  ghost predicate HarmlessUpTo(states: seq<State>, moves: seq<Move>, n: nat)
    requires n <= |moves| < |states|
  {
    forall k | 0 <= k < n :: !Relogs(states[k], moves[k]) && Harmless(states[k], moves[k])
  }

  lemma {:induction false} RunForm(states: seq<State>, moves: seq<Move>, i: nat)
    requires IsRun(states, moves) && i <= |moves| && AgreeUpTo(states, i)
    requires Start(states[0].reg) && states[0].pending == map[]
    ensures FormInv(states[i])
  {
    if i > 0 {
      RunForm(states, moves, i - 1);
      IndexesAgreeUnderInterleaving(states, moves, i);
      assert RaceInv(states[i - 1]) && !Relogs(states[i - 1], moves[i - 1]);
      FormKeeps(states[i - 1], moves[i - 1]);
    }
  }

  lemma NothingYet(s: State)
    requires Start(s.reg) && s.pending == map[]
    ensures Truth(s) && RaceInv(s)
  {
    EmptyAgrees(s.reg);
  }

  /** For every interleaving, whatever the names and whichever writes fail: the indexes agree and the table tells the
      truth at every moment if and only if no login registers on a connection that is listed already and every write
      is harmless when it lands. */
  lemma {:induction false} TruthIff(states: seq<State>, moves: seq<Move>, n: nat)
    requires IsRun(states, moves) && n <= |moves|
    requires Start(states[0].reg) && states[0].pending == map[]
    ensures RightUpTo(states, n) <==> HarmlessUpTo(states, moves, n)
  {
    hide Harmless, Truth, Enabled, Next, RaceInv, FormInv, Relogs, Live;
    if n == 0 {
      NothingYet(states[0]);
    } else {
      TruthIff(states, moves, n - 1);
      if RightUpTo(states, n - 1) {
        RunForm(states, moves, n - 1);
        var s, m := states[n - 1], moves[n - 1];
        assert Truth(s) && RaceInv(s) && Enabled(s, m) && states[(n - 1) + 1] == Next(s, m);
        MoveKeeps(s, m);
        if !Relogs(s, m) {
          MoveTruthIff(s, m);
        }
      }
    }
  }

  // bob logs in on x and on y; y's login kicks x out before x wrote its row.
  const BOB := LoginMsg("bob", "d", "r", "p", "XML")

  ghost function BothOpen(): State {
    Next(Next(State(NOBODY, map[]), Open("x", 1)), Open("y", 2))
  }

  ghost function XRegistered(): State {
    Next(Next(BothOpen(), LoginGate("x", BOB)), LoginRegister("x"))
  }

  ghost function YOnline(): State {
    Next(Next(Next(XRegistered(), LoginGate("y", BOB)), LoginRegister("y")), LoginWrite("y", true))
  }

  lemma Accounts()
    ensures AccountOf("x", BOB) == Account("bob@d/r", "x", "bob", "@d/r", "p", "XML")
    ensures AccountOf("y", BOB) == Account("bob@d/r", "y", "bob", "@d/r", "p", "XML")
  {
    assert "@" + "d" + "/" + "r" == "@d/r";
  }

  lemma XRegisteredIs()
    ensures XRegistered().reg == Registry(map[1 := AccountOf("x", BOB), 2 := Account("", "y", "", "", "", "")],
      map["x" := 1, "y" := 2], map["bob" := map["@d/r" := 1]], map[], {})
    ensures XRegistered().pending == map["x" := Registered(AccountOf("x", BOB))]
  {
    Accounts();
    var s := BothOpen();
    assert s.reg.addrmap == map["x" := 1, "y" := 2] && s.pending == map[];
    var t := Next(s, LoginGate("x", BOB));
    assert t.pending == map["x" := Gated(AccountOf("x", BOB))];
  }

  lemma YOnlineIs()
    ensures YOnline().reg == Registry(map[2 := AccountOf("y", BOB)],
      map["y" := 2], map["bob" := map["@d/r" := 2]], map["bob@d/r" := 1], {})
    ensures YOnline().pending == XRegistered().pending
  {
    XRegisteredIs();
    Accounts();
    hide XRegistered;
    var s := XRegistered();
    var t := Next(s, LoginGate("y", BOB));
    assert t.pending["y"] == Gated(AccountOf("y", BOB));
    var u := Next(t, LoginRegister("y"));
    assert u.reg.heap == map[2 := AccountOf("y", BOB)] && u.reg.addrmap == map["y" := 2];
    assert u.reg.usermap["bob"] == map["@d/r" := 2];
    assert u.reg.usermap == map["bob" := map["@d/r" := 2]];
    assert u.pending["y"] == Registered(AccountOf("y", BOB));
  }

  /** The table does not survive the interleaving: a row written late, after its session was kicked out
      and the kicker closed, says "online" for a jid nobody holds. The mirror needs whole events. */
  lemma LateWriteBreaksMirror()
    ensures
      var s := Next(Next(YOnline(), Shut("y", true)), LoginWrite("x", true));
      s.reg.heap == map[] && s.reg.online == map["bob@d/r" := 1] && !Truth(s)
  {
    XRegisteredIs();
    YOnlineIs();
    Accounts();
    hide XRegistered, YOnline;
    var c := Next(YOnline(), Shut("y", true));
    assert c.reg.heap == map[] && c.reg.online == map["bob@d/r" := 0];
    assert RowOne(Next(c, LoginWrite("x", true)).reg.online, "bob@d/r");
  }
}
