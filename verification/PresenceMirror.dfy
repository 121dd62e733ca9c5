/** Exactly when im_online_info mirrors the registry: which names can share a jid, and which events lose the
    mirror when sessions do share one. */
module PresenceMirror {
  import opened Presence
  import Text

  // ---- which names can share a jid ----

  function MadeJid(u: string, d: string, r: string): string {
    u + ("@" + d + "/" + r)
  }

  /** A name with an '@' after its first character shares the jid of any of its sessions with a shorter, good
      name in another domain. */
  lemma ClashFor(u: string, d: string, r: string) returns (v: string, e: string)
    requires u != "" && !NameOk(u)
    ensures NameOk(v) && v != u && MadeJid(v, e, r) == MadeJid(u, d, r)
  {
    var k := 1 + Text.FindChar(u[1..], '@');
    assert u[1..][..|u| - 1] == u[1..];
    v, e := u[..k], u[k + 1..] + "@" + d;
    assert v[1..] == u[1..][..k - 1];
    assert u == v + "@" + u[k + 1..];
    assert "@" + e + "/" + r == "@" + u[k + 1..] + ("@" + d + "/" + r);
  }

  /** Some session of this name has the jid of some session under another name, and that name is a good one. */
  ghost predicate Clashes(u: string) {
    exists v, d, r, e, q :: NameOk(v) && v != u && MadeJid(u, d, r) == MadeJid(v, e, q)
  }

  /** The ban on the empty name and on '@' after the first character is exact. */
  lemma ClashesIff(u: string)
    ensures Clashes(u) <==> !NameOk(u)
  {
    if u == "" {
      assert MadeJid("@", "", "") == MadeJid(u, "@", "");
    } else if NameOk(u) {
      forall v, d, r, e, q | NameOk(v) && MadeJid(u, d, r) == MadeJid(v, e, q)
        ensures v == u
      {
        JidInjective(u, "@" + d + "/" + r, v, "@" + e + "/" + q);
      }
    } else {
      var v, e := ClashFor(u, "", "");
    }
  }

  // ---- which events keep the mirror ----

  /** No other session has this one's jid. */
  ghost predicate Alone(s: Registry, p: Ptr)
    requires p in s.heap
  {
    forall q | Session(s, q) && q != p :: s.heap[q].jid != s.heap[p].jid
  }

  lemma CloseIs(s: Registry, a: string)
    requires Inv(s) && JidForm(s) && Mirror(s) && a in s.addrmap && Session(s, s.addrmap[a])
    ensures
      var p := s.addrmap[a];
      var t := CloseStep(s, a, true);
      && t.heap == s.heap - {p} && t.loggedout == s.loggedout - {p}
      && s.heap[p].jid in s.online && t.online == s.online[s.heap[p].jid := 0]
  {
    var p := s.addrmap[a];
    assert Has(s.usermap, s.heap[p].username, s.heap[p].resource) && RowRight(s, p);
  }

  /** A close keeps the mirror if and only if no other live session has the closing session's jid. */
  lemma CloseMirrorsIff(s: Registry, a: string)
    requires Inv(s) && JidForm(s) && Mirror(s) && a in s.addrmap && Session(s, s.addrmap[a])
    ensures Mirror(CloseStep(s, a, true)) <==> Alone(s, s.addrmap[a])
  {
    CloseIs(s, a);
    hide Inv, JidForm, CloseStep, Mirror, Alone;
    SessionGone(s, CloseStep(s, a, true), s.addrmap[a]);
  }

  lemma SessionGone(s: Registry, t: Registry, p: Ptr)
    requires Mirror(s) && Session(s, p) && t.heap == s.heap - {p} && t.loggedout == s.loggedout - {p}
    requires t.online == s.online[s.heap[p].jid := 0]
    ensures Mirror(t) <==> Alone(s, p)
  {
    if Alone(s, p) {
      forall q | Session(t, q)
        ensures RowRight(t, q)
      {
        assert RowRight(s, q);
      }
      forall j | j in t.online && t.online[j] == 1
        ensures RowOwned(t, j)
      {
        var q := Owner(s, j);
        assert Session(t, q);
      }
    } else {
      var q :| Session(s, q) && q != p && s.heap[q].jid == s.heap[p].jid;
      assert Session(t, q) && !RowRight(t, q);
    }
  }

  /** No live session, other than the one a login kicks out, has logged out under this jid. */
  ghost predicate NoneLoggedOut(s: Registry, user: Account) {
    forall q | Session(s, q) && q !in Holder(s, user) && q in s.loggedout :: s.heap[q].jid != user.jid
  }

  /** What a login leaves: the newcomer's object, without the session it kicked out, and the row at 1. */
  ghost predicate LoggedOver(s: Registry, t: Registry, p: Ptr, user: Account, gone: set<Ptr>) {
    && t.heap == s.heap[p := user] - gone && t.loggedout == s.loggedout - gone && t.online == s.online[user.jid := 1]
    && p in s.heap && s.heap[p].resource == "" && p !in gone && p !in s.loggedout && user.resource != ""
    && forall q | q in gone :: Session(s, q) && s.heap[q].jid == user.jid
  }

  lemma LoginIs(s: Registry, a: string, m: LoginMsg)
    requires Inv(s) && JidForm(s) && AtGate(s, a) && !Listed(s, s.addrmap[a])
    ensures
      var user, p, t := AccountOf(a, m), s.addrmap[a], LoginStep(s, a, m, true, true);
      LoggedOver(s, t, p, user, Holder(s, user))
  {
    var user := AccountOf(a, m);
    RegisterIs(s, user);
    KickoutFindsHolder(s, user);
    ListedIff(s, s.addrmap[a]);
    hide RegisterStep;
  }

  lemma RowsStayRight(s: Registry, t: Registry, p: Ptr, user: Account, gone: set<Ptr>)
    requires LoggedOver(s, t, p, user, gone) && Mirror(s)
    requires forall q | Session(s, q) && q !in gone && q in s.loggedout :: s.heap[q].jid != user.jid
    ensures Mirror(t)
  {
    forall q | Session(t, q)
      ensures RowRight(t, q)
    {
      if q != p {
        assert Session(s, q) && RowRight(s, q);
      }
    }
    forall j | j in t.online && t.online[j] == 1
      ensures RowOwned(t, j)
    {
      if j == user.jid {
        assert Session(t, p) && t.heap[p].jid == j;
      } else {
        var q := Owner(s, j);
        assert q in t.heap && q != p;
      }
    }
  }

  lemma RowGoesWrong(s: Registry, t: Registry, p: Ptr, user: Account, gone: set<Ptr>, q: Ptr)
    requires LoggedOver(s, t, p, user, gone)
    requires Session(s, q) && q !in gone && q in s.loggedout && s.heap[q].jid == user.jid
    ensures !Mirror(t)
  {
    assert Session(t, q) && q != p && !RowRight(t, q);
  }

  /** A login keeps the mirror if and only if no such session has its jid. */
  lemma LoginMirrorsIff(s: Registry, a: string, m: LoginMsg)
    requires Inv(s) && JidForm(s) && Mirror(s) && AtGate(s, a) && !Listed(s, s.addrmap[a])
    ensures Mirror(LoginStep(s, a, m, true, true)) <==> NoneLoggedOut(s, AccountOf(a, m))
  {
    LoginIs(s, a, m);
    var user, p, t := AccountOf(a, m), s.addrmap[a], LoginStep(s, a, m, true, true);
    hide Inv, JidForm, LoginStep, Holder, Mirror, AtGate, LoggedOver;
    if NoneLoggedOut(s, user) {
      RowsStayRight(s, t, p, user, Holder(s, user));
    } else {
      var q :| Session(s, q) && q !in Holder(s, user) && q in s.loggedout && s.heap[q].jid == user.jid;
      RowGoesWrong(s, t, p, user, Holder(s, user), q);
    }
  }

  /** Every other live session of this jid has logged out too. */
  ghost predicate OthersLoggedOut(s: Registry, p: Ptr)
    requires p in s.heap
  {
    forall q | Session(s, q) && q != p && q !in s.loggedout :: s.heap[q].jid != s.heap[p].jid
  }

  /** A logout keeps the mirror if and only if no other live session of its jid is still logged in. */
  lemma LogoutMirrorsIff(s: Registry, a: string)
    requires Inv(s) && Mirror(s) && a in s.addrmap && LoggedIn(s, s.addrmap[a])
    ensures Mirror(LogoutStep(s, a, true)) <==> OthersLoggedOut(s, s.addrmap[a])
  {
    var p := s.addrmap[a];
    var t := LogoutStep(s, a, true);
    assert Session(s, p) && RowRight(s, p);
    assert t.heap == s.heap && t.loggedout == s.loggedout + {p} && t.online == s.online[s.heap[p].jid := 2];
    hide Inv, LogoutStep, Mirror, OthersLoggedOut;
    SessionLoggedOut(s, t, p);
  }

  lemma SessionLoggedOut(s: Registry, t: Registry, p: Ptr)
    requires Mirror(s) && Session(s, p) && t.heap == s.heap && t.loggedout == s.loggedout + {p}
    requires t.online == s.online[s.heap[p].jid := 2]
    ensures Mirror(t) <==> OthersLoggedOut(s, p)
  {
    if OthersLoggedOut(s, p) {
      forall q | Session(t, q)
        ensures RowRight(t, q)
      {
        assert RowRight(s, q);
      }
      forall j | j in t.online && t.online[j] == 1
        ensures RowOwned(t, j)
      {
        var q := Owner(s, j);
        assert Session(t, q);
      }
    } else {
      var q :| Session(s, q) && q != p && q !in s.loggedout && s.heap[q].jid == s.heap[p].jid;
      assert Session(t, q) && !RowRight(t, q);
    }
  }

  // ---- whole runs ----

  /** The condition of each event, which can be looked up before it. */
  ghost predicate Undisputed(s: Registry, e: Event) {
    match e
    case Connect(_, _) => true
    case Close(a, _) => a in s.addrmap && Session(s, s.addrmap[a]) ==> Alone(s, s.addrmap[a])
    case Login(a, m, checked, _) => AtGate(s, a) && checked ==> NoneLoggedOut(s, AccountOf(a, m))
    case Logout(a, _) => a in s.addrmap && LoggedIn(s, s.addrmap[a]) ==> OthersLoggedOut(s, s.addrmap[a])
  }

  predicate Writes(e: Event) {
    (e.Close? ==> e.ok) && (e.Login? ==> e.ok) && (e.Logout? ==> e.ok)
  }

  lemma NoRowTouched(s: Registry, a: string)
    requires Inv(s) && Mirror(s) && (a in s.addrmap ==> !Session(s, s.addrmap[a]))
    ensures Mirror(CloseStep(s, a, true))
  {
    if a in s.addrmap {
      var p := s.addrmap[a];
      var t := CloseStep(s, a, true);
      assert !Has(s.usermap, s.heap[p].username, s.heap[p].resource);
      assert t.online == s.online && t.heap == s.heap - {p} && t.loggedout == s.loggedout - {p};
      hide Inv, CloseStep;
      forall q | Session(t, q)
        ensures RowRight(t, q)
      {
        assert RowRight(s, q);
      }
      forall j | j in t.online && t.online[j] == 1
        ensures RowOwned(t, j)
      {
        var q := Owner(s, j);
        assert q in t.heap;
      }
    }
  }

  lemma ConnectKeepsMirror(s: Registry, a: string, p: Ptr)
    requires Inv(s) && JidForm(s) && Mirror(s) && p !in s.heap
    ensures Mirror(ConnectStep(s, a, p)) && JidForm(ConnectStep(s, a, p))
  {
    var t := ConnectStep(s, a, p);
    forall q | Session(t, q)
      ensures RowRight(t, q)
    {
      assert Session(s, q) && RowRight(s, q);
    }
    forall j | j in t.online && t.online[j] == 1
      ensures RowOwned(t, j)
    {
      var q := Owner(s, j);
      assert q in t.heap && t.heap[q] == s.heap[q];
    }
  }

  /** Event by event, with working writes and names of any kind: an event that keeps the indexes in agreement keeps
      the mirror if and only if it is undisputed. */
  lemma StepMirrorsIff(s: Registry, e: Event)
    requires Inv(s) && JidForm(s) && Mirror(s) && Writes(e) && !ReloginIn(s, e)
    requires e.Connect? ==> e.p !in s.heap
    ensures Mirror(Step(s, e)) <==> Undisputed(s, e)
  {
    hide Inv, Mirror, JidForm, CloseStep, Alone, NoneLoggedOut, OthersLoggedOut;
    match e
    case Connect(a, p) => ConnectKeepsMirror(s, a, p);
    case Close(a, ok) =>
      if a in s.addrmap && Session(s, s.addrmap[a]) {
        CloseMirrorsIff(s, a);
      } else {
        NoRowTouched(s, a);
      }
    case Login(a, m, checked, ok) =>
      if AtGate(s, a) && checked {
        LoginMirrorsIff(s, a, m);
      }
    case Logout(a, ok) =>
      if a in s.addrmap && LoggedIn(s, s.addrmap[a]) {
        LogoutMirrorsIff(s, a);
      }
  }

  lemma StepJidForm(s: Registry, e: Event)
    requires Inv(s) && JidForm(s)
    ensures JidForm(Step(s, e))
  {
    match e
    case Login(a, m, checked, ok) =>
      if AtGate(s, a) && checked {
        RegisterIs(s, AccountOf(a, m));
        hide RegisterStep, Inv;
      }
    case _ =>
  }

  lemma {:induction false} RunForm(s: Registry, es: seq<Event>, k: nat)
    requires Start(s) && Allowed(s, es) && k <= |es| && NoReloginUpTo(s, es, k)
    ensures Inv(Run(s, es[..k])) && JidForm(Run(s, es[..k]))
  {
    hide Step, Inv, JidForm, ReloginIn, EntriesLive;
    IndexesAgree(s, es, k);
    assert AgreeUpTo(s, es, k);
    if k == 0 {
      EmptyForm(s);
      assert es[..0] == [];
    } else {
      RunForm(s, es, k - 1);
      AllowedPrefix(s, es, k - 1);
      StepJidForm(Run(s, es[..k - 1]), es[k - 1]);
    }
  }

  lemma EmptyForm(s: Registry)
    requires Start(s)
    ensures JidForm(s) && Mirror(s)
  {
  }

  /** Up to here the indexes agreed and the table mirrored the registry at every moment. */
  ghost predicate RightUpTo(s: Registry, es: seq<Event>, n: nat)
    requires n <= |es|
  {
    forall k | 0 <= k <= n :: Inv(Run(s, es[..k])) && Mirror(Run(s, es[..k]))
  }

  ghost predicate UndisputedUpTo(s: Registry, es: seq<Event>, n: nat)
    requires n <= |es|
  {
    forall k | 0 <= k < n :: !ReloginIn(Run(s, es[..k]), es[k]) && Undisputed(Run(s, es[..k]), es[k])
  }

  /** For every run with working writes, whatever the names: the indexes agree and the table mirrors the registry at
      every moment if and only if no event is a login on a connection that is listed already and every event is
      undisputed when it happens. */
  lemma {:induction false} TableMirrorsIff(s: Registry, es: seq<Event>, n: nat)
    requires Start(s) && Allowed(s, es) && n <= |es| && forall i | 0 <= i < |es| :: Writes(es[i])
    ensures RightUpTo(s, es, n) <==> UndisputedUpTo(s, es, n)
  {
    hide Start, Allowed, Inv, Mirror, Undisputed, Step, Writes, ReloginIn, EntriesLive;
    if n == 0 {
      EmptyForm(s);
      EmptyAgrees(s);
      assert es[..0] == [];
    } else {
      TableMirrorsIff(s, es, n - 1);
      AllowedPrefix(s, es, n - 1);
      if RightUpTo(s, es, n - 1) {
        assert NoReloginUpTo(s, es, n - 1);
        RunForm(s, es, n - 1);
        var t := Run(s, es[..n - 1]);
        assert Mirror(t);
        StepKeeps(t, es[n - 1]);
        if !ReloginIn(t, es[n - 1]) {
          StepMirrorsIff(t, es[n - 1]);
        }
      }
    }
  }

  // ---- the names themselves are enough to lose it ----

  lemma FirstLogin(v: string, e: string, r: string)
    requires v != ""
    ensures
      var s := ConnectStep(ConnectStep(NOBODY, "x", 1), "y", 2);
      var m := LoginMsg(v, e, r, "p", "XML");
      var t := LoginStep(s, "x", m, true, true);
      && Inv(t) && JidForm(t) && Mirror(t) && t.loggedout == {} && AtGate(t, "y")
      && t.heap == s.heap[1 := AccountOf("x", m)] && t.addrmap == s.addrmap && t.usermap.Keys == {v}
  {
    var s := ConnectStep(ConnectStep(NOBODY, "x", 1), "y", 2);
    var m := LoginMsg(v, e, r, "p", "XML");
    LoginIs(s, "x", m);
    LoginKeeps(s, "x", m, true, true);
    LoginMirrorsIff(s, "x", m);
    StepJidForm(s, Login("x", m, true, true));
    RegisterIs(s, AccountOf("x", m));
    assert Holder(s, AccountOf("x", m)) == {};
  }

  function BothLoggedIn(m1: LoginMsg, m2: LoginMsg): Registry {
    var s := ConnectStep(ConnectStep(NOBODY, "x", 1), "y", 2);
    LoginStep(LoginStep(s, "x", m1, true, true), "y", m2, true, true)
  }

  /** Two names log in under one jid, and the table is still right. */
  lemma SecondLogin(v: string, e: string, u: string, d: string, r: string)
    requires v != "" && u != "" && v != u
    ensures
      var m1, m2 := LoginMsg(v, e, r, "p", "XML"), LoginMsg(u, d, r, "p", "XML");
      var t := BothLoggedIn(m1, m2);
      && Inv(t) && JidForm(t) && Mirror(t) && t.loggedout == {} && "x" in t.addrmap && t.addrmap["x"] == 1
      && 1 in t.heap && 2 in t.heap && t.heap[1] == AccountOf("x", m1) && t.heap[2] == AccountOf("y", m2)
  {
    var m1, m2 := LoginMsg(v, e, r, "p", "XML"), LoginMsg(u, d, r, "p", "XML");
    var s3 := LoginStep(ConnectStep(ConnectStep(NOBODY, "x", 1), "y", 2), "x", m1, true, true);
    FirstLogin(v, e, r);
    assert s3.addrmap["x"] == 1 && s3.addrmap["y"] == 2;
    assert Holder(s3, AccountOf("y", m2)) == {};
    hide Inv, JidForm, Mirror, ConnectStep, LoginStep, Holder;
    LoginIs(s3, "y", m2);
    LoginKeeps(s3, "y", m2, true, true);
    LoginMirrorsIff(s3, "y", m2);
    StepJidForm(s3, Login("y", m2, true, true));
  }

  /** For every name with an '@' after its first character, in any domain and under any resource, there is a run
      of four events with working writes that ends with its session live and its row at 0. */
  lemma AtSignBreaksMirror(u: string, d: string, r: string) returns (v: string, e: string)
    requires u != "" && !NameOk(u)
    ensures NameOk(v) && v != u
    ensures
      var t := BothLoggedIn(LoginMsg(v, e, r, "p", "XML"), LoginMsg(u, d, r, "p", "XML"));
      var w := CloseStep(t, "x", true);
      && Mirror(t) && !Mirror(w)
      && LoggedIn(w, 2) && 2 !in w.loggedout && w.heap[2].jid in w.online && w.online[w.heap[2].jid] == 0
  {
    v, e := ClashFor(u, d, r);
    SecondLogin(v, e, u, d, r);
    var m1, m2 := LoginMsg(v, e, r, "p", "XML"), LoginMsg(u, d, r, "p", "XML");
    assert AccountOf("x", m1).jid == MadeJid(v, e, r) && AccountOf("y", m2).jid == MadeJid(u, d, r);
    assert AccountOf("x", m1).username != "" && AccountOf("y", m2).username != "";
    hide *;
    CloseLeavesOther(BothLoggedIn(m1, m2));
  }

  lemma CloseLeavesOther(t: Registry)
    requires Inv(t) && JidForm(t) && Mirror(t) && t.loggedout == {} && "x" in t.addrmap && t.addrmap["x"] == 1
    requires 1 in t.heap && 2 in t.heap && t.heap[1].username != "" && t.heap[2].username != ""
    requires t.heap[1].jid == t.heap[2].jid
    ensures
      var w := CloseStep(t, "x", true);
      && !Mirror(w)
      && LoggedIn(w, 2) && 2 !in w.loggedout && w.heap[2].jid in w.online && w.online[w.heap[2].jid] == 0
  {
    assert Session(t, 1) && Session(t, 2);
    hide Inv, JidForm, Mirror, CloseStep;
    assert !Alone(t, 1);
    CloseIs(t, "x");
    CloseMirrorsIff(t, "x");
  }
}
