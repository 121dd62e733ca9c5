/** The presence module's session registry: connections by address, logged-in sessions by user name
    and resource, and the im_online_info table that mirrors them. */
module Presence {
  import Text

  /** The contents of one User object: the source copies it as a whole. */
  datatype Account = Account(jid: string, addrinfo: string, username: string, resource: string,
                             platform: string, prototype: string)

  datatype LoginMsg = LoginMsg(from: string, domain: string, resource: string, platform: string, prototype: string)

  datatype Response =
    | Disconnect(addrinfo: string, prototype: string)
    | Kickout(addrinfo: string, prototype: string)
    | LoginReply(addrinfo: string, status: int, close: bool)
    | LogoutReply(addrinfo: string, status: int, close: bool)
    | CloseElsewhere(username: string, moduleaddr: string, prototype: string)

  /** The address of a User object. Objects are deleted by hand, so the heap is explicit: a pointer
      may be followed only while the object it names is still in it. */
  type Ptr = int

  type Resources = map<string, Ptr>

  /** The registry as a value: `heap` holds the User objects not yet deleted, `online` the status column of
      im_online_info by jid, and `loggedout` the sessions whose logout was recorded. */
  datatype Registry = Registry(heap: map<Ptr, Account>, addrmap: map<string, Ptr>, usermap: map<string, Resources>,
                               online: map<string, int>, loggedout: set<Ptr>)

  /** The gate's test for a connection whose messages other than a login are handled. */
  function LoggedIn(s: Registry, p: Ptr): bool {
    p in s.heap && s.heap[p].username != ""
  }

  /** An object that a login has registered: it has a resource then, though the name may have been empty. */
  predicate Session(s: Registry, p: Ptr) {
    p in s.heap && s.heap[p].resource != ""
  }

  // ---- what each event does to the registry ----

  function ConnectStep(s: Registry, a: string, p: Ptr): Registry {
    if a in s.addrmap then s
    else s.(heap := s.heap[p := Account("", a, "", "", "", "")], addrmap := s.addrmap[a := p])
  }

  /** UPDATE im_online_info SET status=... WHERE jid=...: no row, no effect. */
  function UpdateRow(online: map<string, int>, jid: string, status: int): map<string, int> {
    if jid in online then online[jid := status] else online
  }

  function RemoveResource(m: map<string, Resources>, u: string, r: string): map<string, Resources> {
    if u !in m then m
    else if m[u] - {r} == map[] then m - {u}
    else m[u := m[u] - {r}]
  }

  function CloseStep(s: Registry, a: string, ok: bool): Registry {
    if a !in s.addrmap || s.addrmap[a] !in s.heap then s
    else
      var p := s.addrmap[a];
      var u, r := s.heap[p].username, s.heap[p].resource;
      var found := u in s.usermap && r in s.usermap[u];
      Registry(s.heap - {p}, s.addrmap - {a}, RemoveResource(s.usermap, u, r),
               if found && ok then UpdateRow(s.online, u + r, 0) else s.online,
               s.loggedout - {p})
  }

  function AccountOf(a: string, m: LoginMsg): Account {
    var res := "@" + m.domain + "/" + m.resource;
    Account(m.from + res, a, m.from, res, m.platform, m.prototype)
  }

  /** The session already registered under this user name and resource, if any. */
  function Holder(s: Registry, user: Account): (q: set<Ptr>) {
    if user.username in s.usermap && user.resource in s.usermap[user.username]
    then {s.usermap[user.username][user.resource]} else {}
  }

  /** The mutex section of a login: overwrite the object, kick out the holder, register. If the holder is the
      connection itself, the source reads its pointer back from the entry of m_addrmap it has just erased; this is
      taken to be the pointer that was there. */
  function RegisterStep(s: Registry, user: Account): Registry {
    var a := user.addrinfo;
    if a !in s.addrmap then s
    else
      var p := s.addrmap[a];
      var heap := s.heap[p := user];
      var rs := if user.username in s.usermap then s.usermap[user.username] else map[];
      var usermap := s.usermap[user.username := rs[user.resource := p]];
      if user.resource !in rs then s.(heap := heap, usermap := usermap)
      else
        var q := rs[user.resource];
        if q !in heap || heap[q].addrinfo !in s.addrmap then s
        else
          var k := heap[q].addrinfo;
          var gone := s.addrmap[k];
          s.(heap := heap - {gone}, addrmap := s.addrmap - {k}, usermap := usermap, loggedout := s.loggedout - {gone})
  }

  /** A first message is let through only when its connection is open and not logged in. */
  function AtGate(s: Registry, a: string): bool {
    a in s.addrmap && s.addrmap[a] in s.heap && s.heap[s.addrmap[a]].username == ""
  }

  /** A login processed as one event: `checked` says whether the look-up of other modules succeeded,
      `ok` whether the REPLACE of the row did. */
  function LoginStep(s: Registry, a: string, m: LoginMsg, checked: bool, ok: bool): Registry {
    if !AtGate(s, a) || !checked then s
    else
      var t := RegisterStep(s, AccountOf(a, m));
      if ok then t.(online := t.online[AccountOf(a, m).jid := 1]) else t
  }

  function LogoutStep(s: Registry, a: string, ok: bool): Registry {
    if a !in s.addrmap || !LoggedIn(s, s.addrmap[a]) || !ok then s
    else
      var p := s.addrmap[a];
      s.(online := UpdateRow(s.online, s.heap[p].jid, 2), loggedout := s.loggedout + {p})
  }

  // ---- the global invariant ----

  /** Names may start with '@', but hold none after that. */
  predicate NameOk(u: string) {
    u != "" && '@' !in u[1..]
  }

  /** usermap holds an entry for this user name and resource. */
  ghost predicate Has(m: map<string, Resources>, u: string, r: string) {
    u in m && r in m[u]
  }

  ghost predicate AddrInv(s: Registry) {
    && (forall a | a in s.addrmap :: s.addrmap[a] in s.heap && s.heap[s.addrmap[a]].addrinfo == a)
    && (forall p | p in s.heap :: s.heap[p].addrinfo in s.addrmap && s.addrmap[s.heap[p].addrinfo] == p)
  }

  ghost predicate NoEmptyInner(m: map<string, Resources>) {
    forall u | u in m :: m[u] != map[] && "" !in m[u]
  }

  /** Every entry of m is a live object with that name and resource. */
  ghost predicate EntriesLive(h: map<Ptr, Account>, m: map<string, Resources>) {
    forall u, r | Has(m, u, r) :: m[u][r] in h && h[m[u][r]].username == u && h[m[u][r]].resource == r
  }

  /** Every session is in m under its own name and resource. */
  ghost predicate SessionsListed(h: map<Ptr, Account>, m: map<string, Resources>) {
    forall p | p in h && h[p].resource != "" ::
      Has(m, h[p].username, h[p].resource) && m[h[p].username][h[p].resource] == p
  }

  ghost predicate Listed(s: Registry, p: Ptr) {
    && p in s.heap && Has(s.usermap, s.heap[p].username, s.heap[p].resource)
    && s.usermap[s.heap[p].username][s.heap[p].resource] == p
  }

  ghost predicate UserInv(s: Registry) {
    NoEmptyInner(s.usermap) && EntriesLive(s.heap, s.usermap) && SessionsListed(s.heap, s.usermap)
  }

  /** The two indexes agree: every reference they hold is to a live object that sits in addrmap under
      its own address, sessions are exactly the objects in usermap, under their own name and
      resource, and no inner map is empty. Nothing is demanded of names. */
  ghost predicate Inv(s: Registry) {
    && AddrInv(s) && UserInv(s)
    && s.loggedout <= s.heap.Keys
    && (forall p | p in s.loggedout :: s.heap[p].username != "")
    && forall p | p in s.heap && s.heap[p].username != "" :: s.heap[p].resource != ""
  }

  lemma ListedIff(s: Registry, p: Ptr)
    requires Inv(s)
    ensures Listed(s, p) <==> Session(s, p)
  {
  }

  /** A session's jid is its name followed by its resource. */
  ghost predicate JidForm(s: Registry) {
    forall p | Session(s, p) :: s.heap[p].jid == s.heap[p].username + s.heap[p].resource
  }

  ghost predicate JidInv(s: Registry) {
    forall p | Session(s, p) ::
      && NameOk(s.heap[p].username) && s.heap[p].resource[0] == '@'
      && s.heap[p].jid == s.heap[p].username + s.heap[p].resource
  }

  /** Some live session holds this jid. */
  ghost predicate RowOwned(s: Registry, j: string) {
    exists p :: Session(s, p) && s.heap[p].jid == j
  }

  lemma Owner(s: Registry, j: string) returns (p: Ptr)
    requires RowOwned(s, j)
    ensures Session(s, p) && s.heap[p].jid == j
  {
    p :| Session(s, p) && s.heap[p].jid == j;
  }

  ghost predicate RowRight(s: Registry, p: Ptr)
    requires p in s.heap
  {
    var j := s.heap[p].jid;
    j in s.online && s.online[j] == if p in s.loggedout then 2 else 1
  }

  /** im_online_info mirrors the registry: a live session's row has status 1, or 2 once it logged out,
      and no other row has status 1. */
  ghost predicate Mirror(s: Registry) {
    && (forall p | Session(s, p) :: RowRight(s, p))
    && (forall j | j in s.online && s.online[j] == 1 :: RowOwned(s, j))
  }

  lemma ConnectKeeps(s: Registry, a: string, p: Ptr)
    requires Inv(s) && p !in s.heap
    ensures Inv(ConnectStep(s, a, p))
  {
    var t := ConnectStep(s, a, p);
    if a !in s.addrmap {
      assert AddrInv(t) by { hide UserInv; }
      ConnectUsers(s, a, p);
    }
  }

  lemma ConnectUsers(s: Registry, a: string, p: Ptr)
    requires UserInv(s) && p !in s.heap && a !in s.addrmap
    ensures UserInv(ConnectStep(s, a, p))
  {
  }

  lemma ConnectMirrors(s: Registry, a: string, p: Ptr)
    requires p !in s.heap && JidInv(s) && Mirror(s)
    ensures JidInv(ConnectStep(s, a, p)) && Mirror(ConnectStep(s, a, p))
  {
    var t := ConnectStep(s, a, p);
    forall q | Session(t, q) ensures RowRight(t, q) {
      assert RowRight(s, q);
    }
    forall j | j in t.online && t.online[j] == 1 ensures RowOwned(t, j) {
      var q := Owner(s, j);
      assert q in t.heap && t.heap[q] == s.heap[q];
    }
  }

  /** A jid determines its user name and resource, because names hold no '@' after their first character. */
  lemma JidInjective(u: string, r: string, v: string, w: string)
    requires NameOk(u) && NameOk(v)
    requires r != "" && r[0] == '@' && w != "" && w[0] == '@'
    requires u + r == v + w
    ensures u == v && r == w
  {
    assert (u + r)[1..] == u[1..] + r && (v + w)[1..] == v[1..] + w;
    Text.FindCharAfter(u[1..], '@', r);
    Text.FindCharAfter(v[1..], '@', w);
    assert (u + r)[..|u|] == u && (v + w)[..|v|] == v;
    assert (u + r)[|u|..] == r && (v + w)[|v|..] == w;
  }

  lemma SameJidSameSession(s: Registry, p: Ptr, q: Ptr)
    requires Inv(s) && JidInv(s) && Session(s, p) && Session(s, q) && s.heap[p].jid == s.heap[q].jid
    ensures p == q
  {
    JidInjective(s.heap[p].username, s.heap[p].resource, s.heap[q].username, s.heap[q].resource);
  }

  lemma RemoveEffect(m: map<string, Resources>, u: string, r: string)
    requires NoEmptyInner(m)
    ensures NoEmptyInner(RemoveResource(m, u, r))
    ensures forall v, w :: Has(RemoveResource(m, u, r), v, w) <==> Has(m, v, w) && (v != u || w != r)
    ensures forall v, w :: Has(RemoveResource(m, u, r), v, w) ==> RemoveResource(m, u, r)[v][w] == m[v][w]
  {
    var n := RemoveResource(m, u, r);
    forall v, w
      ensures Has(n, v, w) <==> Has(m, v, w) && (v != u || w != r)
      ensures Has(n, v, w) ==> n[v][w] == m[v][w]
    {
      if v == u && u in m && w in m[u] && w != r {
        assert w in m[u] - {r};
      }
    }
  }

  /** operator[] of the outer map: a missing user name reads as an empty inner map. */
  function Inner(m: map<string, Resources>, u: string): Resources {
    if u in m then m[u] else map[]
  }

  function PutResource(m: map<string, Resources>, u: string, r: string, p: Ptr): map<string, Resources> {
    m[u := Inner(m, u)[r := p]]
  }

  lemma PutEffect(m: map<string, Resources>, u: string, r: string, p: Ptr)
    ensures r != "" && NoEmptyInner(m) ==> NoEmptyInner(PutResource(m, u, r, p))
    ensures forall v, w :: Has(PutResource(m, u, r, p), v, w) <==> Has(m, v, w) || (v == u && w == r)
    ensures forall v, w :: Has(PutResource(m, u, r, p), v, w) ==>
      PutResource(m, u, r, p)[v][w] == if v == u && w == r then p else m[v][w]
  {
    assert r in Inner(m, u)[r := p];
  }

  lemma RemoveUsers(h: map<Ptr, Account>, m: map<string, Resources>, p: Ptr)
    requires p in h && NoEmptyInner(m) && EntriesLive(h, m) && SessionsListed(h, m)
    ensures
      var n := RemoveResource(m, h[p].username, h[p].resource);
      NoEmptyInner(n) && EntriesLive(h - {p}, n) && SessionsListed(h - {p}, n)
  {
    RemoveEffect(m, h[p].username, h[p].resource);
    hide RemoveResource;
  }

  /** Close removes exactly the closing connection, never another session's entry. */
  lemma CloseKeeps(s: Registry, a: string, ok: bool)
    requires Inv(s)
    ensures Inv(CloseStep(s, a, ok))
    ensures a in s.addrmap ==> CloseStep(s, a, ok).heap == s.heap - {s.addrmap[a]}
  {
    if a in s.addrmap {
      var t := CloseStep(s, a, ok);
      var p := s.addrmap[a];
      RemoveUsers(s.heap, s.usermap, p);
      hide RemoveResource, UpdateRow, UserInv;
    }
  }

  lemma CloseMirrors(s: Registry, a: string)
    requires Inv(s) && JidInv(s) && Mirror(s)
    ensures JidInv(CloseStep(s, a, true)) && Mirror(CloseStep(s, a, true))
  {
    if a in s.addrmap {
      var p := s.addrmap[a];
      var t := CloseStep(s, a, true);
      assert t.heap == s.heap - {p};
      CloseRow(s, a);
      forall q | Session(t, q) ensures RowRight(t, q) {
        assert RowRight(s, q);
        if Session(s, p) && s.heap[q].jid == s.heap[p].jid {
          SameJidSameSession(s, p, q);
        }
      }
      forall j | j in t.online && t.online[j] == 1 ensures RowOwned(t, j) {
        var q := Owner(s, j);
        assert q in t.heap;
      }
    }
  }

  /** The row a close touches is the one of the closing session. */
  lemma CloseRow(s: Registry, a: string)
    requires Inv(s) && JidInv(s) && Mirror(s) && a in s.addrmap
    ensures CloseStep(s, a, true).online ==
      if Session(s, s.addrmap[a]) then s.online[s.heap[s.addrmap[a]].jid := 0] else s.online
  {
    var p := s.addrmap[a];
    var u, r := s.heap[p].username, s.heap[p].resource;
    if r != "" {
      assert Has(s.usermap, u, r) && RowRight(s, p);
    } else {
      assert !Has(s.usermap, u, r);
    }
  }

  /** Under the invariant the kick-out look-up never misses and finds the holder itself. */
  lemma KickoutFindsHolder(s: Registry, user: Account)
    requires Inv(s) && AtGate(s, user.addrinfo)
    ensures forall q | q in Holder(s, user) ::
      && Session(s, q) && s.heap[q].username == user.username && s.heap[q].resource == user.resource
      && s.heap[q].addrinfo in s.addrmap && s.addrmap[s.heap[q].addrinfo] == q
      && (!Listed(s, s.addrmap[user.addrinfo]) ==> q != s.addrmap[user.addrinfo])
  {
    assert Holder(s, user) != {} ==> Has(s.usermap, user.username, user.resource);
  }

  lemma RegisterIs(s: Registry, user: Account)
    requires Inv(s) && AtGate(s, user.addrinfo)
    ensures
      var p := s.addrmap[user.addrinfo];
      var t := RegisterStep(s, user);
      && t.heap == s.heap[p := user] - Holder(s, user)
      && t.usermap == PutResource(s.usermap, user.username, user.resource, p)
      && t.addrmap == s.addrmap - (set q | q in Holder(s, user) :: s.heap[q].addrinfo)
      && t.loggedout == s.loggedout - Holder(s, user) && t.online == s.online
  {
    KickoutFindsHolder(s, user);
  }

  /** A login keeps the indexes in agreement if and only if the object of its connection is not listed already;
      otherwise some entry does not lead to an object of that name and resource. */
  lemma RegisterKeeps(s: Registry, user: Account)
    requires Inv(s) && AtGate(s, user.addrinfo) && user.resource != ""
    ensures Inv(RegisterStep(s, user)) <==> !Listed(s, s.addrmap[user.addrinfo])
    ensures
      var t := RegisterStep(s, user);
      EntriesLive(t.heap, t.usermap) <==> !Listed(s, s.addrmap[user.addrinfo])
  {
    if Listed(s, s.addrmap[user.addrinfo]) {
      OldEntryStays(s, user);
    } else {
      RegisterAddr(s, user);
      RegisterUsers(s, user);
      RegisterRest(s, user);
    }
    hide RegisterStep, Listed, AddrInv, NoEmptyInner, EntriesLive, SessionsListed, AtGate;
  }

  lemma RegisterRest(s: Registry, user: Account)
    requires Inv(s) && AtGate(s, user.addrinfo) && user.resource != "" && !Listed(s, s.addrmap[user.addrinfo])
    ensures
      var t := RegisterStep(s, user);
      && t.loggedout <= t.heap.Keys && (forall p | p in t.loggedout :: t.heap[p].username != "")
      && forall p | p in t.heap && t.heap[p].username != "" :: t.heap[p].resource != ""
  {
    RegisterIs(s, user);
    hide RegisterStep, AddrInv, UserInv, Holder;
  }

  /** The entry under which a listed object was registered first stays, but the object is overwritten. */
  lemma OldEntryStays(s: Registry, user: Account)
    requires Inv(s) && AtGate(s, user.addrinfo) && user.resource != "" && Listed(s, s.addrmap[user.addrinfo])
    ensures
      var p, t := s.addrmap[user.addrinfo], RegisterStep(s, user);
      && Has(t.usermap, "", s.heap[p].resource) && t.usermap[""][s.heap[p].resource] == p
      && NoEmptyInner(t.usermap) && !EntriesLive(t.heap, t.usermap)
      && if user.username == "" && user.resource == s.heap[p].resource then p !in t.heap && user.addrinfo !in t.addrmap
         else p in t.heap && t.heap[p] == user && user.addrinfo in t.addrmap && t.addrmap[user.addrinfo] == p
  {
    hide RegisterStep, PutResource;
    var p := s.addrmap[user.addrinfo];
    RegisterIs(s, user);
    PutEffect(s.usermap, user.username, user.resource, p);
    KickoutFindsHolder(s, user);
    HolderIs(s, user);
    assert Has(RegisterStep(s, user).usermap, "", s.heap[p].resource);
  }

  /** So once the connection has closed, the index holds a pointer to a deleted object. */
  lemma ReloginLeavesDanglingPointer(s: Registry, a: string, m: LoginMsg, ok: bool, closed: bool)
    requires Inv(s) && AtGate(s, a) && Listed(s, s.addrmap[a])
    ensures
      var p, t := s.addrmap[a], CloseStep(LoginStep(s, a, m, true, ok), a, closed);
      Has(t.usermap, "", s.heap[p].resource) && t.usermap[""][s.heap[p].resource] == p && p !in t.heap
  {
    var user := AccountOf(a, m);
    OldEntryStays(s, user);
    RemoveEffect(RegisterStep(s, user).usermap, user.username, user.resource);
    hide RegisterStep, RemoveResource;
  }

  lemma RegisterAddr(s: Registry, user: Account)
    requires Inv(s) && AtGate(s, user.addrinfo) && !Listed(s, s.addrmap[user.addrinfo])
    ensures AddrInv(RegisterStep(s, user))
  {
    RegisterIs(s, user);
    KickoutFindsHolder(s, user);
  }

  lemma RegisterUsers(s: Registry, user: Account)
    requires Inv(s) && AtGate(s, user.addrinfo) && user.resource != "" && !Listed(s, s.addrmap[user.addrinfo])
    ensures UserInv(RegisterStep(s, user))
  {
    hide RegisterStep, PutResource;
    var p := s.addrmap[user.addrinfo];
    RegisterIs(s, user);
    PutEffect(s.usermap, user.username, user.resource, p);
    HolderIs(s, user);
    EntriesAfterPut(s.heap, s.usermap, p, user, Holder(s, user));
    SessionsAfterPut(s.heap, s.usermap, p, user, Holder(s, user));
  }

  lemma EntriesAfterPut(h: map<Ptr, Account>, m: map<string, Resources>, p: Ptr, user: Account, gone: set<Ptr>)
    requires EntriesLive(h, m) && NoEmptyInner(m) && p in h && h[p].resource == ""
    requires gone == if Has(m, user.username, user.resource) then {m[user.username][user.resource]} else {}
    ensures EntriesLive(h[p := user] - gone, PutResource(m, user.username, user.resource, p))
  {
    hide PutResource;
    PutEffect(m, user.username, user.resource, p);
  }

  lemma SessionsAfterPut(h: map<Ptr, Account>, m: map<string, Resources>, p: Ptr, user: Account, gone: set<Ptr>)
    requires SessionsListed(h, m)
    requires gone == if Has(m, user.username, user.resource) then {m[user.username][user.resource]} else {}
    ensures SessionsListed(h[p := user] - gone, PutResource(m, user.username, user.resource, p))
  {
    hide PutResource;
    PutEffect(m, user.username, user.resource, p);
  }

  lemma HolderIs(s: Registry, user: Account)
    ensures Holder(s, user) ==
      if Has(s.usermap, user.username, user.resource) then {s.usermap[user.username][user.resource]} else {}
  {
  }

  /** A login that is let through on a connection whose object is listed already: its first login had an empty name. */
  ghost predicate Relogin(s: Registry, a: string, checked: bool) {
    AtGate(s, a) && checked && Listed(s, s.addrmap[a])
  }

  lemma LoginKeeps(s: Registry, a: string, m: LoginMsg, checked: bool, ok: bool)
    requires Inv(s)
    ensures Inv(LoginStep(s, a, m, checked, ok)) <==> !Relogin(s, a, checked)
    ensures
      var t := LoginStep(s, a, m, checked, ok);
      EntriesLive(t.heap, t.usermap) <==> !Relogin(s, a, checked)
  {
    if AtGate(s, a) {
      RegisterKeeps(s, AccountOf(a, m));
    }
  }

  lemma LoginMirrors(s: Registry, a: string, m: LoginMsg, checked: bool)
    requires Inv(s) && JidInv(s) && Mirror(s) && NameOk(m.from)
    ensures JidInv(LoginStep(s, a, m, checked, true)) && Mirror(LoginStep(s, a, m, checked, true))
    ensures Inv(LoginStep(s, a, m, checked, true))
  {
    GateIsUnlisted(s, a);
    LoginKeeps(s, a, m, checked, true);
    if AtGate(s, a) && checked {
      var user := AccountOf(a, m);
      hide RegisterStep, Holder, Inv;
      RegisterIs(s, user);
      LoginJids(s, a, m);
      LoginRows(s, a, m);
    }
  }

  /** As long as all names are good, an object at the gate is not listed. */
  lemma GateIsUnlisted(s: Registry, a: string)
    requires Inv(s) && JidInv(s)
    ensures AtGate(s, a) ==> !Listed(s, s.addrmap[a]) && !Session(s, s.addrmap[a])
  {
    if AtGate(s, a) {
      ListedIff(s, s.addrmap[a]);
    }
  }

  lemma LoginJids(s: Registry, a: string, m: LoginMsg)
    requires Inv(s) && JidInv(s) && NameOk(m.from) && AtGate(s, a)
    ensures JidInv(LoginStep(s, a, m, true, true))
  {
    hide RegisterStep, Holder, Inv;
    RegisterIs(s, AccountOf(a, m));
  }

  /** Every row after a login: the one of the new session, or one the login did not touch. */
  lemma LoginRows(s: Registry, a: string, m: LoginMsg)
    requires Inv(s) && JidInv(s) && Mirror(s) && NameOk(m.from) && AtGate(s, a)
    ensures Mirror(LoginStep(s, a, m, true, true))
  {
    var user := AccountOf(a, m);
    GateIsUnlisted(s, a);
    RegisterIs(s, user);
    LoginJids(s, a, m);
    LoginKeeps(s, a, m, true, true);
    KickoutFindsHolder(s, user);
    HolderIs(s, user);
    RowsAfterLogin(s, LoginStep(s, a, m, true, true), s.addrmap[a], user, Holder(s, user));
  }

  lemma RowsAfterLogin(s: Registry, t: Registry, p: Ptr, user: Account, gone: set<Ptr>)
    requires Mirror(s) && Inv(t) && JidInv(t)
    requires p in s.heap && s.heap[p].resource == "" && user.resource != "" && p !in gone && p !in s.loggedout
    requires forall q | q in gone :: q in s.heap && s.heap[q].jid == user.jid
    requires t.heap == s.heap[p := user] - gone
    requires t.online == s.online[user.jid := 1] && t.loggedout == s.loggedout - gone
    ensures Mirror(t)
  {
    forall q | Session(t, q) ensures RowRight(t, q) {
      if q != p {
        assert RowRight(s, q);
        if t.heap[q].jid == user.jid { SameJidSameSession(t, p, q); }
      }
    }
    forall j | j in t.online && t.online[j] == 1 ensures RowOwned(t, j) {
      if j == user.jid {
        assert p in t.heap && t.heap[p].jid == j;
      } else {
        var q := Owner(s, j);
        assert q in t.heap && q != p;
      }
    }
  }

  lemma LogoutKeeps(s: Registry, a: string, ok: bool)
    requires Inv(s)
    ensures Inv(LogoutStep(s, a, ok))
  {
  }

  lemma LogoutMirrors(s: Registry, a: string)
    requires Inv(s) && JidInv(s) && Mirror(s)
    ensures JidInv(LogoutStep(s, a, true)) && Mirror(LogoutStep(s, a, true))
  {
    var t := LogoutStep(s, a, true);
    if t != s {
      var p := s.addrmap[a];
      assert RowRight(s, p);
      forall q | Session(t, q) ensures RowRight(t, q) {
        assert RowRight(s, q);
        if s.heap[q].jid == s.heap[p].jid { SameJidSameSession(s, p, q); }
      }
      forall j | j in t.online && t.online[j] == 1 ensures RowOwned(t, j) {
        var q := Owner(s, j);
        assert q in t.heap;
      }
    }
  }

  // ---- what a close and a login leave, in plain terms ----

  /** A close takes out its own connection: the object, the address, and the one entry that leads to the object, which
      is there exactly for a session; its row goes to 0 when the write works. Everything else stays. */
  lemma ClosedIs(s: Registry, a: string, ok: bool)
    requires Inv(s)
    ensures a !in s.addrmap ==> CloseStep(s, a, ok) == s
    ensures a in s.addrmap ==>
      var p, t := s.addrmap[a], CloseStep(s, a, ok);
      && t.addrmap == s.addrmap - {a} && t.heap == s.heap - {p} && t.loggedout == s.loggedout - {p}
      && (forall u, r :: Has(t.usermap, u, r) <==> Has(s.usermap, u, r) && s.usermap[u][r] != p)
      && (forall u, r :: Has(t.usermap, u, r) ==> t.usermap[u][r] == s.usermap[u][r])
      && var j := s.heap[p].username + s.heap[p].resource;
         t.online == if ok && s.heap[p].resource != "" && j in s.online then s.online[j := 0] else s.online
  {
    if a in s.addrmap {
      var p := s.addrmap[a];
      RemoveEffect(s.usermap, s.heap[p].username, s.heap[p].resource);
      OnlyEntry(s, p);
      hide RemoveResource;
    }
  }

  /** The entry that leads to an object is the one under its name and resource. */
  lemma OnlyEntry(s: Registry, p: Ptr)
    requires Inv(s) && p in s.heap
    ensures Has(s.usermap, s.heap[p].username, s.heap[p].resource) <==> s.heap[p].resource != ""
    ensures forall u, r | Has(s.usermap, u, r) ::
      s.usermap[u][r] == p <==> u == s.heap[p].username && r == s.heap[p].resource
  {
    ListedIff(s, p);
  }

  /** A login on a connection at the gate whose object is not listed gives that object its names, enters it under
      them, takes out the session that was entered there, and sets its row to 1 when the write works. */
  lemma LoggedInIs(s: Registry, a: string, m: LoginMsg, checked: bool, ok: bool)
    requires Inv(s)
    ensures !checked || a !in s.addrmap || s.heap[s.addrmap[a]].username != "" ==> LoginStep(s, a, m, checked, ok) == s
    ensures checked && a in s.addrmap && s.heap[s.addrmap[a]].username == "" && !Listed(s, s.addrmap[a]) ==>
      var p, r, t := s.addrmap[a], "@" + m.domain + "/" + m.resource, LoginStep(s, a, m, checked, ok);
      var gone := if Has(s.usermap, m.from, r) then {s.usermap[m.from][r]} else {};
      && t.heap == s.heap[p := Account(m.from + r, a, m.from, r, m.platform, m.prototype)] - gone && p in t.heap
      && t.addrmap == (map b | b in s.addrmap && s.addrmap[b] !in gone :: s.addrmap[b])
      && (forall u, w :: Has(t.usermap, u, w) <==> Has(s.usermap, u, w) || (u == m.from && w == r))
      && (forall u, w | Has(t.usermap, u, w) ::
            t.usermap[u][w] == if u == m.from && w == r then p else s.usermap[u][w])
      && t.loggedout == s.loggedout - gone
      && t.online == if ok then s.online[m.from + r := 1] else s.online
  {
    if checked && AtGate(s, a) && !Listed(s, s.addrmap[a]) {
      var user := AccountOf(a, m);
      RegisterIs(s, user);
      HolderIs(s, user);
      KickoutFindsHolder(s, user);
      PutEffect(s.usermap, user.username, user.resource, s.addrmap[a]);
      GoneAddrs(s, Holder(s, user));
      hide RegisterStep, Holder, PutResource;
    }
  }

  lemma GoneAddrs(s: Registry, gone: set<Ptr>)
    requires Inv(s) && gone <= s.heap.Keys
    ensures s.addrmap - (set q | q in gone :: s.heap[q].addrinfo) ==
      (map b | b in s.addrmap && s.addrmap[b] !in gone :: s.addrmap[b])
  {
    var addrs := set q | q in gone :: s.heap[q].addrinfo;
    forall b | b in s.addrmap
      ensures b in addrs <==> s.addrmap[b] in gone
    {
      assert s.heap[s.addrmap[b]].addrinfo == b;
      if b in addrs {
        var q :| q in gone && s.heap[q].addrinfo == b;
        assert q in s.heap && s.addrmap[s.heap[q].addrinfo] == q;
        assert s.addrmap[b] in gone;
      }
      if s.addrmap[b] in gone {
        var q := s.addrmap[b];
        assert q in gone && s.heap[q].addrinfo == b;
        assert b in addrs;
      }
    }
    hide Inv;
  }

  // ---- whole runs ----

  /** One event handled to its end. The flags say which table accesses succeeded. */
  datatype Event =
    | Connect(addr: string, p: Ptr)
    | Close(addr: string, ok: bool)
    | Login(addr: string, msg: LoginMsg, checked: bool, ok: bool)
    | Logout(addr: string, ok: bool)

  ghost function Step(s: Registry, e: Event): Registry {
    match e
    case Connect(a, p) => ConnectStep(s, a, p)
    case Close(a, ok) => CloseStep(s, a, ok)
    case Login(a, m, checked, ok) => LoginStep(s, a, m, checked, ok)
    case Logout(a, ok) => LogoutStep(s, a, ok)
  }

  ghost function Run(s: Registry, es: seq<Event>): Registry
    decreases |es|
  {
    if es == [] then s else Step(Run(s, es[..|es| - 1]), es[|es| - 1])
  }

  /** The allocator never returns an address that is in use. */
  ghost predicate Allowed(s: Registry, es: seq<Event>)
    decreases |es|
  {
    es == [] ||
    (var e := es[|es| - 1];
     var before := es[..|es| - 1];
     Allowed(s, before) && (e.Connect? ==> e.p !in Run(s, before).heap))
  }

  /** User names hold no '@' after their first character, and every table write succeeds. */
  predicate Undisturbed(es: seq<Event>) {
    forall i | 0 <= i < |es| ::
      && (es[i].Login? ==> NameOk(es[i].msg.from) && es[i].ok)
      && (es[i].Close? ==> es[i].ok)
      && (es[i].Logout? ==> es[i].ok)
  }

  /** An empty registry over a table in which the start-up UPDATE left no row online. */
  predicate Start(s: Registry) {
    && s.heap == map[] && s.addrmap == map[] && s.usermap == map[] && s.loggedout == {}
    && forall j | j in s.online :: s.online[j] != 1
  }

  ghost predicate ReloginIn(s: Registry, e: Event) {
    e.Login? && Relogin(s, e.addr, e.checked)
  }

  lemma StepKeeps(s: Registry, e: Event)
    requires Inv(s)
    requires e.Connect? ==> e.p !in s.heap
    ensures Inv(Step(s, e)) <==> !ReloginIn(s, e)
    ensures EntriesLive(Step(s, e).heap, Step(s, e).usermap) <==> !ReloginIn(s, e)
  {
    match e {
      case Connect(a, p) => ConnectKeeps(s, a, p);
      case Close(a, ok) => CloseKeeps(s, a, ok);
      case Login(a, m, checked, ok) => LoginKeeps(s, a, m, checked, ok);
      case Logout(a, ok) => LogoutKeeps(s, a, ok);
    }
  }

  lemma StepMirrors(s: Registry, e: Event)
    requires Inv(s) && JidInv(s) && Mirror(s) && Undisturbed([e])
    requires e.Connect? ==> e.p !in s.heap
    ensures Inv(Step(s, e)) && JidInv(Step(s, e)) && Mirror(Step(s, e))
  {
    assert [e][0] == e;
    if e.Login? {
      GateIsUnlisted(s, e.addr);
    }
    StepKeeps(s, e);
    match e {
      case Connect(a, p) => ConnectMirrors(s, a, p);
      case Close(a, ok) => CloseMirrors(s, a);
      case Login(a, m, checked, ok) => LoginMirrors(s, a, m, checked);
      case Logout(a, ok) => LogoutMirrors(s, a);
    }
  }

  ghost predicate AgreeUpTo(s: Registry, es: seq<Event>, n: nat)
    requires n <= |es|
  {
    forall k | 0 <= k <= n :: Inv(Run(s, es[..k]))
  }

  ghost predicate LiveUpTo(s: Registry, es: seq<Event>, n: nat)
    requires n <= |es|
  {
    forall k | 0 <= k <= n :: EntriesLive(Run(s, es[..k]).heap, Run(s, es[..k]).usermap)
  }

  ghost predicate NoReloginUpTo(s: Registry, es: seq<Event>, n: nat)
    requires n <= |es|
  {
    forall k | 0 <= k < n :: !ReloginIn(Run(s, es[..k]), es[k])
  }

  lemma {:induction false} AllowedPrefix(s: Registry, es: seq<Event>, k: nat)
    requires Allowed(s, es) && k < |es|
    ensures Run(s, es[..k + 1]) == Step(Run(s, es[..k]), es[k])
    ensures es[k].Connect? ==> es[k].p !in Run(s, es[..k]).heap
    decreases |es|
  {
    hide Step;
    var n := |es| - 1;
    if k < n {
      AllowedPrefix(s, es[..n], k);
      assert es[..n][..k] == es[..k] && es[..n][..k + 1] == es[..k + 1];
    } else {
      assert es[..k + 1] == es;
    }
  }

  /** In every run of connect, login with kick-out, logout and close, with names of any kind, the two indexes agree
      at every moment, and every entry at every moment leads to a live object of its name and resource, if and only
      if no login is let through on a connection whose object is listed already. */
  lemma {:induction false} IndexesAgree(s: Registry, es: seq<Event>, n: nat)
    requires Start(s) && Allowed(s, es) && n <= |es|
    ensures AgreeUpTo(s, es, n) <==> NoReloginUpTo(s, es, n)
    ensures LiveUpTo(s, es, n) <==> NoReloginUpTo(s, es, n)
  {
    hide Step, Inv, EntriesLive, ReloginIn;
    if n == 0 {
      EmptyAgrees(s);
      InvIsLive(s);
      assert es[..0] == [];
    } else {
      IndexesAgree(s, es, n - 1);
      AllowedPrefix(s, es, n - 1);
      if NoReloginUpTo(s, es, n - 1) {
        assert Inv(Run(s, es[..n - 1]));
        StepKeeps(Run(s, es[..n - 1]), es[n - 1]);
      }
    }
  }

  lemma InvIsLive(s: Registry)
    requires Inv(s)
    ensures EntriesLive(s.heap, s.usermap)
  {
  }

  lemma EmptyAgrees(s: Registry)
    requires Start(s)
    ensures Inv(s) && JidInv(s) && Mirror(s)
  {
  }

  /** After any run whose table writes succeed, a row has status 1 exactly when a live connection is
      registered under that jid and has not logged out. */
  lemma {:induction false} TableMirrorsRegistry(s: Registry, es: seq<Event>)
    requires Start(s) && Allowed(s, es) && Undisturbed(es)
    ensures Inv(Run(s, es)) && JidInv(Run(s, es)) && Mirror(Run(s, es))
    ensures
      var t := Run(s, es);
      forall j | j in t.online ::
        t.online[j] == 1 <==> exists p :: Session(t, p) && p !in t.loggedout && t.heap[p].jid == j
    decreases |es|
  {
    hide Step, AddrInv, UserInv, JidInv;
    if es != [] {
      var before := es[..|es| - 1];
      TableMirrorsRegistry(s, before);
      assert Undisturbed([es[|es| - 1]]);
      StepMirrors(Run(s, before), es[|es| - 1]);
    } else {
      EmptyAgrees(s);
    }
    StatusOne(Run(s, es));
  }

  lemma StatusOne(s: Registry)
    requires Inv(s) && JidInv(s) && Mirror(s)
    ensures forall j | j in s.online ::
      s.online[j] == 1 <==> exists p :: Session(s, p) && p !in s.loggedout && s.heap[p].jid == j
  {
    forall j | j in s.online
      ensures s.online[j] == 1 <==> exists p :: Session(s, p) && p !in s.loggedout && s.heap[p].jid == j
    {
      if s.online[j] == 1 {
        var q := Owner(s, j);
        assert RowRight(s, q);
      }
      if p :| Session(s, p) && p !in s.loggedout && s.heap[p].jid == j {
        assert RowRight(s, p);
      }
    }
  }

  /** The close that arrives late for a kicked-out connection changes nothing at all. */
  lemma LateCloseIsNoop(s: Registry, a: string, m: LoginMsg, ok: bool, q: Ptr, late: bool)
    requires Inv(s) && AtGate(s, a) && q in Holder(s, AccountOf(a, m))
    ensures
      var t := LoginStep(s, a, m, true, ok);
      s.heap[q].addrinfo !in t.addrmap && CloseStep(t, s.heap[q].addrinfo, late) == t
  {
    RegisterIs(s, AccountOf(a, m));
  }

  // ---- what the assumptions on user names are for ----

  const NOBODY: Registry := Registry(map[], map[], map[], map[], {})

  /** The shortest such run: with an empty user name the gate lets a second login through on the same connection. */
  lemma EmptyNameLeavesDanglingPointer()
    ensures
      var s1 := ConnectStep(NOBODY, "x", 1);
      var s2 := LoginStep(s1, "x", LoginMsg("", "d", "r", "p", "XML"), true, true);
      var s3 := LoginStep(s2, "x", LoginMsg("bob", "d", "r", "p", "XML"), true, true);
      var s4 := CloseStep(s3, "x", true);
      Has(s4.usermap, "", "@d/r") && s4.usermap[""]["@d/r"] !in s4.heap
  {
    var m1 := LoginMsg("", "d", "r", "p", "XML");
    var m2 := LoginMsg("bob", "d", "r", "p", "XML");
    assert AccountOf("x", m1).resource == "@d/r";
    EmptyAgrees(NOBODY);
    ConnectKeeps(NOBODY, "x", 1);
    var s1 := ConnectStep(NOBODY, "x", 1);
    LoginKeeps(s1, "x", m1, true, true);
    var s2 := LoginStep(s1, "x", m1, true, true);
    assert s2.addrmap == map["x" := 1] && s2.heap == map[1 := AccountOf("x", m1)];
    hide RegisterStep, ConnectStep, Inv;
    ListedIff(s2, 1);
    ReloginLeavesDanglingPointer(s2, "x", m2, true, true);
  }
}
