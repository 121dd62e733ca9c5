/** The router: it learns the presence modules' addresses from im_module_info and relays every message
    unchanged to the module it names. */
module Router {
  import opened Text

  /** The connection to one presence module. */
  datatype Upstream = Upstream(ip: string, port: int)

  type Upstreams = map<string, Upstream>

  function UpstreamFor(addr: string): Upstream {
    var pos := FindChar(addr, ':');
    if pos < |addr| then Upstream(addr[..pos], Atoi(addr[pos + 1..])) else Upstream(addr, 0)
  }

  predicate HasPort(addr: string) {
    ':' in addr
  }

  /** A row on which the loop goes on without unlocking: a new address without a port. */
  predicate Sticks(m: Upstreams, addr: string) {
    addr !in m && !HasPort(addr)
  }

  /** What the timer's loop leaves. m_mutex is not recursive, so a Lock while it is held never returns: then
      `blocked`. */
  datatype Outcome = Outcome(known: Upstreams, locked: bool, blocked: bool)

  /** The loop, row by row. */
  function Walk(m: Upstreams, locked: bool, addrs: seq<string>): Outcome
    decreases |addrs|
  {
    if addrs == [] then Outcome(m, locked, false)
    else
      var before := Walk(m, locked, addrs[..|addrs| - 1]);
      var addr := addrs[|addrs| - 1];
      if before.blocked || before.locked then before.(blocked := true)
      else if addr in before.known then before
      else if !HasPort(addr) then before.(locked := true)
      else before.(known := before.known[addr := UpstreamFor(addr)])
  }

  /** The rows before the first one that sticks. */
  function Clear(m: Upstreams, addrs: seq<string>): (n: nat)
    ensures n <= |addrs|
    ensures forall i | 0 <= i < n :: !Sticks(m, addrs[i])
    ensures n < |addrs| ==> Sticks(m, addrs[n])
  {
    if addrs == [] then 0
    else
      var n := Clear(m, addrs[..|addrs| - 1]);
      if n < |addrs| - 1 || Sticks(m, addrs[|addrs| - 1]) then n else |addrs|
  }

  /** Started with the mutex free, the loop learns the addresses with a port before the first row that sticks and
      overwrites none; it ends with the mutex held if and only if some row sticks, and never ends if and only if
      another row follows that one. */
  lemma {:induction false} WalkIs(m: Upstreams, addrs: seq<string>)
    ensures
      var w, n := Walk(m, false, addrs), Clear(m, addrs);
      && (forall a :: a in w.known <==> a in m || (a in addrs[..n] && HasPort(a)))
      && (forall a | a in w.known :: w.known[a] == if a in m then m[a] else UpstreamFor(a))
      && (w.locked <==> n < |addrs|) && (w.blocked <==> n + 1 < |addrs|)
  {
    hide UpstreamFor;
    if addrs != [] {
      var k := |addrs| - 1;
      WalkIs(m, addrs[..k]);
      var n := Clear(m, addrs);
      if n <= k {
        assert addrs[..k][..n] == addrs[..n];
      } else {
        assert addrs[..n] == addrs[..k] + [addrs[k]] && addrs[..k][..k] == addrs[..k];
      }
    }
  }

  lemma {:induction false} HeldBlocks(m: Upstreams, addrs: seq<string>)
    ensures Walk(m, true, addrs) == Outcome(m, true, addrs != [])
  {
    if addrs != [] {
      HeldBlocks(m, addrs[..|addrs| - 1]);
    }
  }

  /** The timer gives back every lock it takes if and only if every new address has a ':'. */
  lemma ReleasedIff(m: Upstreams, addrs: seq<string>)
    ensures
      var w := Walk(m, false, addrs);
      !w.locked && !w.blocked <==> forall a | a in addrs :: a in m || HasPort(a)
  {
    WalkIs(m, addrs);
    var n := Clear(m, addrs);
    if n < |addrs| {
      assert addrs[n] in addrs;
    }
  }

  lemma ColonFound(addr: string)
    ensures HasPort(addr) <==> FindChar(addr, ':') < |addr|
  {
    assert addr[..|addr|] == addr;
  }

  /** An address that a presence module printed is learnt as that ip and port. */
  lemma PrintedAddress(ip: string, port: nat)
    requires ':' !in ip
    ensures HasPort(ip + ":" + Dec(port)) && UpstreamFor(ip + ":" + Dec(port)) == Upstream(ip, port)
  {
    var addr := ip + ":" + Dec(port);
    assert addr == ip + (":" + Dec(port));
    FindCharAfter(ip, ':', ":" + Dec(port));
    assert addr[|ip|] == ':';
    assert addr[|ip| + 1..] == Dec(port) + "";
    AtoiDec(port, "");
  }

  class TSSModule {
    var upstreammap: Upstreams
    /** Whether m_mutex is held. */
    var locked: bool
    /** How often the timer has run to its end. */
    var count: nat

    ghost function Now(): State
      reads this
    {
      State(upstreammap, locked, count)
    }

    constructor ()
      ensures upstreammap == map[] && !locked && count == 0
    {
      upstreammap, locked, count := map[], false, 0;
    }

    method Lock() returns (blocked: bool)
      modifies this`locked
      ensures locked && (blocked <==> old(locked))
    {
      blocked := locked;
      locked := true;
    }

    method Unlock()
      modifies this`locked
      ensures !locked
    {
      locked := false;
    }

    /** Every 180th turn whose query works. A row whose address has no ':' makes the source continue before it
        unlocks. When it blocks, the thread never comes back. */
    method ProcessTimer(read: bool, rows: seq<string>) returns (blocked: bool)
      modifies this
      ensures
        var w := if old(count) % 180 == 0 && read then Walk(old(upstreammap), old(locked), rows)
                 else Outcome(old(upstreammap), old(locked), false);
        upstreammap == w.known && locked == w.locked && blocked == w.blocked
      ensures count == if blocked then old(count) else old(count) + 1
      ensures Now() == After(old(Now()), Timer(read, rows))
    {
      blocked := false;
      if count % 180 == 0 && read {
        ghost var before, held := upstreammap, locked;
        var index := 0;
        while index < |rows|
          invariant 0 <= index <= |rows| && count == old(count)
          invariant Walk(before, held, rows[..index]) == Outcome(upstreammap, locked, false)
        {
          assert rows[..index + 1][..index] == rows[..index];
          var addr := rows[index];
          index := index + 1;
          blocked := Lock();
          if blocked {
            StaysBlocked(before, held, rows, index);
            return;
          }
          if addr !in upstreammap {
            ColonFound(addr);
            var pos := FindChar(addr, ':');
            if pos == |addr| {
              continue;
            }
            var ip := addr[..pos];
            var port := Atoi(addr[pos + 1..]);
            upstreammap := upstreammap[addr := Upstream(ip, port)];
          }
          Unlock();
        }
        assert rows[..index] == rows;
      }
      count := count + 1;
    }

    /** Acknowledgements, chats and close requests all leave the same way: to the module they name, byte for
        byte, or nowhere while that module is not known or the mutex is never given back. */
    method Transform(moduleaddr: string, sendbuf: string) returns (blocked: bool, out: seq<(Upstream, string)>)
      modifies this`locked
      ensures locked == old(locked) && (blocked <==> old(locked))
      ensures |out| <= 1 && (out != [] <==> moduleaddr in upstreammap && !old(locked))
      ensures forall o | o in out :: moduleaddr in upstreammap && o.0 == upstreammap[moduleaddr] && o.1 == sendbuf
      ensures out == Sent(old(Now()), Relay(moduleaddr, sendbuf)) && upstreammap == old(upstreammap)
    {
      out := [];
      blocked := Lock();
      if blocked {
        return;
      }
      if moduleaddr in upstreammap {
        out := [(upstreammap[moduleaddr], sendbuf)];
      }
      Unlock();
    }
  }

  lemma {:induction false} StaysBlocked(m: Upstreams, locked: bool, addrs: seq<string>, k: nat)
    requires k <= |addrs| && Walk(m, locked, addrs[..k]).blocked
    ensures Walk(m, locked, addrs) == Walk(m, locked, addrs[..k])
    decreases |addrs|
  {
    if k < |addrs| {
      var init := addrs[..|addrs| - 1];
      assert init[..k] == addrs[..k];
      StaysBlocked(m, locked, init, k);
    } else {
      assert addrs[..k] == addrs;
    }
  }

  /** After a timer run that saw the row of a module not known before, what is relayed to that module goes to the
      ip and port it printed there, if and only if no new address in that run was without a ':'; otherwise it
      blocks. */
  method RelayAfterTimer(ss: TSSModule, rows: seq<string>, ip: string, port: nat, sendbuf: string)
    returns (out: seq<(Upstream, string)>)
    requires ':' !in ip && ip + ":" + Dec(port) in rows && ip + ":" + Dec(port) !in ss.upstreammap
    requires !ss.locked && ss.count % 180 == 0
    modifies ss
    ensures out ==
      if forall a | a in rows :: a in old(ss.upstreammap) || HasPort(a) then [(Upstream(ip, port), sendbuf)] else []
  {
    PrintedAddress(ip, port);
    WalkIs(ss.upstreammap, rows);
    ReleasedIff(ss.upstreammap, rows);
    assert rows[..|rows|] == rows;
    out := [];
    var blocked := ss.ProcessTimer(true, rows);
    if !blocked {
      blocked, out := ss.Transform(ip + ":" + Dec(port), sendbuf);
      if !blocked {
        assert out[0] in out;
      }
    }
  }

  // ---- whole runs ----

  datatype State = State(known: Upstreams, locked: bool, count: nat)

  datatype Op = Timer(read: bool, rows: seq<string>) | Relay(moduleaddr: string, sendbuf: string)

  /** A thread that blocks leaves the rest of its work undone. */
  function After(s: State, op: Op): State {
    match op
    case Timer(read, rows) =>
      if s.count % 180 == 0 && read then
        var w := Walk(s.known, s.locked, rows);
        State(w.known, w.locked, if w.blocked then s.count else s.count + 1)
      else s.(count := s.count + 1)
    case Relay(_, _) => s
  }

  /** What leaves the router. */
  function Sent(s: State, op: Op): seq<(Upstream, string)> {
    if op.Relay? && !s.locked && op.moduleaddr in s.known then [(s.known[op.moduleaddr], op.sendbuf)] else []
  }

  function Run(s: State, ops: seq<Op>): State {
    if ops == [] then s else After(Run(s, ops[..|ops| - 1]), ops[|ops| - 1])
  }

  /** A timer call that reads the table and meets a new address without a ':'. */
  ghost predicate SticksAt(s: State, op: Op) {
    op.Timer? && s.count % 180 == 0 && op.read && exists a :: a in op.rows && Sticks(s.known, a)
  }

  lemma AfterLocked(s: State, op: Op)
    ensures After(s, op).locked <==> s.locked || SticksAt(s, op)
  {
    if op.Timer? {
      HeldBlocks(s.known, op.rows);
      WalkIs(s.known, op.rows);
      ReleasedIff(s.known, op.rows);
    }
  }

  /** Some timer call of the run met such an address. */
  ghost predicate StuckIn(s: State, ops: seq<Op>) {
    exists k :: 0 <= k < |ops| && SticksAt(Run(s, ops[..k]), ops[k])
  }

  lemma StuckSnoc(s: State, ops: seq<Op>)
    requires ops != []
    ensures
      var n := |ops| - 1;
      StuckIn(s, ops) <==> StuckIn(s, ops[..n]) || SticksAt(Run(s, ops[..n]), ops[n])
  {
    hide Run, SticksAt;
    var n := |ops| - 1;
    if StuckIn(s, ops) {
      var k :| 0 <= k < |ops| && SticksAt(Run(s, ops[..k]), ops[k]);
      if k < n {
        assert ops[..n][..k] == ops[..k] && ops[..n][k] == ops[k];
      }
    }
    if StuckIn(s, ops[..n]) {
      var k :| 0 <= k < n && SticksAt(Run(s, ops[..n][..k]), ops[..n][k]);
      assert ops[..n][..k] == ops[..k] && ops[..n][k] == ops[k];
    }
  }

  /** Over any run that starts with the mutex free, it is free at the end if and only if no timer call on the way
      met a new address without a ':'. Once one did, nothing is ever relayed again. */
  lemma {:induction false} FreeIff(s: State, ops: seq<Op>)
    requires !s.locked
    ensures Run(s, ops).locked <==> StuckIn(s, ops)
    ensures Run(s, ops).locked ==> forall op :: Sent(Run(s, ops), op) == []
  {
    hide After, SticksAt, StuckIn;
    if ops != [] {
      var n := |ops| - 1;
      FreeIff(s, ops[..n]);
      AfterLocked(Run(s, ops[..n]), ops[n]);
      StuckSnoc(s, ops);
    } else {
      NotYetStuck(s);
    }
  }

  lemma NotYetStuck(s: State)
    ensures !StuckIn(s, [])
  {
  }

  /** With the mutex free a message leaves exactly when its module is known, for that module and unchanged; and the
      timer counts the calls it comes back from. */
  lemma WhatIsSent(s: State, op: Op)
    ensures op.Relay? && !s.locked && op.moduleaddr in s.known ==>
      Sent(s, op) == [(s.known[op.moduleaddr], op.sendbuf)]
    ensures op.Relay? && (s.locked || op.moduleaddr !in s.known) ==> Sent(s, op) == []
    ensures op.Timer? ==> After(s, op).count == s.count || After(s, op).count == s.count + 1
    ensures op.Timer? && !s.locked ==>
      (var sticks := exists i :: 0 <= i < |op.rows| - 1 && Sticks(s.known, op.rows[i]);
       After(s, op).count == s.count <==> s.count % 180 == 0 && op.read && sticks)
  {
    if op.Timer? {
      WalkIs(s.known, op.rows);
      var n := Clear(s.known, op.rows);
      if n + 1 < |op.rows| {
        assert 0 <= n < |op.rows| - 1 && Sticks(s.known, op.rows[n]);
      }
    }
  }

  /** So what a module is sent is what the router was given for it, to the address it printed, for as long as no
      such row was met. */
  lemma {:induction false} KnownIs(s: State, ops: seq<Op>, a: string)
    requires s.known == map[] && a in Run(s, ops).known
    ensures HasPort(a) && Run(s, ops).known[a] == UpstreamFor(a)
    ensures exists k :: 0 <= k < |ops| && ops[k].Timer? && ops[k].read && a in ops[k].rows
  {
    hide UpstreamFor;
    var n := |ops| - 1;
    var t := Run(s, ops[..n]);
    if a in t.known {
      KnownIs(s, ops[..n], a);
      var k :| 0 <= k < n && ops[..n][k].Timer? && ops[..n][k].read && a in ops[..n][k].rows;
      assert ops[k] == ops[..n][k];
    }
    if ops[n].Timer? {
      WalkIs(t.known, ops[n].rows);
      HeldBlocks(t.known, ops[n].rows);
    }
  }
}
