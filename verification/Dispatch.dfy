/** The dispatcher: modules by version and name, kept in maps ordered by key, and the search for the
    greatest version that is not above the one a client asks for. */
module Dispatch {
  import opened Text

  // ---- std::map with string keys: pairs in ascending order of their keys ----

  datatype Pair<V> = Pair(key: string, val: V)

  predicate Sorted<V>(m: seq<Pair<V>>) {
    forall i, j | 0 <= i < j < |m| :: Less(m[i].key, m[j].key)
  }

  /** map::find, or the size when the key is absent. */
  function Find<V>(m: seq<Pair<V>>, key: string): (i: nat)
    ensures i <= |m|
    ensures i < |m| ==> m[i].key == key
    ensures forall j | 0 <= j < i :: m[j].key != key
  {
    if m == [] || m[0].key == key then 0 else 1 + Find(m[1..], key)
  }

  // ---- the pool ----

  type Modules = seq<Pair<seq<string>>>
  type Pool = seq<Pair<Modules>>

  /** Exactly two modules, both with something to offer. */
  predicate Complete(m: Modules) {
    |m| == 2 && m[0].val != [] && m[1].val != []
  }

  /** hash is a C int and the size a 64-bit unsigned number, so a negative hash wraps around. */
  function Choose(hash: int, infos: seq<string>): string
    requires infos != []
  {
    infos[(hash % 0x1_0000_0000_0000_0000) % |infos|]
  }

  function PoolInfo(m: Modules, hash: int): string
    requires Complete(m)
  {
    "<poolinfo>" + Choose(hash, m[0].val) + Choose(hash, m[1].val) + "</poolinfo>"
  }

  /** The text is made of the i-th info of the first module and the j-th of the second. */
  predicate MadeOf(poolinfo: string, m: Modules, i: nat, j: nat) {
    && |m| == 2 && i < |m[0].val| && j < |m[1].val|
    && poolinfo == "<poolinfo>" + m[0].val[i] + m[1].val[j] + "</poolinfo>"
  }

  /** Both places follow from the hash: it counts round the list, and as an unsigned 64-bit number when negative. */
  lemma HashChooses(m: Modules, hash: int)
    requires Complete(m) && -0x8000_0000 <= hash < 0x8000_0000
    ensures
      var h := if hash >= 0 then hash else 0x1_0000_0000_0000_0000 + hash;
      MadeOf(PoolInfo(m, hash), m, h % |m[0].val|, h % |m[1].val|)
    ensures 0 <= hash < |m[0].val| && hash < |m[1].val| ==> MadeOf(PoolInfo(m, hash), m, hash, hash)
  {
    ChosenIs(m[0].val, hash);
    ChosenIs(m[1].val, hash);
    hide Choose;
  }

  lemma ChosenIs(infos: seq<string>, hash: int)
    requires infos != [] && -0x8000_0000 <= hash < 0x8000_0000
    ensures
      var h := if hash >= 0 then hash else 0x1_0000_0000_0000_0000 + hash;
      0 <= h % |infos| < |infos| && Choose(hash, infos) == infos[h % |infos|]
    ensures 0 <= hash < |infos| ==> Choose(hash, infos) == infos[hash]
  {
    Unsigned(hash);
    if 0 <= hash < |infos| {
      Below(hash, |infos|);
    }
  }

  lemma Below(h: nat, n: nat)
    requires h < n
    ensures h % n == h
  {
  }

  lemma Unsigned(hash: int)
    requires -0x8000_0000 <= hash < 0x8000_0000
    ensures hash % 0x1_0000_0000_0000_0000 == if hash >= 0 then hash else 0x1_0000_0000_0000_0000 + hash
  {
  }

  /** Hashes that differ by a multiple of both lengths are answered alike. */
  lemma SameChoice(m: Modules, hash: int, other: int, k: nat, l: nat)
    requires Complete(m) && 0 <= hash <= other < 0x8000_0000
    requires other == hash + k * |m[0].val| == hash + l * |m[1].val|
    ensures PoolInfo(m, other) == PoolInfo(m, hash)
  {
    Unsigned(hash);
    Unsigned(other);
    Round(hash, k, |m[0].val|);
    Round(hash, l, |m[1].val|);
  }

  lemma {:induction false} Round(h: nat, k: nat, n: nat)
    requires n > 0
    ensures (h + k * n) % n == h % n
  {
    if k > 0 {
      Round(h, k - 1, n);
      assert h + k * n == (h + (k - 1) * n) + n;
      OneRound(h + (k - 1) * n, n);
    }
  }

  lemma OneRound(h: nat, n: nat)
    requires n > 0
    ensures (h + n) % n == h % n
  {
    var q, p := h / n, (h + n) / n;
    assert (p - q - 1) * n == h % n - (h + n) % n by {
      assert h == q * n + h % n && h + n == p * n + (h + n) % n;
    }
    Times(p - q - 1, n);
  }

  lemma Times(k: int, n: nat)
    ensures k >= 1 ==> k * n >= n
    ensures k <= -1 ==> k * n + n <= 0
  {
  }

  /** get_pool_info; what the caller passes in stays when there are not two modules. */
  method GetInfo(initial: string, hash: int, modulemap: Modules) returns (poolinfo: string)
    requires -0x8000_0000 <= hash < 0x8000_0000
    ensures |modulemap| != 2 ==> poolinfo == initial
    ensures |modulemap| == 2 && !Complete(modulemap) ==> poolinfo == ""
    ensures Complete(modulemap) ==> poolinfo == PoolInfo(modulemap, hash)
    ensures Complete(modulemap) ==>
      var h := if hash >= 0 then hash else 0x1_0000_0000_0000_0000 + hash;
      MadeOf(poolinfo, modulemap, h % |modulemap[0].val|, h % |modulemap[1].val|)
  {
    if Complete(modulemap) {
      HashChooses(modulemap, hash);
    }
    poolinfo := initial;
    if |modulemap| == 2 {
      poolinfo := "<poolinfo>";
      var it := 0;
      while it < |modulemap|
        invariant 0 <= it <= 2
        invariant forall k | 0 <= k < it :: modulemap[k].val != []
        invariant poolinfo == "<poolinfo>" + (if it > 0 then Choose(hash, modulemap[0].val) else "")
                            + (if it > 1 then Choose(hash, modulemap[1].val) else "")
      {
        var size := |modulemap[it].val|;
        if size == 0 {
          return "";
        }
        poolinfo := poolinfo + modulemap[it].val[(hash % 0x1_0000_0000_0000_0000) % size];
        it := it + 1;
      }
      poolinfo := poolinfo + "</poolinfo>";
    }
  }

  /** Entry i has the greatest key that is not above the version. */
  ghost predicate IsBest(pool: Pool, version: string, i: int) {
    && 0 <= i < |pool| && !Less(version, pool[i].key)
    && forall j | 0 <= j < |pool| && !Less(version, pool[j].key) :: !Less(pool[i].key, pool[j].key)
  }

  lemma FoundIsBest(pool: Pool, version: string)
    requires Sorted(pool) && Find(pool, version) < |pool|
    ensures IsBest(pool, version, Find(pool, version))
  {
    var i := Find(pool, version);
    if Less(version, version) {
      LessOneWay(version, version);
    }
  }

  lemma LastIsBest(pool: Pool, version: string)
    requires Sorted(pool) && pool != [] && Less(pool[|pool| - 1].key, version)
    ensures IsBest(pool, version, |pool| - 1)
  {
    LessOneWay(pool[|pool| - 1].key, version);
    forall j | 0 <= j < |pool|
      ensures !Less(pool[|pool| - 1].key, pool[j].key)
    {
      NotAfter(pool, j, |pool| - 1);
    }
  }

  lemma NotAfter<V>(m: seq<Pair<V>>, i: nat, j: nat)
    requires Sorted(m) && i <= j < |m|
    ensures !Less(m[j].key, m[i].key)
  {
    if i < j {
      LessOneWay(m[i].key, m[j].key);
    } else if Less(m[i].key, m[i].key) {
      LessOneWay(m[i].key, m[i].key);
    }
  }

  lemma StopIsBest(pool: Pool, version: string, i: nat)
    requires Sorted(pool) && 0 < i < |pool| && Less(version, pool[i].key) && !Less(version, pool[i - 1].key)
    ensures IsBest(pool, version, i - 1)
  {
    forall j | 0 <= j < |pool| && !Less(version, pool[j].key)
      ensures !Less(pool[i - 1].key, pool[j].key)
    {
      if j >= i {
        if j > i {
          LessThrough(version, pool[i].key, pool[j].key);
        }
      } else {
        NotAfter(pool, j, i - 1);
      }
    }
  }

  lemma NoneIsBest(pool: Pool, version: string)
    requires Sorted(pool) && (pool == [] || Less(version, pool[0].key))
    ensures forall i :: !IsBest(pool, version, i)
  {
    forall i | 0 <= i < |pool|
      ensures Less(version, pool[i].key)
    {
      if i > 0 {
        LessThrough(version, pool[0].key, pool[i].key);
      }
    }
  }

  /** What the client is owed. */
  ghost predicate Answers(pool: Pool, version: string, hash: int, ok: bool, poolinfo: string) {
    && (ok <==> exists i :: IsBest(pool, version, i) && Complete(pool[i].val))
    && (ok ==> forall i | IsBest(pool, version, i) ::
          && Complete(pool[i].val)
          && var h := if hash >= 0 then hash else 0x1_0000_0000_0000_0000 + hash;
             MadeOf(poolinfo, pool[i].val, h % |pool[i].val[0].val|, h % |pool[i].val[1].val|))
  }

  class TGDModule {
    var poolmap: Pool
    var pubinfo: string
    var count: nat
    /** m_mutex is held. */
    var locked: bool

    ghost predicate Valid()
      reads this
    {
      Sorted(poolmap)
    }

    constructor ()
      ensures Valid() && poolmap == [] && pubinfo == "" && count == 0 && !locked
    {
      poolmap, pubinfo, count, locked := [], "", 0, false;
    }

    method Lock()
      requires !locked
      modifies this`locked
      ensures locked
    {
      locked := true;
    }

    method Unlock()
      requires locked
      modifies this`locked
      ensures !locked
    {
      locked := false;
    }

    /** Every 180th turn, and as long as the pool is empty, the timer replaces the whole pool and the public
        information with what the two queries say now. */
    method ProcessTimer(rows: seq<ModuleRow>, external: string -> External, pub: string)
      requires Valid() && !locked
      modifies this
      ensures Valid() && !locked && count == old(count) + 1
      ensures
        var due := old(count) % 180 == 0 || old(poolmap) == [];
        && poolmap == (if due then Build(Translated(rows, external)) else old(poolmap))
        && pubinfo == (if due then pub else old(pubinfo))
    {
      if count % 180 == 0 || poolmap == [] {
        var pool := GetModules(rows, external);
        Lock();
        pubinfo := pub;
        poolmap := pool;
        Unlock();
      }
      count := count + 1;
    }

    /** Every return unlocks; the last line of the source, which does not, is never reached, because the scan
        always meets a key above the version. */
    method GetPoolInfo(hash: int, version: string) returns (ok: bool, poolinfo: string)
      requires Valid() && !locked && -0x8000_0000 <= hash < 0x8000_0000
      modifies this`locked
      ensures !locked
      ensures Answers(poolmap, version, hash, ok, poolinfo)
    {
      hide Less, Sorted, Complete, PoolInfo, IsBest, Answers;
      ok, poolinfo := false, "";
      Lock();
      if poolmap == [] {
        Unlock();
        NoneIsBest(poolmap, version);
        NoAnswer(poolmap, version, hash);
        return;
      }
      var it := Find(poolmap, version);
      if it < |poolmap| {
        FoundIsBest(poolmap, version);
        ok, poolinfo := Take(hash, version, it);
        return;
      }
      if Less(version, poolmap[0].key) {
        Unlock();
        NoneIsBest(poolmap, version);
        NoAnswer(poolmap, version, hash);
        return;
      }
      it := |poolmap| - 1;
      if Less(poolmap[it].key, version) {
        LastIsBest(poolmap, version);
        ok, poolinfo := Take(hash, version, it);
        return;
      }
      LessTotal(poolmap[it].key, version);
      it := 0;
      while it < |poolmap|
        invariant 0 <= it <= |poolmap| && locked
        invariant forall j | 0 <= j < it :: !Less(version, poolmap[j].key)
      {
        if Less(version, poolmap[it].key) {
          StopIsBest(poolmap, version, it);
          it := it - 1;
          ok, poolinfo := Take(hash, version, it);
          return;
        }
        it := it + 1;
      }
      assert false;
    }

    /** The part the source repeats for each way of finding an entry. */
    method Take(hash: int, version: string, it: nat) returns (ok: bool, poolinfo: string)
      requires Valid() && locked && IsBest(poolmap, version, it) && -0x8000_0000 <= hash < 0x8000_0000
      modifies this`locked
      ensures !locked
      ensures Answers(poolmap, version, hash, ok, poolinfo)
    {
      var size := |poolmap[it].val|;
      if size > 0 {
        poolinfo := GetInfo("", hash, poolmap[it].val);
        Unlock();
        ok := poolinfo != "";
      } else {
        Unlock();
        ok, poolinfo := false, "";
      }
    }
  }

  lemma NoAnswer(pool: Pool, version: string, hash: int)
    requires forall i :: !IsBest(pool, version, i)
    ensures Answers(pool, version, hash, false, "")
  {
  }

  // ---- filling the pool ----

  /** A row of im_module_info with its address already translated; `alive` says that it was updated lately. */
  datatype ModuleRow = ModuleRow(version: string, alive: bool, addr: string, name: string)

  function Get<V>(m: seq<Pair<V>>, key: string, default: V): V {
    if Find(m, key) < |m| then m[Find(m, key)].val else default
  }

  /** Sets the value of a key, and keeps the order. */
  function Put<V>(m: seq<Pair<V>>, key: string, val: V): (r: seq<Pair<V>>)
    ensures r != []
    ensures r[0].key == key || (m != [] && r[0].key == m[0].key && Less(r[0].key, key))
  {
    if m == [] || Less(key, m[0].key) then [Pair(key, val)] + m
    else if m[0].key == key then [Pair(key, val)] + m[1..]
    else LessTotal(m[0].key, key); [m[0]] + Put(m[1..], key, val)
  }

  lemma SortedTail<V>(m: seq<Pair<V>>)
    requires Sorted(m) && m != []
    ensures Sorted(m[1..]) && forall i | 0 <= i < |m[1..]| :: Less(m[0].key, m[1..][i].key)
  {
  }

  lemma SortedCons<V>(p: Pair<V>, m: seq<Pair<V>>)
    requires Sorted(m) && (m == [] || Less(p.key, m[0].key))
    ensures Sorted([p] + m)
  {
    forall i | 0 <= i < |m|
      ensures Less(p.key, m[i].key)
    {
      if i > 0 {
        LessThrough(p.key, m[0].key, m[i].key);
      }
    }
  }

  lemma {:induction false} PutSorted<V>(m: seq<Pair<V>>, key: string, val: V)
    requires Sorted(m)
    ensures Sorted(Put(m, key, val))
  {
    if m == [] || Less(key, m[0].key) {
      SortedCons(Pair(key, val), m);
    } else {
      SortedTail(m);
      if m[0].key == key {
        SortedCons(Pair(key, val), m[1..]);
      } else {
        LessTotal(m[0].key, key);
        PutSorted(m[1..], key, val);
        SortedCons(m[0], Put(m[1..], key, val));
      }
    }
  }

  lemma GetCons<V>(p: Pair<V>, m: seq<Pair<V>>, key: string, default: V)
    ensures Get([p] + m, key, default) == if p.key == key then p.val else Get(m, key, default)
  {
    assert ([p] + m)[1..] == m;
  }

  /** Put changes what Get finds for this key only. */
  lemma {:induction false} GetPut<V>(m: seq<Pair<V>>, key: string, val: V, other: string, default: V)
    requires Sorted(m)
    ensures Get(Put(m, key, val), other, default) == if other == key then val else Get(m, other, default)
  {
    hide Less, Sorted, Get, Find;
    if m == [] || Less(key, m[0].key) {
      GetCons(Pair(key, val), m, other, default);
    } else {
      assert m == [m[0]] + m[1..];
      GetCons(m[0], m[1..], other, default);
      if m[0].key == key {
        GetCons(Pair(key, val), m[1..], other, default);
      } else {
        SortedTail(m);
        GetPut(m[1..], key, val, other, default);
        GetCons(m[0], Put(m[1..], key, val), other, default);
      }
    }
  }

  function Info(name: string, addr: string): string {
    "<module name=\"" + name + "\" addr=\"" + addr + "\"/>"
  }

  /** One row. A live row without a name or an address only makes its version known. */
  function AddRow(pool: Pool, r: ModuleRow): Pool {
    if r.version == "" || !r.alive then pool
    else
      var modules := Get(pool, r.version, []);
      if r.name == "" || r.addr == "" then Put(pool, r.version, modules)
      else Put(pool, r.version, Put(modules, r.name, Get(modules, r.name, []) + [Info(r.name, r.addr)]))
  }

  function Build(rows: seq<ModuleRow>): Pool {
    if rows == [] then [] else AddRow(Build(rows[..|rows| - 1]), rows[|rows| - 1])
  }

  /** What the query for the external address of an internal one returned. */
  datatype External = Failed | Found(addrs: seq<string>)

  /** The address that is offered: the external one when there is one alone, none when there is not, and the row's own
      when the query fails. */
  function Offer(addr: string, external: string -> External): string {
    if addr == "" then ""
    else
      match external(addr)
      case Failed => addr
      case Found(addrs) => if |addrs| == 1 then addrs[0] else ""
  }

  /** Exactly one external address is offered in the place of an internal one; an unanswered query keeps it. */
  lemma OfferIs(addr: string, external: string -> External)
    ensures Offer("", external) == ""
    ensures addr != "" && external(addr).Failed? ==> Offer(addr, external) == addr
    ensures addr != "" && external(addr).Found? ==>
      if exists a :: external(addr).addrs == [a] then external(addr) == Found([Offer(addr, external)])
      else Offer(addr, external) == ""
  {
    if addr != "" && external(addr).Found? && |external(addr).addrs| == 1 {
      assert external(addr).addrs == [external(addr).addrs[0]];
    }
  }

  function Translated(rows: seq<ModuleRow>, external: string -> External): (r: seq<ModuleRow>)
    ensures |r| == |rows|
  {
    seq(|rows|, i requires 0 <= i < |rows| => rows[i].(addr := Offer(rows[i].addr, external)))
  }

  /** The rows are those of im_module_info, none when that query fails. */
  method GetModules(rows: seq<ModuleRow>, external: string -> External) returns (pool: Pool)
    ensures pool == Build(Translated(rows, external)) && Sorted(pool)
  {
    ghost var offers := Translated(rows, external);
    pool := [];
    var index := 0;
    while index < |rows|
      invariant 0 <= index <= |rows|
      invariant pool == Build(offers[..index])
    {
      assert offers[..index + 1][..index] == offers[..index];
      var r := rows[index];
      if r.version != "" && r.alive {
        var addr := r.addr;
        if addr != "" {
          var found := external(addr);
          if found.Found? {
            addr := if |found.addrs| == 1 then found.addrs[0] else "";
          }
        }
        assert offers[index] == r.(addr := addr);
        var modules := Get(pool, r.version, []);
        if r.name == "" || addr == "" {
          pool := Put(pool, r.version, modules);
        } else {
          pool := Put(pool, r.version, Put(modules, r.name, Get(modules, r.name, []) + [Info(r.name, addr)]));
        }
      }
      index := index + 1;
    }
    assert offers[..index] == offers;
    BuildSorted(offers);
  }

  /** The infos of the live rows of one version and name, in the order of the rows. */
  function Offered(rows: seq<ModuleRow>, version: string, name: string): seq<string> {
    if rows == [] then []
    else
      var r := rows[|rows| - 1];
      Offered(rows[..|rows| - 1], version, name)
      + (if r.alive && r.version == version && r.name == name && r.addr != ""
         then ["<module name=\"" + name + "\" addr=\"" + r.addr + "\"/>"] else [])
  }

  ghost predicate GoodPool(pool: Pool) {
    Sorted(pool) && forall i | 0 <= i < |pool| :: Sorted(pool[i].val)
  }

  lemma {:induction false} PutGood(pool: Pool, version: string, modules: Modules)
    requires GoodPool(pool) && Sorted(modules)
    ensures GoodPool(Put(pool, version, modules))
    decreases |pool|
  {
    PutSorted(pool, version, modules);
    if pool != [] && !Less(version, pool[0].key) && pool[0].key != version {
      SortedTail(pool);
      PutGood(pool[1..], version, modules);
    }
  }

  lemma {:induction false} BuildSorted(rows: seq<ModuleRow>)
    ensures GoodPool(Build(rows))
  {
    if rows != [] {
      var n := |rows| - 1;
      BuildSorted(rows[..n]);
      var pool, r := Build(rows[..n]), rows[n];
      var modules := Get(pool, r.version, []);
      PutSorted(modules, r.name, Get(modules, r.name, []) + [Info(r.name, r.addr)]);
      PutGood(pool, r.version, Put(modules, r.name, Get(modules, r.name, []) + [Info(r.name, r.addr)]));
      PutGood(pool, r.version, modules);
    }
  }

  /** The pool offers for every version and name what the live rows say, in their order. */
  lemma {:induction false} BuildOffers(rows: seq<ModuleRow>, version: string, name: string)
    requires version != "" && name != ""
    ensures Get(Get(Build(rows), version, []), name, []) == Offered(rows, version, name)
  {
    if rows != [] {
      var n := |rows| - 1;
      BuildOffers(rows[..n], version, name);
      BuildSorted(rows[..n]);
      var pool, r := Build(rows[..n]), rows[n];
      var modules := Get(pool, r.version, []);
      if r.version != "" && r.alive {
        var more := Get(modules, r.name, []) + [Info(r.name, r.addr)];
        GetPut(pool, r.version, modules, version, []);
        GetPut(pool, r.version, Put(modules, r.name, more), version, []);
        GetPut(modules, r.name, more, name, []);
      }
    }
  }

  predicate Known<V>(m: seq<Pair<V>>, key: string) {
    exists i :: 0 <= i < |m| && m[i].key == key
  }

  lemma {:induction false} KnownPut<V>(m: seq<Pair<V>>, key: string, val: V, other: string)
    ensures Known(Put(m, key, val), other) <==> other == key || Known(m, other)
  {
    hide Less;
    var r := Put(m, key, val);
    if m == [] || Less(key, m[0].key) {
      KnownCons(Pair(key, val), m, other);
    } else {
      assert m == [m[0]] + m[1..];
      KnownCons(m[0], m[1..], other);
      if m[0].key == key {
        KnownCons(Pair(key, val), m[1..], other);
      } else {
        KnownPut(m[1..], key, val, other);
        KnownCons(m[0], Put(m[1..], key, val), other);
      }
    }
  }

  lemma KnownCons<V>(p: Pair<V>, m: seq<Pair<V>>, other: string)
    ensures Known([p] + m, other) <==> other == p.key || Known(m, other)
  {
    var r := [p] + m;
    if Known(m, other) {
      var i :| 0 <= i < |m| && m[i].key == other;
      assert r[i + 1].key == other;
    }
    if other == p.key {
      assert r[0].key == other;
    }
    if Known(r, other) {
      var i :| 0 <= i < |r| && r[i].key == other;
      assert i > 0 ==> m[i - 1].key == other;
    }
  }

  ghost predicate LiveRow(rows: seq<ModuleRow>, version: string) {
    exists i :: 0 <= i < |rows| && rows[i].alive && rows[i].version == version
  }

  ghost predicate NamedRow(rows: seq<ModuleRow>, version: string, name: string) {
    exists i :: 0 <= i < |rows| && rows[i].alive && rows[i].version == version && rows[i].name == name
                && rows[i].addr != ""
  }

  lemma OneMoreRow(rows: seq<ModuleRow>, version: string, name: string)
    requires rows != []
    ensures
      var n := |rows| - 1;
      && (LiveRow(rows, version) <==> LiveRow(rows[..n], version) || (rows[n].alive && rows[n].version == version))
      && (NamedRow(rows, version, name)
          <==> (|| NamedRow(rows[..n], version, name)
                || (rows[n].alive && rows[n].version == version && rows[n].name == name && rows[n].addr != "")))
  {
    var n := |rows| - 1;
    if LiveRow(rows[..n], version) {
      var i :| 0 <= i < n && rows[..n][i].alive && rows[..n][i].version == version;
      assert rows[i].alive;
    }
    if NamedRow(rows[..n], version, name) {
      var i :| 0 <= i < n && rows[..n][i].alive && rows[..n][i].version == version && rows[..n][i].name == name
                && rows[..n][i].addr != "";
      assert rows[i].alive;
    }
    if LiveRow(rows, version) {
      var i :| 0 <= i < |rows| && rows[i].alive && rows[i].version == version;
      assert i < n ==> rows[..n][i].alive;
    }
    if NamedRow(rows, version, name) {
      var i :| 0 <= i < |rows| && rows[i].alive && rows[i].version == version && rows[i].name == name
                && rows[i].addr != "";
      assert i < n ==> rows[..n][i].alive;
    }
  }

  /** A version is known exactly when a live row has it, and a module of it exactly when such a row names the module and
      has an address. */
  lemma {:induction false} BuildKnows(rows: seq<ModuleRow>, version: string, name: string)
    requires version != "" && name != ""
    ensures Known(Build(rows), version) <==> LiveRow(rows, version)
    ensures Known(Get(Build(rows), version, []), name) <==> NamedRow(rows, version, name)
  {
    if rows != [] {
      var n := |rows| - 1;
      BuildKnows(rows[..n], version, name);
      BuildSorted(rows[..n]);
      OneMoreRow(rows, version, name);
      var pool, r := Build(rows[..n]), rows[n];
      hide LiveRow, NamedRow, Known;
      if r.version != "" && r.alive {
        var modules := Get(pool, r.version, []);
        var more := Get(modules, r.name, []) + [Info(r.name, r.addr)];
        GetPut(pool, r.version, modules, version, []);
        GetPut(pool, r.version, Put(modules, r.name, more), version, []);
        KnownPut(pool, r.version, modules, version);
        KnownPut(pool, r.version, Put(modules, r.name, more), version);
        KnownPut(modules, r.name, more, name);
      }
    }
  }
}
