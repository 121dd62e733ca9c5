/** The printed address "fd_ip:port@service_time" by which packets, queues and the socket map name a
    connection, and the parser that takes it apart again. */
module AddrInfo {
  import opened Text

  datatype Parsed = Broken | Parts(fd: int, ip: string, port: int)

  const MAX_PRINTED: nat := 127

  function Head(fd: nat, ip: string): string {
    Dec(fd) + "_" + ip
  }

  function Full(fd: nat, ip: string, port: nat, tail: string): string {
    Head(fd, ip) + (":" + (Dec(port) + ("@" + tail)))
  }

  /** snprintf into the 128-byte buffer keeps at most 127 characters; `tail` is "service_time". */
  function Print(fd: nat, ip: string, port: nat, tail: string): (s: string) {
    var full := Full(fd, ip, port, tail);
    if |full| <= MAX_PRINTED then full else full[..MAX_PRINTED]
  }

  /** Descriptor, "_", ip, ":", port, "@" and tail, cut behind 127 characters. */
  lemma PrintIs(fd: nat, ip: string, port: nat, tail: string)
    ensures
      var full := Dec(fd) + "_" + ip + ":" + Dec(port) + "@" + tail;
      Print(fd, ip, port, tail) == if |full| > 127 then full[..127] else full
  {
    Regrouped(Dec(fd) + "_" + ip, Dec(port), tail);
    hide Dec;
  }

  lemma Regrouped(head: string, port: string, tail: string)
    ensures head + (":" + (port + ("@" + tail))) == head + ":" + port + "@" + tail
  {
    assert ":" + (port + ("@" + tail)) == ":" + port + "@" + tail;
  }

  /** Broken stands for the null pointers the parser would compute with when '_' or ':' is missing. */
  function Parse(s: string): Parsed {
    var subip := FindChar(s, '_');
    var subport := FindChar(s, ':');
    if subport == |s| || subport <= subip then Broken
    else Parts(Atoi(s), s[subip + 1..subport], Atoi(s[subport + 1..]))
  }

  /** What must survive the buffer: everything up to the end of the port, but a lone 0 may be lost. */
  predicate Fits(fd: nat, ip: string, port: nat) {
    |Dec(fd)| + |ip| + 2 + (if port == 0 then 0 else |Dec(port)|) <= MAX_PRINTED
  }

  lemma FindColon(fd: nat, ip: string, rest: string)
    requires ':' !in ip
    ensures FindChar(Head(fd, ip) + (":" + rest), ':') == |Head(fd, ip)|
    ensures FindChar(Head(fd, ip) + (":" + rest), '_') == |Dec(fd)|
    ensures Atoi(Head(fd, ip) + (":" + rest)) == fd
  {
    var n, tail := Dec(fd), "_" + (ip + (":" + rest));
    assert ':' !in n && '_' !in n;
    hide Head, Dec, FindChar, Atoi;
    assert ':' !in Head(fd, ip);
    FindCharAfter(Head(fd, ip), ':', ":" + rest);
    assert Head(fd, ip) + (":" + rest) == n + tail;
    FindCharAfter(n, '_', tail);
    AtoiDec(fd, tail);
  }

  lemma Slices(s: string, a: string, b: string, c: string)
    requires s == (a + "_" + b) + (":" + c)
    ensures |s| == |a| + |b| + |c| + 2
    ensures s[|a| + 1..|a| + 1 + |b|] == b && s[|a| + 1 + |b| + 1..] == c
  {
  }

  lemma ParseBetween(s: string, i: nat, j: nat)
    requires FindChar(s, '_') == i < j == FindChar(s, ':') < |s|
    ensures Parse(s) == Parts(Atoi(s), s[i + 1..j], Atoi(s[j + 1..]))
  {
    hide Atoi, FindChar;
  }

  /** Parsing an address whose head survived: fd and ip are right, the port is what atoi finds. */
  lemma ParseHead(fd: nat, ip: string, rest: string)
    requires ':' !in ip
    ensures Parse(Head(fd, ip) + (":" + rest)) == Parts(fd, ip, Atoi(rest))
  {
    hide Atoi, FindChar, Dec, Parse;
    var s := Head(fd, ip) + (":" + rest);
    var i := |Dec(fd)|;
    var j := i + 1 + |ip|;
    FindColon(fd, ip, rest);
    Slices(s, Dec(fd), ip, rest);
    hide Head;
    ParseBetween(s, i, j);
  }

  lemma HeadCut(fd: nat, ip: string, port: nat, tail: string)
    requires ':' !in ip && |Head(fd, ip)| + 1 > MAX_PRINTED
    ensures Parse(Print(fd, ip, port, tail)) == Broken
  {
    var s := Print(fd, ip, port, tail);
    assert s == Head(fd, ip)[..MAX_PRINTED];
  }

  /** How much of what follows the ':' is printed. */
  function Rest(fd: nat, ip: string, port: nat, tail: string): string {
    var rest := Dec(port) + ("@" + tail);
    var room := MAX_PRINTED - |Head(fd, ip)| - 1;
    if room < 0 then "" else if |rest| <= room then rest else rest[..room]
  }

  lemma PrintHead(fd: nat, ip: string, port: nat, tail: string)
    requires |Head(fd, ip)| + 1 <= MAX_PRINTED
    ensures Print(fd, ip, port, tail) == Head(fd, ip) + (":" + Rest(fd, ip, port, tail))
  {
  }

  lemma PortReads(fd: nat, ip: string, port: nat, tail: string)
    requires |Head(fd, ip)| + 1 <= MAX_PRINTED
    ensures Atoi(Rest(fd, ip, port, tail)) == port <==> Fits(fd, ip, port)
  {
    var rest := Rest(fd, ip, port, tail);
    if |Head(fd, ip)| + 1 + |Dec(port)| <= MAX_PRINTED {
      var after := rest[|Dec(port)|..];
      assert rest == Dec(port) + after;
      assert after == "" || after[0] == '@';
      AtoiDec(port, after);
    } else {
      var j := MAX_PRINTED - |Head(fd, ip)| - 1;
      assert rest == Dec(port)[..j];
      AtoiDecCut(port, j);
    }
  }

  /** Taking a printed address apart gives back its fd, ip and port exactly when they fit the buffer. */
  lemma RoundTrip(fd: nat, ip: string, port: nat, tail: string)
    requires ':' !in ip
    ensures Parse(Print(fd, ip, port, tail)) == Parts(fd, ip, port) <==> Fits(fd, ip, port)
  {
    hide Print, Parse, Rest;
    if |Head(fd, ip)| + 1 > MAX_PRINTED {
      HeadCut(fd, ip, port, tail);
    } else {
      PrintHead(fd, ip, port, tail);
      ParseHead(fd, ip, Rest(fd, ip, port, tail));
      PortReads(fd, ip, port, tail);
    }
  }

  /** The fd alone is read back from every printed address, cut or not, as long as the fd fits; so the
      accept, send and receive queues of a connection share one index. */
  lemma FdReadsBack(fd: nat, ip: string, port: nat, tail: string)
    requires |Dec(fd)| <= MAX_PRINTED
    ensures Atoi(Print(fd, ip, port, tail)) == fd
  {
    hide Atoi, Dec;
    var s := Print(fd, ip, port, tail);
    var rest := s[|Dec(fd)|..];
    assert Full(fd, ip, port, tail) == Dec(fd) + ("_" + (ip + (":" + (Dec(port) + ("@" + tail)))));
    assert s == Dec(fd) + rest;
    assert rest == "" || rest[0] == '_';
    AtoiDec(fd, rest);
  }
}
