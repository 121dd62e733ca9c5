/** LAN chat framing: every message travels as its Base64 length, an '@' and the Base64 text, and the
    receiver cuts frames from a buffer to which each signal appends. */
module LanChat {
  import opened Text
  import Base64
  import Codec = Base64Codec

  type Payload = seq<bv8>

  function Framed(text: string): string {
    Dec(|text|) + "@" + text
  }

  /** What SendLanChat sends for a payload. */
  function Frame(p: Payload): string {
    Framed(Base64.Encode(p))
  }

  function Frames(ps: seq<Payload>): string {
    if ps == [] then "" else Frames(ps[..|ps| - 1]) + Frame(ps[|ps| - 1])
  }

  /** The sender's side. An empty payload is not sent; for 1, 2 or 4 bytes the encoder leaves its buffer. */
  method SendLanChat(outstr: Payload) returns (inside: bool, sent: bool, sendbuffer: string)
    ensures inside <==> |outstr| !in {1, 2, 4}
    ensures inside ==> (sent <==> outstr != [])
    ensures sent ==> inside && sendbuffer == Frame(outstr)
    ensures sent ==> var text := Base64.Encode(outstr); sendbuffer == Dec(|text|) + "@" + text
  {
    sent, sendbuffer := false, "";
    var outlen, outbuf;
    inside, outlen, outbuf := Codec.EncodeAlloc(outstr);
    if inside && outlen > 0 {
      sendbuffer := Dec(outlen);
      sendbuffer := sendbuffer + "@";
      sendbuffer := sendbuffer + outbuf[..outlen];
      sent := true;
    }
  }

  datatype Delivery = Nothing | Message(payload: Payload)

  /** The text of the first frame in the buffer, if the whole of it is there. */
  datatype Cut = Waiting | Whole(text: string, length: nat)

  function FirstFrame(buf: string): (c: Cut)
    ensures c.Whole? ==> 0 < |c.text| < c.length <= |buf|
  {
    var pos := FindChar(buf, '@');
    var packlen := Atoi(buf);
    if pos < |buf| && packlen > 0 && packlen + pos + 1 <= |buf|
    then Whole(buf[pos + 1..pos + 1 + packlen], packlen + pos + 1)
    else Waiting
  }

  /** One signal: append, then cut at most one frame. A frame that decodes to nothing stays in the buffer. */
  function Signal(buf: string, str: string): (string, Delivery) {
    var b := buf + str;
    var c := FirstFrame(b);
    if c.Whole? && |Base64.LibDecode(c.text)| > 0
    then (b[c.length..], Message(Base64.LibDecode(c.text)))
    else (b, Nothing)
  }

  /** The decoder can read the first frame. */
  predicate Decodable(buf: string) {
    var c := FirstFrame(buf);
    c.Whole? && |c.text| >= 4 ==> |c.text| % 4 in {0, 3} && forall x | x in c.text :: x as int < 128
  }

  class CLanChat {
    var recvbuffer: string

    constructor ()
      ensures recvbuffer == ""
    {
      recvbuffer := "";
    }

    method ChatSignalHandler(str: string) returns (inside: bool, d: Delivery)
      modifies this
      ensures inside <==> Decodable(old(recvbuffer) + str)
      ensures inside ==> (recvbuffer, d) == Signal(old(recvbuffer), str)
    {
      hide Base64.LibDecode, Base64.AsciiGroups, Dec, Atoi, FindChar;
      inside, d := true, Nothing;
      recvbuffer := recvbuffer + str;
      var pos := FindChar(recvbuffer, '@');
      if pos < |recvbuffer| {
        var packlen := Atoi(recvbuffer);
        if packlen > 0 && packlen + pos + 1 <= |recvbuffer| {
          var temp := recvbuffer[pos + 1..][..packlen];
          assert temp == FirstFrame(recvbuffer).text;
          ShortTexts(temp);
          var outlen, outbuf;
          inside, outlen, outbuf := Codec.DecodeAlloc(temp);
          if inside && outlen > 0 {
            d := Message(outbuf[..outlen]);
            recvbuffer := recvbuffer[packlen + pos + 1..];
          }
        }
      }
    }
  }

  // ---- one frame at the front of the buffer ----

  /** A whole frame at the front is found. */
  lemma WholeFramed(text: string, rest: string)
    requires text != ""
    ensures FirstFrame(Framed(text) + rest) == Whole(text, |Framed(text)|)
  {
    var n := Dec(|text|);
    var after := "@" + (text + rest);
    assert Framed(text) + rest == n + after;
    assert '@' !in n;
    FindCharAfter(n, '@', after);
    AtoiDec(|text|, after);
    assert (n + after)[|n| + 1..|n| + 1 + |text|] == text;
  }

  /** Any proper beginning of a frame waits. */
  lemma PartFramed(text: string, j: nat)
    requires j < |Framed(text)|
    ensures FirstFrame(Framed(text)[..j]).Waiting?
  {
    var n := Dec(|text|);
    var buf := Framed(text)[..j];
    assert '@' !in n;
    if j <= |n| {
      assert buf == n[..j];
      assert '@' !in buf;
    } else {
      var after := "@" + text[..j - |n| - 1];
      assert buf == n + after;
      FindCharAfter(n, '@', after);
      AtoiDec(|text|, after);
    }
  }

  lemma TextOf(p: Payload)
    requires p != []
    ensures Base64.Encode(p) != "" && Base64.AsciiGroups(Base64.Encode(p)) && Base64.LibDecode(Base64.Encode(p)) == p
  {
    hide *;
    var text := Base64.Encode(p);
    Base64.RoundTrip(p);
    Base64.PrintsAscii(p);
    GroupsIf(text, (|p| + 2) / 3);
  }

  lemma GroupsIf(text: string, k: nat)
    requires |text| == 4 * k && forall x | x in text :: x as int < 128
    ensures Base64.AsciiGroups(text)
  {
  }

  lemma ShortTexts(text: string)
    ensures |text| < 4 ==> Base64.LibDecode(text) == []
  {
    hide Base64.Sextets, Base64.DecodeGroups;
  }

  /** A buffer that starts with a whole frame delivers its payload and keeps the rest. */
  lemma WholeFrame(p: Payload, buf: string, str: string, rest: string)
    requires p != [] && buf + str == Frame(p) + rest
    ensures Decodable(buf + str) && Signal(buf, str) == (rest, Message(p))
  {
    TextOf(p);
    hide Base64.Encode, Base64.LibDecode, Base64.AsciiGroups, Framed, FirstFrame;
    WholeFramed(Base64.Encode(p), rest);
    assert (Frame(p) + rest)[|Frame(p)|..] == rest;
  }

  /** A buffer that is only a part of a frame waits. */
  lemma PartOfFrame(p: Payload, buf: string, str: string)
    requires |buf + str| < |Frame(p)| && buf + str == Frame(p)[..|buf + str|]
    ensures Decodable(buf + str) && Signal(buf, str) == (buf + str, Nothing)
  {
    hide Base64.Encode, Base64.LibDecode, Base64.AsciiGroups, Framed, FirstFrame;
    PartFramed(Base64.Encode(p), |buf + str|);
  }

  lemma NothingThere(buf: string, str: string)
    requires buf + str == ""
    ensures Decodable(buf + str) && Signal(buf, str) == (buf + str, Nothing)
  {
    hide Base64.LibDecode;
  }

  // ---- any chunking ----

  /** The buffer and the messages delivered after these signals. */
  function Run(chunks: seq<string>): (string, seq<Payload>) {
    if chunks == [] then ("", [])
    else
      var (buf, out) := Run(chunks[..|chunks| - 1]);
      var (buf', d) := Signal(buf, chunks[|chunks| - 1]);
      (buf', if d.Message? then out + [d.payload] else out)
  }

  /** How many messages have been delivered: with each signal one more, if its frame is complete. */
  function Delivered(ps: seq<Payload>, chunks: seq<string>): (d: nat)
    ensures d <= |ps| && d <= |chunks|
  {
    if chunks == [] then 0
    else
      var d := Delivered(ps, chunks[..|chunks| - 1]);
      if d < |ps| && |Frames(ps[..d + 1])| <= |Joined(chunks)| then d + 1 else d
  }

  lemma {:induction false} FramesSplit(ps: seq<Payload>, d: nat)
    requires d <= |ps|
    ensures Frames(ps[..d]) <= Frames(ps)
    ensures d < |ps| ==> Frames(ps[..d + 1]) == Frames(ps[..d]) + Frame(ps[d]) && Frames(ps[..d + 1]) <= Frames(ps)
    decreases |ps| - d
  {
    hide Frame;
    if d < |ps| {
      assert ps[..d + 1][..d] == ps[..d];
      assert ps[..d + 1][d] == ps[d];
      FramesSplit(ps, d + 1);
    } else {
      assert ps[..d] == ps;
    }
  }

  /** Two beginnings of one text: what follows a common front is comparable. */
  lemma Comparable(all: string, front: string, f: string, b: string)
    requires front + f <= all && front + b <= all
    ensures |f| <= |b| ==> b == f + b[|f|..]
    ensures |b| < |f| ==> b == f[..|b|]
  {
    assert all[|front|..|front| + |f|] == f;
    assert all[|front|..|front| + |b|] == b;
    if |f| <= |b| {
      assert b[..|f|] == f;
    }
  }

  /** One signal, when the buffer holds what was received behind the frames consumed so far. */
  lemma SignalStep(ps: seq<Payload>, d: nat, buf: string, str: string)
    requires (forall p | p in ps :: p != []) && d <= |ps|
    requires Frames(ps[..d]) + (buf + str) <= Frames(ps)
    ensures Decodable(buf + str)
    ensures
      if d < |ps| && |Frames(ps[..d + 1])| <= |Frames(ps[..d]) + (buf + str)|
      then
        && Signal(buf, str).1 == Message(ps[d])
        && Frames(ps[..d + 1]) + Signal(buf, str).0 == Frames(ps[..d]) + (buf + str)
      else Signal(buf, str) == (buf + str, Nothing)
  {
    hide *;
    var b := buf + str;
    var before := Frames(ps[..d]);
    FramesSplit(ps, d);
    if d == |ps| {
      assert ps[..d] == ps;
      NothingThere(buf, str);
    } else {
      assert ps[d] in ps;
      var f := Frame(ps[d]);
      Comparable(Frames(ps), before, f, b);
      if |f| <= |b| {
        WholeFrame(ps[d], buf, str, b[|f|..]);
        assert (before + f) + b[|f|..] == before + b;
      } else {
        PartOfFrame(ps[d], buf, str);
      }
    }
  }

  /** For any payloads and any split into signals of what was received so far: what is delivered is a prefix
      of what was sent, its length is given by Delivered, and the consumed frames with the buffer behind
      them are exactly the bytes received. */
  lemma {:induction false} AnyChunking(ps: seq<Payload>, chunks: seq<string>)
    requires forall p | p in ps :: p != []
    requires Joined(chunks) <= Frames(ps)
    ensures
      var d := Delivered(ps, chunks);
      Run(chunks).1 == ps[..d] && Frames(ps[..d]) + Run(chunks).0 == Joined(chunks)
  {
    hide Frames, Signal, Frame;
    if chunks == [] {
      assert ps[..0] == [] && Frames([]) == "" by { NoFrames(); }
    } else {
      var init, str := chunks[..|chunks| - 1], chunks[|chunks| - 1];
      AnyChunking(ps, init);
      var d := Delivered(ps, init);
      hide Run, Joined;
      assert Frames(ps[..d]) + (Run(init).0 + str) == Joined(chunks);
      SignalStep(ps, d, Run(init).0, str);
      if d < |ps| {
        assert ps[..d + 1] == ps[..d] + [ps[d]];
      }
    }
  }

  lemma NoFrames()
    ensures Frames([]) == ""
  {
  }

  /** The handler's own demand is met in every such run. */
  lemma EverySignalDecodable(ps: seq<Payload>, chunks: seq<string>, str: string)
    requires forall p | p in ps :: p != []
    requires Joined(chunks) + str <= Frames(ps)
    ensures Decodable(Run(chunks).0 + str)
  {
    hide *;
    AnyChunking(ps, chunks);
    var d := Delivered(ps, chunks);
    assert Frames(ps[..d]) + (Run(chunks).0 + str) == Joined(chunks) + str;
    SignalStep(ps, d, Run(chunks).0, str);
  }

  // ---- when nothing complete is left waiting ----

  /** How many whole frames the first n bytes of the stream hold. */
  function Complete(ps: seq<Payload>, n: nat): (c: nat)
    ensures c <= |ps|
  {
    if ps == [] then 0 else if |Frames(ps)| <= n then |ps| else Complete(ps[..|ps| - 1], n)
  }

  lemma {:induction false} CompleteIff(ps: seq<Payload>, n: nat, w: nat)
    requires w <= |ps|
    ensures w <= Complete(ps, n) <==> |Frames(ps[..w])| <= n
  {
    hide Frames;
    FramesSplit(ps, w);
    if ps == [] {
      assert ps[..w] == [];
      NoFrames();
    } else if |Frames(ps)| > n {
      if w < |ps| {
        assert ps[..|ps| - 1][..w] == ps[..w];
        CompleteIff(ps[..|ps| - 1], n, w);
      } else {
        assert ps[..w] == ps;
      }
    }
  }

  lemma CompleteGrows(ps: seq<Payload>, n: nat, m: nat)
    requires n <= m
    ensures Complete(ps, n) <= Complete(ps, m)
  {
    CompleteIff(ps, n, Complete(ps, n));
    CompleteIff(ps, m, Complete(ps, n));
  }

  /** Whole frames received with the first i signals. */
  function Received(ps: seq<Payload>, chunks: seq<string>, i: nat): nat
    requires i <= |chunks|
  {
    Complete(ps, |Joined(chunks[..i])|)
  }

  lemma DeliveredStep(ps: seq<Payload>, chunks: seq<string>)
    requires chunks != []
    ensures
      var d := Delivered(ps, chunks[..|chunks| - 1]);
      var c := Received(ps, chunks, |chunks|);
      && Received(ps, chunks, |chunks| - 1) <= c
      && (d <= Received(ps, chunks, |chunks| - 1) ==> Delivered(ps, chunks) == if d + 1 <= c then d + 1 else c)
  {
    var n := |chunks| - 1;
    var d := Delivered(ps, chunks[..n]);
    assert chunks[..|chunks|] == chunks;
    assert |Joined(chunks[..n])| <= |Joined(chunks)|;
    CompleteGrows(ps, |Joined(chunks[..n])|, |Joined(chunks)|);
    hide Complete, Frames, Joined;
    if d < |ps| {
      CompleteIff(ps, |Joined(chunks)|, d + 1);
    }
  }

  /** In closed form: the number of delivered messages is the least, over all i, of the frames received with the
      first i signals plus one for each signal after them. */
  lemma {:induction false} DeliveredIs(ps: seq<Payload>, chunks: seq<string>) returns (i: nat)
    ensures forall k | 0 <= k <= |chunks| :: Delivered(ps, chunks) <= Received(ps, chunks, k) + (|chunks| - k)
    ensures i <= |chunks| && Delivered(ps, chunks) == Received(ps, chunks, i) + (|chunks| - i)
  {
    hide Received, Delivered;
    if chunks == [] {
      NoBytes(ps);
      i := 0;
    } else {
      var n := |chunks| - 1;
      i := DeliveredIs(ps, chunks[..n]);
      forall k | 0 <= k <= n
        ensures Received(ps, chunks[..n], k) == Received(ps, chunks, k)
      {
        ReceivedPrefix(ps, chunks, n, k);
      }
      DeliveredStep(ps, chunks);
      if Delivered(ps, chunks[..n]) + 1 > Received(ps, chunks, |chunks|) {
        i := |chunks|;
      }
    }
  }

  lemma ReceivedPrefix(ps: seq<Payload>, chunks: seq<string>, n: nat, k: nat)
    requires k <= n <= |chunks|
    ensures Received(ps, chunks[..n], k) == Received(ps, chunks, k)
  {
    assert chunks[..n][..k] == chunks[..k];
  }

  lemma NoBytes(ps: seq<Payload>)
    ensures Received(ps, [], 0) == 0
  {
    if ps != [] {
      CompleteIff(ps, 0, 1);
      FramesSplit(ps, 0);
      NoFrames();
      assert ps[..0] == [];
      assert |Frame(ps[0])| > 0 by { hide Base64.Encode; }
    }
  }

  /** Everything complete has been delivered if and only if no last signals completed more frames than they were,
      which the sender of the signals can check beforehand. */
  lemma PromptIff(ps: seq<Payload>, chunks: seq<string>)
    ensures Delivered(ps, chunks) == Received(ps, chunks, |chunks|)
       <==> forall i | 0 <= i <= |chunks| :: Received(ps, chunks, |chunks|) <= Received(ps, chunks, i) + (|chunks| - i)
  {
    var i := DeliveredIs(ps, chunks);
    hide *;
    assert Delivered(ps, chunks) <= Received(ps, chunks, |chunks|) + (|chunks| - |chunks|);
  }

  lemma WholeStream(ps: seq<Payload>)
    ensures Complete(ps, |Frames(ps)|) == |ps|
  {
  }

  /** One whole frame per signal. */
  function OneEach(ps: seq<Payload>): seq<string> {
    seq(|ps|, i requires 0 <= i < |ps| => Frame(ps[i]))
  }

  lemma {:induction false} JoinedOneEach(ps: seq<Payload>)
    ensures Joined(OneEach(ps)) == Frames(ps)
  {
    hide Frame;
    if ps != [] {
      var n := |ps| - 1;
      JoinedOneEach(ps[..n]);
      assert OneEach(ps)[..n] == OneEach(ps[..n]);
    }
  }

  lemma {:induction false} ReceivedOneEach(ps: seq<Payload>, i: nat)
    requires i <= |ps|
    ensures Received(ps, OneEach(ps), i) >= i
  {
    hide Frame;
    assert OneEach(ps)[..i] == OneEach(ps[..i]);
    JoinedOneEach(ps[..i]);
    CompleteIff(ps, |Frames(ps[..i])|, i);
  }

  /** Then every signal delivers its message and leaves the buffer empty. */
  lemma OneFramePerSignal(ps: seq<Payload>)
    requires forall p | p in ps :: p != []
    ensures Run(OneEach(ps)) == ("", ps)
  {
    hide Run, Complete, Frames, Frame, Joined, Received;
    var chunks := OneEach(ps);
    JoinedOneEach(ps);
    AnyChunking(ps, chunks);
    assert chunks[..|chunks|] == chunks;
    WholeStream(ps);
    assert Received(ps, chunks, |chunks|) == |ps| by { ReceivedOneEach(ps, |ps|); ReceivedIs(ps, chunks); }
    forall i | 0 <= i <= |chunks|
      ensures Received(ps, chunks, |chunks|) <= Received(ps, chunks, i) + (|chunks| - i)
    {
      ReceivedOneEach(ps, i);
    }
    PromptIff(ps, chunks);
    assert ps[..|ps|] == ps;
  }

  lemma ReceivedIs(ps: seq<Payload>, chunks: seq<string>)
    ensures Received(ps, chunks, |chunks|) == Complete(ps, |Joined(chunks)|) && Received(ps, chunks, 0) == 0
  {
    assert chunks[..|chunks|] == chunks;
    var none: seq<string> := [];
    assert chunks[..0] == none[..0];
    NoBytes(ps);
  }

  /** Two frames that arrive in one signal: the second waits until some later signal comes. */
  lemma TwoFramesInOneSignal(p: Payload, q: Payload)
    requires p != [] && q != []
    ensures Run([Frame(p) + Frame(q)]) == (Frame(q), [p])
  {
    var ps := [p, q];
    var chunks := [Frame(p) + Frame(q)];
    TwoFrames(p, q);
    ReceivedIs(ps, chunks);
    hide Frame, Run, Complete, Frames, Joined, Received;
    AnyChunking(ps, chunks);
    WholeStream(ps);
    assert Received(ps, chunks, 1) == 2;
    var i := DeliveredIs(ps, chunks);
    assert Delivered(ps, chunks) <= Received(ps, chunks, 0) + 1;
    assert Delivered(ps, chunks) == 1;
    assert ps[..1] == [p];
    var buf := Run(chunks).0;
    assert (Frame(p) + buf)[|Frame(p)|..] == buf && (Frame(p) + Frame(q))[|Frame(p)|..] == Frame(q);
  }

  lemma TwoFrames(p: Payload, q: Payload)
    ensures Frames([p]) == Frame(p) && Frames([p, q]) == Frame(p) + Frame(q)
    ensures Joined([Frame(p) + Frame(q)]) == Frames([p, q])
  {
    hide Frame;
    assert [p][..0] == [] && [p, q][..1] == [p];
    var chunks := [Frame(p) + Frame(q)];
    assert chunks[..0] == [];
  }
}
