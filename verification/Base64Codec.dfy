/** The two Base64 codecs as the source runs them: loops that fill an output buffer by index while the
    input shrinks. */
module Base64Codec {
  import opened Base64

  /** std::string::resize: what was there stays, new places are filled. */
  function Resized<T>(s: seq<T>, n: nat, fill: T): (r: seq<T>)
    ensures |r| == n
  {
    if n <= |s| then s[..n] else s + seq(n - |s|, _ => fill)
  }

  /** What is already written, plus what is still to come, is everything. */
  ghost predicate Splits<T>(out: seq<T>, outlen: nat, rest: seq<T>, all: seq<T>) {
    outlen <= |out| && out[..outlen] + rest == all && outlen + |rest| == |all|
  }

  lemma EncodeGroup(inbuf: seq<bv8>, pos: nat, out: string, outlen: nat)
    requires pos + 3 <= |inbuf| && Splits(out, outlen, Encode(inbuf[pos..]), Encode(inbuf))
    ensures outlen + 4 <= |Encode(inbuf)|
    ensures outlen + 4 <= |out| ==>
      var a, b, c := inbuf[pos], inbuf[pos + 1], inbuf[pos + 2];
      var t := out[outlen := Code(E0(a))][outlen + 1 := Code(E1(a, b))]
                  [outlen + 2 := Code(E2(b, c))][outlen + 3 := Code(E3(c))];
      Splits(t, outlen + 4, Encode(inbuf[pos + 3..]), Encode(inbuf)) && t[outlen + 4..] == out[outlen + 4..]
  {
    hide *;
    var a, b, c := inbuf[pos], inbuf[pos + 1], inbuf[pos + 2];
    EncodeHead(inbuf, pos);
    SplitsMeans(out, outlen, Encode(inbuf[pos..]), Encode(inbuf));
    if outlen + 4 <= |out| {
      var t := out[outlen := Code(E0(a))][outlen + 1 := Code(E1(a, b))][outlen + 2 := Code(E2(b, c))];
      SplitsMeans(t[outlen + 3 := Code(E3(c))], outlen + 4, Encode(inbuf[pos + 3..]), Encode(inbuf));
    }
  }

  lemma SplitsMeans<T>(out: seq<T>, outlen: nat, rest: seq<T>, all: seq<T>)
    ensures Splits(out, outlen, rest, all)
      <==> outlen <= |out| && out[..outlen] + rest == all && outlen + |rest| == |all|
  {
  }

  lemma EncodeShort(inbuf: seq<bv8>, pos: nat, out: string, outlen: nat)
    requires pos < |inbuf| < pos + 3 && Splits(out, outlen, Encode(inbuf[pos..]), Encode(inbuf))
    ensures outlen + 4 == |Encode(inbuf)|
    ensures outlen + 4 <= |out| ==>
      var a := inbuf[pos];
      var c := if |inbuf| == pos + 2 then ((a << 4) & 0x30) | ((inbuf[pos + 1] >> 4) & 0x0f) else (a << 4) & 0x30;
      c < 64 &&
      (|inbuf| == pos + 2 ==> (inbuf[pos + 1] << 2) & 0x3c < 64) &&
      var third := if |inbuf| == pos + 1 then '=' else Code((inbuf[pos + 1] << 2) & 0x3c);
      var t := out[outlen := Code(E0(inbuf[pos]))][outlen + 1 := Code(c)][outlen + 2 := third][outlen + 3 := '='];
      t[..outlen + 4] == Encode(inbuf) && t[outlen + 4..] == out[outlen + 4..]
  {
    hide *;
    EncodeEnd(inbuf, pos);
    SplitsMeans(out, outlen, Encode(inbuf[pos..]), Encode(inbuf));
    var e := Encode(inbuf[pos..]);
    assert out[..outlen] + [e[0], e[1], e[2], e[3]] == Encode(inbuf);
  }

  lemma DecodeGroup(inbuf: string, pos: nat, out: seq<bv8>, outlen: nat)
    requires pos + 4 <= |inbuf| && 3 * (|inbuf| / 4) <= |out|
    requires Splits(out, outlen, DecodeGroups(Sextets(inbuf)[pos..]), DecodeGroups(Sextets(inbuf)))
    ensures outlen + 3 <= |out|
    ensures
      var p, q, r, s := Bits(inbuf[pos]), Bits(inbuf[pos + 1]), Bits(inbuf[pos + 2]), Bits(inbuf[pos + 3]);
      var t := out[outlen := D0(p, q)][outlen + 1 := D1(q, r)][outlen + 2 := D2(r, s)];
      Splits(t, outlen + 3, DecodeGroups(Sextets(inbuf)[pos + 4..]), DecodeGroups(Sextets(inbuf)))
  {
    hide *;
    var all := Sextets(inbuf);
    var p, q, r, s := Bits(inbuf[pos]), Bits(inbuf[pos + 1]), Bits(inbuf[pos + 2]), Bits(inbuf[pos + 3]);
    SextetsAt(inbuf, pos);
    DecodeHead(all, pos);
    SplitsMeans(out, outlen, DecodeGroups(all[pos..]), DecodeGroups(all));
    var t := out[outlen := D0(p, q)][outlen + 1 := D1(q, r)][outlen + 2 := D2(r, s)];
    SplitsMeans(t, outlen + 3, DecodeGroups(all[pos + 4..]), DecodeGroups(all));
  }

  // The source checks no bounds. `inside` says whether it stays within its buffers; it turns false at the first
  // access outside them, whose effect C leaves undefined, and nothing more is promised then.

  /** The framework's encoder into a string that may already hold something. It stays inside exactly when the
      reserved length is enough; Base64.ReserveSuffices says for which inputs it is. */
  method EncodeString(initial: string, inbuf: seq<bv8>) returns (inside: bool, outlen: nat, outbuf: string)
    ensures inside <==> |Encode(inbuf)| <= |inbuf| + |inbuf| / 2
    ensures inbuf == [] ==> inside && outlen == 0 && outbuf == initial
    ensures inside && inbuf != [] ==>
      && outlen == |Encode(inbuf)| && |outbuf| == |inbuf| + |inbuf| / 2
      && outbuf[..outlen] == Encode(inbuf)
      && (outlen < |outbuf| ==>
        outbuf[outlen] == '\0' && outbuf[outlen + 1..] == Resized(initial, |outbuf|, '\0')[outlen + 1..])
  {
    if inbuf == [] {
      NothingToEncode();
      return true, 0, initial;
    }
    hide *;
    var resized := Resized(initial, |inbuf| + |inbuf| / 2, '\0');
    inside, outlen, outbuf := EncodeInto(resized, inbuf);
    if inside && outlen < |outbuf| {
      outbuf := outbuf[outlen := '\0'];
    }
  }

  lemma NothingToEncode()
    ensures Encode([]) == ""
  {
  }

  /** Its loop and its last, short group, over the resized string. */
  method EncodeInto(resized: string, inbuf: seq<bv8>) returns (inside: bool, outlen: nat, outbuf: string)
    ensures inside <==> |Encode(inbuf)| <= |resized|
    ensures inside ==>
      && outlen == |Encode(inbuf)| && |outbuf| == |resized|
      && outbuf[..outlen] == Encode(inbuf) && outbuf[outlen..] == resized[outlen..]
  {
    hide *;
    inside, outlen := true, 0;
    outbuf := resized;
    var pos, inlen := 0, |inbuf|;
    SplitsMeans(outbuf, 0, Encode(inbuf), Encode(inbuf));
    while inlen >= 3
      invariant 0 <= inlen && pos + inlen == |inbuf| && |outbuf| == |resized|
      invariant Splits(outbuf, outlen, Encode(inbuf[pos..]), Encode(inbuf))
      invariant outlen <= |outbuf| && outbuf[outlen..] == resized[outlen..]
    {
      EncodeGroup(inbuf, pos, outbuf, outlen);
      if outlen + 4 > |outbuf| {
        return false, outlen, outbuf;
      }
      outbuf := outbuf[outlen := Code(E0(inbuf[pos]))];
      outbuf := outbuf[outlen + 1 := Code(E1(inbuf[pos], inbuf[pos + 1]))];
      outbuf := outbuf[outlen + 2 := Code(E2(inbuf[pos + 1], inbuf[pos + 2]))];
      outbuf := outbuf[outlen + 3 := Code(E3(inbuf[pos + 2]))];
      outlen := outlen + 4;
      pos, inlen := pos + 3, inlen - 3;
    }
    if inlen > 0 {
      inside, outlen, outbuf := EncodeRest(resized, inbuf, pos, outlen, outbuf);
    } else {
      EncodeEnd(inbuf, pos);
      SplitsMeans(outbuf, outlen, "", Encode(inbuf));
    }
  }

  method EncodeRest(resized: string, inbuf: seq<bv8>, pos: nat, outlen0: nat, outbuf0: string)
    returns (inside: bool, outlen: nat, outbuf: string)
    requires pos < |inbuf| < pos + 3 && |outbuf0| == |resized|
    requires Splits(outbuf0, outlen0, Encode(inbuf[pos..]), Encode(inbuf))
    requires outlen0 <= |outbuf0| && outbuf0[outlen0..] == resized[outlen0..]
    ensures inside <==> |Encode(inbuf)| <= |resized|
    ensures inside ==>
      && outlen == |Encode(inbuf)| && |outbuf| == |resized|
      && outbuf[..outlen] == Encode(inbuf) && outbuf[outlen..] == resized[outlen..]
  {
    hide *;
    inside, outlen, outbuf := true, outlen0, outbuf0;
    EncodeShort(inbuf, pos, outbuf, outlen);
    if outlen + 4 > |outbuf| {
      return false, outlen, outbuf;
    }
    var c := (inbuf[pos] << 4) & 0x30;
    if |inbuf| - pos == 2 {
      c := c | ((inbuf[pos + 1] >> 4) & 0x0f);
    }
    outbuf := outbuf[outlen := Code(E0(inbuf[pos]))];
    outbuf := outbuf[outlen + 1 := Code(c)];
    outbuf := outbuf[outlen + 2 := if |inbuf| - pos == 1 then '=' else Code((inbuf[pos + 1] << 2) & 0x3c)];
    outbuf := outbuf[outlen + 3 := '='];
    outlen := outlen + 4;
  }

  lemma EncodeHead(inbuf: seq<bv8>, pos: nat)
    requires pos + 3 <= |inbuf|
    ensures
      var g := Group(inbuf[pos], inbuf[pos + 1], inbuf[pos + 2]);
      && g == [Code(E0(inbuf[pos])), Code(E1(inbuf[pos], inbuf[pos + 1])),
               Code(E2(inbuf[pos + 1], inbuf[pos + 2])), Code(E3(inbuf[pos + 2]))]
      && Encode(inbuf[pos..]) == g + Encode(inbuf[pos + 3..])
  {
    hide Code, E0, E1, E2, E3;
  }

  /** The last, short group as the source prints it. */
  lemma EncodeEnd(inbuf: seq<bv8>, pos: nat)
    requires pos <= |inbuf| < pos + 3
    ensures |inbuf| == pos ==> Encode(inbuf[pos..]) == ""
    ensures |inbuf| == pos + 1 ==>
      var c := (inbuf[pos] << 4) & 0x30;
      c < 64 && Encode(inbuf[pos..]) == [Code(E0(inbuf[pos])), Code(c), '=', '=']
    ensures |inbuf| == pos + 2 ==>
      var c := ((inbuf[pos] << 4) & 0x30) | ((inbuf[pos + 1] >> 4) & 0x0f);
      && c < 64 && (inbuf[pos + 1] << 2) & 0x3c < 64
      && Encode(inbuf[pos..]) == [Code(E0(inbuf[pos])), Code(c), Code((inbuf[pos + 1] << 2) & 0x3c), '=']
  {
    hide Code, E0, E1, E2, E3;
    if |inbuf| > pos {
      MaskEnd(inbuf[pos], if |inbuf| == pos + 2 then inbuf[pos + 1] else 0);
    }
  }

  lemma MaskEnd(a: bv8, b: bv8)
    ensures E1(a, b) == ((a << 4) & 0x30) | ((b >> 4) & 0x0f)
    ensures E1(a, 0) == (a << 4) & 0x30 && E2(b, 0) == (b << 2) & 0x3c
  {
  }

  /** The framework's decoder. It reads four characters at a time, and looks each up in a table of 128. */
  method DecodeString(initial: seq<bv8>, inbuf: string) returns (inside: bool, outlen: nat, outbuf: seq<bv8>)
    ensures |inbuf| < 4 ==> inside && outlen == 0 && outbuf == initial
    ensures |inbuf| >= 4 ==> (inside <==> AsciiGroups(inbuf))
    ensures inside && |inbuf| >= 4 ==>
      && outlen == |Decode(inbuf)| < |outbuf| == |inbuf|
      && outbuf[..outlen] == Decode(inbuf) && outbuf[outlen] == 0
  {
    if |inbuf| < 4 {
      return true, 0, initial;
    }
    hide *;
    var offset := if inbuf[|inbuf| - 1] == '=' then (if inbuf[|inbuf| - 2] == '=' then 2 else 1) else 0;
    inside, outlen, outbuf := DecodeLoop(Resized(initial, |inbuf|, 0), inbuf);
    if inside {
      outlen := outlen - offset;
      outbuf := outbuf[outlen := 0];
    }
  }

  /** The loop of the framework's decoder over the resized string. */
  method DecodeLoop(resized: seq<bv8>, inbuf: string) returns (inside: bool, outlen: nat, outbuf: seq<bv8>)
    requires |resized| == |inbuf|
    ensures inside <==> AsciiGroups(inbuf)
    ensures inside ==> |outbuf| == |inbuf| && outlen <= |outbuf| && outbuf[..outlen] == DecodeGroups(Sextets(inbuf))
  {
    hide *;
    inside, outlen := true, 0;
    outbuf := resized;
    ghost var all := DecodeGroups(Sextets(inbuf));
    var pos, inlen := 0, |inbuf|;
    assert Sextets(inbuf)[0..] == Sextets(inbuf);
    AllRead(inbuf);
    SplitsMeans(outbuf, 0, all, all);
    while inlen > 0
      invariant 0 <= inlen && pos + inlen == |inbuf| == |outbuf| && Readable(inbuf, pos)
      invariant Splits(outbuf, outlen, DecodeGroups(Sextets(inbuf)[pos..]), all)
    {
      ReadFour(inbuf, pos);
      if inlen < 4 || !Covered(inbuf, pos) {
        return false, outlen, outbuf;
      }
      DecodeGroup(inbuf, pos, outbuf, outlen);
      outbuf := outbuf[outlen := D0(Bits(inbuf[pos]), Bits(inbuf[pos + 1]))];
      outbuf := outbuf[outlen + 1 := D1(Bits(inbuf[pos + 1]), Bits(inbuf[pos + 2]))];
      outbuf := outbuf[outlen + 2 := D2(Bits(inbuf[pos + 2]), Bits(inbuf[pos + 3]))];
      outlen := outlen + 3;
      pos, inlen := pos + 4, inlen - 4;
    }
    SplitsMeans(outbuf, outlen, [], all);
  }

  /** The next four characters are within the table. */
  predicate Covered(s: string, pos: nat)
    requires pos + 4 <= |s|
  {
    s[pos] as int < 128 && s[pos + 1] as int < 128 && s[pos + 2] as int < 128 && s[pos + 3] as int < 128
  }

  /** The groups before pos were whole and within the table. */
  ghost predicate Readable(s: string, pos: nat) {
    pos <= |s| && pos % 4 == 0 && forall i | 0 <= i < pos :: s[i] as int < 128
  }

  lemma ReadFour(s: string, pos: nat)
    requires Readable(s, pos) && pos < |s|
    ensures |s| < pos + 4 || !Covered(s, pos) ==> !AsciiGroups(s)
    ensures pos + 4 <= |s| && Covered(s, pos) ==> Readable(s, pos + 4)
  {
    if pos + 4 <= |s| && !Covered(s, pos) {
      var i :| pos <= i < pos + 4 && s[i] as int >= 128;
      assert s[i] in s;
    }
  }

  lemma AllRead(s: string)
    ensures Readable(s, 0)
    ensures Readable(s, |s|) ==> AsciiGroups(s)
    ensures DecodeGroups(Sextets(s)[|s|..]) == []
  {
    hide Sextets;
  }

  lemma DecodeHead(q: seq<bv8>, pos: nat)
    requires pos + 4 <= |q|
    ensures
      var b := Bytes(q[pos..]);
      && b == [D0(q[pos], q[pos + 1]), D1(q[pos + 1], q[pos + 2]), D2(q[pos + 2], q[pos + 3])]
      && DecodeGroups(q[pos..]) == b + DecodeGroups(q[pos + 4..])
  {
    hide D0, D1, D2;
  }

  lemma SextetsAt(s: string, pos: nat)
    requires pos + 4 <= |s|
    ensures forall i | pos <= i < pos + 4 :: Sextets(s)[i] == Bits(s[i])
  {
    hide Bits;
  }

  lemma LibDecodeEnd(s: string)
    requires |s| >= 4 && AsciiGroups(Terminated(s))
    ensures LibPads(s) == (if s[|s| - 1] == '=' then 1 else 0) + (if s[|s| - 2] == '=' then 1 else 0)
    ensures
      var all := DecodeGroups(Sextets(Terminated(s)));
      && LibPads(s) <= |all| <= |s| && |all| - LibPads(s) < |s| && LibDecode(s) == all[..|all| - LibPads(s)]
  {
    hide Sextets;
  }

  /** The client library's encoder allocates 2n characters and ends the text with NUL. */
  method EncodeAlloc(inbuf: seq<bv8>) returns (inside: bool, outlen: int, outbuf: array?<char>)
    ensures inside <==> |inbuf| !in {1, 2, 4}
    ensures inbuf == [] ==> outlen == -1 && outbuf == null
    ensures inside && inbuf != [] ==>
      && outlen == |Encode(inbuf)|
      && outbuf != null && fresh(outbuf) && outlen < outbuf.Length == |inbuf| + |inbuf|
      && outbuf[..outlen] == Encode(inbuf) && outbuf[outlen] == '\0'
  {
    if inbuf == [] {
      return true, -1, null;
    }
    LibRoom(inbuf);
    hide *;
    outbuf := new char[|inbuf| + |inbuf|];
    inside, outlen := EncodeIntoArray(inbuf, outbuf);
    if inside {
      if outlen == outbuf.Length {
        return false, outlen, outbuf;
      }
      outbuf[outlen] := '\0';
    }
  }

  method EncodeIntoArray(inbuf: seq<bv8>, outbuf: array<char>) returns (inside: bool, outlen: nat)
    modifies outbuf
    ensures inside <==> |Encode(inbuf)| <= outbuf.Length
    ensures inside ==> outlen == |Encode(inbuf)| && outbuf[..outlen] == Encode(inbuf)
  {
    hide *;
    inside, outlen := true, 0;
    var pos, inlen := 0, |inbuf|;
    SplitsMeans(outbuf[..], 0, Encode(inbuf), Encode(inbuf));
    while inlen >= 3
      invariant 0 <= inlen && pos + inlen == |inbuf|
      invariant Splits(outbuf[..], outlen, Encode(inbuf[pos..]), Encode(inbuf))
    {
      EncodeGroup(inbuf, pos, outbuf[..], outlen);
      if outlen + 4 > outbuf.Length {
        return false, outlen;
      }
      outbuf[outlen] := Code(E0(inbuf[pos]));
      outbuf[outlen + 1] := Code(E1(inbuf[pos], inbuf[pos + 1]));
      outbuf[outlen + 2] := Code(E2(inbuf[pos + 1], inbuf[pos + 2]));
      outbuf[outlen + 3] := Code(E3(inbuf[pos + 2]));
      outlen := outlen + 4;
      pos, inlen := pos + 3, inlen - 3;
    }
    if inlen > 0 {
      EncodeShort(inbuf, pos, outbuf[..], outlen);
      if outlen + 4 > outbuf.Length {
        return false, outlen;
      }
      var c := (inbuf[pos] << 4) & 0x30;
      if inlen == 2 {
        c := c | ((inbuf[pos + 1] >> 4) & 0x0f);
      }
      outbuf[outlen] := Code(E0(inbuf[pos]));
      outbuf[outlen + 1] := Code(c);
      outbuf[outlen + 2] := if inlen == 1 then '=' else Code((inbuf[pos + 1] << 2) & 0x3c);
      outbuf[outlen + 3] := '=';
      outlen := outlen + 4;
    } else {
      EncodeEnd(inbuf, pos);
      SplitsMeans(outbuf[..], outlen, "", Encode(inbuf));
    }
  }

  lemma LibRoom(inbuf: seq<bv8>)
    requires inbuf != []
    ensures |Encode(inbuf)| < |inbuf| + |inbuf| <==> |inbuf| !in {1, 2, 4}
  {
    EncodedShape(inbuf);
    ReserveSuffices(|inbuf|);
  }

  /** The client library's decoder allocates as many bytes as it reads characters. It is called with a text that a
      NUL follows, which counts when the last group lacks one character. */
  method DecodeAlloc(inbuf: string) returns (inside: bool, outlen: int, outbuf: array?<bv8>)
    ensures |inbuf| < 4 ==> inside && outlen == -1 && outbuf == null
    ensures |inbuf| >= 4 ==> (inside <==> |inbuf| % 4 in {0, 3} && forall c | c in inbuf :: c as int < 128)
    ensures inside && |inbuf| >= 4 ==>
      && outlen == |LibDecode(inbuf)|
      && outbuf != null && fresh(outbuf) && outlen < outbuf.Length == |inbuf|
      && outbuf[..outlen] == LibDecode(inbuf) && outbuf[outlen] == 0
  {
    hide *;
    inside := true;
    if |inbuf| < 4 {
      return true, -1, null;
    }
    TerminatedGroups(inbuf);
    var offset := 0;
    if inbuf[|inbuf| - 1] == '=' {
      offset := offset + 1;
    }
    if inbuf[|inbuf| - 2] == '=' {
      offset := offset + 1;
    }
    outbuf := new bv8[|inbuf|];
    inside, outlen := DecodeIntoArray(inbuf + "\0", outbuf);
    if inside {
      LibDecodeEnd(inbuf);
      outlen := outlen - offset;
      outbuf[outlen] := 0;
    }
  }

  lemma TerminatedIs(s: string)
    ensures Terminated(s) == if |s| % 4 == 3 then s + "\0" else s
  {
  }

  /** The next four characters with the NUL are the next four of the text. */
  lemma NextFour(inbuf: string, n: nat, text: string, pos: nat)
    requires |inbuf| == n + 1 && text <= inbuf && |text| == (if n % 4 == 3 then n + 1 else n)
    requires pos < n && Readable(text, pos)
    ensures pos + 4 <= |inbuf| <==> pos + 4 <= |text|
    ensures pos + 4 <= |inbuf| ==>
      && (Covered(inbuf, pos) <==> Covered(text, pos))
      && forall i | pos <= i < pos + 4 :: inbuf[i] == text[i]
    ensures n <= pos + 4 <= |text| ==> pos + 4 == |text|
  {
  }

  /** Its loop over the characters with their NUL and the allocated array. */
  method DecodeIntoArray(inbuf: string, outbuf: array<bv8>) returns (inside: bool, outlen: nat)
    requires |inbuf| == outbuf.Length + 1 && |inbuf| >= 5 && inbuf[outbuf.Length] == '\0'
    modifies outbuf
    ensures
      var text := Terminated(inbuf[..outbuf.Length]);
      && (inside <==> AsciiGroups(text))
      && (inside ==> outlen <= outbuf.Length && outbuf[..outlen] == DecodeGroups(Sextets(text)))
  {
    hide *;
    inside, outlen := true, 0;
    var pos, inlen := 0, outbuf.Length;
    ghost var text := Terminated(inbuf[..inlen]);
    TerminatedIs(inbuf[..inlen]);
    assert text <= inbuf;
    ghost var all := DecodeGroups(Sextets(text));
    assert Sextets(text)[0..] == Sextets(text);
    AllRead(text);
    SplitsMeans(outbuf[..], 0, all, all);
    while inlen > 0
      invariant pos + inlen == outbuf.Length && Readable(text, pos)
      invariant inlen <= 0 ==> pos == |text|
      invariant Splits(outbuf[..], outlen, DecodeGroups(Sextets(text)[pos..]), all)
    {
      ReadFour(text, pos);
      NextFour(inbuf, outbuf.Length, text, pos);
      if pos + 4 > |inbuf| || !Covered(inbuf, pos) {
        return false, outlen;
      }
      DecodeGroup(text, pos, outbuf[..], outlen);
      outbuf[outlen] := D0(Bits(inbuf[pos]), Bits(inbuf[pos + 1]));
      outbuf[outlen + 1] := D1(Bits(inbuf[pos + 1]), Bits(inbuf[pos + 2]));
      outbuf[outlen + 2] := D2(Bits(inbuf[pos + 2]), Bits(inbuf[pos + 3]));
      outlen := outlen + 3;
      pos, inlen := pos + 4, inlen - 4;
    }
    SplitsMeans(outbuf[..], outlen, [], all);
  }
}
