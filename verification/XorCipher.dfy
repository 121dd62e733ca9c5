/** The in-place cipher of the framework: reverse the bytes, reverse the bits of each, mask them with a
    cyclic key, and print the result in Base64. */
module XorCipher {
  import Base64
  import Codec = Base64Codec

  /** "I LOVE MY FAMILY" */
  const DEFAULT_KEY: seq<bv8> :=
    [0x49, 0x20, 0x4c, 0x4f, 0x56, 0x45, 0x20, 0x4d, 0x59, 0x20, 0x46, 0x41, 0x4d, 0x49, 0x4c, 0x59]

  datatype Key = Default | Given(bytes: seq<bv8>)

  function KeyBytes(k: Key): seq<bv8> {
    match k
    case Default => DEFAULT_KEY
    case Given(b) => b
  }

  // ---- what the three loops compute ----

  function Reversed(s: seq<bv8>): seq<bv8> {
    seq(|s|, i requires 0 <= i < |s| => s[|s| - 1 - i])
  }

  function MirrorBits(b: bv8): bv8 {
    ((b & 0x80) >> 7) | ((b & 0x40) >> 5) | ((b & 0x20) >> 3) | ((b & 0x10) >> 1)
    | ((b & 0x08) << 1) | ((b & 0x04) << 3) | ((b & 0x02) << 5) | ((b & 0x01) << 7)
  }

  function Mirrored(s: seq<bv8>): seq<bv8> {
    seq(|s|, i requires 0 <= i < |s| => MirrorBits(s[i]))
  }

  /** The key repeats without end. */
  function KeyAt(key: seq<bv8>, index: nat): bv8
    requires key != []
  {
    key[index % |key|]
  }

  function Masked(s: seq<bv8>, key: seq<bv8>): seq<bv8>
    requires key != []
  {
    seq(|s|, i requires 0 <= i < |s| => s[i] ^ KeyAt(key, i))
  }

  // ---- the loops ----

  function Add(a: bv8, b: bv8): bv8 { a + b }
  function Subtract(a: bv8, b: bv8): bv8 { a - b }

  lemma SwapByArithmetic(a: bv8, b: bv8)
    ensures Subtract(Add(a, b), b) == a && Subtract(Add(a, b), Subtract(Add(a, b), b)) == b
  {
  }

  /** Swaps by adding and subtracting modulo 256. */
  method SwapStr(inbuf: array<bv8>)
    modifies inbuf
    ensures inbuf[..] == Reversed(old(inbuf[..]))
    ensures forall k | 0 <= k < inbuf.Length :: inbuf[k] == old(inbuf[inbuf.Length - 1 - k])
  {
    hide Add, Subtract;
    var begin, end := 0, inbuf.Length - 1;
    while begin < end
      invariant 0 <= begin && begin + end == inbuf.Length - 1 && begin <= end + 2
      invariant forall k | 0 <= k < begin ::
        inbuf[k] == old(inbuf[inbuf.Length - 1 - k]) && inbuf[inbuf.Length - 1 - k] == old(inbuf[k])
      invariant forall k | begin <= k <= end :: inbuf[k] == old(inbuf[k])
    {
      SwapByArithmetic(inbuf[begin], inbuf[end]);
      inbuf[begin] := Add(inbuf[begin], inbuf[end]);
      inbuf[end] := Subtract(inbuf[begin], inbuf[end]);
      inbuf[begin] := Subtract(inbuf[begin], inbuf[end]);
      end := end - 1;
      begin := begin + 1;
    }
  }

  /** Bit j of a byte, counted from the lowest. */
  function Bit(b: bv8, j: nat): bv8
    requires j < 8
  {
    (b >> j) & 1
  }

  lemma MirrorsEachBit(b: bv8, j: nat)
    requires j < 8
    ensures Bit(MirrorBits(b), j) == Bit(b, 7 - j)
  {
    if j == 0 {
    } else if j == 1 {
    } else if j == 2 {
    } else if j == 3 {
    } else if j == 4 {
    } else if j == 5 {
    } else if j == 6 {
    } else {
      assert j == 7;
    }
  }

  /** The key is used byte after byte, again and again. */
  lemma KeyRepeats(key: seq<bv8>)
    requires key != []
    ensures forall k: nat :: KeyAt(key, k) == key[k % |key|]
  {
  }

  /** The key used when none is given. */
  lemma DefaultKeyIs()
    ensures
      var key := KeyBytes(Default);
      |key| == 16 && forall i | 0 <= i < 16 :: key[i] as int == "I LOVE MY FAMILY"[i] as int
    ensures forall b :: KeyBytes(Given(b)) == b
  {
  }

  const MASKS: seq<bv8> := [0x01, 0x02, 0x04, 0x08, 0x10, 0x20, 0x40, 0x80]

  /** Bit `begin` moved to place `end`. */
  function Moved(b: bv8, begin: nat, end: nat): bv8
    requires begin < 8 && end < 8
  {
    ((b & MASKS[begin]) >> begin) << end
  }

  /** The bits gathered once the positions from `begin` up have been visited. */
  function Gathered(b: bv8, begin: nat): bv8
    requires begin <= 8
    decreases 8 - begin
  {
    if begin == 8 then 0 else Gathered(b, begin + 1) | Moved(b, begin, 7 - begin)
  }

  lemma MovedHigh(b: bv8)
    ensures Moved(b, 7, 0) == (b & 0x80) >> 7 && Moved(b, 6, 1) == (b & 0x40) >> 5
    ensures Moved(b, 5, 2) == (b & 0x20) >> 3 && Moved(b, 4, 3) == (b & 0x10) >> 1
  {
  }

  lemma MovedLow(b: bv8)
    ensures Moved(b, 3, 4) == (b & 0x08) << 1 && Moved(b, 2, 5) == (b & 0x04) << 3
    ensures Moved(b, 1, 6) == (b & 0x02) << 5 && Moved(b, 0, 7) == (b & 0x01) << 7
  {
  }

  lemma GatheredAll(b: bv8)
    ensures Gathered(b, 0) == MirrorBits(b)
  {
    MovedHigh(b);
    MovedLow(b);
    hide Moved;
    assert Gathered(b, 4) == Moved(b, 7, 0) | Moved(b, 6, 1) | Moved(b, 5, 2) | Moved(b, 4, 3) by {
      assert Gathered(b, 6) == Moved(b, 7, 0) | Moved(b, 6, 1);
    }
    assert Gathered(b, 2) == Gathered(b, 4) | Moved(b, 3, 4) | Moved(b, 2, 5);
  }

  method SwapBit(inbuf: array<bv8>)
    modifies inbuf
    ensures inbuf[..] == Mirrored(old(inbuf[..]))
    ensures forall k, j | 0 <= k < inbuf.Length && 0 <= j < 8 :: Bit(inbuf[k], j) == Bit(old(inbuf[k]), 7 - j)
  {
    hide Moved, MirrorBits;
    assert forall b, j | 0 <= j < 8 :: Bit(MirrorBits(b), j) == Bit(b, 7 - j) by {
      forall b, j | 0 <= j < 8
        ensures Bit(MirrorBits(b), j) == Bit(b, 7 - j)
      {
        MirrorsEachBit(b, j);
      }
    }
    hide Bit;
    var index := 0;
    while index < inbuf.Length
      invariant 0 <= index <= inbuf.Length
      invariant forall k | 0 <= k < index :: inbuf[k] == MirrorBits(old(inbuf[k]))
      invariant forall k | index <= k < inbuf.Length :: inbuf[k] == old(inbuf[k])
    {
      var val: bv8, end, begin := 0, 0, 8;
      while begin > 0
        invariant 0 <= begin <= 8 && end == 8 - begin
        invariant val == Gathered(inbuf[index], begin)
      {
        begin := begin - 1;
        val := val | Moved(inbuf[index], begin, end);
        end := end + 1;
      }
      GatheredAll(inbuf[index]);
      inbuf[index] := val;
      index := index + 1;
    }
  }

  method XorStr(inbuf: array<bv8>, xorbuf: Key)
    requires KeyBytes(xorbuf) != []
    modifies inbuf
    ensures inbuf[..] == Masked(old(inbuf[..]), KeyBytes(xorbuf))
    ensures forall k | 0 <= k < inbuf.Length ::
      inbuf[k] == old(inbuf[k]) ^ KeyBytes(xorbuf)[k % |KeyBytes(xorbuf)|]
  {
    KeyRepeats(KeyBytes(xorbuf));
    hide KeyAt;
    var key := KeyBytes(xorbuf);
    var index := 0;
    while index < inbuf.Length
      invariant 0 <= index <= inbuf.Length
      invariant forall k | 0 <= k < index :: inbuf[k] == old(inbuf[k]) ^ KeyAt(key, k)
      invariant forall k | index <= k < inbuf.Length :: inbuf[k] == old(inbuf[k])
    {
      inbuf[index] := inbuf[index] ^ KeyAt(key, index);
      index := index + 1;
    }
  }

  // ---- each undoes itself ----

  function Scrambled(s: seq<bv8>, key: seq<bv8>): seq<bv8>
    requires key != []
  {
    Masked(Mirrored(Reversed(s)), key)
  }

  function Unscrambled(s: seq<bv8>, key: seq<bv8>): seq<bv8>
    requires key != []
  {
    Reversed(Mirrored(Masked(s, key)))
  }

  lemma UnscrambledScrambled(s: seq<bv8>, key: seq<bv8>)
    requires key != []
    ensures Unscrambled(Scrambled(s, key), key) == s && |Scrambled(s, key)| == |s|
    ensures Scrambled(Unscrambled(s, key), key) == s && |Unscrambled(s, key)| == |s|
  {
    assert |Scrambled(s, key)| == |s|;
    hide Masked, Mirrored, Reversed;
  }

  /** Each byte of the scrambled text, without its byte of the key, is the byte of the plaintext at the same distance
      from the other end, with its bits in the opposite order. */
  lemma ScrambledAt(s: seq<bv8>, key: seq<bv8>, i: nat, j: nat)
    requires key != [] && i < |s| && j < 8
    ensures |Scrambled(s, key)| == |s|
    ensures Bit(Scrambled(s, key)[i] ^ key[i % |key|], j) == Bit(s[|s| - 1 - i], 7 - j)
  {
    ScrambledByte(s, key, i);
    hide *;
    MirrorsEachBit(s[|s| - 1 - i], j);
  }

  lemma ScrambledByte(s: seq<bv8>, key: seq<bv8>, i: nat)
    requires key != [] && i < |s|
    ensures |Scrambled(s, key)| == |s| && Scrambled(s, key)[i] == MirrorBits(s[|s| - 1 - i]) ^ key[i % |key|]
  {
    hide MirrorBits;
  }

  /** What was encoded is the plaintext again after decoding, for every non-empty input and key. */
  lemma CipherRoundTrip(s: seq<bv8>, key: seq<bv8>)
    requires s != [] && key != []
    ensures Unscrambled(Base64.Decode(Base64.Encode(Scrambled(s, key))), key) == s
  {
    UnscrambledScrambled(s, key);
    hide *;
    Base64.RoundTrip(Scrambled(s, key));
  }

  // ---- the two entry points ----

  /** Stays inside its buffers exactly when the Base64 encoder does. */
  method XorEncode(initial: string, inbuf: seq<bv8>, xorbuf: Key) returns (inside: bool, outlen: nat, outbuf: string)
    requires KeyBytes(xorbuf) != []
    ensures inside <==> |Base64.Encode(Scrambled(inbuf, KeyBytes(xorbuf)))| <= |inbuf| + |inbuf| / 2
    ensures inbuf == [] ==> inside && outlen == 0 && outbuf == initial
    ensures inside && inbuf != [] ==>
      outlen <= |outbuf| && outbuf[..outlen] == Base64.Encode(Scrambled(inbuf, KeyBytes(xorbuf)))
  {
    hide *;
    UnscrambledScrambled(inbuf, KeyBytes(xorbuf));
    if inbuf == [] {
      Codec.NothingToEncode();
      assert Scrambled(inbuf, KeyBytes(xorbuf)) == [];
      return true, 0, initial;
    }
    var temp := new bv8[|inbuf|](i requires 0 <= i < |inbuf| => inbuf[i]);
    assert temp[..] == inbuf;
    SwapStr(temp);
    SwapBit(temp);
    XorStr(temp, xorbuf);
    ScrambledIs(inbuf, KeyBytes(xorbuf));
    inside, outlen, outbuf := Codec.EncodeString(initial, temp[..]);
  }

  lemma ScrambledIs(s: seq<bv8>, key: seq<bv8>)
    requires key != []
    ensures Scrambled(s, key) == Masked(Mirrored(Reversed(s)), key)
    ensures Unscrambled(s, key) == Reversed(Mirrored(Masked(s, key)))
  {
  }

  /** The plaintext is appended behind the buffer that the Base64 decoder left, which is as long as the input. */
  method XorDecode(initial: seq<bv8>, inbuf: string, xorbuf: Key) returns (inside: bool, outlen: nat, outbuf: seq<bv8>)
    requires KeyBytes(xorbuf) != []
    ensures |inbuf| < 4 ==> inside && outlen == 0 && outbuf == initial
    ensures |inbuf| >= 4 ==> (inside <==> Base64.AsciiGroups(inbuf))
    ensures inside && |inbuf| >= 4 ==>
      && 0 < outlen == |Base64.Decode(inbuf)| <= |inbuf| && |outbuf| == |inbuf| + outlen
      && outbuf[..outlen] == Base64.Decode(inbuf)
      && outbuf[|inbuf|..] == Unscrambled(Base64.Decode(inbuf), KeyBytes(xorbuf))
  {
    hide *;
    inside, outlen, outbuf := Codec.DecodeString(initial, inbuf);
    if !inside {
      return;
    }
    if |inbuf| >= 4 {
      DecodedIsNotEmpty(inbuf);
    }
    if |inbuf| > 0 && outlen > 0 {
      var plain := outbuf[..outlen];
      var temp := new bv8[outlen](i requires 0 <= i < |plain| => plain[i]);
      assert temp[..] == plain;
      XorStr(temp, xorbuf);
      SwapBit(temp);
      SwapStr(temp);
      ScrambledIs(plain, KeyBytes(xorbuf));
      UnscrambledScrambled(plain, KeyBytes(xorbuf));
      ghost var left := outbuf;
      outbuf := outbuf + temp[..];
      assert outbuf[..outlen] == left[..outlen] && outbuf[|left|..] == temp[..];
    }
  }

  lemma DecodedIsNotEmpty(s: string)
    requires |s| >= 4
    ensures |Base64.Decode(s)| > 0
  {
    hide Base64.Sextets;
  }

  lemma GroupsOfFour(text: string, k: nat)
    requires |text| == 4 * k && forall c | c in text :: c as int < 128
    ensures Base64.AsciiGroups(text)
  {
  }

  /** The module's self test on any text: whenever the encoder stays inside its buffer, the last outlen bytes are
      the text it started from, but the whole buffer, which the test compares, never is. */
  method XorTest(test: seq<bv8>, xorbuf: Key) returns (inside: bool, successful: bool, plain: seq<bv8>)
    requires test != [] && KeyBytes(xorbuf) != []
    ensures inside <==> |test| >= 14 || |test| in {3, 6, 8, 9, 11, 12}
    ensures inside ==> plain == test && !successful
  {
    hide *;
    successful, plain := false, [];
    var text := Scrambled(test, KeyBytes(xorbuf));
    UnscrambledScrambled(test, KeyBytes(xorbuf));
    Base64.RoundTrip(text);
    Base64.ReserveSuffices(|test|);
    var enlen, enbuf;
    inside, enlen, enbuf := XorEncode("", test, xorbuf);
    if !inside {
      return;
    }
    CipherRoundTrip(test, KeyBytes(xorbuf));
    Base64.PrintsAscii(text);
    GroupsOfFour(Base64.Encode(text), (|text| + 2) / 3);
    var delen, debuf;
    inside, delen, debuf := XorDecode([], enbuf[..enlen], xorbuf);
    successful := debuf == test;
    plain := debuf[|debuf| - delen..];
  }
}
