/** Base64 as the framework and the client library write it: four letters for every three bytes, with
    bit masks on bytes and two lookup tables. Section 4 of RFC 4648 is the scheme. */
module Base64 {

  /** The alphabet, by sextet. */
  function Letter(v: nat): char
    requires v < 64
  {
    match v
    case 0 => 'A' case 1 => 'B' case 2 => 'C' case 3 => 'D' case 4 => 'E' case 5 => 'F' case 6 => 'G' case 7 => 'H'
    case 8 => 'I' case 9 => 'J' case 10 => 'K' case 11 => 'L'
    case 12 => 'M' case 13 => 'N' case 14 => 'O' case 15 => 'P'
    case 16 => 'Q' case 17 => 'R' case 18 => 'S' case 19 => 'T'
    case 20 => 'U' case 21 => 'V' case 22 => 'W' case 23 => 'X'
    case 24 => 'Y' case 25 => 'Z' case 26 => 'a' case 27 => 'b'
    case 28 => 'c' case 29 => 'd' case 30 => 'e' case 31 => 'f'
    case 32 => 'g' case 33 => 'h' case 34 => 'i' case 35 => 'j'
    case 36 => 'k' case 37 => 'l' case 38 => 'm' case 39 => 'n'
    case 40 => 'o' case 41 => 'p' case 42 => 'q' case 43 => 'r'
    case 44 => 's' case 45 => 't' case 46 => 'u' case 47 => 'v'
    case 48 => 'w' case 49 => 'x' case 50 => 'y' case 51 => 'z'
    case 52 => '0' case 53 => '1' case 54 => '2' case 55 => '3'
    case 56 => '4' case 57 => '5' case 58 => '6' case 59 => '7' case 60 => '8' case 61 => '9' case 62 => '+'
    case _ => '/'
  }

  /** The decoding table, by letter: -1 is the table's -1. */
  function Value(c: char): int {
    match c
    case 'A' => 0 case 'B' => 1 case 'C' => 2 case 'D' => 3 case 'E' => 4 case 'F' => 5 case 'G' => 6 case 'H' => 7
    case 'I' => 8 case 'J' => 9 case 'K' => 10 case 'L' => 11
    case 'M' => 12 case 'N' => 13 case 'O' => 14 case 'P' => 15
    case 'Q' => 16 case 'R' => 17 case 'S' => 18 case 'T' => 19
    case 'U' => 20 case 'V' => 21 case 'W' => 22 case 'X' => 23
    case 'Y' => 24 case 'Z' => 25 case 'a' => 26 case 'b' => 27
    case 'c' => 28 case 'd' => 29 case 'e' => 30 case 'f' => 31
    case 'g' => 32 case 'h' => 33 case 'i' => 34 case 'j' => 35
    case 'k' => 36 case 'l' => 37 case 'm' => 38 case 'n' => 39
    case 'o' => 40 case 'p' => 41 case 'q' => 42 case 'r' => 43
    case 's' => 44 case 't' => 45 case 'u' => 46 case 'v' => 47
    case 'w' => 48 case 'x' => 49 case 'y' => 50 case 'z' => 51
    case '0' => 52 case '1' => 53 case '2' => 54 case '3' => 55
    case '4' => 56 case '5' => 57 case '6' => 58 case '7' => 59
    case '8' => 60 case '9' => 61 case '+' => 62 case '/' => 63
    case _ => -1
  }

  /** The alphabet by range. */
  function LetterByRange(v: nat): char
    requires v < 64
  {
    if v < 26 then ('A' as int + v) as char
    else if v < 52 then ('a' as int + v - 26) as char
    else if v < 62 then ('0' as int + v - 52) as char
    else if v == 62 then '+' else '/'
  }

  /** The decoding table by range. */
  function ValueByRange(c: char): int {
    if 'A' <= c <= 'Z' then c as int - 'A' as int
    else if 'a' <= c <= 'z' then c as int - 'a' as int + 26
    else if '0' <= c <= '9' then c as int - '0' as int + 52
    else if c == '+' then 62 else if c == '/' then 63 else -1
  }

  lemma AlphabetByRange(v: nat)
    requires v < 64
    ensures Letter(v) == LetterByRange(v)
  {
  }

  lemma TableByRange(c: char)
    ensures Value(c) == ValueByRange(c)
  {
  }

  /** The two tables are each other's inverse. */
  lemma ValueOfLetter(v: nat)
    requires v < 64
    ensures Value(Letter(v)) == v && Letter(v) as int < 128 && Letter(v) != '=' && Letter(v) != '@'
  {
    hide Letter, Value;
    AlphabetByRange(v);
    TableByRange(Letter(v));
  }

  lemma LetterOfValue(c: char)
    ensures Value(c) == -1 || (0 <= Value(c) < 64 && Letter(Value(c)) == c)
  {
    hide Letter, Value;
    TableByRange(c);
    if Value(c) >= 0 {
      AlphabetByRange(Value(c));
    }
  }

  function Code(v: bv8): char
    requires v < 64
  {
    Letter(v as int)
  }

  /** The table entry as the byte the masks see: -1 is all ones. */
  function Bits(c: char): bv8 {
    if Value(c) < 0 then 0xff else Value(c) as bv8
  }

  predicate InAlphabet(c: char) {
    Value(c) != -1
  }

  lemma BackAndForth(v: bv8)
    requires v < 64
    ensures (v as int) as bv8 == v && 0 <= v as int < 64
  {
  }

  /** Every number below 64 is some byte's value. */
  lemma {:induction false} ByteFor(n: int) returns (v: bv8)
    requires 0 <= n < 64
    ensures v < 64 && v as int == n
  {
    v := 0;
    if n > 0 {
      v := ByteFor(n - 1);
      v := v + 1;
    }
  }

  lemma BitsOfCode(v: bv8)
    requires v < 64
    ensures Bits(Code(v)) == v && InAlphabet(Code(v)) && Code(v) != '=' && Code(v) != '@' && Code(v) as int < 128
  {
    ValueOfLetter(v as int);
    BackAndForth(v);
  }

  lemma CodeOfBits(c: char)
    requires InAlphabet(c)
    ensures Bits(c) < 64 && Code(Bits(c)) == c && c != '='
  {
    LetterOfValue(c);
    var v := ByteFor(Value(c));
    BackAndForth(v);
  }

  // ---- the masks ----

  function E0(a: bv8): (v: bv8) ensures v < 64 { (a >> 2) & 0x3f }
  function E1(a: bv8, b: bv8): (v: bv8) ensures v < 64 { ((a << 4) & 0x30) | ((b >> 4) & 0x0f) }
  function E2(b: bv8, c: bv8): (v: bv8) ensures v < 64 { ((b << 2) & 0x3c) | ((c >> 6) & 0x03) }
  function E3(c: bv8): (v: bv8) ensures v < 64 { c & 0x3f }

  function D0(p: bv8, q: bv8): bv8 { (p << 2) | ((q >> 4) & 0x03) }
  function D1(q: bv8, r: bv8): bv8 { ((q << 4) & 0xf0) | ((r >> 2) & 0x0f) }
  function D2(r: bv8, t: bv8): bv8 { ((r << 6) & 0xc0) | t }

  lemma MasksForth(p: bv8, q: bv8, r: bv8, t: bv8)
    requires p < 64 && q < 64 && r < 64 && t < 64
    ensures E0(D0(p, q)) == p && E1(D0(p, q), D1(q, r)) == q && E2(D1(q, r), D2(r, t)) == r && E3(D2(r, t)) == t
    ensures q & 0x0f == 0 ==> E1(D0(p, q), 0) == q
    ensures r & 0x03 == 0 ==> E2(D1(q, r), 0) == r
  {
  }

  /** Four sextets, each standing for six bits, make one number of 24 bits, and so do three bytes. */
  function FromSextets(p: bv8, q: bv8, r: bv8, t: bv8): bv32 {
    (p as bv32 << 18) | (q as bv32 << 12) | (r as bv32 << 6) | t as bv32
  }

  function FromBytes(a: bv8, b: bv8, c: bv8): bv32 {
    (a as bv32 << 16) | (b as bv32 << 8) | c as bv32
  }

  lemma SameNumber(a: bv8, b: bv8, c: bv8)
    ensures FromSextets(E0(a), E1(a, b), E2(b, c), E3(c)) == FromBytes(a, b, c)
  {
  }

  // ---- what is computed ----

  function Group(a: bv8, b: bv8, c: bv8): string {
    [Code(E0(a)), Code(E1(a, b)), Code(E2(b, c)), Code(E3(c))]
  }

  function Encode(s: seq<bv8>): string {
    if |s| >= 3 then Group(s[0], s[1], s[2]) + Encode(s[3..])
    else if |s| == 2 then [Code(E0(s[0])), Code(E1(s[0], s[1])), Code(E2(s[1], 0)), '=']
    else if |s| == 1 then [Code(E0(s[0])), Code(E1(s[0], 0)), '=', '=']
    else ""
  }

  /** The table entries of a text. */
  function Sextets(s: string): (q: seq<bv8>)
    ensures |q| == |s|
  {
    seq(|s|, i requires 0 <= i < |s| => Bits(s[i]))
  }

  function Bytes(q: seq<bv8>): seq<bv8>
    requires |q| >= 4
  {
    [D0(q[0], q[1]), D1(q[1], q[2]), D2(q[2], q[3])]
  }

  function DecodeGroups(q: seq<bv8>): (r: seq<bv8>)
    ensures |r| == 3 * (|q| / 4)
  {
    if |q| < 4 then [] else Bytes(q) + DecodeGroups(q[4..])
  }

  /** What the decoders can read: whole groups of characters that the table of 128 entries covers. */
  predicate AsciiGroups(text: string) {
    |text| % 4 == 0 && forall c | c in text :: c as int < 128
  }

  /** The callers of the client library's decoder pass c_str(): a text that lacks one character of its last group
      has the terminating NUL there. */
  function Terminated(text: string): (t: string)
    ensures |text| % 4 == 3 ==> |t| == |text| + 1 && t[..|text|] == text
    ensures |text| % 4 != 3 ==> t == text
  {
    if |text| % 4 == 3 then text + "\0" else text
  }

  lemma TerminatedGroups(text: string)
    ensures AsciiGroups(Terminated(text)) <==> |text| % 4 in {0, 3} && forall c | c in text :: c as int < 128
  {
    if |text| % 4 == 3 {
      forall c
        ensures c in Terminated(text) <==> c in text || c == '\0'
      {
      }
    }
  }

  /** The framework's count of padding: the last but one character matters only after a padded last one. */
  function Pads(s: string): nat
    requires |s| >= 4
  {
    if s[|s| - 1] == '=' then (if s[|s| - 2] == '=' then 2 else 1) else 0
  }

  /** The client library counts the two characters separately. */
  function LibPads(s: string): nat
    requires |s| >= 4
  {
    (if s[|s| - 1] == '=' then 1 else 0) + (if s[|s| - 2] == '=' then 1 else 0)
  }

  function Decode(s: string): seq<bv8> {
    if |s| < 4 then []
    else var all := DecodeGroups(Sextets(s)); all[..|all| - Pads(s)]
  }

  function LibDecode(s: string): seq<bv8> {
    if |s| < 4 then []
    else var all := DecodeGroups(Sextets(Terminated(s))); all[..|all| - LibPads(s)]
  }

  lemma PadsDiffer(s: string)
    requires |s| >= 4
    ensures Pads(s) == LibPads(s) <==> !(s[|s| - 2] == '=' && s[|s| - 1] != '=')
  {
  }

  lemma SextetsFrom(s: string, k: nat)
    requires k <= |s|
    ensures Sextets(s)[k..] == Sextets(s[k..])
  {
    hide Bits;
  }

  lemma TakePast<T>(a: seq<T>, b: seq<T>, n: nat)
    requires n <= |b|
    ensures (a + b)[..|a + b| - n] == a + b[..|b| - n]
  {
  }

  lemma DecodeStep(s: string)
    requires |s| >= 8 && |s| % 4 == 0
    ensures Decode(s) == Bytes(Sextets(s)) + Decode(s[4..]) && LibDecode(s) == Bytes(Sextets(s)) + LibDecode(s[4..])
  {
    SextetsFrom(s, 4);
    var q := Sextets(s);
    hide Sextets, Bytes, Bits, Value, DecodeGroups;
    assert Terminated(s) == s && Terminated(s[4..]) == s[4..];
    TakePast(Bytes(q), DecodeGroups(q[4..]), Pads(s));
    TakePast(Bytes(q), DecodeGroups(q[4..]), LibPads(s));
  }

  // ---- the shape of what Encode prints ----

  /** The last group: four letters, or padding after letters whose unused low bits are zero. */
  predicate LastGroup(s: string)
    requires |s| == 4
  {
    && InAlphabet(s[0]) && InAlphabet(s[1])
    && if s[3] != '=' then InAlphabet(s[2]) && InAlphabet(s[3])
       else if s[2] != '=' then InAlphabet(s[2]) && Bits(s[2]) & 0x03 == 0
       else Bits(s[1]) & 0x0f == 0
  }

  predicate Canonical(s: string) {
    && |s| >= 4
    && if |s| == 4 then LastGroup(s)
       else InAlphabet(s[0]) && InAlphabet(s[1]) && InAlphabet(s[2]) && InAlphabet(s[3]) && Canonical(s[4..])
  }

  lemma GroupIs(a: bv8, b: bv8, c: bv8)
    ensures forall i | 0 <= i < 4 :: InAlphabet(Group(a, b, c)[i])
    ensures Bytes(Sextets(Group(a, b, c))) == [a, b, c] && LastGroup(Group(a, b, c))
    ensures Pads(Group(a, b, c)) == LibPads(Group(a, b, c)) == 0
  {
    BitsOfCode(E0(a));
    BitsOfCode(E1(a, b));
    BitsOfCode(E2(b, c));
    BitsOfCode(E3(c));
  }

  lemma ShortIs(s: seq<bv8>)
    requires 0 < |s| < 3
    ensures |Encode(s)| == 4 && Canonical(Encode(s))
    ensures Decode(Encode(s)) == s && LibDecode(Encode(s)) == s
    ensures Pads(Encode(s)) == LibPads(Encode(s)) == 3 - |s|
  {
    var a, b := s[0], if |s| == 2 then s[1] else 0;
    BitsOfCode(E0(a));
    BitsOfCode(E1(a, b));
    BitsOfCode(E2(b, 0));
    var e := Encode(s);
    assert Bytes(Sextets(e))[..|s|] == s;
    hide E0, E1, E2, D0, D1, D2, Code, Bits, Value, InAlphabet, Sextets, Bytes, Encode;
    assert DecodeGroups(Sextets(e)) == Bytes(Sextets(e)) + DecodeGroups(Sextets(e)[4..]);
  }

  lemma EncodeStep(s: seq<bv8>)
    requires |s| >= 3
    ensures
      var e := Encode(s);
      |e| >= 4 && e[4..] == Encode(s[3..]) && Bytes(Sextets(e)) == s[..3] && forall i | 0 <= i < 4 :: InAlphabet(e[i])
    ensures |s| == 3 ==> |Encode(s)| == 4 && Decode(Encode(s)) == s && LibDecode(Encode(s)) == s && Canonical(Encode(s))
  {
    GroupIs(s[0], s[1], s[2]);
    var g, e := Group(s[0], s[1], s[2]), Encode(s);
    hide E0, E1, E2, E3, Code, Bits, Value, InAlphabet, Group, D0, D1, D2;
    assert e[..4] == g;
    assert forall i | 0 <= i < 4 :: Sextets(e)[i] == Sextets(g)[i];
    assert Bytes(Sextets(e)) == Bytes(Sextets(g));
    assert s[..3] == [s[0], s[1], s[2]];
    if |s| == 3 {
      assert s[3..] == [] && e == g;
      hide Sextets, Bytes;
      assert DecodeGroups(Sextets(e)) == Bytes(Sextets(e)) + DecodeGroups(Sextets(e)[4..]);
    }
  }

  lemma CanonicalMore(e: string)
    requires |e| > 4 && (forall i | 0 <= i < 4 :: InAlphabet(e[i])) && Canonical(e[4..])
    ensures Canonical(e)
  {
  }

  lemma {:induction false} EncodedShape(s: seq<bv8>)
    requires s != []
    ensures |Encode(s)| == 4 * ((|s| + 2) / 3) && Canonical(Encode(s))
  {
    hide *;
    if |s| < 3 {
      ShortIs(s);
    } else {
      EncodeStep(s);
      if |s| > 3 {
        EncodedShape(s[3..]);
        CanonicalMore(Encode(s));
      }
    }
  }

  /** Decoding what was encoded gives it back, for every non-empty input and by either way of counting
      padding; the length is four for every three bytes begun. */
  lemma {:induction false} RoundTrip(s: seq<bv8>)
    requires s != []
    ensures |Encode(s)| == 4 * ((|s| + 2) / 3)
    ensures Decode(Encode(s)) == s && LibDecode(Encode(s)) == s
  {
    hide *;
    EncodedShape(s);
    if |s| < 3 {
      ShortIs(s);
    } else {
      EncodeStep(s);
      if |s| > 3 {
        EncodedShape(s[3..]);
        RoundTrip(s[3..]);
        DecodeStep(Encode(s));
        assert s == s[..3] + s[3..];
      }
    }
  }

  predicate Plain(t: string) {
    forall c | c in t :: c != '@' && c as int < 128
  }

  lemma PlainJoined(a: string, b: string)
    requires Plain(a) && Plain(b)
    ensures Plain(a + b)
  {
  }

  lemma PlainFour(v: bv8, w: bv8, y: char, z: char)
    requires v < 64 && w < 64
    requires y == '=' || exists k: bv8 :: k < 64 && y == Code(k)
    requires z == '=' || exists k: bv8 :: k < 64 && z == Code(k)
    ensures Plain([Code(v), Code(w), y, z])
  {
    BitsOfCode(v);
    BitsOfCode(w);
    if y != '=' {
      var k: bv8 :| k < 64 && y == Code(k);
      BitsOfCode(k);
    }
    if z != '=' {
      var k: bv8 :| k < 64 && z == Code(k);
      BitsOfCode(k);
    }
    hide Code, Bits, InAlphabet;
  }

  lemma PlainGroup(a: bv8, b: bv8, c: bv8)
    ensures Plain(Group(a, b, c))
  {
    hide Code, Bits, E0, E1, E2, E3, Plain;
    assert Code(E2(b, c)) == Code(E2(b, c)) && Code(E3(c)) == Code(E3(c));
    PlainFour(E0(a), E1(a, b), Code(E2(b, c)), Code(E3(c)));
  }

  lemma PlainShort(s: seq<bv8>)
    requires |s| < 3
    ensures Plain(Encode(s))
  {
    hide Code, Bits, E0, E1, E2, E3;
    if |s| == 2 {
      PlainFour(E0(s[0]), E1(s[0], s[1]), Code(E2(s[1], 0)), '=');
    } else if |s| == 1 {
      PlainFour(E0(s[0]), E1(s[0], 0), '=', '=');
    }
  }

  lemma EncodeUnfold(s: seq<bv8>)
    requires |s| >= 3
    ensures Encode(s) == Group(s[0], s[1], s[2]) + Encode(s[3..])
  {
    hide Group;
  }

  lemma {:induction false} EncodesPlain(s: seq<bv8>)
    ensures Plain(Encode(s))
  {
    hide *;
    if |s| >= 3 {
      EncodeUnfold(s);
      EncodesPlain(s[3..]);
      PlainGroup(s[0], s[1], s[2]);
      PlainJoined(Group(s[0], s[1], s[2]), Encode(s[3..]));
    } else {
      PlainShort(s);
    }
  }

  /** Only letters and padding are printed. */
  lemma PrintsAscii(s: seq<bv8>)
    ensures forall c | c in Encode(s) :: c != '@' && c as int < 128
  {
    hide Encode;
    EncodesPlain(s);
  }

  lemma FourLetters(s: string)
    requires |s| >= 4 && InAlphabet(s[0]) && InAlphabet(s[1]) && InAlphabet(s[2]) && InAlphabet(s[3])
    ensures var b := Bytes(Sextets(s)); Group(b[0], b[1], b[2]) == s[..4]
  {
    CodeOfBits(s[0]);
    CodeOfBits(s[1]);
    CodeOfBits(s[2]);
    CodeOfBits(s[3]);
    MasksForth(Bits(s[0]), Bits(s[1]), Bits(s[2]), Bits(s[3]));
  }

  lemma DecodeFour(s: string)
    requires |s| == 4
    ensures Decode(s) == Bytes(Sextets(s))[..3 - Pads(s)]
  {
    var q := Sextets(s);
    hide Bits, D0, D1, D2;
    assert DecodeGroups(q) == Bytes(q) + DecodeGroups(q[4..]) == Bytes(q);
  }

  lemma LastGroupBack(s: string)
    requires |s| == 4 && LastGroup(s)
    ensures Encode(Decode(s)) == s
  {
    DecodeFour(s);
    hide Decode, DecodeGroups;
    if s[3] != '=' {
      FourLetters(s);
    } else {
      CodeOfBits(s[0]);
      CodeOfBits(s[1]);
      if s[2] != '=' {
        CodeOfBits(s[2]);
        MasksForth(Bits(s[0]), Bits(s[1]), Bits(s[2]), 0);
      } else {
        MasksForth(Bits(s[0]), Bits(s[1]), 0, 0);
      }
    }
  }

  lemma {:induction false} CanonicalBack(s: string)
    requires |s| % 4 == 0 && Canonical(s)
    ensures Encode(Decode(s)) == s
  {
    if |s| == 4 {
      LastGroupBack(s);
    } else {
      CanonicalBack(s[4..]);
      FourLetters(s);
      DecodeStep(s);
      hide E0, E1, E2, E3, D0, D1, D2, Code, Bits, Value, Group;
      assert Decode(s)[3..] == Decode(s[4..]);
      assert s == s[..4] + s[4..];
    }
  }

  /** Encoding a decoded text gives it back exactly when the text is canonical: letters, padding only at the
      end, and zeros in the bits the padding leaves unused. */
  lemma EncodeOfDecode(s: string)
    requires |s| % 4 == 0 && s != ""
    ensures Encode(Decode(s)) == s <==> Canonical(s)
  {
    if Canonical(s) {
      CanonicalBack(s);
    } else if Encode(Decode(s)) == s {
      EncodedShape(Decode(s));
    }
  }

  /** The framework reserves n + n/2 characters. That is room enough for every n from 14 on, and below that for
      a few sizes only; the client library's 2n must also hold a terminator, and fails for 1, 2 and 4. */
  lemma ReserveSuffices(n: nat)
    requires n > 0
    ensures 4 * ((n + 2) / 3) <= n + n / 2 <==> n >= 14 || n in {3, 6, 8, 9, 11, 12}
    ensures 4 * ((n + 2) / 3) + 1 <= n + n <==> n !in {1, 2, 4}
  {
  }

  // ---- the layout of RFC 4648, section 4 ----

  /** Capitals, small letters, digits, '+' and '/'. */
  lemma AlphabetIs(v: nat)
    requires v < 64
    ensures v < 26 ==> Letter(v) as int == 'A' as int + v
    ensures 26 <= v < 52 ==> Letter(v) as int == 'a' as int + (v - 26)
    ensures 52 <= v < 62 ==> Letter(v) as int == '0' as int + (v - 52)
    ensures Letter(62) == '+' && Letter(63) == '/'
  {
    AlphabetByRange(v);
    AlphabetByRange(62);
    AlphabetByRange(63);
    hide Letter;
  }

  /** Every group of four letters of an encoding, its sextets read as one number, is the number that its three bytes
      make; a last group of one or two bytes is padded with zero bits and with '='. */
  lemma {:induction false} EncodeLayout(s: seq<bv8>, k: nat)
    requires 3 * k < |s|
    ensures |Encode(s)| >= 4 * k + 4
    ensures
      var e, n := Encode(s), |s| - 3 * k;
      var a, b, c := s[3 * k], if n > 1 then s[3 * k + 1] else 0, if n > 2 then s[3 * k + 2] else 0;
      && FromSextets(Bits(e[4 * k]), Bits(e[4 * k + 1]), if n > 1 then Bits(e[4 * k + 2]) else 0,
                     if n > 2 then Bits(e[4 * k + 3]) else 0) == FromBytes(a, b, c)
      && (e[4 * k + 2] == '=' <==> n == 1) && (e[4 * k + 3] == '=' <==> n <= 2)
  {
    hide *;
    if k > 0 {
      EncodeUnfold(s);
      GroupLength(s[0], s[1], s[2]);
      EncodeLayout(s[3..], k - 1);
    } else {
      FirstGroup(s);
    }
  }

  lemma GroupLength(a: bv8, b: bv8, c: bv8)
    ensures |Group(a, b, c)| == 4
  {
  }

  lemma FirstGroup(s: seq<bv8>)
    requires s != []
    ensures |Encode(s)| >= 4
    ensures
      var e, n := Encode(s), |s|;
      var a, b, c := s[0], if n > 1 then s[1] else 0, if n > 2 then s[2] else 0;
      && FromSextets(Bits(e[0]), Bits(e[1]), if n > 1 then Bits(e[2]) else 0, if n > 2 then Bits(e[3]) else 0)
         == FromBytes(a, b, c)
      && (e[2] == '=' <==> n == 1) && (e[3] == '=' <==> n <= 2)
  {
    var a, b, c := s[0], if |s| > 1 then s[1] else 0, if |s| > 2 then s[2] else 0;
    SameNumber(a, b, c);
    BitsOfCode(E0(a));
    BitsOfCode(E1(a, b));
    BitsOfCode(E2(b, c));
    BitsOfCode(E3(c));
    hide E0, E1, E2, E3, Code, Bits, FromSextets, FromBytes, InAlphabet;
  }

  /** Back: four sextets make three bytes that are the same number; a character that is no letter counts as all ones. */
  lemma DecodeLayout(s: string)
    requires |s| >= 4
    ensures |DecodeGroups(Sextets(s))| >= 3
    ensures
      var d := DecodeGroups(Sextets(s));
      && d[..3] == Bytes(Sextets(s))
      && (Bits(s[0]) < 64 && Bits(s[1]) < 64 && Bits(s[2]) < 64 && Bits(s[3]) < 64 ==>
            FromBytes(d[0], d[1], d[2]) == FromSextets(Bits(s[0]), Bits(s[1]), Bits(s[2]), Bits(s[3])))
    ensures forall c :: Value(c) < 0 ==> Bits(c) == 0xff
  {
    var p, q, r, t := Bits(s[0]), Bits(s[1]), Bits(s[2]), Bits(s[3]);
    hide D0, D1, D2, FromSextets, FromBytes, Value;
    assert DecodeGroups(Sextets(s)) == Bytes(Sextets(s)) + DecodeGroups(Sextets(s)[4..]);
  }
}
