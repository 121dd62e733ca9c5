/** C string helpers: searching, printing a number and atoi. */
module Text {

  /** The pieces of a stream, one after the other. */
  function Joined<T>(parts: seq<seq<T>>): seq<T> {
    if parts == [] then [] else Joined(parts[..|parts| - 1]) + parts[|parts| - 1]
  }

  /** Position of the first c, or |s| when there is none. */
  function FindChar(s: string, c: char): (pos: nat)
    ensures pos <= |s|
    ensures pos < |s| ==> s[pos] == c
    ensures c !in s[..pos]
  {
    if s == [] || s[0] == c then 0 else 1 + FindChar(s[1..], c)
  }

  lemma {:induction false} FindCharAfter(u: string, c: char, r: string)
    requires c !in u
    ensures FindChar(u + r, c) == |u| + FindChar(r, c)
  {
    if u == [] {
      assert u + r == r;
    } else {
      assert (u + r)[1..] == u[1..] + r;
      FindCharAfter(u[1..], c, r);
    }
  }

  predicate IsDigit(c: char) {
    '0' <= c <= '9'
  }

  function DigitChar(d: nat): (c: char)
    requires d < 10
    ensures IsDigit(c) && DigitValue(c) == d
  {
    ('0' as int + d) as char
  }

  function DigitValue(c: char): nat
    requires IsDigit(c)
  {
    c as int - '0' as int
  }

  /** What "%d" prints for a number that is not negative. */
  function Dec(n: nat): (s: string)
    ensures s != "" && forall i | 0 <= i < |s| :: IsDigit(s[i])
  {
    if n < 10 then [DigitChar(n)] else Dec(n / 10) + [DigitChar(n % 10)]
  }

  /** Place by place in base ten, the lowest digit last and no zero in front. */
  lemma DecIs(n: nat, d: nat)
    requires d < 10
    ensures Dec(10 * n + d) == if n == 0 then ["0123456789"[d]] else Dec(n) + ["0123456789"[d]]
  {
    assert (10 * n + d) / 10 == n && (10 * n + d) % 10 == d;
    assert "0123456789"[d] as int == '0' as int + d;
  }

  predicate IsSpace(c: char) {
    c == ' ' || '\t' <= c <= '\r'
  }

  /** Reads digits until something else comes, on top of what was read already. */
  function ReadDigits(s: string, acc: nat): nat {
    if s == "" || !IsDigit(s[0]) then acc else ReadDigits(s[1..], 10 * acc + DigitValue(s[0]))
  }

  /** C's atoi: white space, an optional sign, digits; 0 when there are none. Overflow, undefined in C,
      does not happen here because integers are unbounded. */
  function Atoi(s: string): int {
    if s == "" then 0
    else if IsSpace(s[0]) then Atoi(s[1..])
    else if s[0] == '-' then -(ReadDigits(s[1..], 0) as int)
    else if s[0] == '+' then ReadDigits(s[1..], 0)
    else ReadDigits(s, 0)
  }

  lemma {:induction false} ReadDec(n: nat, rest: string)
    ensures ReadDigits(Dec(n) + rest, 0) == ReadDigits(rest, n)
  {
    if n < 10 {
      assert (Dec(n) + rest)[1..] == rest;
    } else {
      var d := DigitChar(n % 10);
      assert Dec(n) + rest == Dec(n / 10) + ([d] + rest);
      ReadDec(n / 10, [d] + rest);
      assert ([d] + rest)[1..] == rest;
    }
  }

  /** A printed number reads back, whatever follows it, unless that is another digit. */
  lemma AtoiDec(n: nat, rest: string)
    requires rest == "" || !IsDigit(rest[0])
    ensures Atoi(Dec(n) + rest) == n
  {
    assert (Dec(n) + rest)[0] == Dec(n)[0];
    ReadDec(n, rest);
  }

  /** A sign counts. */
  lemma AtoiSigned(n: nat, rest: string)
    requires rest == "" || !IsDigit(rest[0])
    ensures Atoi("-" + (Dec(n) + rest)) == 0 - n && Atoi("+" + (Dec(n) + rest)) == n
  {
    ReadDec(n, rest);
    var s := Dec(n) + rest;
    assert ("-" + s)[1..] == s && ("+" + s)[1..] == s;
    hide Dec;
  }

  /** White space in front does not count; what does not start like a number is 0. */
  lemma AtoiSkips(c: char, rest: string)
    ensures c in " \t\n\r\U{0B}\U{0C}" ==> Atoi([c] + rest) == Atoi(rest)
    ensures Atoi("") == 0
    ensures c !in "-+0123456789 \t\n\r\U{0B}\U{0C}" ==> Atoi([c] + rest) == 0
  {
    assert ([c] + rest)[1..] == rest;
    assert IsDigit(c) ==> c == "0123456789"[c as int - '0' as int];
  }

  /** A printed number that lost its last digits reads as something no greater than a tenth of it. */
  lemma {:induction false} AtoiDecCut(n: nat, j: nat)
    requires j < |Dec(n)|
    ensures 0 <= Atoi(Dec(n)[..j]) <= n / 10
  {
    if n >= 10 {
      if j == |Dec(n / 10)| {
        assert Dec(n)[..j] == Dec(n / 10) == Dec(n / 10) + "";
        AtoiDec(n / 10, "");
      } else {
        AtoiDecCut(n / 10, j);
        assert Dec(n)[..j] == Dec(n / 10)[..j];
      }
    } else {
      assert Dec(n)[..j] == "";
    }
  }

  /** The order of std::string. */
  predicate Less(a: string, b: string) {
    b != "" && (a == "" || a[0] < b[0] || (a[0] == b[0] && Less(a[1..], b[1..])))
  }

  /** A proper beginning comes first; otherwise the first difference decides. */
  lemma {:induction false} LessIff(a: string, b: string)
    ensures Less(a, b) <==>
      || (|a| < |b| && a == b[..|a|])
      || exists i :: 0 <= i < |a| && i < |b| && a[..i] == b[..i] && a[i] < b[i]
  {
    if a != "" && b != "" && a[0] == b[0] {
      LessIff(a[1..], b[1..]);
      assert |a| < |b| ==> (a == b[..|a|] <==> a[1..] == b[1..][..|a| - 1]) by {
        assert a == [a[0]] + a[1..] && (|a| <= |b| ==> b[..|a|] == [b[0]] + b[1..][..|a| - 1]);
      }
      if i :| 0 <= i < |a| && i < |b| && a[..i] == b[..i] && a[i] < b[i] {
        assert a[1..][..i - 1] == a[..i][1..] && b[1..][..i - 1] == b[..i][1..];
        assert a[1..][i - 1] < b[1..][i - 1];
      }
      if i :| 0 <= i < |a| - 1 && i < |b| - 1 && a[1..][..i] == b[1..][..i] && a[1..][i] < b[1..][i] {
        assert a[..i + 1] == [a[0]] + a[1..][..i] && b[..i + 1] == [b[0]] + b[1..][..i];
        assert a[i + 1] < b[i + 1];
      }
    } else if a != "" && b != "" && a[0] < b[0] {
      assert a[..0] == b[..0];
    } else if a != "" && b != "" {
      assert a[..1] == [a[0]] && b[..1] == [b[0]];
      assert forall i | 0 < i < |a| && i < |b| :: a[..i][0] != b[..i][0];
    }
  }

  lemma {:induction false} LessTotal(a: string, b: string)
    ensures Less(a, b) || a == b || Less(b, a)
  {
    if a != "" && b != "" && a[0] == b[0] {
      LessTotal(a[1..], b[1..]);
      assert a == [a[0]] + a[1..] && b == [b[0]] + b[1..];
    }
  }

  lemma {:induction false} LessOneWay(a: string, b: string)
    requires Less(a, b)
    ensures a != b && !Less(b, a)
  {
    if a != "" && a[0] == b[0] {
      LessOneWay(a[1..], b[1..]);
    }
  }

  lemma {:induction false} LessThrough(a: string, b: string, c: string)
    requires Less(a, b) && Less(b, c)
    ensures Less(a, c)
  {
    if a != "" && a[0] == b[0] == c[0] {
      LessThrough(a[1..], b[1..], c[1..]);
    }
  }
}
