/** Replacing every occurrence of a delimiter by find, erase and append, and the escaping chain built
    from six such passes. */
module Separator {

  predicate At(s: string, i: int, pat: string) {
    0 <= i <= |s| - |pat| && s[i..i + |pat|] == pat
  }

  lemma AtBehind(s: string, k: nat, i: nat, pat: string)
    requires k <= |s|
    ensures At(s[k..], i, pat) <==> At(s, k + i, pat)
  {
    if k + i + |pat| <= |s| {
      assert s[k..][i..i + |pat|] == s[k + i..k + i + |pat|];
    }
  }

  /** string::find: the first occurrence at or after `from`, or -1. */
  function Find(s: string, pat: string, from: nat): (pos: int)
    ensures pos == -1 || (from <= pos && At(s, pos, pat))
    ensures forall i | from <= i && (pos == -1 || i < pos) :: !At(s, i, pat)
    decreases |s| - from
  {
    if from + |pat| > |s| then -1
    else if At(s, from, pat) then from
    else Find(s, pat, from + 1)
  }

  /** The reference: replace from left to right, never looking at what was put in. */
  function ReplaceAll(s: string, src: string, dest: string): string
    requires src != ""
  {
    if s == "" then ""
    else if src <= s then dest + ReplaceAll(s[|src|..], src, dest)
    else [s[0]] + ReplaceAll(s[1..], src, dest)
  }

  lemma {:induction false} NoneToReplace(s: string, src: string, dest: string)
    requires src != ""
    requires forall i | 0 <= i :: !At(s, i, src)
    ensures ReplaceAll(s, src, dest) == s
  {
    if s != "" {
      assert !At(s, 0, src);
      forall i | 0 <= i
        ensures !At(s[1..], i, src)
      {
        AtBehind(s, 1, i, src);
      }
      NoneToReplace(s[1..], src, dest);
    }
  }

  lemma ReplaceUnfold(s: string, src: string, dest: string)
    requires src != "" && s != ""
    ensures At(s, 0, src) ==> |src| <= |s| && ReplaceAll(s, src, dest) == dest + ReplaceAll(s[|src|..], src, dest)
    ensures !At(s, 0, src) ==> ReplaceAll(s, src, dest) == [s[0]] + ReplaceAll(s[1..], src, dest)
  {
  }

  lemma AtFits(s: string, i: int, pat: string)
    requires At(s, i, pat)
    ensures 0 <= i <= |s| - |pat|
  {
  }

  /** Up to the first occurrence nothing changes. */
  lemma {:induction false} ReplaceAtFirst(s: string, src: string, dest: string, pos: nat)
    requires src != "" && At(s, pos, src)
    requires forall i | 0 <= i < pos :: !At(s, i, src)
    ensures ReplaceAll(s, src, dest) == s[..pos] + dest + ReplaceAll(s[pos + |src|..], src, dest)
  {
    hide *;
    AtFits(s, pos, src);
    ReplaceUnfold(s, src, dest);
    if pos == 0 {
      assert s[..0] + dest == dest;
    } else {
      var t := s[1..];
      AtBehind(s, 1, pos - 1, src);
      forall i | 0 <= i < pos - 1
        ensures !At(t, i, src)
      {
        AtBehind(s, 1, i, src);
      }
      ReplaceAtFirst(t, src, dest, pos - 1);
      assert t[pos - 1 + |src|..] == s[pos + |src|..];
    }
  }

  /** The string after one turn, cut where the next search starts. */
  lemma Pieces(inbuf: string, dest: string, scanned: nat, pos: nat, after: nat)
    requires scanned <= pos <= after <= |inbuf|
    ensures
      var t := inbuf[..pos] + dest + inbuf[after..];
      var rest := inbuf[scanned..];
      && t[pos + |dest|..] == rest[after - scanned..]
      && t[..pos + |dest|] == inbuf[..scanned] + (rest[..pos - scanned] + dest)
  {
  }

  lemma FirstBehind(s: string, pat: string, k: nat, pos: nat)
    requires k <= pos && At(s, pos, pat) && forall i | k <= i < pos :: !At(s, i, pat)
    ensures k <= |s| && At(s[k..], pos - k, pat) && forall i | 0 <= i < pos - k :: !At(s[k..], i, pat)
  {
    AtFits(s, pos, pat);
    hide At;
    AtBehind(s, k, pos - k, pat);
    forall i | 0 <= i < pos - k
      ensures !At(s[k..], i, pat)
    {
      AtBehind(s, k, i, pat);
    }
  }

  /** One turn of the loop, seen from what is scanned already and the rest. */
  lemma LoopTurn(scanned: string, rest: string, src: string, dest: string, pos: nat)
    requires src != "" && At(rest, pos, src) && forall i | 0 <= i < pos :: !At(rest, i, src)
    ensures scanned + ReplaceAll(rest, src, dest)
      == (scanned + (rest[..pos] + dest)) + ReplaceAll(rest[pos + |src|..], src, dest)
  {
    hide *;
    AtFits(rest, pos, src);
    ReplaceAtFirst(rest, src, dest, pos);
  }

  /** The loop. It ends because the part not scanned yet gets shorter by the delimiter at least. */
  method PresenceReplace(instr: string, srcdelim: string, destdelim: string) returns (inbuf: string)
    requires srcdelim != ""
    ensures inbuf == ReplaceAll(instr, srcdelim, destdelim)
  {
    hide ReplaceAll;
    inbuf := instr;
    var pos := Find(inbuf, srcdelim, 0);
    ghost var scanned := 0;
    while pos != -1
      invariant 0 <= scanned <= |inbuf| && pos == Find(inbuf, srcdelim, scanned)
      invariant inbuf[..scanned] + ReplaceAll(inbuf[scanned..], srcdelim, destdelim)
        == ReplaceAll(instr, srcdelim, destdelim)
      decreases |inbuf| - scanned
    {
      FirstBehind(inbuf, srcdelim, scanned, pos);
      LoopTurn(inbuf[..scanned], inbuf[scanned..], srcdelim, destdelim, pos - scanned);
      Pieces(inbuf, destdelim, scanned, pos, pos + |srcdelim|);
      var sub := inbuf[pos + |srcdelim|..];
      inbuf := inbuf[..pos];
      inbuf := inbuf + destdelim;
      inbuf := inbuf + sub;
      scanned := pos + |destdelim|;
      pos := Find(inbuf, srcdelim, pos + |destdelim|);
    }
    var rest := inbuf[scanned..];
    forall i | 0 <= i
      ensures !At(rest, i, srcdelim)
    {
      AtBehind(inbuf, scanned, i, srcdelim);
    }
    NoneToReplace(rest, srcdelim, destdelim);
  }

  lemma {:induction false} SameDelimiter(s: string, delim: string)
    requires delim != ""
    ensures ReplaceAll(s, delim, delim) == s
  {
    if s != "" {
      if delim <= s {
        SameDelimiter(s[|delim|..], delim);
        assert s == delim + s[|delim|..];
      } else {
        SameDelimiter(s[1..], delim);
      }
    }
  }

  /** The framework's version leaves the string alone when both delimiters are the same. */
  method ReplaceSeparator(instr: string, srcdelim: string, destdelim: string) returns (inbuf: string)
    requires srcdelim != "" || destdelim == ""
    ensures inbuf == if srcdelim == "" then instr else ReplaceAll(instr, srcdelim, destdelim)
  {
    inbuf := instr;
    if srcdelim != destdelim {
      inbuf := PresenceReplace(inbuf, srcdelim, destdelim);
    } else if srcdelim != "" {
      SameDelimiter(instr, srcdelim);
    }
  }

  // ---- the empty delimiter ----

  datatype LoopState = LoopState(inbuf: string, pos: int)

  /** The loop's state after some turns, for any delimiter; a finished loop stays as it is. */
  function Turns(instr: string, src: string, dest: string, turns: nat): (s: LoopState)
    ensures s.pos == -1 || 0 <= s.pos <= |s.inbuf| - |src|
  {
    if turns == 0 then LoopState(instr, Find(instr, src, 0))
    else
      var s := Turns(instr, src, dest, turns - 1);
      if s.pos == -1 then s
      else
        var t := s.inbuf[..s.pos] + dest + s.inbuf[s.pos + |src|..];
        LoopState(t, Find(t, src, s.pos + |dest|))
  }

  lemma OneMore(k: nat, n: nat)
    ensures (k + 1) * n == k * n + n
  {
  }

  lemma EmptyIsFound(s: string, from: nat)
    requires from <= |s|
    ensures Find(s, "", from) == from
  {
  }

  lemma TurnIs(instr: string, src: string, dest: string, turns: nat)
    requires turns > 0
    ensures
      var s := Turns(instr, src, dest, turns - 1);
      var t := if s.pos == -1 then "" else s.inbuf[..s.pos] + dest + s.inbuf[s.pos + |src|..];
      Turns(instr, src, dest, turns) == if s.pos == -1 then s else LoopState(t, Find(t, src, s.pos + |dest|))
  {
    hide Find;
  }

  /** An empty delimiter is found again after every turn. */
  lemma {:induction false} EmptyNeverEnds(instr: string, dest: string, turns: nat)
    ensures Turns(instr, "", dest, turns).pos == turns * |dest|
  {
    hide At, Find;
    if turns == 0 {
      EmptyIsFound(instr, 0);
    } else {
      EmptyNeverEnds(instr, dest, turns - 1);
      TurnIs(instr, "", dest, turns);
      hide Turns;
      OneMore(turns - 1, |dest|);
      var s := Turns(instr, "", dest, turns - 1);
      EmptyIsFound(s.inbuf[..s.pos] + dest + s.inbuf[s.pos..], s.pos + |dest|);
    }
  }

  lemma FirstTurn(instr: string, src: string, dest: string)
    ensures var s := Turns(instr, src, dest, 0); s.inbuf == instr && s.pos >= -1
  {
  }

  lemma TurnShrinks(instr: string, src: string, dest: string, turns: nat)
    requires turns > 0 && src != ""
    ensures
      var s, t := Turns(instr, src, dest, turns - 1), Turns(instr, src, dest, turns);
      t.pos == -1 || (s.pos != -1 && |t.inbuf| - t.pos < |s.inbuf| - s.pos)
  {
    TurnIs(instr, src, dest, turns);
    hide Turns, At;
  }

  /** The part not scanned yet shrinks with every turn that is not the last. */
  lemma {:induction false} TurnsShrink(instr: string, src: string, dest: string, turns: nat)
    requires src != ""
    ensures var s := Turns(instr, src, dest, turns); s.pos == -1 || |s.inbuf| - s.pos <= |instr| - turns
  {
    hide *;
    if turns == 0 {
      FirstTurn(instr, src, dest);
    } else {
      TurnsShrink(instr, src, dest, turns - 1);
      TurnShrinks(instr, src, dest, turns);
    }
  }

  /** The loop ends exactly for a delimiter that is not empty. */
  lemma EndsIff(instr: string, src: string, dest: string)
    ensures (exists turns: nat :: Turns(instr, src, dest, turns).pos == -1) <==> src != ""
  {
    if src != "" {
      TurnsShrink(instr, src, dest, |instr| + 1);
      assert Turns(instr, src, dest, |instr| + 1).pos == -1;
    } else {
      forall turns: nat
        ensures Turns(instr, "", dest, turns).pos != -1
      {
        EmptyNeverEnds(instr, dest, turns);
        assert turns * |dest| >= 0;
      }
    }
  }

  // ---- the six passes ----

  /** What one character becomes when all six are replaced at once. */
  function EscapeOf(c: char): string {
    match c
    case '\\' => "\\\\"
    case '\"' => "\\\""
    case '&' => "&amp;"
    case '<' => "&lt;"
    case '>' => "&gt;"
    case '\'' => "''"
    case _ => [c]
  }

  function Escaped(s: string): string {
    if s == "" then "" else EscapeOf(s[0]) + Escaped(s[1..])
  }

  method EscapeChain(temp: string) returns (sendtemp: string)
    ensures sendtemp == Escaped(temp)
  {
    SixPassesAreOne(temp);
    hide ReplaceAll;
    sendtemp := PresenceReplace(temp, "\\", "\\\\");
    sendtemp := PresenceReplace(sendtemp, "\"", "\\\"");
    sendtemp := PresenceReplace(sendtemp, "&", "&amp;");
    sendtemp := PresenceReplace(sendtemp, "<", "&lt;");
    sendtemp := PresenceReplace(sendtemp, ">", "&gt;");
    sendtemp := PresenceReplace(sendtemp, "'", "''");
  }

  function SixPasses(s: string): string {
    var s1 := ReplaceAll(s, "\\", "\\\\");
    var s2 := ReplaceAll(s1, "\"", "\\\"");
    var s3 := ReplaceAll(s2, "&", "&amp;");
    var s4 := ReplaceAll(s3, "<", "&lt;");
    var s5 := ReplaceAll(s4, ">", "&gt;");
    ReplaceAll(s5, "'", "''")
  }

  /** A delimiter of one character never spans two parts. */
  lemma {:induction false} ReplaceSplits(a: string, b: string, c: char, dest: string)
    ensures ReplaceAll(a + b, [c], dest) == ReplaceAll(a, [c], dest) + ReplaceAll(b, [c], dest)
  {
    if a == "" {
      assert a + b == b;
    } else {
      assert (a + b)[1..] == a[1..] + b;
      ReplaceSplits(a[1..], b, c, dest);
      assert [c] <= a <==> a[0] == c;
      assert [c] <= a + b <==> a[0] == c;
    }
  }

  lemma ReplaceOne(x: char, c: char, dest: string)
    ensures ReplaceAll([x], [c], dest) == if x == c then dest else [x]
  {
    assert [c] <= [x] <==> x == c;
    assert [x][1..] == "" && ReplaceAll("", [c], dest) == "";
  }

  lemma SixPassesSplit(a: string, b: string)
    ensures SixPasses(a + b) == SixPasses(a) + SixPasses(b)
  {
    hide ReplaceAll;
    var a1, b1 := ReplaceAll(a, "\\", "\\\\"), ReplaceAll(b, "\\", "\\\\");
    var a2, b2 := ReplaceAll(a1, "\"", "\\\""), ReplaceAll(b1, "\"", "\\\"");
    var a3, b3 := ReplaceAll(a2, "&", "&amp;"), ReplaceAll(b2, "&", "&amp;");
    var a4, b4 := ReplaceAll(a3, "<", "&lt;"), ReplaceAll(b3, "<", "&lt;");
    var a5, b5 := ReplaceAll(a4, ">", "&gt;"), ReplaceAll(b4, ">", "&gt;");
    ReplaceSplits(a, b, '\\', "\\\\");
    ReplaceSplits(a1, b1, '\"', "\\\"");
    ReplaceSplits(a2, b2, '&', "&amp;");
    ReplaceSplits(a3, b3, '<', "&lt;");
    ReplaceSplits(a4, b4, '>', "&gt;");
    ReplaceSplits(a5, b5, '\'', "''");
  }

  /** Characters that a pass neither looks for nor contains go through it unchanged. */
  lemma {:induction false} PassIdle(s: string, c: char, dest: string)
    requires c !in s
    ensures ReplaceAll(s, [c], dest) == s
  {
    if s != "" {
      assert s[0] != c && !([c] <= s);
      PassIdle(s[1..], c, dest);
    }
  }

  lemma OneCharacter(x: char)
    ensures SixPasses([x]) == EscapeOf(x)
  {
    hide ReplaceAll;
    ReplaceOne(x, '\\', "\\\\");
    var s1 := ReplaceAll([x], "\\", "\\\\");
    if x == '\\' {
      PassIdle(s1, '\"', "\\\"");
      PassIdle(s1, '&', "&amp;");
      PassIdle(s1, '<', "&lt;");
      PassIdle(s1, '>', "&gt;");
      PassIdle(s1, '\'', "''");
    } else {
      ReplaceOne(x, '\"', "\\\"");
      var s2 := ReplaceAll([x], "\"", "\\\"");
      if x == '\"' {
        PassIdle(s2, '&', "&amp;");
        PassIdle(s2, '<', "&lt;");
        PassIdle(s2, '>', "&gt;");
        PassIdle(s2, '\'', "''");
      } else {
        ReplaceOne(x, '&', "&amp;");
        var s3 := ReplaceAll([x], "&", "&amp;");
        if x == '&' {
          PassIdle(s3, '<', "&lt;");
          PassIdle(s3, '>', "&gt;");
          PassIdle(s3, '\'', "''");
        } else {
          ReplaceOne(x, '<', "&lt;");
          var s4 := ReplaceAll([x], "<", "&lt;");
          if x == '<' {
            PassIdle(s4, '>', "&gt;");
            PassIdle(s4, '\'', "''");
          } else {
            ReplaceOne(x, '>', "&gt;");
            ReplaceOne(x, '\'', "''");
            if x == '>' {
              PassIdle("&gt;", '\'', "''");
            }
          }
        }
      }
    }
  }

  /** Six passes, one after the other, are one substitution of every character at once. */
  lemma {:induction false} SixPassesAreOne(s: string)
    ensures SixPasses(s) == Escaped(s)
  {
    if s == "" {
    } else {
      hide ReplaceAll, SixPasses, EscapeOf;
      assert s == [s[0]] + s[1..];
      SixPassesSplit([s[0]], s[1..]);
      OneCharacter(s[0]);
      SixPassesAreOne(s[1..]);
    }
  }

  /** One pass back: how much of the text one character took, and which it was. */
  function Unescaped(s: string): string {
    if s == "" then ""
    else if "\\\\" <= s then "\\" + Unescaped(s[2..])
    else if "\\\"" <= s then "\"" + Unescaped(s[2..])
    else if "''" <= s then "'" + Unescaped(s[2..])
    else if "&amp;" <= s then "&" + Unescaped(s[5..])
    else if "&lt;" <= s then "<" + Unescaped(s[4..])
    else if "&gt;" <= s then ">" + Unescaped(s[4..])
    else [s[0]] + Unescaped(s[1..])
  }

  lemma UnescapeFirst(c: char, rest: string)
    ensures Unescaped(EscapeOf(c) + rest) == [c] + Unescaped(rest)
  {
    var e := EscapeOf(c);
    var s := e + rest;
    assert s[|e|..] == rest;
    assert e <= s;
    if c in {'\\', '\"', '&', '<', '>', '\''} {
      assert s[0] == e[0] && s[1] == e[1];
      if c in {'&', '<', '>'} {
        assert s[2] == e[2] && s[3] == e[3];
      }
    } else {
      assert s[0] == c;
    }
  }

  /** A single pass undoes the escaping of every string, so no two strings are escaped alike. */
  lemma {:induction false} UnescapeUndoes(s: string)
    ensures Unescaped(Escaped(s)) == s
  {
    if s != "" {
      UnescapeFirst(s[0], Escaped(s[1..]));
      hide Unescaped, EscapeOf;
      UnescapeUndoes(s[1..]);
    }
  }

  // ---- the passes in any order ----

  const SPECIAL: seq<char> := ['\\', '\"', '&', '<', '>', '\'']

  /** The passes for these characters, first to last. */
  function Passes(order: seq<char>, s: string): string {
    if order == [] then s else Passes(order[1..], ReplaceAll(s, [order[0]], EscapeOf(order[0])))
  }

  ghost predicate Distinct(order: seq<char>) {
    forall i, j | 0 <= i < j < |order| :: order[i] != order[j]
  }

  /** All six, each once. */
  ghost predicate IsOrder(order: seq<char>) {
    Distinct(order) && forall c :: c in order <==> c in SPECIAL
  }

  ghost predicate Before(order: seq<char>, a: char, b: char) {
    exists i, j :: 0 <= i < j < |order| && order[i] == a && order[j] == b
  }

  lemma {:induction false} PassesSplit(order: seq<char>, a: string, b: string)
    ensures Passes(order, a + b) == Passes(order, a) + Passes(order, b)
    decreases |order|
  {
    hide ReplaceAll, EscapeOf;
    if order != [] {
      ReplaceSplits(a, b, order[0], EscapeOf(order[0]));
      var c := order[0];
      PassesSplit(order[1..], ReplaceAll(a, [c], EscapeOf(c)), ReplaceAll(b, [c], EscapeOf(c)));
    }
  }

  /** No pass changes a text that holds none of its characters. */
  lemma {:induction false} PassesIdle(order: seq<char>, s: string)
    requires forall c | c in order :: c !in s
    ensures Passes(order, s) == s
    decreases |order|
  {
    hide ReplaceAll, EscapeOf;
    if order != [] {
      PassIdle(s, order[0], EscapeOf(order[0]));
      PassesIdle(order[1..], s);
    }
  }

  lemma {:induction false} PassesAppend(a: seq<char>, b: seq<char>, s: string)
    ensures Passes(a + b, s) == Passes(b, Passes(a, s))
    decreases |a|
  {
    hide ReplaceAll, EscapeOf;
    if a == [] {
      assert a + b == b;
    } else {
      assert (a + b)[1..] == a[1..] + b;
      PassesAppend(a[1..], b, ReplaceAll(s, [a[0]], EscapeOf(a[0])));
    }
  }

  lemma OnePass(x: char, s: string)
    ensures Passes([x], s) == ReplaceAll(s, [x], EscapeOf(x))
  {
    hide ReplaceAll, EscapeOf;
    var order := [x];
    assert order[1..] == [];
    assert Passes([], ReplaceAll(s, [x], EscapeOf(x))) == ReplaceAll(s, [x], EscapeOf(x));
  }

  /** A character that has a pass is escaped right when no later pass finds its character in the escape. */
  lemma EscapedRight(order: seq<char>, i: nat)
    requires Distinct(order) && i < |order|
    requires forall j | i < j < |order| :: order[j] !in EscapeOf(order[i])
    ensures Passes(order, [order[i]]) == EscapeOf(order[i])
  {
    hide ReplaceAll, EscapeOf, Passes;
    var x := order[i];
    assert order == order[..i] + ([x] + order[i + 1..]);
    PassesAppend(order[..i], [x] + order[i + 1..], [x]);
    PassesIdle(order[..i], [x]);
    PassesAppend([x], order[i + 1..], [x]);
    OnePass(x, [x]);
    ReplaceOne(x, x, EscapeOf(x));
    PassesIdle(order[i + 1..], EscapeOf(x));
  }

  /** No pass shortens a text, and one that finds its character lengthens it. */
  lemma {:induction false} PassGrows(s: string, c: char)
    requires c in SPECIAL
    ensures |ReplaceAll(s, [c], EscapeOf(c))| >= |s| && (c in s ==> |ReplaceAll(s, [c], EscapeOf(c))| > |s|)
  {
    if s != "" {
      assert [c] <= s <==> s[0] == c;
      PassGrows(s[1..], c);
      hide EscapeOf;
    }
  }

  lemma {:induction false} PassesGrow(order: seq<char>, s: string)
    requires forall c | c in order :: c in SPECIAL
    ensures |Passes(order, s)| >= |s|
    decreases |order|
  {
    hide ReplaceAll, EscapeOf;
    if order != [] {
      PassGrows(s, order[0]);
      PassesGrow(order[1..], ReplaceAll(s, [order[0]], EscapeOf(order[0])));
    }
  }

  /** It comes out too long when a later pass does. */
  lemma EscapedWrong(order: seq<char>, i: nat, j: nat)
    requires IsOrder(order) && i < j < |order| && order[j] in EscapeOf(order[i])
    requires forall k | i < k < j :: order[k] !in EscapeOf(order[i])
    ensures |Passes(order, [order[i]])| > |EscapeOf(order[i])|
  {
    var head, tail := order[..j], order[j..];
    assert Distinct(head) && head[i] == order[i];
    assert order == head + tail;
    assert forall c | c in tail[1..] :: c in order;
    hide ReplaceAll, EscapeOf;
    EscapedRight(head, i);
    PassesAppend(head, tail, [order[i]]);
    PassGrows(EscapeOf(order[i]), order[j]);
    PassesGrow(tail[1..], ReplaceAll(EscapeOf(order[i]), [order[j]], EscapeOf(order[j])));
  }

  /** The characters that appear in another one's escape. */
  predicate Spoils(c: char, x: char) {
    (x == '\"' && c == '\\') || ((x == '<' || x == '>') && c == '&')
  }

  lemma SpoilsIs(c: char, x: char)
    requires c in SPECIAL && x in SPECIAL && c != x
    ensures c in EscapeOf(x) <==> Spoils(c, x)
  {
  }

  lemma NotSpecial(x: char)
    requires x !in SPECIAL
    ensures EscapeOf(x) == [x]
  {
  }

  lemma PlaceOf(order: seq<char>, c: char) returns (i: nat)
    requires c in order
    ensures i < |order| && order[i] == c
  {
    i :| 0 <= i < |order| && order[i] == c;
  }

  lemma CharacterRight(order: seq<char>, x: char)
    requires IsOrder(order)
    requires Before(order, '\\', '\"') && Before(order, '&', '<') && Before(order, '&', '>')
    ensures Passes(order, [x]) == EscapeOf(x)
  {
    hide Passes, EscapeOf;
    if x in SPECIAL {
      var i := PlaceOf(order, x);
      forall j | i < j < |order|
        ensures order[j] !in EscapeOf(order[i])
      {
        SpoilsIs(order[j], order[i]);
      }
      EscapedRight(order, i);
    } else {
      NotSpecial(x);
      PassesIdle(order, [x]);
    }
  }

  lemma {:induction false} TextRight(order: seq<char>, s: string)
    requires forall x :: Passes(order, [x]) == EscapeOf(x)
    ensures Passes(order, s) == Escaped(s)
  {
    hide EscapeOf, Passes;
    if s == "" {
      NothingPassed(order);
    } else {
      assert s == [s[0]] + s[1..];
      PassesSplit(order, [s[0]], s[1..]);
      TextRight(order, s[1..]);
    }
  }

  lemma {:induction false} NothingPassed(order: seq<char>)
    ensures Passes(order, "") == ""
    decreases |order|
  {
    if order != [] {
      NothingPassed(order[1..]);
    }
  }

  lemma MustPrecede(order: seq<char>, c: char, x: char)
    requires IsOrder(order) && c in SPECIAL && x in SPECIAL && c != x && Spoils(c, x)
    requires Passes(order, [x]) == EscapeOf(x)
    ensures Before(order, c, x)
  {
    hide Passes, EscapeOf;
    var i := PlaceOf(order, x);
    var j := PlaceOf(order, c);
    if i < j {
      forall k | i < k < j
        ensures order[k] !in EscapeOf(order[i])
      {
        SpoilsIs(order[k], order[i]);
      }
      SpoilsIs(c, x);
      EscapedWrong(order, i, j);
    }
  }

  lemma OneEscaped(x: char)
    ensures Escaped([x]) == EscapeOf(x)
  {
    hide EscapeOf;
    var s := [x];
    assert s[1..] == "" && Escaped("") == "";
  }

  ghost predicate AlwaysRight(order: seq<char>) {
    forall s: string :: Passes(order, s) == Escaped(s)
  }

  /** Backslash before quote, and '&' before '<' and '>'. */
  ghost predicate GoodOrder(order: seq<char>) {
    Before(order, '\\', '\"') && Before(order, '&', '<') && Before(order, '&', '>')
  }

  lemma GoodIsRight(order: seq<char>)
    requires IsOrder(order) && GoodOrder(order)
    ensures AlwaysRight(order)
  {
    hide Passes, EscapeOf, Escaped, Distinct;
    forall x
      ensures Passes(order, [x]) == EscapeOf(x)
    {
      CharacterRight(order, x);
    }
    forall s: string
      ensures Passes(order, s) == Escaped(s)
    {
      TextRight(order, s);
    }
  }

  lemma RightIsGood(order: seq<char>)
    requires IsOrder(order) && AlwaysRight(order)
    ensures GoodOrder(order)
  {
    hide Passes, EscapeOf, Escaped, Distinct, Before;
    OneEscaped('\"');
    OneEscaped('<');
    OneEscaped('>');
    MustPrecede(order, '\\', '\"');
    MustPrecede(order, '&', '<');
    MustPrecede(order, '&', '>');
  }

  /** Of all orders of the six passes exactly those are right, for every string, in which backslash comes before
      quote and '&' before '<' and '>'. */
  lemma OrderMatters(order: seq<char>)
    requires IsOrder(order)
    ensures AlwaysRight(order) <==> GoodOrder(order)
  {
    hide AlwaysRight, GoodOrder;
    if GoodOrder(order) {
      GoodIsRight(order);
    } else if AlwaysRight(order) {
      RightIsGood(order);
    }
  }

  lemma PassesUnfold(c: char, order: seq<char>, s: string)
    ensures Passes([c] + order, s) == Passes(order, ReplaceAll(s, [c], EscapeOf(c)))
  {
    hide ReplaceAll, EscapeOf;
    assert ([c] + order)[1..] == order;
  }

  lemma EscapesAre()
    ensures EscapeOf('\\') == "\\\\" && EscapeOf('\"') == "\\\"" && EscapeOf('&') == "&amp;"
    ensures EscapeOf('<') == "&lt;" && EscapeOf('>') == "&gt;" && EscapeOf('\'') == "''"
  {
  }

  lemma FirstThree(s: string)
    ensures
      var s1 := ReplaceAll(s, "\\", EscapeOf('\\'));
      var s2 := ReplaceAll(s1, "\"", EscapeOf('\"'));
      var s3 := ReplaceAll(s2, "&", EscapeOf('&'));
      Passes(SPECIAL, s) == Passes(['<', '>', '\''], s3)
  {
    hide ReplaceAll, EscapeOf, Passes;
    var s1 := ReplaceAll(s, "\\", EscapeOf('\\'));
    var s2 := ReplaceAll(s1, "\"", EscapeOf('\"'));
    PassesUnfold('\\', ['\"', '&', '<', '>', '\''], s);
    PassesUnfold('\"', ['&', '<', '>', '\''], s1);
    PassesUnfold('&', ['<', '>', '\''], s2);
    assert SPECIAL == ['\\'] + ['\"', '&', '<', '>', '\''];
    assert ['\"', '&', '<', '>', '\''] == ['\"'] + ['&', '<', '>', '\''];
    assert ['&', '<', '>', '\''] == ['&'] + ['<', '>', '\''];
  }

  lemma LastThree(s: string)
    ensures
      var s4 := ReplaceAll(s, "<", EscapeOf('<'));
      var s5 := ReplaceAll(s4, ">", EscapeOf('>'));
      Passes(['<', '>', '\''], s) == ReplaceAll(s5, "'", EscapeOf('\''))
  {
    hide ReplaceAll, EscapeOf, Passes;
    var s4 := ReplaceAll(s, "<", EscapeOf('<'));
    PassesUnfold('<', ['>', '\''], s);
    PassesUnfold('>', ['\''], s4);
    OnePass('\'', ReplaceAll(s4, ">", EscapeOf('>')));
    assert ['<', '>', '\''] == ['<'] + ['>', '\''];
    assert ['>', '\''] == ['>'] + ['\''];
  }

  lemma SixUnfolded(s: string)
    ensures Passes(SPECIAL, s) == SixPasses(s)
  {
    EscapesAre();
    hide ReplaceAll, EscapeOf, Passes;
    FirstThree(s);
    LastThree(ReplaceAll(ReplaceAll(ReplaceAll(s, "\\", EscapeOf('\\')), "\"", EscapeOf('\"')), "&", EscapeOf('&')));
  }

  /** The source's order is one of them. */
  lemma SourceOrder(s: string)
    ensures Passes(SPECIAL, s) == SixPasses(s) && IsOrder(SPECIAL) && GoodOrder(SPECIAL)
  {
    SixUnfolded(s);
    hide Passes, SixPasses;
    assert Before(SPECIAL, '\\', '\"') by { assert SPECIAL[0] == '\\' && SPECIAL[1] == '\"'; }
    assert Before(SPECIAL, '&', '<') by { assert SPECIAL[2] == '&' && SPECIAL[3] == '<'; }
    assert Before(SPECIAL, '&', '>') by { assert SPECIAL[2] == '&' && SPECIAL[4] == '>'; }
  }
}
