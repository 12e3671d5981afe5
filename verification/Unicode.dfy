/** Text and its bytes: UTF-8 as Python reads and writes it, and as a JavaScript Buffer reads it. */
module Unicode {
  import opened Bytes
  import opened Lists

  // ---- Encoding ----

  /** A character that can be encoded: a code point that is not a surrogate. */
  type CodePoint = c: int | 0 <= c < 0x110000 && !(0xD800 <= c < 0xE000)
  type Text = seq<CodePoint>

  function Utf8Char(c: CodePoint): (s: seq<byte>)
    ensures 1 <= |s| <= 4
  {
    var n: int := c;
    if n < 0x80 then [n]
    else if n < 0x800 then [0xC0 + n / 64, 0x80 + n % 64]
    else if n < 0x1_0000 then [0xE0 + n / 4096, 0x80 + n / 64 % 64, 0x80 + n % 64]
    else [0xF0 + n / 262144, 0x80 + n / 4096 % 64, 0x80 + n / 64 % 64, 0x80 + n % 64]
  }

  /** str.encode("utf-8"). */
  function Utf8(t: Text): (s: seq<byte>)
    ensures |t| <= |s| <= 4 * |t|
  {
    if t == [] then [] else Utf8Char(t[0]) + Utf8(t[1..])
  }

  // ---- Strict decoding ----

  predicate Continues(b: byte) { 0x80 <= b < 0xC0 }

  /** The second byte of a sequence of three or four: no overlong form, no surrogate, nothing past U+10FFFF. */
  predicate SecondFits(lead: byte, b: byte) {
    if lead == 0xE0 then 0xA0 <= b < 0xC0
    else if lead == 0xED then 0x80 <= b < 0xA0
    else if lead == 0xF0 then 0x90 <= b < 0xC0
    else if lead == 0xF4 then 0x80 <= b < 0x90
    else Continues(b)
  }

  /** The number of bytes that the character at the front takes, or 0 if there is none. */
  function FirstLength(s: seq<byte>): (n: nat)
    ensures n <= |s| && n <= 4
  {
    if s == [] then 0
    else if s[0] < 0x80 then 1
    else if 0xC2 <= s[0] < 0xE0 then if |s| >= 2 && Continues(s[1]) then 2 else 0
    else if 0xE0 <= s[0] < 0xF0 then if |s| >= 3 && SecondFits(s[0], s[1]) && Continues(s[2]) then 3 else 0
    else if 0xF0 <= s[0] < 0xF5 then
      if |s| >= 4 && SecondFits(s[0], s[1]) && Continues(s[2]) && Continues(s[3]) then 4 else 0
    else 0
  }

  function First(s: seq<byte>): CodePoint
    requires FirstLength(s) > 0
  {
    var n := FirstLength(s);
    var a: int := s[0];
    if n == 1 then a
    else if n == 2 then (a - 0xC0) * 64 + (s[1] as int - 0x80)
    else if n == 3 then (a - 0xE0) * 4096 + (s[1] as int - 0x80) * 64 + (s[2] as int - 0x80)
    else (a - 0xF0) * 262144 + (s[1] as int - 0x80) * 4096 + (s[2] as int - 0x80) * 64 + (s[3] as int - 0x80)
  }

  /** bytes.decode("utf-8"); None is the exception. */
  function Utf8Decode(s: seq<byte>): Option<Text>
    decreases |s|
  {
    if s == [] then Some([])
    else if FirstLength(s) == 0 then None
    else
      match Utf8Decode(s[FirstLength(s)..])
      case None => None
      case Some(t) => Some([First(s)] + t)
  }

  /** Bytes that are the encoding of some text. */
  predicate IsText(s: seq<byte>) { Utf8Decode(s).Some? }

  lemma Digits(n: nat)
    ensures n == n / 64 * 64 + n % 64
    ensures n == n / 4096 * 4096 + n / 64 % 64 * 64 + n % 64
    ensures n == n / 262144 * 262144 + n / 4096 % 64 * 4096 + n / 64 % 64 * 64 + n % 64
  {
    var a := n / 64;
    var b := a / 64;
    assert n == 64 * a + n % 64 && a == 64 * b + a % 64 && b == 64 * (b / 64) + b % 64;
    assert b == n / 4096 && b / 64 == n / 262144;
  }

  lemma FirstOfChar(c: CodePoint, rest: seq<byte>)
    ensures var s := Utf8Char(c) + rest;
            FirstLength(s) == |Utf8Char(c)| && First(s) == c && s[FirstLength(s)..] == rest
  {
    Digits(c);
  }

  lemma TwoDigits(x: nat, y: nat)
    requires y < 64
    ensures (x * 64 + y) / 64 == x && (x * 64 + y) % 64 == y
  {
  }

  lemma TwoBytes(s: seq<byte>)
    requires FirstLength(s) == 2
    ensures s[..2] == Utf8Char(First(s))
  {
    TwoDigits(s[0] as int - 0xC0, s[1] as int - 0x80);
  }

  lemma ThreeBytes(s: seq<byte>)
    requires FirstLength(s) == 3
    ensures s[..3] == Utf8Char(First(s))
  {
    var a, b := s[0] as int - 0xE0, s[1] as int - 0x80;
    TwoDigits(a, b);
    TwoDigits(a * 64 + b, s[2] as int - 0x80);
  }

  lemma FourBytes(s: seq<byte>)
    requires FirstLength(s) == 4
    ensures s[..4] == Utf8Char(First(s))
  {
    var a, b, c := s[0] as int - 0xF0, s[1] as int - 0x80, s[2] as int - 0x80;
    TwoDigits(a, b);
    TwoDigits(a * 64 + b, c);
    TwoDigits((a * 64 + b) * 64 + c, s[3] as int - 0x80);
  }

  lemma CharOfFirst(s: seq<byte>)
    requires FirstLength(s) > 0
    ensures s[..FirstLength(s)] == Utf8Char(First(s))
  {
    match FirstLength(s)
    case 1 =>
    case 2 => TwoBytes(s);
    case 3 => ThreeBytes(s);
    case _ => FourBytes(s);
  }

  /** Strict decoding accepts exactly what encoding produces, and gives the text back. */
  lemma {:induction false} DecodesExactly(s: seq<byte>, t: Text)
    ensures Utf8Decode(s) == Some(t) <==> s == Utf8(t)
    decreases |s| + |t|
  {
    if s != [] && FirstLength(s) > 0 {
      var n := FirstLength(s);
      CharOfFirst(s);
      assert s == s[..n] + s[n..];
      if t != [] {
        DecodesExactly(s[n..], t[1..]);
        assert t == [t[0]] + t[1..];
      }
    }
    if t != [] {
      FirstOfChar(t[0], Utf8(t[1..]));
    }
  }

  // ---- JavaScript strings ----

  /** A UTF-16 code unit. */
  type CodeUnit = u: int | 0 <= u < 0x1_0000
  type JsString = seq<CodeUnit>

  const REPLACEMENT: CodeUnit := 0xFFFD

  /** buffer.write(text, offset, "latin1"): one byte for each unit, whatever the unit. */
  function Latin1(t: JsString): (s: seq<byte>)
    ensures |s| == |t| && forall i :: 0 <= i < |t| ==> s[i] == t[i] as int % 256
  {
    seq(|t|, i requires 0 <= i < |t| => t[i] as int % 256)
  }

  function Units(c: CodePoint): (u: JsString)
    ensures 1 <= |u| <= 2
  {
    if c < 0x1_0000 then [c] else [0xD800 + (c - 0x1_0000) / 1024, 0xDC00 + (c - 0x1_0000) % 1024]
  }

  /** How many bytes of a broken sequence one replacement character stands for. */
  function BrokenLength(s: seq<byte>): (n: nat)
    requires s != [] && FirstLength(s) == 0
    ensures 1 <= n <= |s|
  {
    if |s| >= 2 && 0xE0 <= s[0] < 0xF5 && SecondFits(s[0], s[1]) then
      if |s| >= 3 && s[0] >= 0xF0 && Continues(s[2]) then 3 else 2
    else 1
  }

  /** data.toString("utf8"), which never fails. */
  function ToString(s: seq<byte>): (t: JsString)
    ensures |t| <= |s|
    decreases |s|
  {
    if s == [] then []
    else if FirstLength(s) > 0 then Units(First(s)) + ToString(s[FirstLength(s)..])
    else [REPLACEMENT] + ToString(s[BrokenLength(s)..])
  }

  predicate Survives(u: CodeUnit) { u < 0x80 || u == REPLACEMENT }

  predicate AllSurvive(t: JsString) { forall u :: u in t ==> Survives(u) }

  lemma AllSurviveOfCons(t: JsString)
    requires t != []
    ensures AllSurvive(t) <==> Survives(t[0]) && AllSurvive(t[1..])
  {
    assert t == [t[0]] + t[1..];
  }

  /** One byte that is read as one unit. */
  lemma ToStringOfCons(s: seq<byte>)
    requires s != [] && (s[0] < 0x80 || s[0] >= 0xF5)
    ensures ToString(s) == [if s[0] < 0x80 then s[0] else REPLACEMENT] + ToString(s[1..])
  {
  }

  lemma Latin1OfCons(t: JsString)
    requires t != []
    ensures Latin1(t)[0] == t[0] as int % 256 && Latin1(t)[1..] == Latin1(t[1..])
  {
  }

  lemma SameCons(a: JsString, b: JsString)
    requires a != [] && b != []
    ensures a == b <==> a[0] == b[0] && a[1..] == b[1..]
  {
    assert a == [a[0]] + a[1..] && b == [b[0]] + b[1..];
  }

  /**
    * What was written as latin1 reads back as UTF-8 exactly when it is ASCII, but for the replacement
    * character itself.
    */
  lemma {:induction false} Latin1ReadsBackExactly(t: JsString)
    ensures ToString(Latin1(t)) == t <==> AllSurvive(t)
  {
    if t != [] {
      Latin1OfCons(t);
      AllSurviveOfCons(t);
      if Latin1(t)[0] < 0x80 || t[0] == REPLACEMENT {
        ToStringOfCons(Latin1(t));
        SameCons(ToString(Latin1(t)), t);
        Latin1ReadsBackExactly(t[1..]);
      } else {
        NotAsciiNeverReadsBack(t);
      }
    }
  }

  lemma NotAsciiNeverReadsBack(t: JsString)
    requires t != [] && Latin1(t)[0] >= 0x80 && t[0] != REPLACEMENT
    ensures ToString(Latin1(t)) != t
  {
    var s := Latin1(t);
    if FirstLength(s) > 0 {
      assert |Units(First(s))| < FirstLength(s);
      assert |ToString(s)| < |s|;
    } else {
      assert ToString(s)[0] == REPLACEMENT;
    }
  }

  // ---- A JavaScript string in UTF-8 ----

  /** How many units the first character takes. */
  function Width(t: JsString): (n: nat)
    requires t != []
    ensures 1 <= n <= 2 && n <= |t|
  {
    if |t| >= 2 && 0xD800 <= t[0] < 0xDC00 && 0xDC00 <= t[1] < 0xE000 then 2 else 1
  }

  /** The first character. A surrogate without its partner is written as the replacement character. */
  function FirstChar(t: JsString): CodePoint
    requires t != []
  {
    if Width(t) == 2 then 0x1_0000 + (t[0] as int - 0xD800) * 1024 + (t[1] as int - 0xDC00)
    else if 0xD800 <= t[0] < 0xE000 then REPLACEMENT as int
    else t[0] as int
  }

  /** A string in UTF-8, which is never shorter than the string. */
  function JsUtf8(t: JsString): (s: seq<byte>)
    ensures |s| >= |t|
  {
    if t == [] then [] else Utf8Char(FirstChar(t)) + JsUtf8(t[Width(t)..])
  }

  /** What buffer.write(text, offset) writes when `room` bytes are left: the whole characters that fit. */
  function Fitting(t: JsString, room: nat): (s: seq<byte>)
    ensures |s| <= room
  {
    if t == [] || |Utf8Char(FirstChar(t))| > room then []
    else Utf8Char(FirstChar(t)) + Fitting(t[Width(t)..], room - |Utf8Char(FirstChar(t))|)
  }

  /** As many bytes as the string has units. */
  function Cut(t: JsString): (s: seq<byte>)
    ensures |s| == |t|
  {
    JsUtf8(t)[..|t|]
  }

  predicate IsAsciiString(t: JsString) { forall u :: u in t ==> u < 0x80 }

  /** ASCII, but for a replacement character at the very end. */
  predicate AsciiButLast(t: JsString) {
    t == [] || (IsAsciiString(t[..|t| - 1]) && Survives(t[|t| - 1]))
  }

  lemma {:induction false} FittingIsPrefix(t: JsString, room: nat)
    ensures Fitting(t, room) <= JsUtf8(t)
    ensures if room >= |JsUtf8(t)| then Fitting(t, room) == JsUtf8(t) else |Fitting(t, room)| + 3 >= room
    decreases |t|
  {
    if t != [] && |Utf8Char(FirstChar(t))| <= room {
      FittingIsPrefix(t[Width(t)..], room - |Utf8Char(FirstChar(t))|);
    }
  }

  /** With three bytes to spare the first |t| bytes are always written. */
  lemma FittingReachesCut(t: JsString, room: nat)
    requires room >= |t| + 3
    ensures |Fitting(t, room)| >= |t| && Fitting(t, room)[..|t|] == Cut(t)
  {
    FittingIsPrefix(t, room);
  }

  lemma ConsOfAscii(t: JsString)
    requires t != [] && t[0] < 0x80
    ensures JsUtf8(t) == [t[0] as int] + JsUtf8(t[1..])
    ensures Cut(t) == [t[0] as int] + Cut(t[1..])
  {
  }

  lemma AsciiButLastOfCons(t: JsString)
    requires t != []
    ensures AsciiButLast(t) <==> if t[0] < 0x80 then AsciiButLast(t[1..]) else t == [REPLACEMENT]
  {
    var tail := t[1..];
    if |t| == 1 {
      assert t == [t[0]] && t[..0] == [] && tail == [];
    } else {
      var front, middle := t[..|t| - 1], tail[..|tail| - 1];
      assert front == [t[0]] + middle && tail[|tail| - 1] == t[|t| - 1];
      assert t[0] in front && forall u :: u in front <==> u == t[0] || u in middle;
      assert |t| != 1;
    }
  }

  /** A character cut short reads as one replacement character. */
  lemma BrokenChar(c: CodePoint, n: nat)
    requires 0 < n < |Utf8Char(c)|
    ensures ToString(Utf8Char(c)[..n]) == [REPLACEMENT]
  {
    var s := Utf8Char(c)[..n];
    assert FirstLength(s) == 0 && BrokenLength(s) == n;
    assert ToString(s[n..]) == [];
  }

  lemma LongCharShortens(c: CodePoint, rest: seq<byte>)
    requires c >= 0x80
    ensures |ToString(Utf8Char(c) + rest)| < |Utf8Char(c) + rest|
  {
    FirstOfChar(c, rest);
    assert |Utf8Char(c)| >= 2 && |Units(c)| < |Utf8Char(c)|;
    assert ToString(Utf8Char(c) + rest) == Units(c) + ToString(rest);
  }

  lemma NotAsciiIsShortened(t: JsString)
    requires t != [] && t[0] >= 0x80
    ensures ToString(Cut(t)) == t <==> t == [REPLACEMENT]
  {
    var c := FirstChar(t);
    var first, s := Utf8Char(c), Cut(t);
    if |t| < |first| {
      assert s == first[..|t|];
      BrokenChar(c, |t|);
      assert ToString(s) == [REPLACEMENT];
    } else {
      assert s == first + s[|first|..];
      LongCharShortens(c, s[|first|..]);
    }
  }

  /**
    * A string whose UTF-8 is cut to the string's own length reads back exactly when it is ASCII, but for
    * a replacement character at the very end.
    */
  lemma {:induction false} CutReadsBackExactly(t: JsString)
    ensures ToString(Cut(t)) == t <==> AsciiButLast(t)
  {
    if t != [] {
      AsciiButLastOfCons(t);
      if t[0] < 0x80 {
        ConsOfAscii(t);
        CutReadsBackExactly(t[1..]);
        ToStringOfCons(Cut(t));
        SameCons(ToString(Cut(t)), t);
        assert Cut(t)[1..] == Cut(t[1..]);
      } else {
        NotAsciiIsShortened(t);
      }
    }
  }

  lemma AsciiIsAsciiButLast(t: JsString)
    requires IsAsciiString(t)
    ensures AsciiButLast(t)
  {
    if t != [] {
      var front := t[..|t| - 1];
      assert t == front + [t[|t| - 1]] && t[|t| - 1] in t;
      forall u | u in front ensures u < 0x80 {
        assert u in t;
      }
    }
  }

  /** The bytes are the whole text exactly for ASCII. */
  lemma {:induction false} CutIsWholeExactly(t: JsString)
    ensures |JsUtf8(t)| == |t| <==> IsAsciiString(t)
  {
    if t != [] {
      assert t == [t[0]] + t[1..] && t[0] in t;
      if t[0] < 0x80 {
        ConsOfAscii(t);
        CutIsWholeExactly(t[1..]);
        assert forall u :: u in t <==> u == t[0] || u in t[1..];
      } else {
        assert |Utf8Char(FirstChar(t))| > Width(t);
      }
    }
  }

  lemma {:induction false} AsciiIsItself(s: seq<byte>)
    requires forall i :: 0 <= i < |s| ==> s[i] < 0x80
    ensures ToString(s) == s && IsText(s)
    decreases |s|
  {
    if s != [] {
      AsciiIsItself(s[1..]);
      assert s == [s[0]] + s[1..];
    }
  }

  // ---- What the units of a string stand for ----

  /** Section 2.1 of RFC 2781: a unit of its own, or a high and a low surrogate with ten bits each. */
  lemma UnitsExactly(c: CodePoint, u: JsString)
    ensures u == Units(c) <==>
            if c < 0x1_0000 then u == [c]
            else |u| == 2 && 0xD800 <= u[0] < 0xDC00 && 0xDC00 <= u[1] < 0xE000
                 && c as int == 0x1_0000 + (u[0] as int - 0xD800) * 0x400 + (u[1] as int - 0xDC00)
  {
    if c >= 0x1_0000 {
      var d: int := c - 0x1_0000;
      assert d == d / 0x400 * 0x400 + d % 0x400;
      if |u| == 2 && u != Units(c) && 0xD800 <= u[0] < 0xDC00 && 0xDC00 <= u[1] < 0xE000 {
        assert u == [u[0], u[1]];
      }
    }
  }

  /** The units of a text, character by character. */
  function AllUnits(t: Text): JsString {
    if t == [] then [] else Units(t[0]) + AllUnits(t[1..])
  }

  /** What was written as UTF-8 by anyone is read as the units of its characters. */
  lemma {:induction false} TextReadsAsUnits(t: Text)
    ensures ToString(Utf8(t)) == AllUnits(t)
  {
    if t != [] {
      FirstOfChar(t[0], Utf8(t[1..]));
      TextReadsAsUnits(t[1..]);
    }
  }

  /** No surrogate without its partner. */
  predicate Paired(t: JsString) {
    t == [] || ((Width(t) == 2 || t[0] < 0xD800 || t[0] >= 0xE000) && Paired(t[Width(t)..]))
  }

  lemma UnitsOfFirst(t: JsString)
    requires t != []
    ensures Units(FirstChar(t)) == t[..Width(t)] <==> Width(t) == 2 || t[0] < 0xD800 || t[0] >= 0xE000
    ensures |Units(FirstChar(t))| == Width(t)
  {
    UnitsExactly(FirstChar(t), t[..Width(t)]);
  }

  /** A string comes back through UTF-8 exactly when each of its surrogates has its partner. */
  lemma {:induction false} StringComesBackExactly(t: JsString)
    ensures |ToString(JsUtf8(t))| == |t| && (ToString(JsUtf8(t)) == t <==> Paired(t))
  {
    if t != [] {
      var n, c := Width(t), FirstChar(t);
      var tail := t[n..];
      FirstOfChar(c, JsUtf8(tail));
      StringComesBackExactly(tail);
      UnitsOfFirst(t);
      assert ToString(JsUtf8(t)) == Units(c) + ToString(JsUtf8(tail));
      SameConcat(Units(c), ToString(JsUtf8(tail)), t);
    }
  }

  lemma SameConcat(a: JsString, b: JsString, t: JsString)
    requires |a| + |b| == |t|
    ensures a + b == t <==> a == t[..|a|] && b == t[|a|..]
  {
    assert t == t[..|a|] + t[|a|..];
    if a + b == t {
      assert (a + b)[..|a|] == a && (a + b)[|a|..] == b;
    }
  }

  /** Characters of each width from the examples in section 7 of RFC 3629. */
  lemma StandardExamples()
    ensures Utf8Char(0x41) == [0x41] && Utf8Char(0x391) == [0xCE, 0x91]
    ensures Utf8Char(0x2262) == [0xE2, 0x89, 0xA2] && Utf8Char(0x233B4) == [0xF0, 0xA3, 0x8E, 0xB4]
  {
  }

  /** Broken sequences of table 3-8 of the Unicode Standard: the longest part that begins a character counts once. */
  lemma BrokenExample()
    ensures ToString([0xF1, 0x80, 0x80, 0xE1, 0x80, 0xC2, 0x62, 0x80, 0xBF, 0x64]) ==
            [REPLACEMENT, REPLACEMENT, REPLACEMENT, 0x62, REPLACEMENT, REPLACEMENT, 0x64]
  {
    var s: seq<byte> := [0xF1, 0x80, 0x80, 0xE1, 0x80, 0xC2, 0x62, 0x80, 0xBF, 0x64];
    Broken(s, 3);
    Broken(s[3..], 2);
    Broken(s[5..], 1);
    ToStringOfCons(s[6..]);
    Broken(s[7..], 1);
    Broken(s[8..], 1);
    ToStringOfCons(s[9..]);
    assert s[3..][2..] == s[5..] && s[5..][1..] == s[6..] && s[6..][1..] == s[7..] && s[7..][1..] == s[8..];
    assert s[8..][1..] == s[9..] && s[9..][1..] == [];
  }

  lemma Broken(s: seq<byte>, n: nat)
    requires s != [] && FirstLength(s) == 0 && BrokenLength(s) == n
    ensures ToString(s) == [REPLACEMENT] + ToString(s[n..])
  {
  }
}
