/** `utf8_to_utf16` and `utf16_to_utf8` of core/exe/common.h. Inputs carry the NUL terminator that both loops read:
    an input of length `n + 1` stands for the source's `in` with `in_len == n`. */
module Transcode {
  import opened Arithmetic
  import opened Fifo

  type unit = u: int | 0 <= u < 0x1_0000

  /** What the UTF-8 loop can produce, up to 21 bits, and what Unicode has. */
  type raw = c: int | 0 <= c < 0x20_0000
  type scalar = c: int | 0 <= c < 0x11_0000

  const REPLACEMENT: raw := 0xFFFD

  datatype Step<T> = Step(cp: T, n: nat)

  // ----- Code points and their two encodings (RFC 3629 section 3, RFC 2781 section 2.1) -----

  predicate High(cp: nat) {
    0xD800 <= cp <= 0xDBFF
  }

  predicate Low(cp: nat) {
    0xDC00 <= cp <= 0xDFFF
  }

  /** The UTF-8 bytes of one code point; a shift by 12 or 18 bits is written as shifts by 6. */
  function Bytes(cp: scalar): (b: seq<byte>)
    ensures 1 <= |b| <= 4
  {
    if cp < 0x80 then [cp]
    else if cp < 0x800 then [0xC0 + cp / 64, 0x80 + cp % 64]
    else if cp < 0x1_0000 then [0xE0 + cp / 64 / 64, 0x80 + cp / 64 % 64, 0x80 + cp % 64]
    else [0xF0 + cp / 64 / 64 / 64, 0x80 + cp / 64 / 64 % 64, 0x80 + cp / 64 % 64, 0x80 + cp % 64]
  }

  /** The UTF-16 units of what the decoder yields. A four-byte form can exceed U+10FFFF; its halves are then
      computed the same way. */
  function Units(cp: raw): (u: seq<unit>)
    ensures 1 <= |u| <= 2
  {
    if cp < 0x1_0000 then [cp]
    else [0xD800 + (cp - 0x1_0000) / 1024, 0xDC00 + (cp - 0x1_0000) % 1024]
  }

  function Join2(a: nat, b: nat): (cp: nat)
    ensures cp < 0x800
  {
    a % 32 * 64 + b % 64
  }

  function Join3(a: nat, b: nat, c: nat): (cp: nat)
    ensures cp < 0x1_0000
  {
    (a % 16 * 64 + b % 64) * 64 + c % 64
  }

  function Join4(a: nat, b: nat, c: nat, d: nat): (cp: nat)
    ensures cp < 0x20_0000
  {
    ((a % 8 * 64 + b % 64) * 64 + c % 64) * 64 + d % 64
  }

  function JoinPair(high: nat, low: nat): (cp: nat)
    requires High(high) && Low(low)
    ensures 0x1_0000 <= cp < 0x11_0000
  {
    (high - 0xD800) * 1024 + (low - 0xDC00) + 0x1_0000
  }

  /** One turn of the UTF-8 loop: the code point at the front and the bytes it takes. Continuation bytes are
      masked, not checked. */
  function Step8(s: seq<byte>): (r: Step<raw>)
    requires s != []
    ensures 1 <= r.n <= |s| && r.n <= 4
    ensures |s| > 1 ==> r.n < |s|
    ensures |Units(r.cp)| <= r.n
  {
    var c := s[0];
    if c < 0x80 then Step(c, 1)
    else if c / 32 == 6 && |s| > 2 then Step(Join2(c, s[1]), 2)
    else if c / 16 == 14 && |s| > 3 then Step(Join3(c, s[1], s[2]), 3)
    else if c / 8 == 30 && |s| > 4 then Step(Join4(c, s[1], s[2], s[3]), 4)
    else Step(REPLACEMENT, 1)
  }

  /** One turn of the UTF-16 loop. A pair is joined only while the low half is not the terminator's place. */
  function Step16(u: seq<unit>): (r: Step<scalar>)
    requires u != []
    ensures 1 <= r.n <= |u| && r.n <= 2
  {
    if High(u[0]) && |u| > 2 && Low(u[1]) then
      var cp: scalar := JoinPair(u[0], u[1]);
      Step(cp, 2)
    else
      var cp: scalar := u[0];
      Step(cp, 1)
  }

  ghost function Decode8(s: seq<byte>): (cps: seq<raw>)
  {
    if s == [] then [] else [Step8(s).cp] + Decode8(s[Step8(s).n..])
  }

  ghost function Decode16(u: seq<unit>): (cps: seq<scalar>)
  {
    if u == [] then [] else [Step16(u).cp] + Decode16(u[Step16(u).n..])
  }

  /** Whole encodings of the leading code points, as many as the buffer holds. */
  ghost function Fill16(cps: seq<raw>, room: nat): (u: seq<unit>)
    ensures |u| <= room
  {
    if cps == [] || |Units(cps[0])| > room then []
    else Units(cps[0]) + Fill16(cps[1..], room - |Units(cps[0])|)
  }

  ghost function Fill8(cps: seq<scalar>, room: nat): (b: seq<byte>)
    ensures |b| <= room
  {
    if cps == [] || |Bytes(cps[0])| > room then []
    else Bytes(cps[0]) + Fill8(cps[1..], room - |Bytes(cps[0])|)
  }

  // ----- The two encodings by the numbers -----

  /** What the UTF-8 loop takes from the front of any input: by the range of the lead byte, with enough bytes before the
      terminator, the bits of the lead and of the bytes behind it, whatever those are; otherwise one byte for U+FFFD. */
  lemma FrontByNumbers(s: seq<byte>)
    requires s != []
    ensures var c, r := s[0] as int, Step8(s);
            if c < 0x80 then r.n == 1 && r.cp == c
            else if 0xC0 <= c < 0xE0 && |s| > 2 then r.n == 2 && r.cp == (c - 0xC0) * 64 + s[1] as int % 64
            else if 0xE0 <= c < 0xF0 && |s| > 3 then
              r.n == 3 && r.cp == (c - 0xE0) * 4096 + s[1] as int % 64 * 64 + s[2] as int % 64
            else if 0xF0 <= c < 0xF8 && |s| > 4 then
              && r.n == 4
              && r.cp == (c - 0xF0) * 262144 + s[1] as int % 64 * 4096 + s[2] as int % 64 * 64 + s[3] as int % 64
            else r.n == 1 && r.cp == 0xFFFD
  {}

  /** A surrogate pair spells the code point less 0x10000 in two halves of ten bits. */
  lemma UnitsByNumbers(cp: scalar)
    ensures var u := Units(cp);
            if cp < 0x1_0000 then u == [cp]
            else
              && |u| == 2 && 0xD800 <= u[0] < 0xDC00 && 0xDC00 <= u[1] < 0xE000
              && cp == 0x1_0000 + (u[0] as int - 0xD800) * 1024 + (u[1] as int - 0xDC00)
  {}

  /** The shortest UTF-8 form: its length by the size of the code point, its bits in order. */
  lemma BytesByNumbers(cp: scalar)
    ensures var b := Bytes(cp);
            if cp < 0x80 then b == [cp]
            else if cp < 0x800 then
              |b| == 2 && 0x80 <= b[1] < 0xC0 && cp == (b[0] as int - 0xC0) * 64 + (b[1] as int - 0x80)
            else if cp < 0x1_0000 then
              && |b| == 3 && 0x80 <= b[1] < 0xC0 && 0x80 <= b[2] < 0xC0
              && cp == (b[0] as int - 0xE0) * 4096 + (b[1] as int - 0x80) * 64 + (b[2] as int - 0x80)
            else
              && |b| == 4 && 0x80 <= b[1] < 0xC0 && 0x80 <= b[2] < 0xC0 && 0x80 <= b[3] < 0xC0
              && cp == (b[0] as int - 0xF0) * 262144 + (b[1] as int - 0x80) * 4096
                       + (b[2] as int - 0x80) * 64 + (b[3] as int - 0x80)
  {
    var q := cp / 64;
    var r := q / 64;
    assert cp == q * 64 + cp % 64 && q == r * 64 + q % 64 && r == r / 64 * 64 + r % 64;
  }

  /** What the UTF-16 loop takes: a pair only if its low half is not the last unit before the terminator's place. */
  lemma PairByNumbers(u: seq<unit>)
    requires u != []
    ensures var r := Step16(u);
            if |u| > 2 && 0xD800 <= u[0] < 0xDC00 && 0xDC00 <= u[1] < 0xE000
            then r.n == 2 && r.cp == 0x1_0000 + (u[0] as int - 0xD800) * 1024 + (u[1] as int - 0xDC00)
            else r.n == 1 && r.cp == u[0]
  {}

  // ----- Loops -----

  lemma Turn16(s: seq<byte>, room: nat, cp: raw, rest: seq<byte>)
    requires s != [] && cp == Step8(s).cp && rest == s[Step8(s).n..]
    ensures Fill16(Decode8(s), room) ==
            if |Units(cp)| > room then [] else Units(cp) + Fill16(Decode8(rest), room - |Units(cp)|)
  {
    assert Decode8(s)[1..] == Decode8(rest);
  }

  lemma Turn8(u: seq<unit>, room: nat, cp: scalar, rest: seq<unit>)
    requires u != [] && cp == Step16(u).cp && rest == u[Step16(u).n..]
    ensures Fill8(Decode16(u), room) ==
            if |Bytes(cp)| > room then [] else Bytes(cp) + Fill8(Decode16(rest), room - |Bytes(cp)|)
  {
    assert Decode16(u)[1..] == Decode16(rest);
  }

  lemma Appended<T>(goal: seq<T>, before: seq<T>, code: seq<T>, rest: seq<T>)
    requires goal == before + (code + rest)
    ensures goal == before + code + rest
  {}

  /** What the loop still adds when it stands at byte `i` with room for `room` units. */
  ghost predicate Left8(input: seq<byte>, i: nat, room: int, rest: seq<unit>) {
    i <= |input| && room >= 0 && rest == Fill16(Decode8(input[i..]), room)
  }

  /** The code point at `i`, and where the next one begins. */
  method Next8(input: seq<byte>, i: nat, ghost room: nat, ghost rest: seq<unit>)
    returns (cp: raw, next: nat, ghost rest': seq<unit>)
    requires i < |input| && Left8(input, i, room, rest)
    ensures i < next <= |input|
    ensures if |Units(cp)| > room then rest == []
            else rest == Units(cp) + rest' && Left8(input, next, room - |Units(cp)|, rest')
  {
    var step := Step8(input[i..]);
    cp, next, rest' := step.cp, i + step.n, [];
    assert input[i..][step.n..] == input[next..];
    Turn16(input[i..], room, cp, input[next..]);
    if |Units(cp)| <= room {
      rest' := Fill16(Decode8(input[next..]), room - |Units(cp)|);
    }
  }

  /** One turn of the loop; it stops in front of a code point that does not fit. */
  method Take8(input: seq<byte>, i: nat, before: seq<unit>, room: nat, ghost goal: seq<unit>, ghost rest: seq<unit>)
    returns (next: nat, out: seq<unit>, full: bool, ghost rest': seq<unit>)
    requires i < |input| && |before| <= room && Left8(input, i, room - |before|, rest) && goal == before + rest
    ensures i < next <= |input|
    ensures if full then out == goal
            else |out| <= room && Left8(input, next, room - |out|, rest') && goal == out + rest'
  {
    var cp;
    cp, next, rest' := Next8(input, i, room - |before|, rest);
    var code := Units(cp);
    if |before| + |code| > room {
      return next, before, true, rest';
    }
    Appended(goal, before, code, rest');
    return next, before + code, false, rest';
  }

  method Utf8ToUtf16(input: seq<byte>, room: nat) returns (out: seq<unit>)
    requires input != []
    ensures out == Fill16(Decode8(input), room)
  {
    out := [];
    var i, full := 0, false;
    ghost var goal := Fill16(Decode8(input), room);
    ghost var rest := goal;
    assert input[0..] == input;
    while i < |input| && |out| < room
      invariant 0 <= i <= |input| && |out| <= room && Left8(input, i, room - |out|, rest) && goal == out + rest
      decreases |input| - i
    {
      i, out, full, rest := Take8(input, i, out, room, goal, rest);
      if full {
        return;
      }
    }
    assert rest == [];
  }

  ghost predicate Left16(input: seq<unit>, i: nat, room: int, rest: seq<byte>) {
    i <= |input| && room >= 0 && rest == Fill8(Decode16(input[i..]), room)
  }

  method Next16(input: seq<unit>, i: nat, ghost room: nat, ghost rest: seq<byte>)
    returns (cp: scalar, next: nat, ghost rest': seq<byte>)
    requires i < |input| && Left16(input, i, room, rest)
    ensures i < next <= |input|
    ensures if |Bytes(cp)| > room then rest == []
            else rest == Bytes(cp) + rest' && Left16(input, next, room - |Bytes(cp)|, rest')
  {
    var step := Step16(input[i..]);
    cp, next, rest' := step.cp, i + step.n, [];
    assert input[i..][step.n..] == input[next..];
    Turn8(input[i..], room, cp, input[next..]);
    if |Bytes(cp)| <= room {
      rest' := Fill8(Decode16(input[next..]), room - |Bytes(cp)|);
    }
  }

  method Take16(input: seq<unit>, i: nat, before: seq<byte>, room: nat, ghost goal: seq<byte>, ghost rest: seq<byte>)
    returns (next: nat, out: seq<byte>, full: bool, ghost rest': seq<byte>)
    requires i < |input| && |before| <= room && Left16(input, i, room - |before|, rest) && goal == before + rest
    ensures i < next <= |input|
    ensures if full then out == goal
            else |out| <= room && Left16(input, next, room - |out|, rest') && goal == out + rest'
  {
    var cp;
    cp, next, rest' := Next16(input, i, room - |before|, rest);
    var code := Bytes(cp);
    if |before| + |code| > room {
      return next, before, true, rest';
    }
    Appended(goal, before, code, rest');
    return next, before + code, false, rest';
  }

  method Utf16ToUtf8(input: seq<unit>, room: nat) returns (out: seq<byte>)
    requires input != []
    ensures out == Fill8(Decode16(input), room)
  {
    out := [];
    var i, full := 0, false;
    ghost var goal := Fill8(Decode16(input), room);
    ghost var rest := goal;
    assert input[0..] == input;
    while i < |input| && |out| <= room
      invariant 0 <= i <= |input| && |out| <= room && Left16(input, i, room - |out|, rest) && goal == out + rest
      decreases |input| - i
    {
      i, out, full, rest := Take16(input, i, out, room, goal, rest);
      if full {
        return;
      }
    }
    assert rest == [];
  }

  // ----- Whole strings -----

  ghost function Utf8(cps: seq<scalar>): (b: seq<byte>) {
    if cps == [] then [] else Bytes(cps[0]) + Utf8(cps[1..])
  }

  ghost function Utf16(cps: seq<raw>): (u: seq<unit>) {
    if cps == [] then [] else Units(cps[0]) + Utf16(cps[1..])
  }

  /** No high surrogate code point directly in front of a low one. */
  ghost predicate Unpaired(cps: seq<scalar>) {
    |cps| < 2 || (!(High(cps[0]) && Low(cps[1])) && Unpaired(cps[1..]))
  }

  lemma {:induction false} FillsAll16(cps: seq<raw>, room: nat)
    requires |Utf16(cps)| <= room
    ensures Fill16(cps, room) == Utf16(cps)
  {
    if cps != [] {
      FillsAll16(cps[1..], room - |Units(cps[0])|);
    }
  }

  lemma {:induction false} FillsAll8(cps: seq<scalar>, room: nat)
    requires |Utf8(cps)| <= room
    ensures Fill8(cps, room) == Utf8(cps)
  {
    if cps != [] {
      FillsAll8(cps[1..], room - |Bytes(cps[0])|);
    }
  }

  /** A buffer takes the longest run of whole code points that fits. */
  lemma {:induction false} Fill16Longest(cps: seq<raw>, room: nat) returns (k: nat)
    ensures k <= |cps| && Fill16(cps, room) == Utf16(cps[..k]) && |Utf16(cps[..k])| <= room
    ensures k < |cps| ==> |Utf16(cps[..k])| + |Units(cps[k])| > room
  {
    k := 0;
    if cps != [] && |Units(cps[0])| <= room {
      var rest := cps[1..];
      var n := Fill16Longest(rest, room - |Units(cps[0])|);
      k := n + 1;
      assert cps[..k][1..] == rest[..n];
    }
  }

  lemma {:induction false} Fill8Longest(cps: seq<scalar>, room: nat) returns (k: nat)
    ensures k <= |cps| && Fill8(cps, room) == Utf8(cps[..k]) && |Utf8(cps[..k])| <= room
    ensures k < |cps| ==> |Utf8(cps[..k])| + |Bytes(cps[k])| > room
  {
    k := 0;
    if cps != [] && |Bytes(cps[0])| <= room {
      var rest := cps[1..];
      var n := Fill8Longest(rest, room - |Bytes(cps[0])|);
      k := n + 1;
      assert cps[..k][1..] == rest[..n];
    }
  }

  /** No string gets longer in units than it was in bytes. */
  lemma {:induction false} UnitsFit(s: seq<byte>)
    ensures |Utf16(Decode8(s))| <= |s|
  {
    if s != [] {
      UnitsFit(s[Step8(s).n..]);
      assert Decode8(s)[1..] == Decode8(s[Step8(s).n..]);
    }
  }

  lemma {:induction false} UnpairedPrefix(cps: seq<scalar>, k: nat)
    requires Unpaired(cps) && k <= |cps|
    ensures Unpaired(cps[..k])
  {
    if k >= 2 {
      UnpairedPrefix(cps[1..], k - 1);
      assert cps[..k][1..] == cps[1..][..k - 1];
    }
  }

  // ----- The byte grammar (RFC 3629 section 4) -----

  predicate Tail(b: byte) {
    0x80 <= b < 0xC0
  }

  /** The length of the shortest-form character in front, surrogates included; 0 when there is none. */
  function CharLen(s: seq<byte>): (n: nat)
    ensures n <= |s| && n <= 4
  {
    if s == [] then 0
    else if s[0] < 0x80 then 1
    else if 0xC2 <= s[0] < 0xE0 && |s| >= 2 && Tail(s[1]) then 2
    else if 0xE0 <= s[0] < 0xF0 && |s| >= 3 && Tail(s[1]) && Tail(s[2]) && (s[0] == 0xE0 ==> s[1] >= 0xA0) then 3
    else if 0xF0 <= s[0] <= 0xF4 && |s| >= 4 && Tail(s[1]) && Tail(s[2]) && Tail(s[3])
            && (s[0] == 0xF0 ==> s[1] >= 0x90) && (s[0] == 0xF4 ==> s[1] < 0x90) then 4
    else 0
  }

  predicate HighAt(s: seq<byte>) {
    |s| >= 2 && s[0] == 0xED && 0xA0 <= s[1] < 0xB0
  }

  predicate LowAt(s: seq<byte>) {
    |s| >= 2 && s[0] == 0xED && 0xB0 <= s[1] < 0xC0
  }

  /** UTF-8 as RFC 3629 defines it. */
  predicate WellFormed(s: seq<byte>) {
    s == [] || (CharLen(s) > 0 && !HighAt(s) && !LowAt(s) && WellFormed(s[CharLen(s)..]))
  }

  /** The same with lone surrogates let through, but no high one in front of a low one. */
  predicate Generalized(s: seq<byte>) {
    s == [] || (CharLen(s) > 0 && !(HighAt(s) && LowAt(s[CharLen(s)..])) && Generalized(s[CharLen(s)..]))
  }

  lemma {:induction false} WellFormedIsGeneralized(s: seq<byte>)
    requires WellFormed(s)
    ensures Generalized(s)
  {
    if s != [] {
      WellFormedIsGeneralized(s[CharLen(s)..]);
    }
  }

  lemma Form2(a: byte, b: byte, cp: nat)
    requires 0xC2 <= a < 0xE0 && Tail(b) && cp == Join2(a, b)
    ensures 0x80 <= cp < 0x800 && Bytes(cp) == [a, b]
  {
    Quotient(cp, 64, a - 0xC0, b - 0x80);
  }

  lemma Bytes3(a: nat, b: nat, c: nat, q: nat, cp: nat)
    requires a < 16 && b < 64 && c < 64 && (a == 0 ==> b >= 32) && q == a * 64 + b && cp == q * 64 + c
    ensures 0x800 <= cp < 0x1_0000 && Bytes(cp) == [0xE0 + a, 0x80 + b, 0x80 + c]
    ensures (High(cp) <==> a == 13 && 32 <= b < 48) && (Low(cp) <==> a == 13 && b >= 48)
  {
    Quotient(cp, 64, q, c);
    Quotient(q, 64, a, b);
  }

  lemma Form3(a: byte, b: byte, c: byte, cp: nat)
    requires 0xE0 <= a < 0xF0 && Tail(b) && Tail(c) && (a == 0xE0 ==> b >= 0xA0) && cp == Join3(a, b, c)
    ensures 0x800 <= cp < 0x1_0000 && Bytes(cp) == [a, b, c]
    ensures High(cp) <==> a == 0xED && 0xA0 <= b < 0xB0
    ensures Low(cp) <==> a == 0xED && 0xB0 <= b < 0xC0
  {
    assert a % 16 == a - 0xE0 && b % 64 == b - 0x80 && c % 64 == c - 0x80;
    Bytes3(a - 0xE0, b - 0x80, c - 0x80, (a - 0xE0) * 64 + (b - 0x80), cp);
  }

  lemma Bytes4(a: nat, b: nat, c: nat, d: nat, p: nat, q: nat, cp: nat)
    requires a <= 4 && b < 64 && c < 64 && d < 64 && (a == 0 ==> b >= 16) && (a == 4 ==> b < 16)
    requires p == a * 64 + b && q == p * 64 + c && cp == q * 64 + d
    ensures 0x1_0000 <= cp < 0x11_0000 && Bytes(cp) == [0xF0 + a, 0x80 + b, 0x80 + c, 0x80 + d]
  {
    Quotient(cp, 64, q, d);
    Quotient(q, 64, p, c);
    Quotient(p, 64, a, b);
  }

  lemma Form4(a: byte, b: byte, c: byte, d: byte, cp: nat)
    requires 0xF0 <= a <= 0xF4 && Tail(b) && Tail(c) && Tail(d) && (a == 0xF0 ==> b >= 0x90) && (a == 0xF4 ==> b < 0x90)
    requires cp == Join4(a, b, c, d)
    ensures 0x1_0000 <= cp < 0x11_0000 && Bytes(cp) == [a, b, c, d]
  {
    var p: nat := (a - 0xF0) * 64 + (b - 0x80);
    assert a % 8 == a - 0xF0 && b % 64 == b - 0x80 && c % 64 == c - 0x80 && d % 64 == d - 0x80;
    Bytes4(a - 0xF0, b - 0x80, c - 0x80, d - 0x80, p, p * 64 + (c - 0x80), cp);
  }

  /** What the grammar accepts, the decoder decodes and the encoder gives back. */
  lemma CharDecodes(s: seq<byte>, t: seq<byte>, st: seq<byte>, cp: raw)
    requires CharLen(s) > 0 && t != [] && st == s + t && cp == Step8(st).cp
    ensures Step8(st).n == CharLen(s) && cp < 0x11_0000 && Bytes(cp) == s[..CharLen(s)]
    ensures (High(cp) <==> HighAt(s)) && (Low(cp) <==> LowAt(s))
  {
    if CharLen(s) == 2 {
      assert st[0] == s[0] && st[1] == s[1];
      Form2(s[0], s[1], Join2(s[0], s[1]));
    } else if CharLen(s) == 3 {
      assert st[0] == s[0] && st[1] == s[1] && st[2] == s[2];
      Form3(s[0], s[1], s[2], Join3(s[0], s[1], s[2]));
    } else if CharLen(s) == 4 {
      assert st[0] == s[0] && st[1] == s[1] && st[2] == s[2] && st[3] == s[3];
      Form4(s[0], s[1], s[2], s[3], Join4(s[0], s[1], s[2], s[3]));
    }
  }

  /** Every encoding is a character of the grammar. */
  lemma BytesAreChar(cp: scalar, t: seq<byte>, s: seq<byte>)
    requires s == Bytes(cp) + t
    ensures CharLen(s) == |Bytes(cp)| && (High(cp) <==> HighAt(s)) && (Low(cp) <==> LowAt(s))
  {
    var q := cp / 64;
    var p := q / 64;
    assert 0x800 <= cp < 0x1_0000 ==> s[0] == 0xE0 + p && s[1] == 0x80 + q % 64;
    assert 0x1_0000 <= cp ==> s[0] == 0xF0 + p / 64 && s[1] == 0x80 + p % 64;
  }

  // ----- Round trip -----

  /** The first code point is a surrogate exactly when the first character spells one. */
  ghost predicate SameFront(s: seq<byte>, cps: seq<scalar>) {
    cps != [] && (High(cps[0]) <==> HighAt(s)) && (Low(cps[0]) <==> LowAt(s))
  }

  /** `cps` is what `s` and its terminator decode to, and encodes to them. */
  ghost predicate Spells(s: seq<byte>, st: seq<byte>, cps: seq<scalar>) {
    st == s + [0] && Decode8(st) == cps && Utf8(cps) == st && SameFront(s, cps) && Unpaired(cps) && cps[|cps| - 1] == 0
  }

  lemma DecodeFront(st: seq<byte>, cp: raw, n: nat, tt: seq<byte>)
    requires st != [] && Step8(st) == Step(cp, n) && tt == st[n..]
    ensures Decode8(st) == [cp] + Decode8(tt)
  {}

  lemma EncodeFront(cp: scalar, rest: seq<scalar>, cps: seq<scalar>)
    requires cps == [cp] + rest
    ensures Utf8(cps) == Bytes(cp) + Utf8(rest)
    ensures Unpaired(cps) <==> rest == [] || (!(High(cp) && Low(rest[0])) && Unpaired(rest))
  {
    assert cps[1..] == rest;
  }

  lemma SpellsFront(s: seq<byte>, st: seq<byte>, cp: scalar, n: nat, t: seq<byte>, tt: seq<byte>, rest: seq<scalar>)
    requires s != [] && st == s + [0] && n <= |s| && Step8(st) == Step(cp, n) && Bytes(cp) == s[..n] && t == s[n..]
    requires tt == t + [0]
    requires (High(cp) <==> HighAt(s)) && (Low(cp) <==> LowAt(s)) && !(HighAt(s) && LowAt(t))
    requires Spells(t, tt, rest)
    ensures Spells(s, st, [cp] + rest)
  {
    assert st[n..] == tt;
    assert st == s[..n] + tt;
    DecodeFront(st, cp, n, tt);
    EncodeFront(cp, rest, [cp] + rest);
  }

  /** A string of the grammar decodes to code points whose encoding it is. */
  lemma {:induction false} GrammarDecodes(s: seq<byte>, st: seq<byte>) returns (cps: seq<scalar>)
    requires Generalized(s) && st == s + [0]
    ensures Spells(s, st, cps)
  {
    if s == [] {
      cps := [0];
      assert st[1..] == [];
    } else {
      var n, cp := CharLen(s), Step8(st).cp;
      CharDecodes(s, [0], st, cp);
      var t := s[n..];
      var rest := GrammarDecodes(t, t + [0]);
      SpellsFront(s, st, cp, n, t, t + [0], rest);
      cps := [cp] + rest;
    }
  }

  lemma PairRejoins(cp: scalar)
    requires cp >= 0x1_0000
    ensures var u := Units(cp); |u| == 2 && High(u[0]) && Low(u[1]) && JoinPair(u[0], u[1]) == cp
  {}

  /** UTF-16 without a split pair decodes to what was encoded. */
  lemma {:induction false} UnitsDecode(cps: seq<scalar>)
    requires Unpaired(cps) && cps != [] && cps[|cps| - 1] == 0
    ensures Decode16(Utf16(cps)) == cps
  {
    var u, cp, rest := Utf16(cps), cps[0], cps[1..];
    assert u == Units(cp) + Utf16(rest);
    if rest == [] {
      assert u == [0];
    } else {
      UnitsDecode(rest);
      FirstUnit(rest);
      if cp >= 0x1_0000 {
        PairRejoins(cp);
      }
      assert Step16(u) == Step(cp, |Units(cp)|);
      assert u[|Units(cp)|..] == Utf16(rest);
    }
  }

  /** A string starts with a low surrogate unit only if its first code point is one. */
  lemma FirstUnit(cps: seq<scalar>)
    requires cps != []
    ensures var u := Utf16(cps); u != [] && (Low(u[0]) <==> Low(cps[0]))
  {
    if cps[0] >= 0x1_0000 {
      PairRejoins(cps[0]);
    }
  }

  /** The UTF-16 loop leaves no high surrogate in front of a low one, when a terminator ends the input. */
  lemma {:induction false} DecodedIsUnpaired(u: seq<unit>)
    requires u != [] && u[|u| - 1] == 0
    ensures Unpaired(Decode16(u))
  {
    var n := Step16(u).n;
    var rest := u[n..];
    assert Decode16(u)[1..] == Decode16(rest);
    if rest != [] {
      DecodedIsUnpaired(rest);
      assert Decode16(rest)[0] == Step16(rest).cp;
    }
  }

  /** Whatever is encoded without a split pair satisfies the grammar. */
  lemma {:induction false} EncodedIsGeneralized(cps: seq<scalar>, s: seq<byte>)
    requires Unpaired(cps) && Utf8(cps) == s + [0]
    ensures Generalized(s)
    decreases |cps|
  {
    if s != [] {
      var b, rest := Bytes(cps[0]), cps[1..];
      assert Utf8(cps) == b + Utf8(rest);
      MoreFollows(cps[0], Utf8(rest), s);
      CutFront(b, Utf8(rest), s);
      var t := s[|b|..];
      BytesAreChar(cps[0], t, s);
      BytesAreChar(rest[0], Utf8(rest[1..]), t + [0]);
      EncodedIsGeneralized(rest, t);
    }
  }

  lemma CutFront(b: seq<byte>, x: seq<byte>, s: seq<byte>)
    requires b + x == s + [0] && x != []
    ensures |b| <= |s| && s == b + s[|b|..] && x == s[|b|..] + [0]
  {
    var bx := b + x;
    assert |bx| == |s| + 1;
    assert s == bx[..|s|];
    assert x == bx[|b|..];
  }

  /** Only NUL itself ends in a zero byte. */
  lemma MoreFollows(cp: scalar, x: seq<byte>, s: seq<byte>)
    requires s != [] && Bytes(cp) + x == s + [0]
    ensures x != []
  {
    var b, st := Bytes(cp), s + [0];
    assert st[|st| - 1] == 0 && |st| > 1;
    assert |b| > 1 ==> b[|b| - 1] >= 0x80;
    assert x == [] ==> st == b;
  }

  /** There and back, through buffers with room for the string: the bytes and the terminator return unchanged
      exactly for the strings of the grammar. */
  lemma RoundTripExactly(s: seq<byte>, st: seq<byte>, room16: nat, room8: nat, mid: seq<unit>, back: seq<byte>)
    requires st == s + [0] && room16 >= |st| && room8 >= |st|
    requires mid == Fill16(Decode8(st), room16) && back == Fill8(Decode16(mid), room8)
    ensures back == st <==> Generalized(s)
  {
    UnitsFit(st);
    FillsAll16(Decode8(st), room16);
    if Generalized(s) {
      var cps := GrammarDecodes(s, st);
      UnitsDecode(cps);
      FillsAll8(cps, room8);
    } else if back == st {
      EndsWithTerminator(st);
      DecodedIsUnpaired(mid);
      var k := Fill8Longest(Decode16(mid), room8);
      UnpairedPrefix(Decode16(mid), k);
      EncodedIsGeneralized(Decode16(mid)[..k], s);
    }
  }

  lemma Utf16Front(st: seq<byte>, cp: raw, rest: seq<byte>)
    requires st != [] && cp == Step8(st).cp && rest == st[Step8(st).n..]
    ensures Utf16(Decode8(st)) == Units(cp) + Utf16(Decode8(rest))
  {
    assert Decode8(st)[1..] == Decode8(rest);
  }

  /** The decoder never takes the terminator into a character. */
  lemma {:induction false} EndsWithTerminator(st: seq<byte>)
    requires st != [] && st[|st| - 1] == 0
    ensures var u := Utf16(Decode8(st)); u != [] && u[|u| - 1] == 0
  {
    var cp, rest := Step8(st).cp, st[Step8(st).n..];
    Utf16Front(st, cp, rest);
    if rest != [] {
      EndsWithTerminator(rest);
    }
  }

  /** Every string that is UTF-8 by RFC 3629 survives the round trip. */
  method RoundTrip(s: seq<byte>, room16: nat, room8: nat) returns (back: seq<byte>)
    requires room16 > |s| && room8 > |s|
    ensures back == s + [0] <==> Generalized(s)
    ensures WellFormed(s) ==> back == s + [0]
  {
    var mid := Utf8ToUtf16(s + [0], room16);
    EndsWithTerminator(s + [0]);
    UnitsFit(s + [0]);
    FillsAll16(Decode8(s + [0]), room16);
    back := Utf16ToUtf8(mid, room8);
    RoundTripExactly(s, s + [0], room16, room8, mid, back);
    if WellFormed(s) {
      WellFormedIsGeneralized(s);
    }
  }
}
