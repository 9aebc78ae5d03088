/** The Internet checksum in its three forms: `tcp_checksum` (core/network/af_inet/tcp.h), `network_checksum`
    (core/network/af_inet/af_inet.h) and the one inside `nic_send_udp_package` (core/network/af_inet/udp.h).
    A running sum is a 32-bit word; every addition is written modulo 2^32. */
module Checksum {
  import opened Arithmetic
  import opened Fifo

  /** A 16-bit word from its two bytes. */
  function Word(hi: byte, lo: byte): (w: nat)
    ensures w < 65536
  {
    hi * 256 + lo
  }

  /** Section 1 of RFC 1071: the sum of the big-endian 16-bit words, an odd last byte padded with zero. */
  ghost function BigWords(b: seq<byte>): nat {
    if |b| == 0 then 0
    else if |b| == 1 then Word(b[0], 0)
    else Word(b[0], b[1]) + BigWords(b[2..])
  }

  /** The same buffer read as little-endian words. */
  ghost function LittleWords(b: seq<byte>): nat {
    if |b| == 0 then 0
    else if |b| == 1 then b[0]
    else Word(b[1], b[0]) + LittleWords(b[2..])
  }

  /** The one's-complement value of a sum: 0 for 0, otherwise the representative in 1..65535. */
  ghost function Folded(n: nat): (f: nat)
    ensures f < 65536
  {
    if n < 65536 then n else Folded(n - 65535)
  }

  /** `htons`. */
  function Swap(x: nat): (y: nat)
    requires x < 65536
    ensures y < 65536
  {
    x % 256 * 256 + x / 256
  }

  /** `~x` on 16 bits. */
  function Not16(x: nat): (y: nat)
    requires x < 65536
  {
    65535 - x
  }

  /** A 32-bit number by its bytes, most significant first. */
  datatype Long = Long(b3: byte, b2: byte, b1: byte, b0: byte) {
    function High(): (w: nat)
      ensures w < 65536
    {
      Word(b3, b2)
    }

    function Low(): (w: nat)
      ensures w < 65536
    {
      Word(b1, b0)
    }

    /** `htonl`. */
    function Swapped(): Long {
      Long(b0, b1, b2, b3)
    }
  }

  // ----- One's-complement arithmetic -----

  /** A fold is the only representative in 1..65535 of a non-zero sum. */
  lemma {:induction false} FoldedIsUnique(n: nat, r: nat, k: int)
    requires 1 <= r <= 65535 && n > 0 && n == r + 65535 * k
    ensures Folded(n) == r
    decreases n
  {
    if n >= 65536 {
      FoldedIsUnique(n - 65535, r, k - 1);
    }
  }

  lemma {:induction false} FoldedOf(n: nat) returns (k: nat)
    ensures n == Folded(n) + 65535 * k && (n > 0 ==> 1 <= Folded(n))
  {
    k := 0;
    if n >= 65536 {
      k := FoldedOf(n - 65535);
      k := k + 1;
    }
  }

  /** One turn of the fold loop keeps the value. */
  lemma FoldStep(n: nat)
    ensures Folded(n % 65536 + n / 65536) == Folded(n)
  {
    if n > 0 {
      var k := FoldedOf(n);
      FoldedIsUnique(n % 65536 + n / 65536, Folded(n), k - n / 65536);
    }
  }

  /** Exchanging the bytes of every word exchanges the bytes of the folded sum (section 2(B) of RFC 1071). */
  lemma SwapFolded(big: nat, little: nat, carries: int)
    requires 256 * big == little + 65535 * carries && (big == 0 <==> little == 0)
    ensures Folded(little) == Swap(Folded(big))
  {
    if big > 0 {
      var k := FoldedOf(big);
      var f := Folded(big);
      FoldedIsUnique(little, Swap(f), 256 * k + f / 256 - carries);
    }
  }

  /** Adding the complement of a sum gives all ones. */
  lemma ComplementFills(n: nat)
    ensures Folded(n + Not16(Folded(n))) == 65535
  {
    var k := FoldedOf(n);
    FoldedIsUnique(n + Not16(Folded(n)), 65535, k);
  }

  /** What byte order costs: the two word sums differ by a multiple of 65535, odd lengths included. */
  lemma {:induction false} WordsSwap(b: seq<byte>) returns (carries: nat)
    ensures 256 * BigWords(b) == LittleWords(b) + 65535 * carries
    ensures BigWords(b) == 0 <==> LittleWords(b) == 0
  {
    if |b| < 2 {
      carries := if |b| == 0 then 0 else b[0];
    } else {
      var rest := WordsSwap(b[2..]);
      carries := b[0] + rest;
    }
  }

  /** A buffer of up to 0x1FF00 bytes and a pseudo header stay below 2^32. */
  const MAX_BYTES: nat := 0x1_FF00

  lemma {:induction false} WordsBound(b: seq<byte>)
    ensures 2 * BigWords(b) <= (|b| + 1) * 65535 && 2 * LittleWords(b) <= (|b| + 1) * 65535
  {
    if |b| >= 2 {
      WordsBound(b[2..]);
    }
  }

  /** The 32-bit running sum does not wrap. */
  lemma NoWrap(start: nat, a: seq<byte>, b: seq<byte>)
    requires start <= 6 * 65535 && |a| + |b| <= MAX_BYTES
    ensures start + BigWords(a) + BigWords(b) < MOD32
    ensures start + LittleWords(a) + LittleWords(b) < MOD32
  {
    WordsBound(a);
    WordsBound(b);
  }

  // ----- The field that holds the checksum -----

  /** `b` with the 16-bit field at `at` set; `hi` is the byte at the lower address. */
  function WithField(b: seq<byte>, at: nat, hi: byte, lo: byte): (r: seq<byte>)
    requires at + 1 < |b|
    ensures |r| == |b|
  {
    b[at := hi][at + 1 := lo]
  }

  ghost predicate Cleared(b: seq<byte>, at: nat) {
    at % 2 == 0 && at + 1 < |b| && b[at] == 0 && b[at + 1] == 0
  }

  lemma {:induction false} FieldAdds(b: seq<byte>, at: nat, hi: byte, lo: byte)
    requires Cleared(b, at)
    ensures BigWords(WithField(b, at, hi, lo)) == BigWords(b) + Word(hi, lo)
  {
    var w := WithField(b, at, hi, lo);
    if at == 0 {
      assert w[2..] == b[2..];
    } else {
      FieldAdds(b[2..], at - 2, hi, lo);
      assert w[2..] == WithField(b[2..], at - 2, hi, lo);
    }
  }

  /** A 16-bit value in memory is little-endian, so storing `htons(x)` puts the high byte of `x` first. */
  function Store16(b: seq<byte>, at: nat, x: nat): (r: seq<byte>)
    requires at + 1 < |b| && x < 65536
  {
    WithField(b, at, x % 256, x / 256)
  }

  lemma StoreSwapped(b: seq<byte>, at: nat, x: nat)
    requires Cleared(b, at) && x < 65536
    ensures BigWords(Store16(b, at, Swap(x))) == BigWords(b) + x
  {
    assert Swap(x) % 256 == x / 256 && Swap(x) / 256 == x % 256;
    FieldAdds(b, at, x / 256, x % 256);
  }

  lemma SwapAgain(x: nat)
    requires x < 65536
    ensures Swap(Swap(x)) == x && Swap(Not16(x)) == Not16(Swap(x))
  {
    assert Swap(x) % 256 == x / 256 && Swap(x) / 256 == x % 256;
    var y := Not16(x);
    assert y == 256 * (255 - x / 256) + (255 - x % 256);
    assert y % 256 == 255 - x % 256 && y / 256 == 255 - x / 256;
  }

  // ----- Loops -----

  method AddBig(start: nat, b: seq<byte>) returns (sum: nat)
    requires start < MOD32
    ensures sum == (start + BigWords(b)) % MOD32
  {
    sum := start;
    ghost var total := start;
    var p := 0;
    while |b| - p > 1
      invariant 0 <= p <= |b| && 0 <= total && sum == total % MOD32 && total + BigWords(b[p..]) == start + BigWords(b)
    {
      assert b[p..][2..] == b[p + 2..];
      WrapLate(total, 1, Word(b[p], b[p + 1]), MOD32);
      total := total + Word(b[p], b[p + 1]);
      sum := (sum + Word(b[p], b[p + 1])) % MOD32;
      p := p + 2;
    }
    if |b| - p == 1 {
      WrapLate(total, 1, Word(b[p], 0), MOD32);
      sum := (sum + Word(b[p], 0)) % MOD32;
    }
  }

  method AddLittle(start: nat, b: seq<byte>) returns (sum: nat)
    requires start < MOD32
    ensures sum == (start + LittleWords(b)) % MOD32
  {
    sum := start;
    ghost var total := start;
    var p := 0;
    while |b| - p > 1
      invariant 0 <= p <= |b| && 0 <= total && sum == total % MOD32
      invariant total + LittleWords(b[p..]) == start + LittleWords(b)
    {
      assert b[p..][2..] == b[p + 2..];
      WrapLate(total, 1, Word(b[p + 1], b[p]), MOD32);
      total := total + Word(b[p + 1], b[p]);
      sum := (sum + Word(b[p + 1], b[p])) % MOD32;
      p := p + 2;
    }
    if |b| - p == 1 {
      WrapLate(total, 1, b[p], MOD32);
      sum := (sum + b[p]) % MOD32;
    }
  }

  /** The fold loop: it ends, and its result is the one's-complement value. */
  method Fold(n: nat) returns (sum: nat)
    ensures sum == Folded(n)
  {
    sum := n;
    while sum / 65536 != 0
      invariant Folded(sum) == Folded(n)
      decreases sum
    {
      FoldStep(sum);
      sum := sum % 65536 + sum / 65536;
    }
  }

  // ----- TCP -----

  const TCP_PROTOCOL_NUMBER: byte := 6
  const UDP_PROTOCOL_NUMBER: byte := 17

  /** The pseudo header's sum. */
  ghost function Pseudo(src: Long, dst: Long, protocol: byte, len: nat): (sum: nat) {
    src.High() + src.Low() + dst.High() + dst.Low() + protocol + len
  }

  /** The value to store for a sum, in either form. */
  ghost function BigResult(sum: nat): (r: nat)
    ensures r < 65536
  {
    Swap(Not16(Folded(sum)))
  }

  ghost function LittleResult(sum: nat): (r: nat)
    ensures r < 65536
  {
    Not16(Folded(sum))
  }

  /** What a receiver checks: everything it sums, the stored field included, folds to all ones. */
  ghost predicate Verifies(rest: nat, b: seq<byte>) {
    Folded(rest + BigWords(b)) == 65535
  }

  /** Wherever the cleared field lies, storing `x` in it makes everything verify. */
  ghost predicate VerifiesAnywhere(rest: nat, b: seq<byte>, x: nat)
    requires x < 65536
  {
    forall at: nat | Cleared(b, at) :: Verifies(rest, Store16(b, at, x))
  }

  // ----- The same in terms of the bytes on the wire -----

  /** The sum of a byte string as its receiver takes it: bytes at even places count 256-fold. */
  ghost function Weight(b: seq<byte>): (w: nat) {
    if b == [] then 0
    else
      var last := |b| - 1;
      var x: nat := b[last];
      Weight(b[..last]) + x * (if last % 2 == 0 then 256 else 1)
  }

  /** All ones in one's-complement arithmetic: a non-zero multiple of 65535. */
  ghost predicate SumsToOnes(b: seq<byte>) {
    Weight(b) > 0 && Weight(b) % 65535 == 0
  }

  /** The pseudo header of section 3.1 of RFC 9293 and of RFC 768. */
  ghost function PseudoBytes(src: Long, dst: Long, protocol: byte, hi: byte, lo: byte): (b: seq<byte>)
    ensures |b| == 12
  {
    [src.b3, src.b2, src.b1, src.b0, dst.b3, dst.b2, dst.b1, dst.b0, 0, protocol, hi, lo]
  }

  lemma {:induction false} BigWordsAppend(a: seq<byte>, b: seq<byte>)
    requires |a| % 2 == 0
    ensures BigWords(a + b) == BigWords(a) + BigWords(b)
  {
    if a == [] {
      assert a + b == b;
    } else {
      BigWordsAppend(a[2..], b);
      assert (a + b)[2..] == a[2..] + b;
    }
  }

  lemma {:induction false} BigWordsSnoc(b: seq<byte>, x: byte)
    ensures BigWords(b + [x]) == BigWords(b) + x as nat * (if |b| % 2 == 0 then 256 else 1)
  {
    if |b| >= 2 {
      BigWordsSnoc(b[2..], x);
      assert (b + [x])[2..] == b[2..] + [x];
    }
  }

  /** Adding 16-bit words with an odd last byte padded is adding the weighted bytes. */
  lemma {:induction false} WordsAreWeight(b: seq<byte>)
    ensures BigWords(b) == Weight(b)
  {
    if b != [] {
      var front, x := b[..|b| - 1], b[|b| - 1];
      WordsAreWeight(front);
      BigWordsSnoc(front, x);
      assert front + [x] == b;
    }
  }

  lemma PseudoWeight(src: Long, dst: Long, protocol: byte, hi: byte, lo: byte)
    ensures BigWords(PseudoBytes(src, dst, protocol, hi, lo)) == Pseudo(src, dst, protocol, Word(hi, lo))
  {
    var b := PseudoBytes(src, dst, protocol, hi, lo);
    var src', dst' := [src.b3, src.b2] + [src.b1, src.b0], [dst.b3, dst.b2] + [dst.b1, dst.b0];
    var tail: seq<byte> := [0, protocol] + [hi, lo];
    FourBytes(src.b3, src.b2, src.b1, src.b0);
    FourBytes(dst.b3, dst.b2, dst.b1, dst.b0);
    FourBytes(0, protocol, hi, lo);
    BigWordsAppend(src', dst' + tail);
    BigWordsAppend(dst', tail);
    assert b == src' + (dst' + tail);
  }

  lemma FourBytes(p: byte, q: byte, r: byte, s: byte)
    ensures BigWords([p, q] + [r, s]) == Word(p, q) + Word(r, s)
  {
    var b: seq<byte>, rest: seq<byte> := [p, q] + [r, s], [r, s];
    assert b[2..] == rest && rest[2..] == [] && b[0] == p && b[1] == q;
    assert BigWords(rest) == Word(r, s) + BigWords(rest[2..]);
  }

  lemma OnesAreMultiples(n: nat)
    requires Folded(n) == 65535
    ensures n > 0 && n % 65535 == 0
  {
    var k := FoldedOf(n);
    Quotient(n, 65535, k + 1, 0);
  }

  lemma WireSum(front: seq<byte>, header: seq<byte>, payload: seq<byte>, all: seq<byte>)
    requires |front| % 2 == 0 && |header| % 2 == 0 && all == front + header + payload
    ensures Weight(all) == BigWords(front) + BigWords(header) + BigWords(payload)
  {
    BigWordsAppend(front, header);
    BigWordsAppend(front + header, payload);
    WordsAreWeight(all);
  }

  /** What verifies word by word sums to all ones on the wire. */
  lemma VerifiesOnTheWire(front: seq<byte>, header: seq<byte>, payload: seq<byte>, rest: nat, all: seq<byte>, n: nat)
    requires |front| % 2 == 0 && |header| % 2 == 0 && rest == BigWords(front) + BigWords(payload)
    requires Verifies(rest, header) && all == front + header + payload && n == rest + BigWords(header)
    ensures SumsToOnes(all)
  {
    WireSum(front, header, payload, all);
    OnesAreMultiples(n);
  }

  /** With `x` stored, low byte first, in any cleared field of the header, everything sums to all ones. */
  ghost predicate OnesAnywhere(front: seq<byte>, header: seq<byte>, payload: seq<byte>, x: nat)
    requires x < 65536
  {
    forall at: nat | Cleared(header, at) ::
      SumsToOnes(front + header[at := x % 256][at + 1 := x / 256] + payload)
  }

  lemma OnesFollow(front: seq<byte>, header: seq<byte>, payload: seq<byte>, x: nat)
    requires |front| % 2 == 0 && |header| % 2 == 0 && x < 65536
    requires VerifiesAnywhere(BigWords(front) + BigWords(payload), header, x)
    ensures OnesAnywhere(front, header, payload, x)
  {
    forall at: nat | Cleared(header, at)
      ensures SumsToOnes(front + header[at := x % 256][at + 1 := x / 256] + payload)
    {
      var stored, rest := Store16(header, at, x), BigWords(front) + BigWords(payload);
      VerifiesOnTheWire(front, stored, payload, rest, front + stored + payload, rest + BigWords(stored));
    }
  }

  /** For TCP and UDP: what verifies with the pseudo header's sum makes the pseudo header's bytes, the header and the
      payload sum to a multiple of 65535. */
  lemma OnesOnTheWire(header: seq<byte>, src: Long, dst: Long, protocol: byte, hi: byte, lo: byte, payload: seq<byte>,
                      x: nat, pseudo: nat)
    requires |header| % 2 == 0 && x < 65536 && pseudo == Pseudo(src, dst, protocol, Word(hi, lo))
    requires VerifiesAnywhere(pseudo + BigWords(payload), header, x)
    ensures OnesAnywhere(PseudoBytes(src, dst, protocol, hi, lo), header, payload, x)
  {
    PseudoWeight(src, dst, protocol, hi, lo);
    OnesFollow(PseudoBytes(src, dst, protocol, hi, lo), header, payload, x);
  }

  /** Whatever else is summed, storing the complement in the cleared field makes the whole sum to all ones. */
  lemma StoredFills(b: seq<byte>, at: nat, rest: nat, sum: nat)
    requires Cleared(b, at) && sum == rest + BigWords(b)
    ensures Verifies(rest, Store16(b, at, BigResult(sum)))
  {
    StoreSwapped(b, at, Not16(Folded(sum)));
    ComplementFills(sum);
  }

  /** Section 3.1 of RFC 9293: with the result stored in its cleared field, pseudo header, header and payload sum to
      all ones, and the 32-bit running sum did not wrap; `len` is the 16-bit total length. */
  lemma TcpChecksumVerifies(header: seq<byte>, at: nat, src: Long, dst: Long, len: nat, payload: seq<byte>, pseudo: nat,
                            raw: nat)
    requires Cleared(header, at) && |header| + |payload| <= MAX_BYTES && len < 65536
    requires pseudo == Pseudo(src, dst, TCP_PROTOCOL_NUMBER, len)
    requires raw == pseudo + BigWords(header) + BigWords(payload)
    ensures raw < MOD32
    ensures Verifies(pseudo + BigWords(payload), Store16(header, at, BigResult(raw)))
  {
    NoWrap(pseudo, header, payload);
    StoredFills(header, at, pseudo + BigWords(payload), raw);
  }

  lemma TcpResultVerifies(header: seq<byte>, src: Long, dst: Long, len: nat, payload: seq<byte>, pseudo: nat, raw: nat,
                          result: nat)
    requires |header| + |payload| <= MAX_BYTES && len < 65536
    requires pseudo == Pseudo(src, dst, TCP_PROTOCOL_NUMBER, len)
    requires raw == pseudo + BigWords(header) + BigWords(payload) && result == BigResult(raw % MOD32)
    ensures VerifiesAnywhere(pseudo + BigWords(payload), header, result)
  {
    forall at: nat | Cleared(header, at) ensures Verifies(pseudo + BigWords(payload), Store16(header, at, result)) {
      TcpChecksumVerifies(header, at, src, dst, len, payload, pseudo, raw);
      Below(raw, MOD32);
    }
  }

  method TcpSum(header: seq<byte>, src: Long, dst: Long, totalLen: nat, payload: seq<byte>,
                ghost raw: nat) returns (sum: nat)
    requires totalLen < 65536
    requires raw == Pseudo(src, dst, TCP_PROTOCOL_NUMBER, totalLen) + BigWords(header) + BigWords(payload)
    ensures sum == raw % MOD32
  {
    var pseudo := src.High() + src.Low() + dst.High() + dst.Low() + TCP_PROTOCOL_NUMBER + totalLen;
    sum := AddBig(pseudo, header);
    WrapLate(pseudo + BigWords(header), 1, BigWords(payload), MOD32);
    sum := AddBig(sum, payload);
  }

  /** `tcp_checksum`. */
  method TcpChecksum(header: seq<byte>, src: Long, dst: Long, payload: seq<byte>) returns (result: nat)
    ensures var pseudo := Pseudo(src, dst, 6, (|header| + |payload|) % 65536);
            && result == BigResult((pseudo + BigWords(header) + BigWords(payload)) % MOD32)
            && (|header| + |payload| <= MAX_BYTES ==> VerifiesAnywhere(pseudo + BigWords(payload), header, result))
  {
    var totalLen := (|header| + |payload|) % 65536;
    ghost var pseudo := Pseudo(src, dst, TCP_PROTOCOL_NUMBER, totalLen);
    ghost var raw := pseudo + BigWords(header) + BigWords(payload);
    var sum := TcpSum(header, src, dst, totalLen, payload, raw);
    sum := Fold(sum);
    result := Swap(Not16(sum));
    if |header| + |payload| <= MAX_BYTES {
      TcpResultVerifies(header, src, dst, totalLen, payload, pseudo, raw, result);
    }
  }

  // ----- IP and ICMP -----

  /** Byte order does not matter: the little-endian sum leads to the same stored value as the big-endian one. */
  lemma ResultsAgree(big: nat, little: nat, carries: int)
    requires 256 * big == little + 65535 * carries && (big == 0 <==> little == 0)
    ensures LittleResult(little) == BigResult(big)
  {
    SwapFolded(big, little, carries);
    SwapAgain(Folded(big));
  }

  /** For every buffer, odd lengths included, the little-endian form stores the bytes of the big-endian one. */
  lemma LittleIsBig(buf: seq<byte>)
    ensures LittleResult(LittleWords(buf)) == BigResult(BigWords(buf))
  {
    var carries := WordsSwap(buf);
    ResultsAgree(BigWords(buf), LittleWords(buf), carries);
  }

  /** With the result stored in its cleared field the buffer sums to all ones. */
  lemma NetworkChecksumVerifies(buf: seq<byte>, at: nat)
    requires Cleared(buf, at) && |buf| <= MAX_BYTES
    ensures LittleWords(buf) < MOD32
    ensures Verifies(0, Store16(buf, at, LittleResult(LittleWords(buf))))
  {
    WordsBound(buf);
    LittleIsBig(buf);
    StoredFills(buf, at, 0, BigWords(buf));
  }

  /** `network_checksum`. */
  method NetworkChecksum(buf: seq<byte>) returns (result: nat)
    ensures result == LittleResult(LittleWords(buf) % MOD32)
    ensures |buf| <= MAX_BYTES ==> VerifiesAnywhere(0, buf, result)
  {
    var sum := AddLittle(0, buf);
    sum := Fold(sum);
    result := Not16(sum);
    if |buf| <= MAX_BYTES {
      forall at: nat | Cleared(buf, at) ensures Verifies(0, Store16(buf, at, result)) {
        NetworkChecksumVerifies(buf, at);
        Below(LittleWords(buf), MOD32);
      }
    }
  }

  /** In terms of the bytes: the buffer with the result in its field sums to a multiple of 65535. */
  lemma BufferSumsToOnes(buf: seq<byte>, at: nat, x: nat)
    requires Cleared(buf, at) && x < 65536 && VerifiesAnywhere(0, buf, x)
    ensures SumsToOnes(buf[at := x % 256][at + 1 := x / 256])
  {
    var stored := Store16(buf, at, x);
    WordsAreWeight(stored);
    OnesAreMultiples(BigWords(stored));
  }

  // ----- UDP -----

  /** The pseudo header as the UDP code adds it: every word in network byte order; `hi` and `lo` are the
      length's bytes. */
  ghost function PseudoSwapped(src: Long, dst: Long, hi: byte, lo: byte): (sum: nat) {
    src.Swapped().High() + src.Swapped().Low() + dst.Swapped().High() + dst.Swapped().Low()
    + Word(UDP_PROTOCOL_NUMBER, 0) + Word(lo, hi)
  }

  /** A zero result is sent as all ones. */
  function NonZero(x: nat): (r: nat)
    requires x < 65536
    ensures 0 < r < 65536
  {
    if x == 0 then 65535 else x
  }

  lemma PseudoSwaps(src: Long, dst: Long, hi: byte, lo: byte) returns (carries: nat)
    ensures 256 * Pseudo(src, dst, UDP_PROTOCOL_NUMBER, Word(hi, lo)) ==
            PseudoSwapped(src, dst, hi, lo) + 65535 * carries
  {
    var s: nat, d: nat := src.b3, dst.b3;
    carries := s + src.b1 + d + dst.b1 + hi;
  }

  lemma OnesAgain(n: nat)
    requires Folded(n) == 65535
    ensures Folded(n + 65535) == 65535
  {
    assert n > 0;
  }

  lemma StoredAllOnes(b: seq<byte>, at: nat, rest: nat, sum: nat)
    requires Cleared(b, at) && sum == rest + BigWords(b) && Folded(sum) == 65535
    ensures Verifies(rest, Store16(b, at, 65535))
  {
    FieldAdds(b, at, 255, 255);
    OnesAgain(sum);
  }

  /** A stored all-ones word in place of zero leaves the sum all ones. */
  lemma AllOnesForZero(b: seq<byte>, at: nat, rest: nat, sum: nat)
    requires Cleared(b, at) && sum == rest + BigWords(b)
    ensures Verifies(rest, Store16(b, at, NonZero(BigResult(sum))))
  {
    if BigResult(sum) == 0 {
      SwapAgain(Not16(Folded(sum)));
      StoredAllOnes(b, at, rest, sum);
    } else {
      StoredFills(b, at, rest, sum);
    }
  }

  /** RFC 768: the sum taken over swapped words leads to the value the sum in network order would, and with that
      never-zero value stored, the datagram and its pseudo header sum to all ones. */
  lemma UdpChecksumVerifies(header: seq<byte>, at: nat, src: Long, dst: Long, hi: byte, lo: byte, payload: seq<byte>,
                            pseudo: nat, raw: nat, little: nat)
    requires Cleared(header, at) && |header| + |payload| <= MAX_BYTES
    requires pseudo == Pseudo(src, dst, UDP_PROTOCOL_NUMBER, Word(hi, lo))
    requires raw == pseudo + BigWords(header) + BigWords(payload)
    requires little == PseudoSwapped(src, dst, hi, lo) + LittleWords(header) + LittleWords(payload)
    ensures little < MOD32 && LittleResult(little) == BigResult(raw)
    ensures Verifies(pseudo + BigWords(payload), Store16(header, at, NonZero(LittleResult(little))))
  {
    NoWrap(PseudoSwapped(src, dst, hi, lo), header, payload);
    var p := PseudoSwaps(src, dst, hi, lo);
    var h := WordsSwap(header);
    var b := WordsSwap(payload);
    ResultsAgree(raw, little, p + h + b);
    AllOnesForZero(header, at, pseudo + BigWords(payload), raw);
  }

  method UdpSum(header: seq<byte>, src: Long, dst: Long, hi: byte, lo: byte, payload: seq<byte>,
                ghost little: nat) returns (sum: nat)
    requires little == PseudoSwapped(src, dst, hi, lo) + LittleWords(header) + LittleWords(payload)
    ensures sum == little % MOD32
  {
    var s, d := src.Swapped(), dst.Swapped();
    var pseudo := s.High() + s.Low() + d.High() + d.Low() + Word(UDP_PROTOCOL_NUMBER, 0) + Word(lo, hi);
    sum := AddLittle(pseudo, header);
    WrapLate(pseudo + LittleWords(header), 1, LittleWords(payload), MOD32);
    sum := AddLittle(sum, payload);
  }

  /** The checksum part of `nic_send_udp_package`; `hi` and `lo` are the bytes of the datagram length. */
  method UdpChecksum(header: seq<byte>, src: Long, dst: Long, hi: byte, lo: byte, payload: seq<byte>)
    returns (result: nat)
    ensures result == NonZero(LittleResult(
                        (PseudoSwapped(src, dst, hi, lo) + LittleWords(header) + LittleWords(payload)) % MOD32))
    ensures |header| + |payload| <= MAX_BYTES ==>
              VerifiesAnywhere(Pseudo(src, dst, 17, Word(hi, lo)) + BigWords(payload), header, result)
  {
    ghost var pseudo := Pseudo(src, dst, UDP_PROTOCOL_NUMBER, Word(hi, lo));
    ghost var raw := pseudo + BigWords(header) + BigWords(payload);
    ghost var little := PseudoSwapped(src, dst, hi, lo) + LittleWords(header) + LittleWords(payload);
    var sum := UdpSum(header, src, dst, hi, lo, payload, little);
    sum := Fold(sum);
    result := Not16(sum);
    if result == 0 {
      result := 65535;
    }
    if |header| + |payload| <= MAX_BYTES {
      forall at: nat | Cleared(header, at) ensures Verifies(pseudo + BigWords(payload), Store16(header, at, result)) {
        UdpChecksumVerifies(header, at, src, dst, hi, lo, payload, pseudo, raw, little);
        Below(little, MOD32);
      }
    }
  }
}
