/**
 The Kermit receiver (uboot/common/cmd_load.c): it writes data to memory while a packet is still
 coming in, and undoes that by returning to a checkpoint when the packet turns out to be damaged
 or is sent again.
 */
module Kermit {

  const START := 0x01
  const ETX := 0x03
  const END := 0x0D
  const SPACE := 0x20
  const ESCAPE := 0x23
  const SEND_TYPE := 'S' as int
  const DATA_TYPE := 'D' as int
  const BREAK_TYPE := 'B' as int
  const PARMS := 20

  type Chars = seq<int>

  // ---- the quoting of data characters ------------------------------------------------------------

  /** `ktrans`: what a character means after the quote character */
  function Ktrans(c: int): int
  {
    if c / 32 % 4 == 2 then c - 64 else if c % 128 == 63 then c + 64 else c
  }

  /** The same on bits, as the original computes it. */
  lemma KtransBits(c: bv8)
    ensures Ktrans(c as int) ==
              (if c & 0x60 == 0x40 then c & !0x40 else if c & 0x7F == 0x3F then c | 0x40 else c) as int
  {
  }

  /** The data being written: memory, the next address, and whether a quote is pending. */
  datatype Data = Data(mem: map<int, int>, addr: int, escape: bool)

  /** `k_data_char` and `bin_data_char` */
  function DataChar(quote: int, d: Data, c: int): Data
  {
    if d.escape then Data(d.mem[d.addr := Ktrans(c)], d.addr + 1, false)
    else if c == quote then d.(escape := true)
    else Data(d.mem[d.addr := c], d.addr + 1, false)
  }

  function Feed(quote: int, d: Data, chars: Chars): Data
  {
    if chars == [] then d else DataChar(quote, Feed(quote, d, chars[..|chars| - 1]), chars[|chars| - 1])
  }

  /** The bytes that quoted characters stand for, after a pending quote or not; and whether a quote
      is pending after them. */
  function Unquote(quote: int, escape: bool, chars: Chars): Chars
    decreases |chars|
  {
    if chars == [] then []
    else if escape then [Ktrans(chars[0])] + Unquote(quote, false, chars[1..])
    else if chars[0] == quote then Unquote(quote, true, chars[1..])
    else [chars[0]] + Unquote(quote, false, chars[1..])
  }

  function Pending(quote: int, escape: bool, chars: Chars): bool
    decreases |chars|
  {
    if chars == [] then escape else Pending(quote, !escape && chars[0] == quote, chars[1..])
  }

  lemma {:induction false} UnquoteConcat(quote: int, escape: bool, a: Chars, b: Chars)
    ensures Unquote(quote, escape, a + b) == Unquote(quote, escape, a) + Unquote(quote, Pending(quote, escape, a), b)
    ensures Pending(quote, escape, a + b) == Pending(quote, Pending(quote, escape, a), b)
    decreases |a|
  {
    if a == [] {
      assert a + b == b;
    } else {
      assert (a + b)[1..] == a[1..] + b && (a + b)[0] == a[0];
      UnquoteConcat(quote, !escape && a[0] == quote, a[1..], b);
    }
  }

  predicate Cell(mem: map<int, int>, a: int, c: int) { a in mem && mem[a] == c }

  /** The bytes lie in memory from an address on. */
  predicate Stored(mem: map<int, int>, start: int, bytes: Chars)
  {
    forall i {:trigger bytes[i]} :: 0 <= i < |bytes| ==> Cell(mem, start + i, bytes[i])
  }

  predicate SameBelow(m: map<int, int>, m': map<int, int>, a: int)
  {
    forall x {:trigger m'[x]} {:trigger m[x]} :: x < a && x in m ==> x in m' && m'[x] == m[x]
  }

  /** Feeding characters writes what they stand for, and nothing below the starting address. */
  lemma {:induction false} FeedWrites(quote: int, d: Data, chars: Chars)
    ensures var g := Feed(quote, d, chars);
      && g.addr == d.addr + |Unquote(quote, d.escape, chars)| && g.escape == Pending(quote, d.escape, chars)
      && Stored(g.mem, d.addr, Unquote(quote, d.escape, chars)) && SameBelow(d.mem, g.mem, d.addr)
    decreases |chars|
  {
    if chars != [] {
      var front, c := chars[..|chars| - 1], chars[|chars| - 1];
      FeedWrites(quote, d, front);
      assert chars == front + [c];
      UnquoteConcat(quote, d.escape, front, [c]);
      var e := Pending(quote, d.escape, front);
      var u, v, g := Unquote(quote, d.escape, front), Unquote(quote, e, [c]), Feed(quote, d, chars);
      assert v == if e then [Ktrans(c)] else if c == quote then [] else [c];
      forall i | 0 <= i < |u + v| ensures Cell(g.mem, d.addr + i, (u + v)[i]) {
        if i < |u| { assert u[i] == (u + v)[i]; }
      }
      assert Unquote(quote, d.escape, chars) == u + v && Stored(g.mem, d.addr, u + v);
    }
  }

  /** A sender quotes control characters, DEL and their counterparts with the eighth bit, and the quote. */
  predicate Control(c: int) { c / 32 % 4 == 0 || c % 128 == 127 }

  function Quoted(quote: int, c: int): Chars
  {
    if Control(c) then [quote, if c % 128 == 127 then c - 64 else c + 64]
    else if c == quote then [quote, quote] else [c]
  }

  function QuoteAll(quote: int, bytes: Chars): Chars
  {
    if bytes == [] then [] else Quoted(quote, bytes[0]) + QuoteAll(quote, bytes[1..])
  }

  predicate Byte(c: int) { 0 <= c < 256 }

  /** Quoting a file and unquoting it gives the file back, */
  lemma {:induction false} QuoteRoundTrip(quote: int, bytes: Chars)
    requires forall i :: 0 <= i < |bytes| ==> Byte(bytes[i])
    requires !Control(quote) && Ktrans(quote) == quote
    ensures Unquote(quote, false, QuoteAll(quote, bytes)) == bytes && !Pending(quote, false, QuoteAll(quote, bytes))
  {
    if bytes != [] {
      var q, rest := Quoted(quote, bytes[0]), QuoteAll(quote, bytes[1..]);
      QuoteRoundTrip(quote, bytes[1..]);
      UnquoteConcat(quote, false, q, rest);
      QuotedOne(quote, bytes[0]);
    }
  }

  lemma KtransInverse(c: int)
    requires Byte(c) && Control(c)
    ensures Ktrans(if c % 128 == 127 then c - 64 else c + 64) == c
  {
  }

  lemma QuotedOne(quote: int, c: int)
    requires Byte(c) && !Control(quote) && Ktrans(quote) == quote
    ensures Unquote(quote, false, Quoted(quote, c)) == [c] && !Pending(quote, false, Quoted(quote, c))
  {
    var q := Quoted(quote, c);
    if Control(c) { KtransInverse(c); }
    if |q| == 2 { QuotedPair(quote, q[1]); }
  }

  lemma QuotedPair(quote: int, x: int)
    ensures Unquote(quote, false, [quote, x]) == [Ktrans(x)] && !Pending(quote, false, [quote, x])
  {
    assert [quote, x][1..] == [x];
    assert Unquote(quote, true, [x]) == [Ktrans(x)] + Unquote(quote, false, []);
    assert !Pending(quote, true, [x]);
  }

  /** exactly when the quote character is not itself one that the translation changes. */
  lemma QuoteMustBePlain(quote: int)
    requires Byte(quote) && !Control(quote)
    ensures Unquote(quote, false, QuoteAll(quote, [quote])) == [quote] <==> Ktrans(quote) == quote
  {
    assert QuoteAll(quote, [quote]) == [quote, quote];
    QuotedPair(quote, quote);
  }

  // ---- packets on the line ---------------------------------------------------------------------------

  /** The type-1 block check of a sum of characters. */
  function Check(sum: int): int { (sum + sum / 64 % 4) % 64 }

  /** The low six bits of the sum and its bits six and seven, added and cut to six bits. */
  lemma CheckBits(sum: int, high: int, middle: int, low: int)
    requires sum == 256 * high + 64 * middle + low && 0 <= middle < 4 && 0 <= low < 64
    ensures Check(sum) == (low + middle) % 64
  {
    assert sum / 64 == 4 * high + middle;
  }

  /** A sum in which one bit of one character was flipped has another check. */
  lemma BitNoticed(sum: int, bit: int)
    requires bit in {1, 2, 4, 8, 16, 32, 64, 128}
    ensures Check(sum + bit) != Check(sum)
  {
    var h, m, l := sum / 256, sum / 64 % 4, sum % 64;
    Digits(sum);
    CheckBits(sum, h, m, l);
    var l' := if bit < 64 then (if l + bit < 64 then l + bit else l + bit - 64) else l;
    var up := if bit >= 64 then bit / 64 else if l + bit < 64 then 0 else 1;
    if m + up < 4 {
      CheckBits(sum + bit, h, m + up, l');
      Apart64(l + m, l' + up - l);
    } else {
      CheckBits(sum + bit, h + 1, m + up - 4, l');
      Apart64(l + m, l' + up - 4 - l);
    }
  }

  lemma Digits(sum: int)
    ensures sum == 256 * (sum / 256) + 64 * (sum / 64 % 4) + sum % 64
  {
  }

  lemma Apart64(x: int, d: int)
    requires -128 < d < 128 && d != 0 && d != 64 && d != -64
    ensures (x + d) % 64 != x % 64
  {
  }

  predicate Printable(c: int) { c >= 32 }

  function Sum(chars: Chars): int { if chars == [] then 0 else chars[0] + Sum(chars[1..]) }

  lemma {:induction false} SumConcat(a: Chars, b: Chars)
    ensures Sum(a + b) == Sum(a) + Sum(b)
  {
    if a == [] {
      assert a + b == b;
    } else {
      assert (a + b)[1..] == a[1..] + b;
      SumConcat(a[1..], b);
    }
  }

  /** A packet as far as the receiver got with it: its type (0 if that could not be read), the data
      characters that were passed on, and whether it was received without error. */
  datatype Frame = Frame(n: int, typ: int, chars: Chars, ok: bool)

  datatype Parsed = Got(frame: Frame, rest: Chars) | Early(rest: Chars) | Short

  datatype Scan = Scanned(chars: Chars, rest: Chars, sum: int, ok: bool) | ScanShort

  /** Reads a number of data characters. */
  function ScanData(s: Chars, count: nat, sum: int): Scan
    decreases count
  {
    if count == 0 then Scanned([], s, sum, true)
    else if s == [] then ScanShort
    else if !Printable(s[0]) then Scanned([], s[1..], sum, false)
    else Prepend([s[0]], ScanData(s[1..], count - 1, sum + s[0]))
  }

  function Prepend(chars: Chars, r: Scan): Scan
  {
    match r
    case ScanShort => ScanShort
    case Scanned(cs, rest, sum, ok) => Scanned(chars + cs, rest, sum, ok)
  }

  /** Reads the block check and the end of the line. */
  function ParseEnd(n: int, typ: int, r: Scan): Parsed
  {
    match r
    case ScanShort => Short
    case Scanned(chars, rest, sum, ok) =>
      if !ok then Got(Frame(n, typ, chars, false), rest)
      else if rest == [] then Short
      else if !Printable(rest[0]) || rest[0] != Check(sum) + SPACE then Got(Frame(n, typ, chars, false), rest[1..])
      else if |rest| == 1 then Short
      else Got(Frame(n, typ, chars, rest[1] == END), rest[2..])
  }

  function Count(length: int): nat { if length > 1 then length - 1 else 0 }

  /** Reads from the data on, given the count of characters still to come and their sum so far. */
  function ParseBody(n: int, typ: int, s: Chars, length: int, sum: int): Parsed
  {
    ParseEnd(n, typ, ScanData(s, Count(length), sum))
  }

  /** Reads the length of an extended packet: two characters and a block check over the header. */
  function ParseExtended(n: int, typ: int, s: Chars, sum: int): Parsed
  {
    if s == [] then Short
    else if !Printable(s[0]) then Got(Frame(n, typ, [], false), s[1..])
    else if |s| == 1 then Short
    else if !Printable(s[1]) then Got(Frame(n, typ, [], false), s[2..])
    else if |s| == 2 then Short
    else
      var sum' := sum + s[0] + s[1];
      if !Printable(s[2]) || s[2] != Check(sum') + SPACE then Got(Frame(n, typ, [], false), s[3..])
      else ParseBody(n, typ, s[3..], (s[0] - SPACE) * 95 + (s[1] - SPACE), sum' + s[2])
  }

  /** Reads a packet from its type on; length 0 announces an extended length. */
  function ParseTyped(n: int, typ: int, s: Chars, length: int, sum: int): Parsed
  {
    if length == 0 then ParseExtended(n, typ, s, sum) else ParseBody(n, typ, s, length - 2, sum)
  }

  /** Reads a packet after its sequence number. */
  function ParseNumbered(n: int, s: Chars, length: int, sum: int): Parsed
  {
    if s == [] then Short
    else if !Printable(s[0]) then Got(Frame(n, 0, [], false), s[1..])
    else ParseTyped(n, s[0], s[1..], length, sum + s[0])
  }

  /** Reads a packet, from the character after the start character on. */
  function Parse(s: Chars): Parsed
  {
    if s == [] then Short
    else if !Printable(s[0]) then Early(s[1..])
    else if |s| == 1 then Short
    else if !Printable(s[1]) then Early(s[2..])
    else ParseNumbered(s[1] - SPACE, s[2..], s[0] - SPACE, s[0] + s[1])
  }

  // ---- the receiver ---------------------------------------------------------------------------------------

  datatype Reply = Ack(n: int) | Nack(n: int) | Parameters(n: int)

  datatype Receiver = Receiver(
    data: Data, savedAddr: int, savedEscape: bool,
    lastN: int, n: int, quote: int, replies: seq<Reply>, done: bool)

  function Restored(d: Data, addr: int, escape: bool): Data { Data(d.mem, addr, escape) }

  /** A sequence number arrives: the same one again returns to the checkpoint, a new one sets it. */
  function Checkpoint(r: Receiver, n: int): Receiver
  {
    if n == r.lastN then r.(n := n, data := Restored(r.data, r.savedAddr, r.savedEscape))
    else r.(n := n, lastN := n, savedAddr := r.data.addr, savedEscape := r.data.escape)
  }

  function QuoteOf(chars: Chars): int { if |chars| >= 6 then chars[5] else ESCAPE }

  function Fed(r: Receiver, typ: int, chars: Chars): Receiver
  {
    if typ == DATA_TYPE then r.(data := Feed(r.quote, r.data, chars)) else r
  }

  /** The packet is over. */
  function Finish(r: Receiver, typ: int, chars: Chars, ok: bool): Receiver
  {
    if !ok then r.(data := Restored(r.data, r.savedAddr, r.savedEscape), replies := r.replies + [Nack(r.n)])
    else if typ == SEND_TYPE then r.(quote := QuoteOf(chars), replies := r.replies + [Parameters(r.n)])
    else r.(replies := r.replies + [Ack(r.n)], done := typ == BREAK_TYPE)
  }

  function Handle(r: Receiver, f: Frame): Receiver
  {
    Finish(Fed(Checkpoint(r, f.n), f.typ, f.chars), f.typ, f.chars, f.ok)
  }

  /** An error before the sequence number is read. */
  function HandleEarly(r: Receiver): Receiver { Finish(r, 0, [], false) }

  datatype Outcome = Finished(r: Receiver) | Cancelled | Waiting

  /** The input from the next start or cancel character on. */
  function Skip(s: Chars): (t: Chars)
    ensures |t| <= |s|
  {
    if s == [] || s[0] == START || s[0] == ETX then s else Skip(s[1..])
  }

  datatype Stepped = Silent | Stop | Next(r: Receiver, rest: Chars)

  /** One packet, with whatever comes before it */
  function Step(r: Receiver, s: Chars): Stepped
  {
    var t := Skip(s);
    if t == [] then Silent
    else if t[0] == ETX then Stop
    else
      match Parse(t[1..])
      case Short => Silent
      case Early(rest) => Next(HandleEarly(r), rest)
      case Got(f, rest) => Next(Handle(r, f), rest)
  }

  /** `k_recv` on all of the input */
  function Run(r: Receiver, s: Chars): Outcome
    decreases |s|
  {
    StepShrinks(r, s);
    match Step(r, s)
    case Silent => Waiting
    case Stop => Cancelled
    case Next(r', rest) => if r'.done then Finished(r') else Run(r', rest)
  }

  lemma TakeStep(r: Receiver, s: Chars)
    ensures Run(r, s) == match Step(r, s) {
      case Silent => Waiting
      case Stop => Cancelled
      case Next(r', rest) => if r'.done then Finished(r') else Run(r', rest)
    }
  {
  }

  lemma StepShrinks(r: Receiver, s: Chars)
    ensures Step(r, s).Next? ==> |Step(r, s).rest| < |s|
  {
    if Skip(s) != [] { ParseShrinks(Skip(s)[1..]); }
  }

  lemma {:induction false} ScanShrinks(s: Chars, count: nat, sum: int)
    ensures var r := ScanData(s, count, sum); r.Scanned? ==> |r.rest| <= |s|
    decreases count
  {
    if count > 0 && s != [] && Printable(s[0]) { ScanShrinks(s[1..], count - 1, sum + s[0]); }
  }

  lemma ParseShrinks(s: Chars)
    ensures !Parse(s).Short? ==> |Parse(s).rest| < |s|
  {
    if |s| >= 3 && Printable(s[0]) && Printable(s[1]) && Printable(s[2]) {
      var sum := s[0] + s[1] + s[2];
      if s[0] - SPACE == 0 {
        if |s| >= 6 {
          var length := (s[3] - SPACE) * 95 + (s[4] - SPACE);
          assert s[3..][3..] == s[6..] && s[3..][0] == s[3] && s[3..][1] == s[4] && s[3..][2] == s[5];
          ScanShrinks(s[6..], if length > 1 then length - 1 else 0, sum + s[3] + s[4] + s[5]);
        }
      } else {
        var length := s[0] - SPACE - 2;
        ScanShrinks(s[3..], if length > 1 then length - 1 else 0, sum);
      }
    }
  }

  // ---- what a sender puts on the line ---------------------------------------------------------------------

  datatype Packet = Packet(n: int, typ: int, chars: Chars, long: bool)

  predicate Sendable(p: Packet)
  {
    && 0 <= p.n < 64 && Printable(p.typ)
    && (forall i :: 0 <= i < |p.chars| ==> Printable(p.chars[i]))
    && (if p.long then |p.chars| + 1 <= 94 * 95 + 94 else |p.chars| <= 91)
  }

  function Header(p: Packet): Chars
  {
    if p.long then
      var h := [SPACE, p.n + SPACE, p.typ, (|p.chars| + 1) / 95 + SPACE, (|p.chars| + 1) % 95 + SPACE];
      h + [Check(Sum(h)) + SPACE]
    else [|p.chars| + 3 + SPACE, p.n + SPACE, p.typ]
  }

  /** A packet on the line, after the start character. */
  function Encode(p: Packet): Chars
  {
    Header(p) + p.chars + [Check(Sum(Header(p)) + Sum(p.chars)) + SPACE, END]
  }

  /** Everything on the line is a byte, so that masking it with 0xff, and the sign of `char`, make no difference. */
  lemma EncodedBytes(p: Packet, i: nat)
    requires Sendable(p) && Byte(p.typ) && (forall j :: 0 <= j < |p.chars| ==> Byte(p.chars[j])) && i < |Encode(p)|
    ensures Byte(Encode(p)[i])
  {
    var h, k := Header(p), Check(Sum(Header(p)) + Sum(p.chars)) + SPACE;
    if p.long { HighLow(|p.chars| + 1); }
    assert Encode(p) == h + p.chars + [k, END];
    if i < |h| {
      assert Encode(p)[i] == h[i];
    } else if i < |h| + |p.chars| {
      assert Encode(p)[i] == p.chars[i - |h|];
    }
  }

  lemma HighLow(n: int)
    requires 0 <= n <= 94 * 95 + 94
    ensures 0 <= n / 95 <= 94 && 0 <= n % 95 <= 94
  {
  }

  lemma KtransByte(c: int)
    requires Byte(c)
    ensures Byte(Ktrans(c))
  {
  }

  lemma {:induction false} ScanAll(chars: Chars, t: Chars, sum: int)
    requires forall i :: 0 <= i < |chars| ==> Printable(chars[i])
    ensures ScanData(chars + t, |chars|, sum) == Scanned(chars, t, sum + Sum(chars), true)
  {
    if chars == [] {
      assert chars + t == t;
    } else {
      assert (chars + t)[1..] == chars[1..] + t;
      ScanAll(chars[1..], t, sum + chars[0]);
      assert [chars[0]] + chars[1..] == chars;
    }
  }

  lemma Sum3(a: int, b: int, c: int)
    ensures Sum([a, b, c]) == a + b + c
  {
    assert [a, b, c][1..] == [b, c] && [b, c][1..] == [c];
    assert Sum([c]) == c && Sum([b, c]) == b + c;
  }

  lemma Sum6(a: int, b: int, c: int, d: int, e: int, f: int)
    ensures Sum([a, b, c, d, e]) == a + b + c + d + e && Sum([a, b, c, d, e] + [f]) == a + b + c + d + e + f
  {
    Sum3(a, b, c);
    assert [a, b, c, d, e] == [a, b, c] + [d, e];
    SumConcat([a, b, c], [d, e]);
    assert [d, e][1..] == [e] && Sum([e]) == e;
    SumConcat([a, b, c, d, e], [f]);
    assert Sum([f]) == f;
  }

  lemma CheckRange(sum: int)
    ensures 0 <= Check(sum) < 64
  {
  }

  lemma EndParses(n: int, typ: int, chars: Chars, sum: int, k: int, t: Chars)
    requires k == Check(sum) + SPACE && Printable(k)
    ensures ParseEnd(n, typ, Scanned(chars, [k, END] + t, sum, true)) == Got(Frame(n, typ, chars, true), t)
  {
    assert ([k, END] + t)[2..] == t;
  }

  /** From the data on, an undamaged packet is read back. */
  lemma BodyReads(n: int, typ: int, chars: Chars, length: int, sum: int, k: int, t: Chars)
    requires (forall i :: 0 <= i < |chars| ==> Printable(chars[i])) && Count(length) == |chars|
    requires k == Check(sum + Sum(chars)) + SPACE
    ensures ParseBody(n, typ, chars + [k, END] + t, length, sum) == Got(Frame(n, typ, chars, true), t)
  {
    TailApart(chars, k, t);
    ScanAll(chars, [k, END] + t, sum);
    assert ScanData(chars + [k, END] + t, |chars|, sum) == Scanned(chars, [k, END] + t, sum + Sum(chars), true);
    CheckRange(sum + Sum(chars));
    EndParses(n, typ, chars, sum + Sum(chars), k, t);
  }

  lemma TailApart(chars: Chars, k: int, t: Chars)
    ensures chars + [k, END] + t == chars + ([k, END] + t)
  {
  }

  lemma HeaderParses(n: int, typ: int, hi: int, lo: int, c: int, sum: int, body: Chars)
    requires hi >= 0 && lo >= 0 && c == Check(sum + (hi + SPACE) + (lo + SPACE)) + SPACE
    ensures ParseExtended(n, typ, [hi + SPACE, lo + SPACE, c] + body, sum) ==
              ParseBody(n, typ, body, hi * 95 + lo, sum + (hi + SPACE) + (lo + SPACE) + c)
  {
    var s := [hi + SPACE, lo + SPACE, c] + body;
    CheckRange(sum + (hi + SPACE) + (lo + SPACE));
    assert s[3..] == body && s[0] == hi + SPACE && s[1] == lo + SPACE && s[2] == c;
  }

  lemma LongHeader(p: Packet) returns (hi: int, lo: int, c: int)
    requires p.long
    ensures hi >= 0 && lo >= 0 && hi * 95 + lo == |p.chars| + 1
    ensures c == Check(SPACE + (p.n + SPACE) + p.typ + (hi + SPACE) + (lo + SPACE)) + SPACE
    ensures Header(p) == [SPACE, p.n + SPACE, p.typ, hi + SPACE, lo + SPACE, c]
    ensures Sum(Header(p)) == SPACE + (p.n + SPACE) + p.typ + (hi + SPACE) + (lo + SPACE) + c
  {
    hi, lo := (|p.chars| + 1) / 95, (|p.chars| + 1) % 95;
    c := Check(SPACE + (p.n + SPACE) + p.typ + (hi + SPACE) + (lo + SPACE)) + SPACE;
    Sum6(SPACE, p.n + SPACE, p.typ, hi + SPACE, lo + SPACE, c);
  }

  lemma ParseLong(n: int, typ: int, s: Chars)
    requires n >= 0 && Printable(typ)
    ensures Parse([SPACE, n + SPACE, typ] + s) == ParseExtended(n, typ, s, SPACE + (n + SPACE) + typ)
  {
    var u := [SPACE, n + SPACE, typ] + s;
    assert u[3..] == s && u[0] == SPACE && u[1] == n + SPACE && u[2] == typ;
  }

  lemma ParseLongHeader(n: int, typ: int, hi: int, lo: int, c: int, body: Chars)
    requires n >= 0 && Printable(typ) && hi >= 0 && lo >= 0
    requires c == Check(SPACE + (n + SPACE) + typ + (hi + SPACE) + (lo + SPACE)) + SPACE
    ensures Parse([SPACE, n + SPACE, typ, hi + SPACE, lo + SPACE, c] + body)
            == ParseBody(n, typ, body, hi * 95 + lo, SPACE + (n + SPACE) + typ + (hi + SPACE) + (lo + SPACE) + c)
  {
    var tail := [hi + SPACE, lo + SPACE, c] + body;
    assert [SPACE, n + SPACE, typ, hi + SPACE, lo + SPACE, c] + body == [SPACE, n + SPACE, typ] + tail;
    ParseLong(n, typ, tail);
    HeaderParses(n, typ, hi, lo, c, SPACE + (n + SPACE) + typ, body);
  }

  lemma EncodeBody(p: Packet, t: Chars, k: int)
    requires k == Check(Sum(Header(p)) + Sum(p.chars)) + SPACE
    ensures Encode(p) + t == Header(p) + (p.chars + [k, END] + t)
  {
  }

  lemma LongIsBody(p: Packet, t: Chars, k: int)
    requires Sendable(p) && p.long && k == Check(Sum(Header(p)) + Sum(p.chars)) + SPACE
    ensures Parse(Encode(p) + t) == ParseBody(p.n, p.typ, p.chars + [k, END] + t, |p.chars| + 1, Sum(Header(p)))
  {
    EncodeBody(p, t, k);
    ParseLongBody(p, p.chars + [k, END] + t);
  }

  lemma ParseLongBody(p: Packet, body: Chars)
    requires Sendable(p) && p.long
    ensures Parse(Header(p) + body) == ParseBody(p.n, p.typ, body, |p.chars| + 1, Sum(Header(p)))
  {
    var hi, lo, c := LongHeader(p);
    LongReads(Header(p), p.n, p.typ, hi, lo, c, |p.chars| + 1, body);
  }

  lemma LongReads(h: Chars, n: int, typ: int, hi: int, lo: int, c: int, length: int, body: Chars)
    requires n >= 0 && Printable(typ) && hi >= 0 && lo >= 0 && hi * 95 + lo == length
    requires c == Check(SPACE + (n + SPACE) + typ + (hi + SPACE) + (lo + SPACE)) + SPACE
    requires h == [SPACE, n + SPACE, typ, hi + SPACE, lo + SPACE, c]
    ensures Parse(h + body) == ParseBody(n, typ, body, length, Sum(h))
  {
    ParseLongHeader(n, typ, hi, lo, c, body);
    SumExtended(n, typ, hi, lo, c);
  }

  lemma ParseShortHeader(n: int, typ: int, len: int, body: Chars)
    requires n >= 0 && len >= 1 && Printable(typ)
    ensures Parse([len + SPACE, n + SPACE, typ] + body) ==
              ParseBody(n, typ, body, len - 2, (len + SPACE) + (n + SPACE) + typ)
  {
    var s := [len + SPACE, n + SPACE, typ] + body;
    assert s[2..] == [typ] + body && ([typ] + body)[1..] == body;
  }

  lemma ShortIsBody(p: Packet, t: Chars, k: int)
    requires Sendable(p) && !p.long && k == Check(Sum(Header(p)) + Sum(p.chars)) + SPACE
    ensures Parse(Encode(p) + t) == ParseBody(p.n, p.typ, p.chars + [k, END] + t, |p.chars| + 1, Sum(Header(p)))
  {
    EncodeBody(p, t, k);
    ParseShortBody(p, p.chars + [k, END] + t);
  }

  lemma ParseShortBody(p: Packet, body: Chars)
    requires Sendable(p) && !p.long
    ensures Parse(Header(p) + body) == ParseBody(p.n, p.typ, body, |p.chars| + 1, Sum(Header(p)))
  {
    Sum3(|p.chars| + 3 + SPACE, p.n + SPACE, p.typ);
    ParseShortHeader(p.n, p.typ, |p.chars| + 3, body);
  }

  /** The receiver reads back exactly what was sent. */
  lemma EncodeParses(p: Packet, t: Chars)
    requires Sendable(p)
    ensures Parse(Encode(p) + t) == Got(Frame(p.n, p.typ, p.chars, true), t)
  {
    var k := Check(Sum(Header(p)) + Sum(p.chars)) + SPACE;
    if p.long { LongIsBody(p, t, k); } else { ShortIsBody(p, t, k); }
    BodyReads(p.n, p.typ, p.chars, |p.chars| + 1, Sum(Header(p)), k, t);
  }

  // What is accepted

  /** The characters before the data: length, number and type; or an extended length with its own check. */
  predicate WireHeader(h: Chars, n: int, typ: int, count: nat)
  {
    && |h| >= 3 && h[1] == n + SPACE && h[2] == typ && (forall i :: 0 <= i < |h| ==> Printable(h[i]))
    && if h[0] != SPACE then |h| == 3 && count == (if h[0] < SPACE + 3 then 0 else h[0] - SPACE - 3)
       else
         && |h| == 6 && h[5] == Check(h[0] + h[1] + h[2] + h[3] + h[4]) + SPACE
         && (h[3] - SPACE) * 95 + (h[4] - SPACE) == if count == 0 && h[3..5] == [SPACE, SPACE] then 0 else count + 1
  }

  /** A packet with all its checks right, and what follows it */
  predicate OnWire(h: Chars, n: int, typ: int, chars: Chars, s: Chars, rest: Chars)
  {
    && WireHeader(h, n, typ, |chars|) && (forall i :: 0 <= i < |chars| ==> Printable(chars[i]))
    && s == h + chars + [Check(Sum(h) + Sum(chars)) + SPACE, END] + rest
  }

  lemma {:induction false} ScanAccepts(s: Chars, count: nat, sum: int)
    requires ScanData(s, count, sum).Scanned? && ScanData(s, count, sum).ok
    ensures var r := ScanData(s, count, sum);
      && |r.chars| == count && s == r.chars + r.rest && r.sum == sum + Sum(r.chars)
      && forall i :: 0 <= i < count ==> Printable(r.chars[i])
    decreases count
  {
    if count > 0 {
      ScanAccepts(s[1..], count - 1, sum + s[0]);
      var t := ScanData(s[1..], count - 1, sum + s[0]);
      assert ScanData(s, count, sum).chars == [s[0]] + t.chars && ([s[0]] + t.chars)[1..] == t.chars;
    }
  }

  lemma BodyAccepts(n: int, typ: int, s: Chars, length: int, sum: int)
    requires var q := ParseBody(n, typ, s, length, sum); q.Got? && q.frame.ok
    ensures var q := ParseBody(n, typ, s, length, sum);
      && |q.frame.chars| == Count(length) && (forall i :: 0 <= i < |q.frame.chars| ==> Printable(q.frame.chars[i]))
      && s == q.frame.chars + [Check(sum + Sum(q.frame.chars)) + SPACE, END] + q.rest
  {
    ScanAccepts(s, Count(length), sum);
    var r := ScanData(s, Count(length), sum);
    EndAccepts(n, typ, r);
    assert r.chars + ([Check(r.sum) + SPACE, END] + r.rest[2..]) == r.chars + [Check(r.sum) + SPACE, END] + r.rest[2..];
  }

  lemma EndAccepts(n: int, typ: int, r: Scan)
    requires var q := ParseEnd(n, typ, r); q.Got? && q.frame.ok
    ensures r.Scanned? && r.ok && |r.rest| >= 2 && r.rest == [Check(r.sum) + SPACE, END] + r.rest[2..]
    ensures ParseEnd(n, typ, r) == Got(Frame(n, typ, r.chars, true), r.rest[2..])
  {
  }

  lemma ShortHeader(len: int, n: int, typ: int, count: nat)
    requires len > SPACE && n >= 0 && Printable(typ) && count == Count(len - SPACE - 2)
    ensures WireHeader([len, n + SPACE, typ], n, typ, count)
  {
  }

  lemma ExtendedHeader(n: int, typ: int, hi: int, lo: int, c: int, count: nat)
    requires n >= 0 && Printable(typ) && Printable(hi) && Printable(lo) && Printable(c)
    requires c == Check(SPACE + (n + SPACE) + typ + hi + lo) + SPACE
    requires count == Count((hi - SPACE) * 95 + (lo - SPACE))
    ensures WireHeader([SPACE, n + SPACE, typ, hi, lo, c], n, typ, count)
  {
    assert [SPACE, n + SPACE, typ, hi, lo, c][3..5] == [hi, lo];
  }

  lemma BodyOnWire(h: Chars, n: int, typ: int, u: Chars, length: int, s: Chars, chars: Chars, rest: Chars)
    requires WireHeader(h, n, typ, Count(length)) && s == h + u
    requires ParseBody(n, typ, u, length, Sum(h)) == Got(Frame(n, typ, chars, true), rest)
    ensures OnWire(h, n, typ, chars, s, rest)
  {
    BodyAccepts(n, typ, u, length, Sum(h));
    JoinParts(h, chars, [Check(Sum(h) + Sum(chars)) + SPACE, END], rest);
  }

  lemma BodyNames(n: int, typ: int, s: Chars, length: int, sum: int)
    requires ParseBody(n, typ, s, length, sum).Got?
    ensures ParseBody(n, typ, s, length, sum).frame.n == n && ParseBody(n, typ, s, length, sum).frame.typ == typ
  {
  }

  lemma JoinParts(a: Chars, b: Chars, c: Chars, d: Chars)
    ensures a + (b + c + d) == a + b + c + d
  {
  }

  /** What the receiver accepts is a packet with all its checks right. */
  lemma AcceptsWire(s: Chars) returns (h: Chars)
    requires Parse(s).Got? && Parse(s).frame.ok
    ensures var q := Parse(s); OnWire(h, q.frame.n, q.frame.typ, q.frame.chars, s, q.rest)
  {
    assert s[2..][0] == s[2] && s[2..][1..] == s[3..];
    h := TypedAccepts(s, s[0], s[1] - SPACE, s[2], s[3..]);
  }

  lemma TypedAccepts(s: Chars, len: int, n: int, typ: int, t: Chars) returns (h: Chars)
    requires len >= SPACE && n >= 0 && Printable(typ) && s == [len, n + SPACE, typ] + t
    requires var q := ParseTyped(n, typ, t, len - SPACE, len + (n + SPACE) + typ); q.Got? && q.frame.ok
    ensures var q := ParseTyped(n, typ, t, len - SPACE, len + (n + SPACE) + typ);
      OnWire(h, n, typ, q.frame.chars, s, q.rest) && q.frame.n == n && q.frame.typ == typ
  {
    if len == SPACE {
      h := ExtendedAccepts(s, n, typ, t);
    } else {
      h := [len, n + SPACE, typ];
      Sum3(len, n + SPACE, typ);
      ShortHeader(len, n, typ, Count(len - SPACE - 2));
      BodyNames(n, typ, t, len - SPACE - 2, Sum(h));
      var q := ParseBody(n, typ, t, len - SPACE - 2, Sum(h));
      BodyOnWire(h, n, typ, t, len - SPACE - 2, s, q.frame.chars, q.rest);
    }
  }

  lemma ExtendedIs(n: int, typ: int, t: Chars, sum: int)
    requires var q := ParseExtended(n, typ, t, sum); q.Got? && q.frame.ok
    ensures |t| >= 3 && Printable(t[0]) && Printable(t[1]) && Printable(t[2])
    ensures t[2] == Check(sum + t[0] + t[1]) + SPACE
    ensures ParseExtended(n, typ, t, sum) ==
              ParseBody(n, typ, t[3..], (t[0] - SPACE) * 95 + (t[1] - SPACE), sum + t[0] + t[1] + t[2])
  {
  }

  lemma ExtendedAccepts(s: Chars, n: int, typ: int, t: Chars) returns (h: Chars)
    requires n >= 0 && Printable(typ) && s == [SPACE, n + SPACE, typ] + t
    requires var q := ParseExtended(n, typ, t, SPACE + (n + SPACE) + typ); q.Got? && q.frame.ok
    ensures var q := ParseExtended(n, typ, t, SPACE + (n + SPACE) + typ);
      OnWire(h, n, typ, q.frame.chars, s, q.rest) && q.frame.n == n && q.frame.typ == typ
  {
    ExtendedIs(n, typ, t, SPACE + (n + SPACE) + typ);
    var hi, lo, c := t[0] - SPACE, t[1] - SPACE, t[2];
    h := [SPACE, n + SPACE, typ, hi + SPACE, lo + SPACE, c];
    SumExtended(n, typ, hi, lo, c);
    ExtendedHeader(n, typ, hi + SPACE, lo + SPACE, c, Count(hi * 95 + lo));
    assert t == [hi + SPACE, lo + SPACE, c] + t[3..];
    assert s == h + t[3..];
    BodyNames(n, typ, t[3..], hi * 95 + lo, Sum(h));
    var q := ParseBody(n, typ, t[3..], hi * 95 + lo, Sum(h));
    BodyOnWire(h, n, typ, t[3..], hi * 95 + lo, s, q.frame.chars, q.rest);
  }

  lemma WireParts(h: Chars, n: int, typ: int, chars: Chars, s: Chars, rest: Chars) returns (t: Chars)
    requires OnWire(h, n, typ, chars, s, rest)
    ensures t == chars + [Check(Sum(h) + Sum(chars)) + SPACE, END] + rest && s == h + t
  {
    t := chars + [Check(Sum(h) + Sum(chars)) + SPACE, END] + rest;
    JoinParts(h, chars, [Check(Sum(h) + Sum(chars)) + SPACE, END], rest);
  }

  /** And every packet with all its checks right is accepted. */
  lemma WireAccepted(h: Chars, n: int, typ: int, chars: Chars, s: Chars, rest: Chars)
    requires OnWire(h, n, typ, chars, s, rest)
    ensures Parse(s) == Got(Frame(n, typ, chars, true), rest)
  {
    var t := WireParts(h, n, typ, chars, s, rest);
    var length := HeaderReads(h, n, typ, |chars|, t);
    BodyReads(n, typ, chars, length, Sum(h), Check(Sum(h) + Sum(chars)) + SPACE, rest);
  }

  lemma HeaderReads(h: Chars, n: int, typ: int, count: nat, t: Chars) returns (length: int)
    requires WireHeader(h, n, typ, count)
    ensures Count(length) == count && Parse(h + t) == ParseBody(n, typ, t, length, Sum(h))
  {
    if h[0] == SPACE {
      length := ExtendedReads(h, n, typ, h[3] - SPACE, h[4] - SPACE, h[5], count, t);
    } else {
      length := h[0] - SPACE - 2;
      assert h == [(h[0] - SPACE) + SPACE, n + SPACE, typ];
      Sum3(h[0], n + SPACE, typ);
      ParseShortHeader(n, typ, h[0] - SPACE, t);
    }
  }

  lemma ExtendedReads(h: Chars, n: int, typ: int, hi: int, lo: int, c: int, count: nat, t: Chars) returns (length: int)
    requires WireHeader(h, n, typ, count) && h[0] == SPACE && h[3] == hi + SPACE && h[4] == lo + SPACE && h[5] == c
    ensures Count(length) == count && Parse(h + t) == ParseBody(n, typ, t, length, Sum(h))
  {
    length := hi * 95 + lo;
    assert h == [SPACE, n + SPACE, typ, hi + SPACE, lo + SPACE, c] && h[3..5] == [hi + SPACE, lo + SPACE];
    SumExtended(n, typ, hi, lo, c);
    ParseLongHeader(n, typ, hi, lo, c, t);
  }

  lemma SumExtended(n: int, typ: int, hi: int, lo: int, c: int)
    ensures Sum([SPACE, n + SPACE, typ, hi + SPACE, lo + SPACE, c]) ==
              SPACE + (n + SPACE) + typ + (hi + SPACE) + (lo + SPACE) + c
  {
    Sum6(SPACE, n + SPACE, typ, hi + SPACE, lo + SPACE, c);
    assert [SPACE, n + SPACE, typ, hi + SPACE, lo + SPACE, c]
        == [SPACE, n + SPACE, typ, hi + SPACE, lo + SPACE] + [c];
  }

  // What has been read does not depend on what follows.

  lemma {:induction false} ScanStable(s: Chars, count: nat, sum: int, t: Chars)
    ensures var r := ScanData(s, count, sum); r.Scanned? ==> ScanData(s + t, count, sum) == r.(rest := r.rest + t)
    decreases count
  {
    if count > 0 && s != [] {
      assert (s + t)[1..] == s[1..] + t && (s + t)[0] == s[0];
      if Printable(s[0]) { ScanStable(s[1..], count - 1, sum + s[0], t); }
    }
  }

  lemma EndStable(n: int, typ: int, r: Scan, t: Chars)
    requires r.Scanned?
    ensures var q := ParseEnd(n, typ, r); q.Got? ==> ParseEnd(n, typ, r.(rest := r.rest + t)) == q.(rest := q.rest + t)
  {
    if |r.rest| >= 1 { assert (r.rest + t)[1..] == r.rest[1..] + t; }
    if |r.rest| >= 2 { assert (r.rest + t)[2..] == r.rest[2..] + t && (r.rest + t)[1] == r.rest[1]; }
  }

  lemma BodyStable(n: int, typ: int, s: Chars, length: int, sum: int, t: Chars)
    ensures var q := ParseBody(n, typ, s, length, sum);
            q.Got? ==> ParseBody(n, typ, s + t, length, sum) == q.(rest := q.rest + t)
  {
    var count := if length > 1 then length - 1 else 0;
    ScanStable(s, count, sum, t);
    if ScanData(s, count, sum).Scanned? { EndStable(n, typ, ScanData(s, count, sum), t); }
  }

  lemma ExtendedStable(n: int, typ: int, s: Chars, sum: int, t: Chars)
    ensures var q := ParseExtended(n, typ, s, sum);
            q.Got? ==> ParseExtended(n, typ, s + t, sum) == q.(rest := q.rest + t)
  {
    if |s| >= 3 && Printable(s[0]) && Printable(s[1]) {
      TailOf(s, t, 3);
      BodyStable(n, typ, s[3..], (s[0] - SPACE) * 95 + (s[1] - SPACE), sum + s[0] + s[1] + s[2], t);
    } else if |s| >= 1 {
      ExtendedFails(n, typ, s, sum, t);
    }
  }

  lemma ExtendedFails(n: int, typ: int, s: Chars, sum: int, t: Chars)
    requires |s| >= 1 && (|s| < 3 || !Printable(s[0]) || !Printable(s[1]))
    ensures var q := ParseExtended(n, typ, s, sum);
            q.Got? ==> ParseExtended(n, typ, s + t, sum) == q.(rest := q.rest + t)
  {
    TailOf(s, t, 1);
    if |s| >= 2 { TailOf(s, t, 2); }
  }

  lemma TailOf(s: Chars, t: Chars, k: nat)
    requires k <= |s|
    ensures (s + t)[k..] == s[k..] + t && (forall i :: 0 <= i < k ==> (s + t)[i] == s[i])
  {
  }

  lemma NumberedStable(n: int, s: Chars, length: int, sum: int, t: Chars)
    ensures var q := ParseNumbered(n, s, length, sum);
            q.Got? ==> ParseNumbered(n, s + t, length, sum) == q.(rest := q.rest + t)
  {
    if s != [] {
      assert (s + t)[0] == s[0] && (s + t)[1..] == s[1..] + t;
      if length == 0 {
        ExtendedStable(n, s[0], s[1..], sum + s[0], t);
      } else {
        BodyStable(n, s[0], s[1..], length - 2, sum + s[0], t);
      }
    }
  }

  lemma ParseStable(s: Chars, t: Chars)
    requires Parse(s).Got?
    ensures Parse(s + t) == Got(Parse(s).frame, Parse(s).rest + t)
  {
    var u, rest := s + t, s[2..];
    assert u[0] == s[0] && u[1] == s[1] && u[2..] == rest + t;
    var n, length, sum := s[1] - SPACE, s[0] - SPACE, s[0] + s[1];
    assert Parse(s) == ParseNumbered(n, rest, length, sum);
    assert Parse(u) == ParseNumbered(n, rest + t, length, sum);
    NumberedStable(n, rest, length, sum, t);
  }

  // ---- transmissions with duplicates and damage -----------------------------------------------------------

  predicate Quiet(s: Chars) { forall i :: 0 <= i < |s| ==> s[i] != START && s[i] != ETX }

  /** One copy of a packet on the line, after some noise. */
  datatype Copy = Copy(gap: Chars, body: Chars)

  function Line(c: Copy): Chars { c.gap + [START] + c.body }

  predicate GoodCopy(p: Packet, c: Copy) { Quiet(c.gap) && c.body == Encode(p) }

  /** A copy that the receiver rejects after it has read the right sequence number. */
  predicate BadCopy(p: Packet, c: Copy)
  {
    && Quiet(c.gap) && Parse(c.body).Got? && Quiet(Parse(c.body).rest)
    && Parse(c.body).frame.n == p.n && !Parse(c.body).frame.ok
  }

  lemma {:induction false} ScanStops(a: Chars, x: int, t: Chars, count: nat, sum: int)
    requires (forall i :: 0 <= i < |a| ==> Printable(a[i])) && !Printable(x) && count > |a|
    ensures ScanData(a + [x] + t, count, sum) == Scanned(a, t, sum + Sum(a), false)
    decreases a
  {
    var s := a + [x] + t;
    if a == [] {
      assert s[0] == x && s[1..] == t;
    } else {
      assert s[0] == a[0] && s[1..] == a[1..] + [x] + t;
      ScanStops(a[1..], x, t, count - 1, sum + a[0]);
      assert [a[0]] + a[1..] == a;
    }
  }

  lemma SumUpdate(s: Chars, i: nat, x: int)
    requires i < |s|
    ensures Sum(s[i := x]) == Sum(s) + x - s[i]
  {
    assert s == s[..i] + ([s[i]] + s[i + 1..]) && s[i := x] == s[..i] + ([x] + s[i + 1..]);
    SumConcat(s[..i], [s[i]] + s[i + 1..]);
    SumConcat(s[..i], [x] + s[i + 1..]);
    assert ([s[i]] + s[i + 1..])[1..] == s[i + 1..] && ([x] + s[i + 1..])[1..] == s[i + 1..];
  }

  /** Do two characters differ in one bit of their byte? */
  predicate Flipped(x: int, y: int) { y - x in {1, 2, 4, 8, 16, 32, 64, 128} || x - y in {1, 2, 4, 8, 16, 32, 64, 128} }

  /** The packet with one character of its data replaced */
  function Damaged(p: Packet, i: nat, x: int): Chars
    requires i < |p.chars|
  {
    Header(p) + p.chars[i := x] + [Check(Sum(Header(p)) + Sum(p.chars)) + SPACE, END]
  }

  /** A packet in which one bit of the data is flipped is a copy that the receiver rejects. */
  lemma FlippedIsBad(p: Packet, i: nat, x: int)
    requires Sendable(p) && i < |p.chars| && Flipped(p.chars[i], x)
    ensures BadCopy(p, Copy([], Damaged(p, i, x)))
  {
    var sum, k := Sum(Header(p)), Check(Sum(Header(p)) + Sum(p.chars)) + SPACE;
    var body := p.chars[i := x] + [k, END];
    CheckRange(sum + Sum(p.chars));
    assert Damaged(p, i, x) == Header(p) + body;
    if p.long { ParseLongBody(p, body); } else { ParseShortBody(p, body); }
    if Printable(x) {
      FlippedSum(p.n, p.typ, p.chars, sum, i, x, k);
    } else {
      FlippedStops(p.n, p.typ, p.chars, sum, i, x, k);
    }
  }

  lemma FlippedCheck(sum: int, x: int, y: int)
    requires Flipped(x, y)
    ensures Check(sum + y - x) != Check(sum)
  {
    if y > x { BitNoticed(sum, y - x); } else { BitNoticed(sum + y - x, x - y); }
  }

  lemma EndRefuses(n: int, typ: int, chars: Chars, sum: int, k: int, t: Chars)
    requires k != Check(sum) + SPACE
    ensures ParseEnd(n, typ, Scanned(chars, [k] + t, sum, true)) == Got(Frame(n, typ, chars, false), t)
  {
  }

  lemma BodyRefuses(n: int, typ: int, chars: Chars, k: int, length: int, sum: int)
    requires (forall i :: 0 <= i < |chars| ==> Printable(chars[i])) && Count(length) == |chars|
    requires k != Check(sum + Sum(chars)) + SPACE
    ensures ParseBody(n, typ, chars + [k, END], length, sum) == Got(Frame(n, typ, chars, false), [END])
  {
    ScanAll(chars, [k, END], sum);
    assert [k, END] == [k] + [END];
    EndRefuses(n, typ, chars, sum + Sum(chars), k, [END]);
  }

  lemma FlippedSum(n: int, typ: int, chars: Chars, sum: int, i: nat, x: int, k: int)
    requires (forall j :: 0 <= j < |chars| ==> Printable(chars[j])) && i < |chars| && Printable(x)
    requires Flipped(chars[i], x) && k == Check(sum + Sum(chars)) + SPACE
    ensures ParseBody(n, typ, chars[i := x] + [k, END], |chars| + 1, sum) ==
              Got(Frame(n, typ, chars[i := x], false), [END])
  {
    SumUpdate(chars, i, x);
    FlippedCheck(sum + Sum(chars), chars[i], x);
    BodyRefuses(n, typ, chars[i := x], k, |chars| + 1, sum);
  }

  lemma FlippedStops(n: int, typ: int, chars: Chars, sum: int, i: nat, x: int, k: int)
    requires (forall j :: 0 <= j < |chars| ==> Printable(chars[j])) && i < |chars| && !Printable(x) && Printable(k)
    ensures var q := ParseBody(n, typ, chars[i := x] + [k, END], |chars| + 1, sum);
            q == Got(Frame(n, typ, chars[..i], false), chars[i + 1..] + [k, END]) && Quiet(q.rest)
  {
    ScanStops(chars[..i], x, chars[i + 1..] + [k, END], |chars|, sum);
    assert chars[i := x] + [k, END] == chars[..i] + [x] + (chars[i + 1..] + [k, END]);
  }

  /** The answer to a copy of a packet */
  function Answer(p: Packet, good: bool): Reply
  {
    if !good then Nack(p.n) else if p.typ == 'S' as int then Parameters(p.n) else Ack(p.n)
  }

  /** The answers to copies of a packet, one to each that is read: after a good break packet none is. */
  function Answers(p: Packet, cs: seq<Copy>): seq<Reply>
  {
    if cs == [] then []
    else
      [Answer(p, GoodCopy(p, cs[0]))]
      + if GoodCopy(p, cs[0]) && p.typ == 'B' as int then [] else Answers(p, cs[1..])
  }

  /** The first answer, and the others if there are any, come behind the earlier ones. */
  lemma AnswersMore(a: seq<Reply>, p: Packet, cs: seq<Copy>)
    requires cs != []
    ensures (a + [Answer(p, GoodCopy(p, cs[0]))]) +
            (if GoodCopy(p, cs[0]) && p.typ == 'B' as int then [] else Answers(p, cs[1..])) == a + Answers(p, cs)
  {
    Regroup(a, [Answer(p, GoodCopy(p, cs[0]))],
            if GoodCopy(p, cs[0]) && p.typ == 'B' as int then [] else Answers(p, cs[1..]));
  }

  lemma Regroup(a: seq<Reply>, b: seq<Reply>, c: seq<Reply>)
    ensures (a + b) + c == a + (b + c) && b + [] == b
  {
  }

  lemma AllAnswersMore(a: seq<Reply>, ps: seq<Sent>)
    requires ps != []
    ensures (a + Answers(ps[0].packet, ps[0].copies)) + AllAnswers(ps[1..]) == a + AllAnswers(ps)
    ensures ps[1..] == [] ==> AllAnswers(ps) == Answers(ps[0].packet, ps[0].copies)
  {
    Regroup(a, Answers(ps[0].packet, ps[0].copies), AllAnswers(ps[1..]));
  }

  function AllAnswers(ps: seq<Sent>): seq<Reply>
  {
    if ps == [] then [] else Answers(ps[0].packet, ps[0].copies) + AllAnswers(ps[1..])
  }

  /** How often a packet was sent, and what became of it on the line. */
  datatype Sent = Sent(packet: Packet, copies: seq<Copy>)

  predicate Copies(s: Sent)
  {
    Sendable(s.packet) && s.copies != [] && GoodOrBad(s.packet, s.copies)
  }

  predicate GoodOrBad(p: Packet, cs: seq<Copy>)
  {
    cs == [] || ((GoodCopy(p, cs[0]) || BadCopy(p, cs[0])) && GoodOrBad(p, cs[1..]))
  }

  function Lines(cs: seq<Copy>): Chars { if cs == [] then [] else Line(cs[0]) + Lines(cs[1..]) }

  lemma {:induction false} SkipQuiet(q: Chars, t: Chars)
    requires Quiet(q)
    ensures Skip(q + t) == Skip(t)
  {
    if q == [] {
      assert q + t == t;
    } else {
      assert (q + t)[1..] == q[1..] + t;
      SkipQuiet(q[1..], t);
    }
  }

  function FrameOf(c: Copy): Frame
  {
    match Parse(c.body) case Got(f, _) => f case _ => Frame(0, 0, [], false)
  }

  lemma CopyParses(p: Packet, c: Copy, t: Chars)
    requires Sendable(p) && (GoodCopy(p, c) || BadCopy(p, c))
    ensures FrameOf(c).n == p.n && FrameOf(c).ok == GoodCopy(p, c) &&
            (GoodCopy(p, c) ==> FrameOf(c) == Frame(p.n, p.typ, p.chars, true))
    ensures Parse(c.body + t).Got? && Parse(c.body + t).frame == FrameOf(c) && Skip(Parse(c.body + t).rest) == Skip(t)
  {
    if GoodCopy(p, c) {
      assert c.body + [] == c.body;
      EncodeParses(p, []);
      EncodeParses(p, t);
    } else {
      ParseStable(c.body, t);
      SkipQuiet(Parse(c.body).rest, t);
    }
  }

  lemma StepLine(r: Receiver, c: Copy, t: Chars)
    requires Quiet(c.gap) && Parse(c.body + t).Got?
    ensures Step(r, Line(c) + t) == Next(Handle(r, Parse(c.body + t).frame), Parse(c.body + t).rest)
  {
    var s := [START] + (c.body + t);
    assert Line(c) + t == c.gap + s;
    SkipQuiet(c.gap, s);
    assert Skip(s) == s && s[1..] == c.body + t;
  }

  lemma RunSkips(r: Receiver, s: Chars, t: Chars)
    requires Skip(s) == Skip(t)
    ensures Run(r, s) == Run(r, t)
  {
  }

  lemma RunCopy(r: Receiver, p: Packet, c: Copy, t: Chars)
    requires Sendable(p) && (GoodCopy(p, c) || BadCopy(p, c))
    ensures FrameOf(c).n == p.n && FrameOf(c).ok == GoodCopy(p, c) &&
            (GoodCopy(p, c) ==> FrameOf(c) == Frame(p.n, p.typ, p.chars, true))
    ensures Run(r, Line(c) + t) == var r' := Handle(r, FrameOf(c)); if r'.done then Finished(r') else Run(r', t)
  {
    CopyParses(p, c, t);
    StepLine(r, c, t);
    RunSkips(Handle(r, FrameOf(c)), Parse(c.body + t).rest, t);
  }

  /** ^C before a packet cancels the transfer; without one, and without a start character, the receiver waits. */
  lemma CancelStops(r: Receiver, q: Chars, t: Chars)
    requires Quiet(q)
    ensures Run(r, q + [ETX] + t) == Cancelled && Run(r, q) == Waiting
  {
    assert q + [ETX] + t == q + ([ETX] + t) && q + [] == q;
    SkipQuiet(q, [ETX] + t);
    SkipQuiet(q, []);
  }

  // ---- what must be in memory ------------------------------------------------------------------------------

  /** The quote character, whether a quote is pending, and the bytes so far. */
  datatype File = File(quote: int, escape: bool, bytes: Chars)

  /** What a packet adds, received once. */
  function Receive(f: File, p: Packet): File
  {
    if p.typ == DATA_TYPE then
      File(f.quote, Pending(f.quote, f.escape, p.chars), f.bytes + Unquote(f.quote, f.escape, p.chars))
    else if p.typ == SEND_TYPE then f.(quote := QuoteOf(p.chars))
    else f
  }

  function ReceiveAll(f: File, ps: seq<Sent>): File
    decreases |ps|
  {
    if ps == [] then f else ReceiveAll(Receive(f, ps[0].packet), ps[1..])
  }

  predicate Holds(r: Receiver, start: int, f: File)
  {
    r.data.addr == start + |f.bytes| && r.data.escape == f.escape && Stored(r.data.mem, start, f.bytes)
  }

  /** The receiver is about to see a copy of p, having received f; it may have seen copies before. */
  predicate Entering(r: Receiver, start: int, f: File, p: Packet)
  {
    && !r.done && Stored(r.data.mem, start, f.bytes)
    && (r.quote == f.quote || (p.typ == SEND_TYPE && r.quote == QuoteOf(p.chars)))
    && if r.lastN == p.n then r.savedAddr == start + |f.bytes| && r.savedEscape == f.escape else Holds(r, start, f)
  }

  lemma StoredBelow(m: map<int, int>, m': map<int, int>, start: int, bytes: Chars)
    requires Stored(m, start, bytes) && SameBelow(m, m', start + |bytes|)
    ensures Stored(m', start, bytes)
  {
    forall i | 0 <= i < |bytes| ensures Cell(m', start + i, bytes[i]) { assert Cell(m, start + i, bytes[i]); }
  }

  lemma StoredConcat(m: map<int, int>, start: int, a: Chars, b: Chars)
    requires Stored(m, start, a) && Stored(m, start + |a|, b)
    ensures Stored(m, start, a + b)
  {
    forall i | 0 <= i < |a + b| ensures Cell(m, start + i, (a + b)[i]) {
      if i >= |a| {
        assert Cell(m, start + |a| + (i - |a|), b[i - |a|]);
      } else {
        assert Cell(m, start + i, a[i]);
      }
    }
  }

  /** One copy: a good one adds what the packet adds to what was received before it, a bad one adds nothing. */
  lemma CopyHandled(r: Receiver, start: int, f: File, p: Packet, c: Frame)
    requires Entering(r, start, f, p) && c.n == p.n && (c.ok ==> c == Frame(p.n, p.typ, p.chars, true))
    ensures var r' := Handle(r, c);
      && r'.lastN == p.n && r'.done == (c.ok && p.typ == BREAK_TYPE)
      && Holds(r', start, if c.ok then Receive(f, p) else f)
      && (c.ok ==> r'.quote == Receive(f, p).quote) && (!r'.done ==> Entering(r', start, f, p))
      && (!c.ok ==> r'.quote == r.quote) && r'.replies == r.replies + [Answer(p, c.ok)]
  {
    var r1 := Checkpoint(r, c.n);
    FeedWrites(r1.quote, r1.data, c.chars);
    if c.typ == DATA_TYPE {
      var g := Feed(r1.quote, r1.data, c.chars);
      StoredBelow(r1.data.mem, g.mem, start, f.bytes);
      if c.ok { StoredConcat(g.mem, start, f.bytes, Unquote(r1.quote, r1.data.escape, c.chars)); }
    }
  }

  /** Any number of copies of a packet: the last one decides whether the packet counts. */
  lemma {:induction false} SentRuns(r: Receiver, start: int, f: File, s: Sent, t: Chars) returns (r': Receiver)
    requires Copies(s) && s.packet.typ != BREAK_TYPE && Entering(r, start, f, s.packet)
    ensures Run(r, Lines(s.copies) + t) == Run(r', t) && !r'.done && r'.lastN == s.packet.n
    ensures var good := GoodCopy(s.packet, s.copies[|s.copies| - 1]);
      Holds(r', start, if good then Receive(f, s.packet) else f) && (good ==> r'.quote == Receive(f, s.packet).quote)
    ensures r'.replies == r.replies + Answers(s.packet, s.copies)
    decreases |s.copies|
  {
    var p, c, cs := s.packet, s.copies[0], s.copies[1..];
    assert Lines(s.copies) + t == Line(c) + (Lines(cs) + t);
    RunCopy(r, p, c, Lines(cs) + t);
    CopyHandled(r, start, f, p, FrameOf(c));
    var r1 := Handle(r, FrameOf(c));
    AnswersMore(r.replies, p, s.copies);
    if cs == [] {
      assert Lines(cs) + t == t;
      r' := r1;
    } else {
      assert cs[|cs| - 1] == s.copies[|s.copies| - 1];
      r' := SentRuns(r1, start, f, Sent(p, cs), t);
    }
  }

  /** The first good copy of a break packet ends the transfer. */
  lemma {:induction false} BreakRuns(r: Receiver, start: int, f: File, s: Sent, t: Chars) returns (r': Receiver)
    requires Copies(s) && s.packet.typ == BREAK_TYPE && Entering(r, start, f, s.packet)
    requires GoodCopy(s.packet, s.copies[|s.copies| - 1])
    ensures Run(r, Lines(s.copies) + t) == Finished(r') && Holds(r', start, f)
    ensures r'.replies == r.replies + Answers(s.packet, s.copies)
    decreases |s.copies|
  {
    var p, c, cs := s.packet, s.copies[0], s.copies[1..];
    assert Lines(s.copies) + t == Line(c) + (Lines(cs) + t);
    RunCopy(r, p, c, Lines(cs) + t);
    CopyHandled(r, start, f, p, FrameOf(c));
    r' := Handle(r, FrameOf(c));
    AnswersMore(r.replies, p, s.copies);
    if !GoodCopy(p, c) {
      assert cs[|cs| - 1] == s.copies[|s.copies| - 1];
      r' := BreakRuns(r', start, f, Sent(p, cs), t);
    }
  }

  /** A transfer as the receiver expects it: sequence numbers count up, every packet is repeated until a
      copy arrives well, and the break packet comes last. */
  ghost predicate Transfer(ps: seq<Sent>)
  {
    && ps != [] && Copies(ps[0]) && GoodCopy(ps[0].packet, ps[0].copies[|ps[0].copies| - 1])
    && if |ps| == 1 then ps[0].packet.typ == BREAK_TYPE
       else ps[0].packet.typ != BREAK_TYPE && Follows(ps[0].packet.n, ps[1].packet.n) && Transfer(ps[1..])
  }

  predicate Follows(n: int, m: int) { m == (n + 1) % 64 }

  function AllLines(ps: seq<Sent>): Chars { if ps == [] then [] else Lines(ps[0].copies) + AllLines(ps[1..]) }

  lemma LinesSplit(ps: seq<Sent>, t: Chars)
    requires ps != []
    ensures AllLines(ps) + t == Lines(ps[0].copies) + (AllLines(ps[1..]) + t)
  {
  }

  lemma NextDiffers(n: int, m: int)
    requires 0 <= n < 64 && Follows(n, m)
    ensures m != n
  {
    if n < 63 { assert (n + 1) % 64 == n + 1; }
  }

  lemma NumberInRange(s: Sent)
    requires Copies(s)
    ensures 0 <= s.packet.n < 64
  {
  }

  lemma NextNumber(ps: seq<Sent>)
    requires Transfer(ps) && ps[1..] != []
    ensures ps[0].packet.typ != BREAK_TYPE && Transfer(ps[1..]) && ps[1..][0].packet.n != ps[0].packet.n
  {
    NumberInRange(ps[0]);
    NextDiffers(ps[0].packet.n, ps[1].packet.n);
    assert ps[1..][0] == ps[1];
  }

  lemma {:induction false} TransferRuns(r: Receiver, start: int, f: File, ps: seq<Sent>, t: Chars)
      returns (r': Receiver)
    requires Transfer(ps) && !r.done && r.quote == f.quote && Holds(r, start, f) && r.lastN != ps[0].packet.n
    ensures Run(r, AllLines(ps) + t) == Finished(r') && Holds(r', start, ReceiveAll(f, ps))
    ensures r'.replies == r.replies + AllAnswers(ps)
    decreases |ps|
  {
    var s, rest := ps[0], ps[1..];
    LinesSplit(ps, t);
    AllAnswersMore(r.replies, ps);
    if rest == [] {
      r' := BreakRuns(r, start, f, s, AllLines(rest) + t);
    } else {
      NextNumber(ps);
      var r1 := SentRuns(r, start, f, s, AllLines(rest) + t);
      r' := TransferRuns(r1, start, Receive(f, s.packet), rest, t);
    }
  }

  function Initial(mem: map<int, int>, start: int): Receiver
  {
    Receiver(Data(mem, start, false), start, false, -1, 0, ESCAPE, [], false)
  }

  /** An error before the first packet is refused with number 0 and changes nothing. */
  lemma EarlyAtStart(mem: map<int, int>, start: int)
    ensures HandleEarly(Initial(mem, start)) == Initial(mem, start).(replies := [Nack(0)])
    ensures Initial(mem, start).replies == [] && Initial(mem, start).data == Data(mem, start, false)
  {
  }

  /** Whatever was duplicated or damaged on the way, memory ends up with the data of every packet once, and every
      copy that was read has been answered. */
  lemma TransferCorrect(mem: map<int, int>, start: int, ps: seq<Sent>, t: Chars) returns (r: Receiver)
    requires Transfer(ps)
    ensures Run(Initial(mem, start), AllLines(ps) + t) == Finished(r)
    ensures Holds(r, start, ReceiveAll(File(ESCAPE, false, []), ps)) && r.replies == AllAnswers(ps)
  {
    assert Copies(ps[0]);
    r := TransferRuns(Initial(mem, start), start, File(ESCAPE, false, []), ps, t);
  }

  function DataChars(ps: seq<Sent>): Chars
  {
    if ps == [] then [] else (if ps[0].packet.typ == DATA_TYPE then ps[0].packet.chars else []) + DataChars(ps[1..])
  }

  lemma {:induction false} ReceiveConcat(f: File, ps: seq<Sent>)
    requires forall i :: 0 <= i < |ps| ==> ps[i].packet.typ != SEND_TYPE
    ensures ReceiveAll(f, ps).bytes == f.bytes + Unquote(f.quote, f.escape, DataChars(ps))
    decreases |ps|
  {
    if ps != [] {
      var p := ps[0].packet;
      var chars := if p.typ == DATA_TYPE then p.chars else [];
      UnquoteConcat(f.quote, f.escape, chars, DataChars(ps[1..]));
      ReceiveConcat(Receive(f, p), ps[1..]);
    }
  }

  /** The quote character is the sixth parameter, and '#' if there are fewer. */
  predicate Announces(parms: Chars, q: int) { q == if |parms| < 6 then '#' as int else parms[5] }

  /** A send packet announces the quote character q, and the data packets carry the quoted file. */
  ghost predicate Carries(ps: seq<Sent>, q: int, file: Chars)
  {
    && ps != [] && ps[0].packet.typ == SEND_TYPE && Announces(ps[0].packet.chars, q)
    && (forall i :: 0 <= i < |ps[1..]| ==> ps[1..][i].packet.typ != SEND_TYPE)
    && DataChars(ps[1..]) == QuoteAll(q, file)
  }

  lemma WholeFile(ps: seq<Sent>, q: int, file: Chars)
    requires Carries(ps, q, file) && !Control(q) && Ktrans(q) == q && forall i :: 0 <= i < |file| ==> Byte(file[i])
    ensures ReceiveAll(File(ESCAPE, false, []), ps).bytes == file
  {
    ReceiveConcat(File(q, false, []), ps[1..]);
    QuoteRoundTrip(q, file);
  }

  /** A file that is announced, quoted, cut into data packets anywhere and sent is in memory at the end. */
  lemma FileArrives(mem: map<int, int>, start: int, ps: seq<Sent>, t: Chars, q: int, file: Chars) returns (r: Receiver)
    requires Transfer(ps) && Carries(ps, q, file) && !Control(q) && Ktrans(q) == q &&
             forall i :: 0 <= i < |file| ==> Byte(file[i])
    ensures Run(Initial(mem, start), AllLines(ps) + t) == Finished(r)
    ensures Stored(r.data.mem, start, file) && r.data.addr - start == |file| && r.replies == AllAnswers(ps)
  {
    r := TransferCorrect(mem, start, ps, t);
    WholeFile(ps, q, file);
  }

  /** An error before the sequence number takes back a packet that was acknowledged already: the bytes
      of p are missing after the next packet. */
  lemma EarlyErrorLoses(r: Receiver, start: int, f: File, p: Packet, q: Packet)
    requires Entering(r, start, f, p) && r.lastN == p.n && q.n != p.n && p.typ == q.typ == DATA_TYPE
    ensures var r' := Handle(HandleEarly(r), Frame(q.n, q.typ, q.chars, true));
      Holds(r', start, Receive(f, q)) && r'.replies == r.replies + [Nack(r.n), Ack(q.n)]
  {
    var r1 := HandleEarly(r);
    assert Entering(r1, start, f, q);
    CopyHandled(r1, start, f, q, Frame(q.n, q.typ, q.chars, true));
  }

  // ---- the code --------------------------------------------------------------------------------------------------

  datatype Status = Fine | Error | Empty

  lemma PrependMore(a: Chars, c: int, r: Scan)
    ensures Prepend(a, Prepend([c], r)) == Prepend(a + [c], r)
  {
    if r.Scanned? { assert a + ([c] + r.chars) == a + [c] + r.chars; }
  }

  lemma TailTwice(s: Chars)
    requires |s| >= 2
    ensures s[1..][0] == s[1] && s[1..][1..] == s[2..]
  {
  }

  lemma ScanMore(s: Chars, count: nat, sum: int)
    requires count > 0 && s != [] && Printable(s[0])
    ensures ScanData(s, count, sum) == Prepend([s[0]], ScanData(s[1..], count - 1, sum + s[0]))
  {
  }

  lemma FedMore(r: Receiver, typ: int, chars: Chars, c: int)
    ensures Fed(r, typ, chars + [c]) ==
              if typ == DATA_TYPE then Fed(r, typ, chars).(data := DataChar(r.quote, Fed(r, typ, chars).data, c)) else r
  {
    assert (chars + [c])[..|chars|] == chars;
  }

  class Loader {
    /** What comes in on the serial line, and how much of it has been read. */
    const input: Chars
    var pos: nat

    var mem: map<int, int>
    const start: int
    var addr: int
    var addrSaved: int
    var escape: bool
    var escapeSaved: bool

    var quote: int
    var lastN: int
    var n: int
    var state: int
    var stateSaved: int
    var parms: seq<int>
    var sendPtr: nat
    var done: bool
    var replies: seq<Reply>

    ghost function View(): Receiver
      reads this
    {
      Receiver(Data(mem, addr, escape), addrSaved, escapeSaved, lastN, n, quote, replies, done)
    }

    ghost predicate Valid()
      reads this
    {
      pos <= |input| && |parms| == PARMS && sendPtr < PARMS
    }

    ghost function Rest(): Chars
      reads this
      requires Valid()
    {
      input[pos..]
    }

    constructor (input: Chars, mem: map<int, int>, start: int)
      ensures Valid() && pos == 0 && this.input == input && this.mem == mem && this.start == start
    {
      this.input, this.mem, this.start, pos := input, mem, start, 0;
      addr, addrSaved, escape, escapeSaved, quote, lastN, n := 0, 0, false, false, 0, 0, 0;
      state, stateSaved, parms, sendPtr, done, replies := 0, 0, seq(PARMS, _ => 0), 0, false, [];
    }

    /** The next character; none when the line is silent for good. */
    method Getc() returns (more: bool, c: int)
      requires Valid()
      modifies this`pos
      ensures Valid() && more == (old(Rest()) != []) && (more ==> c == old(Rest())[0] && Rest() == old(Rest())[1..])
      ensures !more ==> pos == old(pos)
    {
      more, c := pos < |input|, 0;
      if more {
        c := input[pos];
        pos := pos + 1;
      }
    }

    /** `k_data_char` (lines 709-724), with `bin_data_char` */
    method KDataChar(c: int)
      modifies this`mem, this`addr, this`escape
      ensures Data(mem, addr, escape) == DataChar(quote, old(Data(mem, addr, escape)), c)
    {
      if escape {
        mem := mem[addr := Ktrans(c)];
        addr := addr + 1;
        escape := false;
      } else if c == quote {
        escape := true;
      } else {
        mem := mem[addr := c];
        addr := addr + 1;
      }
    }

    /** `k_data_save`, `k_data_restore` */
    method KDataSave()
      modifies this`escapeSaved, this`addrSaved
      ensures escapeSaved == escape && addrSaved == addr
    {
      escapeSaved := escape;
      addrSaved := addr;
    }

    method KDataRestore()
      modifies this`escape, this`addr
      ensures escape == escapeSaved && addr == addrSaved
    {
      escape := escapeSaved;
      addr := addrSaved;
    }

    /** The buffer for the parameters of a send packet holds its first characters. */
    ghost predicate ParmsHold(chars: Chars)
      reads this
    {
      |parms| == PARMS && sendPtr == (if |chars| < PARMS - 1 then |chars| else PARMS - 1) &&
      parms[..sendPtr] == chars[..sendPtr]
    }

    /** "save send pack in buffer as is" (lines 959-964) */
    method SaveParm(c: int, ghost chars: Chars)
      requires ParmsHold(chars)
      modifies this`parms, this`sendPtr
      ensures ParmsHold(chars + [c])
    {
      parms := parms[sendPtr := c];
      sendPtr := sendPtr + 1;
      if sendPtr >= PARMS {
        sendPtr := sendPtr - 1;
      }
      assert forall i :: 0 <= i < sendPtr ==> parms[i] == (chars + [c])[i];
    }

    /** A character of a data or send packet (lines 956-965) */
    method PassOn(c: int, ghost r: Receiver, ghost chars: Chars)
      requires Valid() && View() == Fed(r, state, chars) && (state == SEND_TYPE ==> ParmsHold(chars))
      modifies this`mem, this`addr, this`escape, this`parms, this`sendPtr
      ensures Valid() && View() == Fed(r, state, chars + [c]) && (state == SEND_TYPE ==> ParmsHold(chars + [c]))
    {
      FedMore(r, state, chars, c);
      if state == DATA_TYPE {
        KDataChar(c);
      } else if state == SEND_TYPE {
        SaveParm(c, chars);
      }
    }

    /** "bring in rest of packet" (lines 949-966) */
    method ReadData(length0: int, sum0: int) returns (st: Status, sum: int, ghost chars: Chars)
      requires Valid() && sendPtr == 0
      modifies this`pos, this`mem, this`addr, this`escape, this`parms, this`sendPtr
      ensures Valid() && (st == Empty <==> ScanData(old(Rest()), Count(length0), sum0) == ScanShort)
      ensures st != Empty ==> ScanData(old(Rest()), Count(length0), sum0) == Scanned(chars, Rest(), sum, st == Fine)
      ensures View() == Fed(old(View()), state, chars)
      ensures st == Fine && state == SEND_TYPE ==> ParmsHold(chars)
    {
      var length := length0;
      sum, chars := sum0, [];
      ghost var all, r := ScanData(Rest(), Count(length0), sum0), View();
      while length > 1
        invariant Valid() && View() == Fed(r, state, chars)
        invariant state == SEND_TYPE ==> ParmsHold(chars)
        invariant all == Prepend(chars, ScanData(Rest(), Count(length), sum))
      {
        ghost var s := Rest();
        var more, c := Getc();
        if !more {
          return Empty, sum, chars;
        }
        if !Printable(c) {
          return Error, sum, chars;
        }
        ScanMore(s, Count(length), sum);
        PrependMore(chars, c, ScanData(Rest(), Count(length) - 1, sum + c));
        sum := sum + c;
        length := length - 1;
        PassOn(c, r, chars);
        chars := chars + [c];
      }
      st := Fine;
    }

    /** "get and validate checksum character", "get END_CHAR" (lines 967-975) */
    method ReadEnd(sum: int, ghost typ: int, ghost chars: Chars) returns (st: Status)
      requires Valid()
      modifies this`pos
      ensures Valid()
      ensures var q := ParseEnd(n, typ, Scanned(chars, old(Rest()), sum, true));
        if st == Empty then q == Short else q == Got(Frame(n, typ, chars, st == Fine), Rest())
    {
      var more, c := Getc();
      if !more {
        return Empty;
      }
      if !Printable(c) || c != Check(sum) + SPACE {
        return Error;
      }
      more, c := Getc();
      if !more {
        return Empty;
      }
      st := if c == END then Fine else Error;
    }

    /** The packet from its data on (lines 949-975) */
    method ReadBody(length: int, sum0: int) returns (st: Status, ghost chars: Chars)
      requires Valid() && sendPtr == 0
      modifies this`pos, this`mem, this`addr, this`escape, this`parms, this`sendPtr
      ensures Valid() && View() == Fed(old(View()), state, chars)
      ensures var q := ParseBody(n, state, old(Rest()), length, sum0);
        if st == Empty then q == Short else q == Got(Frame(n, state, chars, st == Fine), Rest())
      ensures st == Fine && state == SEND_TYPE ==> ParmsHold(chars)
    {
      var sum;
      st, sum, chars := ReadData(length, sum0);
      if st == Fine {
        st := ReadEnd(sum, state, chars);
      }
    }

    /** "get the two length bytes" (lines 926-948), then the rest */
    method ReadExtended(sum0: int) returns (st: Status, ghost chars: Chars)
      requires Valid() && sendPtr == 0
      modifies this`pos, this`mem, this`addr, this`escape, this`parms, this`sendPtr
      ensures Valid() && View() == Fed(old(View()), state, chars)
      ensures var q := ParseExtended(n, state, old(Rest()), sum0);
        if st == Empty then q == Short else q == Got(Frame(n, state, chars, st == Fine), Rest())
      ensures st == Fine && state == SEND_TYPE ==> ParmsHold(chars)
    {
      ghost var s := Rest();
      chars := [];
      var more, hi := Getc();
      if !more {
        return Empty, [];
      }
      if !Printable(hi) {
        return Error, [];
      }
      var lo;
      more, lo := Getc();
      if !more {
        return Empty, [];
      }
      assert Rest() == s[2..];
      if !Printable(lo) {
        return Error, [];
      }
      var sum := sum0 + hi + lo;
      var c;
      more, c := Getc();
      if !more {
        return Empty, [];
      }
      assert Rest() == s[3..];
      if !Printable(c) || c != Check(sum) + SPACE {
        return Error, [];
      }
      st, chars := ReadBody((hi - SPACE) * 95 + (lo - SPACE), sum + c);
    }

    /** A sequence number is checked for a retried packet (lines 906-915). */
    method CheckSequence(m: int)
      modifies this`n, this`lastN, this`state, this`stateSaved, this`escape, this`escapeSaved, this`addr, this`addrSaved
      ensures View() == Checkpoint(old(View()), m)
    {
      n := m;
      if n == lastN {
        state := stateSaved;
        KDataRestore();
      } else {
        lastN := n;
        stateSaved := state;
        KDataSave();
      }
    }

    /** The part of the receiver's state that reading a packet may change. */
    ghost predicate Received(r: Receiver, p: Parsed, st: Status, typ: int, chars: Chars)
      requires Valid()
      reads this
    {
      match p
      case Short => st == Empty
      case Early(rest) => st == Error && View() == r && Rest() == rest
      case Got(f, rest) =>
        && f.typ == typ && f.chars == chars && f.ok == (st == Fine) && st != Empty
        && Rest() == rest && View() == Fed(Checkpoint(r, f.n), f.typ, f.chars)
        && (st == Fine ==> state == typ && (state == SEND_TYPE ==> ParmsHold(chars)))
    }

    /** Reads a packet after its start character (lines 883-975). */
    method ReadPacket() returns (st: Status, ghost typ: int, ghost chars: Chars)
      requires Valid() && sendPtr == 0
      modifies this`pos, this`mem, this`addr, this`escape, this`parms, this`sendPtr, this`n, this`lastN, this`state,
          this`stateSaved, this`escapeSaved, this`addrSaved
      ensures Valid() && Received(old(View()), Parse(old(Rest())), st, typ, chars)
    {
      var len, seq_;
      typ, chars := 0, [];
      st, len, seq_ := ReadHeader();
      if st == Fine {
        st, typ, chars := ReadNumbered(len, seq_);
      }
    }

    /** Length and sequence number (lines 884-897) */
    method ReadHeader() returns (st: Status, len: int, seq_: int)
      requires Valid()
      modifies this`pos
      ensures Valid() && Parse(old(Rest())) == match st {
        case Empty => Short
        case Error => Early(Rest())
        case Fine => ParseNumbered(seq_ - SPACE, Rest(), len - SPACE, len + seq_)
      }
    {
      ghost var s := Rest();
      seq_ := 0;
      var more;
      more, len := Getc();
      if !more {
        return Empty, 0, 0;
      }
      if !Printable(len) {
        return Error, 0, 0;
      }
      more, seq_ := Getc();
      if !more {
        return Empty, 0, 0;
      }
      TailTwice(s);
      st := if Printable(seq_) then Fine else Error;
    }

    /** The sequence number and all that follows (lines 899-975) */
    method ReadNumbered(len: int, seq_: int) returns (st: Status, ghost typ: int, ghost chars: Chars)
      requires Valid() && sendPtr == 0
      modifies this`pos, this`mem, this`addr, this`escape, this`parms, this`sendPtr, this`n, this`lastN, this`state,
          this`stateSaved, this`escapeSaved, this`addrSaved
      ensures Valid() && View() == Fed(Checkpoint(old(View()), seq_ - SPACE), typ, chars)
      ensures var q := ParseNumbered(seq_ - SPACE, old(Rest()), len - SPACE, len + seq_);
        if st == Empty then q == Short else q == Got(Frame(seq_ - SPACE, typ, chars, st == Fine), Rest())
      ensures st == Fine ==> state == typ && (state == SEND_TYPE ==> ParmsHold(chars))
    {
      CheckSequence(seq_ - SPACE);
      st, typ, chars := ReadTyped(len - SPACE, len + seq_);
    }

    /** Packet type and all that follows (lines 918-975) */
    method ReadTyped(length: int, sum: int) returns (st: Status, ghost typ: int, ghost chars: Chars)
      requires Valid() && sendPtr == 0
      modifies this`pos, this`mem, this`addr, this`escape, this`parms, this`sendPtr, this`state
      ensures Valid() && View() == Fed(old(View()), typ, chars)
      ensures var q := ParseNumbered(n, old(Rest()), length, sum);
        if st == Empty then q == Short else q == Got(Frame(n, typ, chars, st == Fine), Rest())
      ensures st == Fine ==> state == typ && (state == SEND_TYPE ==> ParmsHold(chars))
    {
      typ, chars := 0, [];
      var more, c := Getc();
      if !more {
        return Empty, 0, [];
      }
      if !Printable(c) {
        return Error, 0, [];
      }
      typ, state := c, c;
      st, chars := ReadRest(length, sum + c);
    }

    method ReadRest(length: int, sum: int) returns (st: Status, ghost chars: Chars)
      requires Valid() && sendPtr == 0
      modifies this`pos, this`mem, this`addr, this`escape, this`parms, this`sendPtr
      ensures Valid() && View() == Fed(old(View()), state, chars)
      ensures var q := ParseTyped(n, state, old(Rest()), length, sum);
        if st == Empty then q == Short else q == Got(Frame(n, state, chars, st == Fine), Rest())
      ensures st == Fine && state == SEND_TYPE ==> ParmsHold(chars)
    {
      if length - 2 == -2 {
        st, chars := ReadExtended(sum);
      } else {
        st, chars := ReadBody(length - 2, sum);
      }
    }

    /** What is left of `handle_send_packet` without the parameters that only the sender's screen shows
        (lines 737-781) */
    method HandleSendPacket(ghost chars: Chars)
      requires |parms| == PARMS && ParmsHold(chars)
      modifies this`quote, this`replies, this`sendPtr
      ensures quote == QuoteOf(chars) && replies == old(replies) + [Parameters(n)] && sendPtr < PARMS
    {
      quote := ESCAPE;
      if sendPtr == PARMS - 1 {
        sendPtr := sendPtr - 1;
      }
      if sendPtr >= 6 {
        quote := parms[5];
      }
      replies := replies + [Parameters(n)];
    }

    /** What happens after a packet (lines 975-991) */
    method EndPacket(st: Status, ghost typ: int, ghost chars: Chars)
      requires Valid() && st != Empty && (st == Fine ==> state == typ && (state == SEND_TYPE ==> ParmsHold(chars)))
      modifies this`escape, this`addr, this`state, this`quote, this`replies, this`sendPtr, this`done
      ensures Valid() && (old(done) == false ==> View() == Finish(old(View()), typ, chars, st == Fine))
    {
      if st == Error {
        state := stateSaved;
        KDataRestore();
        replies := replies + [Nack(n)];
      } else if state == SEND_TYPE {
        HandleSendPacket(chars);
      } else {
        replies := replies + [Ack(n)];
        if state == BREAK_TYPE {
          done := true;
        }
      }
    }

    /** Waits for the start character or ^C (lines 871-882). */
    method FindStart() returns (more: bool, c: int)
      requires Valid()
      modifies this`pos
      ensures Valid() && var t := Skip(old(Rest())); more == (t != []) && (more ==> c == t[0] && Rest() == t[1..])
      ensures more ==> c == START || c == ETX
    {
      more, c := Getc();
      while more && c != START && c != ETX
        invariant Valid() && Skip(old(Rest())) == if more then Skip([c] + Rest()) else []
        invariant !more ==> Rest() == []
        decreases |input| - pos, more
      {
        assert ([c] + Rest())[1..] == Rest();
        ghost var u := Rest();
        more, c := Getc();
        if more { assert u == [c] + Rest(); }
      }
    }

    /** One turn of the main loop (lines 854-993) */
    method OnePacket() returns (more: bool, cancelled: bool)
      requires Valid() && !done
      modifies this
      ensures Valid() && (more && !cancelled ==> |Rest()| < |old(Rest())|)
      ensures Run(old(View()), old(Rest())) ==
        if !more then Waiting
        else if cancelled then Cancelled else if done then Finished(View()) else Run(View(), Rest())
    {
      StepShrinks(View(), Rest());
      TakeStep(old(View()), old(Rest()));
      sendPtr := 0;
      var c;
      more, c := FindStart();
      if !more || c == ETX {
        return more, true;
      }
      ghost var p, r := Parse(Rest()), View();
      var st;
      ghost var typ, chars;
      st, typ, chars := ReadPacket();
      more, cancelled := st != Empty, false;
      if more {
        EndPacket(st, typ, chars);
      }
    }

    /** The main loop (lines 854-993) */
    method ReceivePackets() returns (more: bool, cancelled: bool)
      requires Valid() && !done
      modifies this
      ensures Valid()
      ensures Run(old(View()), old(Rest())) ==
                if !more then Waiting else if cancelled then Cancelled else Finished(View())
    {
      ghost var all := Run(View(), Rest());
      more, cancelled := true, false;
      while !done
        invariant Valid() && all == if done then Finished(View()) else Run(View(), Rest())
        invariant more && !cancelled
        decreases |Rest()|, !done
      {
        more, cancelled := OnePacket();
        if !more || cancelled {
          return;
        }
      }
    }

    /** The start of `k_recv` (lines 830-843) */
    method Reset()
      modifies this`quote, this`done, this`state, this`stateSaved, this`escape, this`escapeSaved, this`addr,
          this`addrSaved, this`n, this`lastN, this`replies
      ensures View() == Initial(mem, start)
    {
      quote, done, state, escape, addr := ESCAPE, false, 0, false, start;
      stateSaved := state;
      KDataSave();
      n, lastN, replies := 0, -1, [];
    }

    /** `k_recv` (lines 819-995): the number of bytes received, 0 when cancelled */
    method KRecv() returns (size: int, more: bool, cancelled: bool)
      requires Valid() && pos == 0
      modifies this
      ensures Valid() && size == if cancelled || !more then 0 else addr - start
      ensures Run(Initial(old(mem), start), input) ==
                if !more then Waiting else if cancelled then Cancelled else Finished(View())
    {
      Reset();
      assert input[0..] == input;
      more, cancelled := ReceivePackets();
      size := if cancelled || !more then 0 else addr - start;
    }

    /** On the line of a transfer that carries a file, memory ends up with the file and its size is returned. */
    method LoadFile(ghost ps: seq<Sent>, ghost t: Chars, ghost q: int, ghost file: Chars) returns (size: int)
      requires Valid() && pos == 0 && input == AllLines(ps) + t && Transfer(ps) && Carries(ps, q, file)
      requires !Control(q) && Ktrans(q) == q && forall i :: 0 <= i < |file| ==> Byte(file[i])
      modifies this
      ensures Stored(mem, start, file) && size == |file| && replies == AllAnswers(ps)
    {
      ghost var r := FileArrives(mem, start, ps, t, q, file);
      var more, cancelled;
      size, more, cancelled := KRecv();
    }
  }
}
