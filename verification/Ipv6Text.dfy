/** The text form of an IPv6 address and port, against a parser of that form. */
module Ipv6Text {
  import opened Arithmetic

  const NETADDR_MAXSTRSIZE: nat := 1 + (8 * 4 + 7) + 1 + 1 + 5 + 1

  type u16 = v: int | 0 <= v < 0x1_0000

  /** The eight groups. */
  type Ip = ip: seq<u16> | |ip| == 8 witness seq(8, _ => 0)

  // ----- the run of zeros that is left out

  predicate ZeroRun(ip: Ip, start: nat, len: nat) {
    start + len <= 8 && forall k :: start <= k < start + len ==> ip[k] == 0
  }

  /** The first longest run of zero groups, if it has two groups or more. */
  ghost predicate IsShortened(ip: Ip, start: int, len: nat) {
    if start == -1 then len == 0 && forall s: nat, l: nat :: ZeroRun(ip, s, l) ==> l <= 1
    else
      && 0 <= start && len >= 2 && ZeroRun(ip, start, len)
      && (forall s: nat, l: nat :: ZeroRun(ip, s, l) ==> l <= len)
      && (forall s: nat :: ZeroRun(ip, s, len) ==> start <= s)
  }

  /** What the scan knows before it looks at group `i`: the best run that has ended, and the
      one that is still going on. */
  ghost predicate ScanInv(ip: Ip, i: nat, best: nat, bestStart: int, len: nat, start: int) {
    && i <= 9 && -1 <= start && (i == 9 ==> start == -1)
    && (if start == -1 then len == 0 && (i == 0 || i == 9 || ip[i - 1] != 0)
        else start + len == i && len >= 1 && ZeroRun(ip, start, len) && (start == 0 || ip[start - 1] != 0))
    && (if bestStart == -1 then best == 0
        else 0 <= bestStart && best >= 1 && bestStart + best < i && ZeroRun(ip, bestStart, best))
    && (forall s: nat, l: nat :: ZeroRun(ip, s, l) && l >= 1 && s + l <= i - len ==> bestStart != -1 && l <= best)
    && (forall s: nat, l: nat :: ZeroRun(ip, s, l) && l >= 1 && l == best && s + l <= i - len ==> bestStart <= s)
  }

  method LongestZeroRun(ip: Ip) returns (start: int, len: nat)
    ensures IsShortened(ip, start, len)
  {
    var best, bestStart := 0, -1;
    var seqLen, seqStart := 0, -1;
    var i := 0;
    while i < 8 + 1
      invariant 0 <= i <= 9
      invariant ScanInv(ip, i, best, bestStart, seqLen, seqStart)
    {
      if seqStart != -1 {
        if i == 8 || ip[i] != 0 {
          if best < seqLen {
            best := seqLen;
            bestStart := seqStart;
          }
          seqLen := 0;
          seqStart := -1;
        } else {
          seqLen := seqLen + 1;
        }
      } else {
        if i != 8 && ip[i] == 0 {
          seqStart := i;
          seqLen := 1;
        }
      }
      i := i + 1;
    }
    if best <= 1 {
      best := 0;
      bestStart := -1;
    }
    return bestStart, best;
  }

  // ----- numbers as text

  type Base = b: nat | b == 10 || b == 16 witness 10

  function DigitOf(c: char): (d: int)
    ensures -1 <= d < 16
  {
    if '0' <= c <= '9' then c as int - '0' as int
    else if 'a' <= c <= 'f' then c as int - 'a' as int + 10
    else -1
  }

  function DigitChar(d: nat): (c: char)
    requires d < 16
    ensures DigitOf(c) == d
  {
    if d < 10 then '0' + d as char else 'a' + (d - 10) as char
  }

  predicate AreDigits(s: string) {
    forall i :: 0 <= i < |s| ==> DigitOf(s[i]) != -1
  }

  // by cases, so that the divisors are constants

  function Quotient(v: nat, base: Base): nat { if base == 16 then v / 16 else v / 10 }
  function Remainder(v: nat, base: Base): (r: nat) ensures r < 16 { if base == 16 then v % 16 else v % 10 }
  function Scaled(v: nat, base: Base): nat { if base == 16 then v * 16 else v * 10 }

  /** What `%x` and `%d` print: digits of the base in lower case, without leading zeros. */
  function NumberText(v: nat, base: Base): (s: string)
    ensures |s| >= 1 && forall i :: 0 <= i < |s| ==> 0 <= DigitOf(s[i]) < base
    ensures |s| > 1 ==> s[0] != '0'
    ensures v > 0 ==> s[0] != '0'
  {
    if v < base then [DigitChar(v)] else NumberText(Quotient(v, base), base) + [DigitChar(Remainder(v, base))]
  }

  function NumberValue(s: string, base: Base): nat
    requires AreDigits(s)
  {
    if s == [] then 0 else Scaled(NumberValue(s[..|s| - 1], base), base) + DigitOf(s[|s| - 1])
  }

  lemma {:induction false} NumberRoundTrip(v: nat, base: Base)
    ensures NumberValue(NumberText(v, base), base) == v
  {
    var s := NumberText(v, base);
    if v < base {
      assert s[..0] == [];
    } else {
      assert s[..|s| - 1] == NumberText(Quotient(v, base), base);
      NumberRoundTrip(Quotient(v, base), base);
    }
  }

  function Limit(base: Base, k: nat): nat {
    if k == 0 then 1 else Scaled(Limit(base, k - 1), base)
  }

  lemma {:induction false} NumberLength(v: nat, base: Base, k: nat)
    requires 1 <= k && v < Limit(base, k)
    ensures |NumberText(v, base)| <= k
  {
    if v >= base {
      NumberLength(Quotient(v, base), base, k - 1);
    }
  }

  lemma NumberLengths(v: nat)
    requires v < 0x1_0000
    ensures |NumberText(v, 16)| <= 4 && |NumberText(v, 10)| <= 5
  {
    assert Limit(16, 2) == 0x100 && Limit(16, 4) == 0x1_0000;
    assert Limit(10, 3) == 1000 && Limit(10, 5) == 100000;
    NumberLength(v, 16, 4);
    NumberLength(v, 10, 5);
  }

  // ----- taking the text apart

  /** The address, with the place of "::" or -1 and the number of groups written out. */
  datatype Parsed = Bad | Address(groups: seq<int>, port: int, gap: int, written: nat)

  /** How many hexadecimal digits stand at the front. */
  function DigitRun(s: string): (n: nat)
    ensures n <= |s| && AreDigits(s[..n]) && (n < |s| ==> DigitOf(s[n]) == -1)
  {
    if s == [] || DigitOf(s[0]) == -1 then 0
    else
      var n := DigitRun(s[1..]);
      assert forall i :: 1 <= i < n + 1 ==> s[i] == s[1..][..n][i - 1];
      n + 1
  }

  function Zeros(n: nat): seq<int> {
    seq(n, _ => 0)
  }

  /** The groups with the zeros that "::" stands for, and the port if there is one. */
  function Finish(s: string, groups: seq<int>, gap: int): Parsed
    requires -1 <= gap <= |groups|
  {
    if (if gap == -1 then |groups| != 8 else |groups| > 7) then Bad
    else
      var ip := if gap == -1 then groups else groups[..gap] + Zeros(8 - |groups|) + groups[gap..];
      if s == [] then Address(ip, -1, gap, |groups|)
      else if s[0] == ':' && |s| > 1 && AreDigits(s[1..]) then Address(ip, NumberValue(s[1..], 10), gap, |groups|)
      else Bad
  }

  /** Groups of one to four digits; a colon stands exactly between two of them, and "::" at
      most once. `gap` is the number of groups in front of it. */
  function ParseGroups(s: string, groups: seq<int>, gap: int): Parsed
    requires -1 <= gap <= |groups|
    decreases |s|
  {
    if s == [] then Bad
    else if s[0] == ']' then Finish(s[1..], groups, gap)
    else if s[0] == ':' && |s| > 1 && s[1] == ':' then
      if gap != -1 then Bad else ParseGroups(s[2..], groups, |groups|)
    else
      var rest := if s[0] == ':' then s[1..] else s;
      var n := DigitRun(rest);
      if n == 0 || n > 4 || (s[0] == ':') != (groups != [] && |groups| != gap) then Bad
      else ParseGroups(rest[n..], groups + [NumberValue(rest[..n], 16)], gap)
  }

  function ParseAddress(s: string): Parsed {
    if s == [] || s[0] != '[' then Bad else ParseGroups(s[1..], [], -1)
  }

  // ----- what the program prints

  /** What is printed for group `i` when the run from `start` is left out. */
  function Piece(ip: Ip, start: int, len: nat, i: nat): string
    requires i < 8
  {
    if start <= i < start + len then
      if i == start then "::" else ""
    else (if i == 0 || i == start + len then "" else ":") + NumberText(ip[i], 16)
  }

  function GroupsText(ip: Ip, start: int, len: nat, i: nat): string
    requires i <= 8
    decreases 8 - i
  {
    if i == 8 then "" else Piece(ip, start, len, i) + GroupsText(ip, start, len, i + 1)
  }

  predicate Shape(ip: Ip, start: int, len: nat) {
    if start == -1 then len == 0 else 0 <= start && len >= 2 && ZeroRun(ip, start, len)
  }

  function PortText(port: int): string {
    if port >= 0 then ":" + NumberText(port, 10) else ""
  }

  function AddressText(ip: Ip, start: int, len: nat, port: int): string {
    "[" + (GroupsText(ip, start, len, 0) + ("]" + PortText(port)))
  }

  /** The parser reads the address and port, and sees that exactly the first longest run of
      zeros was left out. */
  ghost predicate Reads(s: string, ip: Ip, port: int) {
    exists start: int, len: nat ::
      IsShortened(ip, start, len) && ParseAddress(s) == Address(ip, if port >= 0 then port else -1, start, 8 - len)
  }

  /** The text that leaves out the first longest run of zeros and nothing else. */
  ghost predicate IsTextOf(s: string, ip: Ip, port: int) {
    exists start: int, len: nat :: IsShortened(ip, start, len) && s == AddressText(ip, start, len, port)
  }

  /** The buffer holds the text, cut to its size, and a terminator. */
  ghost predicate HoldsText(buf: string, size: nat, s: string)
    requires 1 <= size <= |buf|
  {
    var n := Min(|s|, size - 1);
    buf[..n] == s[..n] && buf[n] == '\0'
  }

  /** `net_addr_str_v6`: the one text of the address, cut where the buffer ends; nothing is
      cut in `NETADDR_MAXSTRSIZE` bytes for a port of 16 bits. */
  method NetAddrStrV6(ip: Ip, port: int, buffer: array<char>, bufferSize: nat)
    requires 1 <= bufferSize <= buffer.Length
    modifies buffer
    ensures exists s :: IsTextOf(s, ip, port) && HoldsText(buffer[..], bufferSize, s)
    ensures bufferSize >= NETADDR_MAXSTRSIZE && port < 0x1_0000 ==>
              exists n: nat :: n < bufferSize && buffer[n] == '\0' && IsTextOf(buffer[..n], ip, port)
                && Reads(buffer[..n], ip, port)
  {
    hide GroupsText, Piece, Reads, IsShortened, NumberText, HoldsText;
    var start, len := LongestZeroRun(ip);
    ghost var s := "[";
    var w := AppendText(buffer, bufferSize, 0, "[", "");
    assert "" + s == s;
    var i := 0;
    while i < 8
      invariant 0 <= i <= 8
      invariant w == Min(|s|, bufferSize - 1) && HoldsText(buffer[..], bufferSize, s)
      invariant s + GroupsText(ip, start, len, i) == "[" + GroupsText(ip, start, len, 0)
    {
      TextUnfolds(ip, start, len, i);
      w := AppendPiece(buffer, bufferSize, w, ip, start, len, i, s);
      s := s + Piece(ip, start, len, i);
      i := i + 1;
    }
    TextEnds(ip, start, len);
    assert s + "" == s;
    w := AppendText(buffer, bufferSize, w, "]", s);
    s := s + "]";
    ghost var groups := GroupsText(ip, start, len, 0);
    assert s == "[" + (groups + ("]" + ""));
    if port >= 0 {
      w := AppendText(buffer, bufferSize, w, ":" + NumberText(port, 10), s);
      s := s + (":" + NumberText(port, 10));
      assert s == "[" + (groups + ("]" + (":" + NumberText(port, 10))));
    }
    assert s == AddressText(ip, start, len, port);
    assert IsTextOf(s, ip, port);
    TextParses(s, ip, port);
    if bufferSize >= NETADDR_MAXSTRSIZE && port < 0x1_0000 {
      WholeText(buffer[..], bufferSize, s);
      assert buffer[..|s|] == s;
    }
  }

  lemma WholeText(buf: string, size: nat, s: string)
    requires 1 <= size <= |buf| && |s| < size && HoldsText(buf, size, s)
    ensures buf[..|s|] == s && buf[|s|] == '\0'
  {
  }

  /** `str_copy` or `str_format` behind what is there: all that is printed is ASCII, so no
      more is cut than does not fit. */
  method AppendText(buffer: array<char>, size: nat, w: nat, text: string, ghost before: string) returns (newW: nat)
    requires 1 <= size <= buffer.Length && w == Min(|before|, size - 1)
    requires before == "" || HoldsText(buffer[..], size, before)
    modifies buffer
    ensures newW == Min(|before + text|, size - 1) && HoldsText(buffer[..], size, before + text)
  {
    var n := Min(|text|, size - w - 1);
    forall k | 0 <= k < n {
      buffer[w + k] := text[k];
    }
    newW := w + n;
    buffer[newW] := '\0';
    ghost var full := before + text;
    assert forall k :: 0 <= k < newW ==> buffer[k] == full[k];
    assert buffer[..newW] == full[..newW];
  }

  /** The body of the loop over the groups. */
  method AppendPiece(buffer: array<char>, size: nat, w: nat, ip: Ip, start: int, len: nat, i: nat, ghost before: string)
    returns (newW: nat)
    requires i < 8 && 1 <= size <= buffer.Length && w == Min(|before|, size - 1)
    requires HoldsText(buffer[..], size, before)
    modifies buffer
    ensures
      var after := before + Piece(ip, start, len, i);
      newW == Min(|after|, size - 1) && HoldsText(buffer[..], size, after)
  {
    newW := w;
    if start <= i < start + len {
      if i == start {
        newW := AppendText(buffer, size, w, "::", before);
      } else {
        assert before + "" == before;
      }
    } else {
      var colon := if i == 0 || i == start + len then "" else ":";
      newW := AppendText(buffer, size, w, colon + NumberText(ip[i], 16), before);
    }
  }

  lemma ShortenedShape(ip: Ip, start: int, len: nat)
    requires IsShortened(ip, start, len)
    ensures Shape(ip, start, len)
  {
  }

  lemma TextUnfolds(ip: Ip, start: int, len: nat, i: nat)
    requires i < 8
    ensures GroupsText(ip, start, len, i) == Piece(ip, start, len, i) + GroupsText(ip, start, len, i + 1)
  {
  }

  lemma TextEnds(ip: Ip, start: int, len: nat)
    ensures GroupsText(ip, start, len, 8) == ""
  {
  }

  /** A text parses to its address and port, and is short for a port of 16 bits. */
  lemma TextParses(s: string, ip: Ip, port: int)
    requires IsTextOf(s, ip, port)
    ensures Reads(s, ip, port)
    ensures port < 0x1_0000 ==> |s| < NETADDR_MAXSTRSIZE
  {
    hide GroupsText, ParseGroups, Finish, Read, NumberText, IsShortened;
    var start: int, len: nat :| IsShortened(ip, start, len) && s == AddressText(ip, start, len, port);
    ShortenedShape(ip, start, len);
    var inner, tail := GroupsText(ip, start, len, 0) + ("]" + PortText(port)), PortText(port);
    TextShort(ip, start, len, 0);
    if port >= 0 {
      if port < 0x1_0000 {
        NumberLengths(port);
      }
      NumberRoundTrip(port, 10);
      assert tail[1..] == NumberText(port, 10);
    }
    ParseFrom(ip, start, len, 0, tail);
    FinishGives(ip, start, len, tail);
    assert ("[" + inner)[1..] == inner;
    ReadNothing(ip, start, len);
  }

  /** There is one run to leave out. */
  lemma ShortenedUnique(ip: Ip, start: int, len: nat, otherStart: int, otherLen: nat)
    requires IsShortened(ip, start, len) && IsShortened(ip, otherStart, otherLen)
    ensures start == otherStart && len == otherLen
  {
    assert start != -1 ==> ZeroRun(ip, start, len);
    assert otherStart != -1 ==> ZeroRun(ip, otherStart, otherLen);
  }

  /** An address and port have exactly one text, and different ones have different texts. */
  lemma SameTextIff(s: string, ip: Ip, port: int, t: string, otherIp: Ip, otherPort: int)
    requires IsTextOf(s, ip, port) && IsTextOf(t, otherIp, otherPort)
    ensures s == t <==> ip == otherIp && (port == otherPort || (port < 0 && otherPort < 0))
  {
    hide ParseAddress, IsShortened, GroupsText, NumberText;
    var start: int, len: nat :| IsShortened(ip, start, len) && s == AddressText(ip, start, len, port);
    var otherStart: int, otherLen: nat :|
      IsShortened(otherIp, otherStart, otherLen) && t == AddressText(otherIp, otherStart, otherLen, otherPort);
    TextParses(s, ip, port);
    TextParses(t, otherIp, otherPort);
    if ip == otherIp {
      ShortenedUnique(ip, start, len, otherStart, otherLen);
    }
  }

  lemma ReadNothing(ip: Ip, start: int, len: nat)
    requires Shape(ip, start, len)
    ensures Read(ip, start, len, 0) == [] && Gap(start, 0) == -1
  {
  }

  lemma {:induction false} TextShort(ip: Ip, start: int, len: nat, i: nat)
    requires Shape(ip, start, len) && i <= 8
    ensures |GroupsText(ip, start, len, i)| <= 5 * (8 - i) - if i == 0 then 1 else 0
    decreases 8 - i
  {
    if i < 8 {
      NumberLengths(ip[i]);
      TextShort(ip, start, len, i + 1);
    }
  }

  // the groups the parser has read before group `i`, and the place of the gap

  function Read(ip: Ip, start: int, len: nat, i: nat): seq<int>
    requires Shape(ip, start, len) && i <= 8
  {
    if start == -1 || i <= start then ip[..i]
    else if i <= start + len then ip[..start]
    else ip[..start] + ip[start + len..i]
  }

  function Gap(start: int, i: nat): int {
    if start != -1 && i > start then start else -1
  }

  // one step of the parser each

  lemma ParseEnd(tail: string, groups: seq<int>, gap: int)
    requires -1 <= gap <= |groups|
    ensures ParseGroups("]" + tail, groups, gap) == Finish(tail, groups, gap)
  {
    assert ("]" + tail)[1..] == tail;
  }

  lemma ParseGap(next: string, groups: seq<int>)
    ensures ParseGroups("::" + next, groups, -1) == ParseGroups(next, groups, |groups|)
  {
    assert ("::" + next)[2..] == next;
  }

  lemma ParseOne(digits: string, next: string, groups: seq<int>, gap: int)
    requires AreDigits(digits) && 1 <= |digits| <= 4 && next != [] && DigitOf(next[0]) == -1
    requires -1 <= gap <= |groups|
    ensures
      var colon := if groups != [] && |groups| != gap then ":" else "";
      ParseGroups(colon + digits + next, groups, gap) == ParseGroups(next, groups + [NumberValue(digits, 16)], gap)
  {
    var colon := if groups != [] && |groups| != gap then ":" else "";
    var s, rest := colon + digits + next, digits + next;
    RunOfDigits(digits, next);
    assert rest[..|digits|] == digits && rest[|digits|..] == next;
    assert DigitOf(digits[0]) != -1;
    if colon == ":" {
      assert s[0] == ':' && s[1] == digits[0] && s[1..] == rest;
    } else {
      assert s == rest && s[0] == digits[0];
    }
  }

  lemma ReadNext(ip: Ip, start: int, len: nat, i: nat)
    requires Shape(ip, start, len) && i < 8
    ensures
      var read, gap := Read(ip, start, len, i), Gap(start, i);
      && -1 <= gap <= |read|
      && (if start <= i < start + len then
            Read(ip, start, len, i + 1) == read && Gap(start, i + 1) == start
            && (i == start ==> gap == -1 && |read| == start)
            && (i > start ==> gap == start)
          else
            Read(ip, start, len, i + 1) == read + [ip[i]] && Gap(start, i + 1) == gap
            && (i == 0 || i == start + len <==> read == [] || |read| == gap))
  {
  }

  /** From group `i` on, the parser reads what is printed. */
  lemma {:induction false} ParseFrom(ip: Ip, start: int, len: nat, i: nat, tail: string)
    requires Shape(ip, start, len) && i <= 8
    ensures -1 <= Gap(start, i) <= |Read(ip, start, len, i)| && -1 <= Gap(start, 8) <= |Read(ip, start, len, 8)|
    ensures ParseGroups(GroupsText(ip, start, len, i) + ("]" + tail), Read(ip, start, len, i), Gap(start, i))
         == Finish(tail, Read(ip, start, len, 8), Gap(start, 8))
    decreases 8 - i
  {
    hide ParseGroups, Finish, Read, NumberText, GroupsText, Piece, Gap;
    if i == 8 {
      ReadBounds(ip, start, len);
      TextEnds(ip, start, len);
      assert "" + ("]" + tail) == "]" + tail;
      ParseEnd(tail, Read(ip, start, len, i), Gap(start, i));
    } else {
      var next := GroupsText(ip, start, len, i + 1) + ("]" + tail);
      TextUnfolds(ip, start, len, i);
      assert GroupsText(ip, start, len, i) + ("]" + tail) == Piece(ip, start, len, i) + next;
      if !(start <= i < start + len) {
        AfterGroup(ip, start, len, i, tail);
      }
      ParsePiece(ip, start, len, i, next);
      ParseFrom(ip, start, len, i + 1, tail);
    }
  }

  lemma ParsePiece(ip: Ip, start: int, len: nat, i: nat, next: string)
    requires Shape(ip, start, len) && i < 8
    requires !(start <= i < start + len) ==> next != [] && DigitOf(next[0]) == -1
    ensures -1 <= Gap(start, i) <= |Read(ip, start, len, i)| && -1 <= Gap(start, i + 1) <= |Read(ip, start, len, i + 1)|
    ensures ParseGroups(Piece(ip, start, len, i) + next, Read(ip, start, len, i), Gap(start, i))
         == ParseGroups(next, Read(ip, start, len, i + 1), Gap(start, i + 1))
  {
    hide ParseGroups, Read, NumberText, Gap;
    ReadNext(ip, start, len, i);
    if start <= i < start + len {
      if i == start {
        ParseGap(next, Read(ip, start, len, i));
      } else {
        assert Piece(ip, start, len, i) + next == next;
      }
    } else {
      NumberLengths(ip[i]);
      NumberRoundTrip(ip[i], 16);
      ParseOne(NumberText(ip[i], 16), next, Read(ip, start, len, i), Gap(start, i));
    }
  }

  lemma ReadBounds(ip: Ip, start: int, len: nat)
    requires Shape(ip, start, len)
    ensures -1 <= Gap(start, 8) <= |Read(ip, start, len, 8)|
  {
  }

  /** Behind a printed group stands a colon or the bracket. */
  lemma AfterGroup(ip: Ip, start: int, len: nat, i: nat, tail: string)
    requires Shape(ip, start, len) && i < 8 && !(start <= i < start + len)
    ensures
      var next := GroupsText(ip, start, len, i + 1) + ("]" + tail);
      next != [] && DigitOf(next[0]) == -1
  {
  }

  lemma {:induction false} RunOfDigits(digits: string, next: string)
    requires AreDigits(digits) && next != [] && DigitOf(next[0]) == -1
    ensures DigitRun(digits + next) == |digits|
  {
    if digits == [] {
      assert digits + next == next;
    } else {
      assert (digits + next)[1..] == digits[1..] + next;
      RunOfDigits(digits[1..], next);
    }
  }

  /** Putting the zeros back gives the address. */
  lemma FinishGives(ip: Ip, start: int, len: nat, tail: string)
    requires Shape(ip, start, len)
    requires tail == [] || (tail[0] == ':' && |tail| > 1 && AreDigits(tail[1..]))
    ensures -1 <= Gap(start, 8) <= |Read(ip, start, len, 8)|
    ensures Finish(tail, Read(ip, start, len, 8), Gap(start, 8))
         == Address(ip, if tail == [] then -1 else NumberValue(tail[1..], 10), start, 8 - len)
  {
    if start != -1 {
      var read := Read(ip, start, len, 8);
      assert read == ip[..start] + ip[start + len..];
      assert ip == ip[..start] + Zeros(len) + ip[start + len..];
      assert read[..start] == ip[..start] && read[start..] == ip[start + len..];
    }
  }
}
