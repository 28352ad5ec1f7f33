/** The MAC address parser and the magic packet of hostcontrold's `WakeOnLan`. */
module WakeOnLan {
  import opened Chars

  const ETH_ALEN: nat := 6

  type byte = b: int | 0 <= b < 256

  /** The string as a C string: it is followed by a terminator. */
  function CharAt(s: string, i: nat): char {
    if i < |s| then s[i] else '\0'
  }

  function HexValue(c: char): (v: Option<nat>)
    ensures v.Some? ==> v.value < 16
  {
    if '0' <= c <= '9' then Some(c as int - '0' as int)
    else if 'a' <= c <= 'f' then Some(c as int - 'a' as int + 10)
    else if 'A' <= c <= 'F' then Some(c as int - 'A' as int + 10)
    else None
  }

  /** Outcome of parsing: success or not, the bytes written so far, and how far the string was read. */
  datatype Parsed = Parsed(ok: bool, bytes: seq<byte>, cursor: nat)

  function SkipColon(s: string, i: nat): nat {
    if CharAt(s, i) == ':' then i + 1 else i
  }

  /** The byte at i, and the position behind it and behind a colon that may follow; None if malformed. */
  function ParseByte(s: string, i: nat): (r: Option<(byte, nat)>)
    requires CharAt(s, i) != '\0'
    ensures r.Some? ==> i < r.value.1 <= |s|
  {
    var high, c := HexValue(s[i]), CharAt(s, i + 1);
    if high == None then None
    else if HexValue(c).Some? then Some((16 * high.value + HexValue(c).value, SkipColon(s, i + 2)))
    else if c == ':' then Some((high.value, SkipColon(s, i + 2)))
    else if c == '\0' then Some((high.value, SkipColon(s, i + 1)))
    else None
  }

  function Parse(s: string, i: nat, n: nat): Parsed
    requires i <= |s|
    decreases |s| - i
  {
    if CharAt(s, i) == '\0' || n >= ETH_ALEN then Parsed(true, [], i)
    else
      match ParseByte(s, i)
      case None => Parsed(false, [], i)
      case Some((b, j)) => var rest := Parse(s, j, n + 1); rest.(bytes := [b] + rest.bytes)
  }

  /** The outcome p, with bytes parsed before in front. */
  function Behind(before: seq<byte>, p: Parsed): Parsed {
    p.(bytes := before + p.bytes)
  }

  lemma BehindNext(before: seq<byte>, b: byte, p: Parsed)
    ensures Behind(before, p.(bytes := [b] + p.bytes)) == Behind(before + [b], p)
  {
    assert before + ([b] + p.bytes) == before + [b] + p.bytes;
  }

  lemma {:induction false} ParseLength(s: string, i: nat, n: nat)
    requires i <= |s| && n <= ETH_ALEN
    ensures n + |Parse(s, i, n).bytes| <= ETH_ALEN
    decreases |s| - i
  {
    if CharAt(s, i) != '\0' && n < ETH_ALEN && ParseByte(s, i).Some? {
      ParseLength(s, ParseByte(s, i).value.1, n + 1);
    }
  }

  lemma ByteRead(s: string, i: nat, value: byte, next: nat)
    requires CharAt(s, i) != '\0' && HexValue(s[i]).Some?
    requires var high, c := HexValue(s[i]).value, CharAt(s, i + 1);
      && (HexValue(c).Some? || c == ':' || c == '\0')
      && value == (if HexValue(c).Some? then 16 * high + HexValue(c).value else high)
      && next == SkipColon(s, if c == '\0' then i + 1 else i + 2)
    ensures ParseByte(s, i) == Some((value, next))
  {}

  method ConvertMacStringToBinary(s: string, mac: array<byte>) returns (ok: bool)
    requires mac.Length >= ETH_ALEN
    modifies mac
    ensures var p := Parse(s, 0, 0);
      && ok == p.ok && |p.bytes| <= ETH_ALEN
      && forall k :: 0 <= k < mac.Length ==> mac[k] == if k < |p.bytes| then p.bytes[k] else old(mac[k])
  {
    ghost var done: seq<byte> := [];
    ghost var goal := Parse(s, 0, 0);
    ParseLength(s, 0, 0);
    assert [] + goal.bytes == goal.bytes;
    var it, i := 0, 0;
    while CharAt(s, it) != '\0' && i < ETH_ALEN
      invariant it <= |s| && i <= ETH_ALEN
      invariant |done| == i
      invariant forall k :: 0 <= k < mac.Length ==> mac[k] == if k < i then done[k] else old(mac[k])
      invariant goal == Behind(done, Parse(s, it, i))
      decreases |s| - it
    {
      ghost var start := it;
      var value := 0;
      var c := s[it];
      it := it + 1;
      var high := HexValue(c);
      if high == None {
        return false;
      }
      value := 16 * high.value;
      c := CharAt(s, it);
      var low := HexValue(c);
      if low.Some? {
        value := value + low.value;
      } else if c == ':' || c == '\0' {
        value := value / 16;
      } else {
        return false;
      }
      if c != '\0' {
        it := it + 1;
      }
      mac[i] := value;
      i := i + 1;
      if CharAt(s, it) == ':' {
        it := it + 1;
      }
      ByteRead(s, start, value, it);
      BehindNext(done, value, Parse(s, it, i));
      done := done + [value];
    }
    return true;
  }

  // ----- the language of the parser

  /** How one byte may be written: two digits and possibly a colon; one digit and one or two colons; one
      digit at the end of the string. */
  datatype Group =
    | Pair(high: char, low: char, colon: bool)
    | Single(high: char, twoColons: bool)
    | Bare(high: char)
  {
    predicate WellFormed() {
      HexValue(high).Some? && (Pair? ==> HexValue(low).Some?)
    }

    function Text(): string {
      match this
      case Pair(high, low, colon) => if colon then [high, low, ':'] else [high, low]
      case Single(high, twoColons) => if twoColons then [high, ':', ':'] else [high, ':']
      case Bare(high) => [high]
    }

    function Size(): nat {
      match this
      case Pair(_, _, colon) => if colon then 3 else 2
      case Single(_, twoColons) => if twoColons then 3 else 2
      case Bare(_) => 1
    }

    /** The group stands at position i of s, complete: no colon follows that would still belong to it, and
        nothing at all follows a bare digit. */
    predicate StandsAt(s: string, i: nat) {
      && WellFormed() && i + Size() <= |s| && s[i] == high
      && match this
         case Pair(_, low, colon) =>
           s[i + 1] == low && if colon then s[i + 2] == ':' else CharAt(s, i + 2) != ':'
         case Single(_, twoColons) =>
           s[i + 1] == ':' && if twoColons then s[i + 2] == ':' else CharAt(s, i + 2) != ':'
         case Bare(_) => CharAt(s, i + 1) == '\0'
    }

    function Value(): byte
      requires WellFormed()
    {
      match this
      case Pair(high, low, _) => 16 * HexValue(high).value + HexValue(low).value
      case Single(high, _) => HexValue(high).value
      case Bare(high) => HexValue(high).value
    }
  }

  /** s, from position i on, begins with the groups, and they end at position j. */
  ghost predicate Spells(s: string, i: nat, groups: seq<Group>, j: nat)
    decreases |groups|
  {
    if groups == [] then i == j
    else groups[0].StandsAt(s, i) && Spells(s, i + groups[0].Size(), groups[1..], j)
  }

  function Values(groups: seq<Group>): seq<byte>
    requires forall k :: 0 <= k < |groups| ==> groups[k].WellFormed()
  {
    if groups == [] then [] else [groups[0].Value()] + Values(groups[1..])
  }

  lemma ParseGroup(s: string, i: nat, g: Group)
    requires g.StandsAt(s, i)
    ensures CharAt(s, i) != '\0' && ParseByte(s, i) == Some((g.Value(), i + g.Size()))
  {}

  /** Conversely every byte the parser reads is a group. */
  lemma GroupOf(s: string, i: nat) returns (g: Group)
    requires CharAt(s, i) != '\0' && ParseByte(s, i).Some?
    ensures g.StandsAt(s, i) && ParseByte(s, i).value == (g.Value(), i + g.Size())
  {
    var c, j := CharAt(s, i + 1), ParseByte(s, i).value.1;
    if HexValue(c).Some? {
      g := Pair(s[i], c, j == i + 3);
    } else if c == ':' {
      g := Single(s[i], j == i + 3);
    } else {
      g := Bare(s[i]);
    }
  }

  lemma {:induction false} SpellsWellFormed(s: string, i: nat, groups: seq<Group>, j: nat)
    requires Spells(s, i, groups, j) && i <= |s|
    ensures j <= |s| && forall k :: 0 <= k < |groups| ==> groups[k].WellFormed()
    decreases |groups|
  {
    if groups != [] {
      SpellsWellFormed(s, i + groups[0].Size(), groups[1..], j);
    }
  }

  /** Completeness: whatever spells six bytes, or fewer up to the end of the string, is parsed to these. */
  lemma {:induction false} SpelledIsParsed(s: string, i: nat, groups: seq<Group>, j: nat, n: nat)
    requires i <= |s| && Spells(s, i, groups, j) && n + |groups| <= ETH_ALEN
    requires n + |groups| == ETH_ALEN || CharAt(s, j) == '\0'
    ensures forall k :: 0 <= k < |groups| ==> groups[k].WellFormed()
    ensures Parse(s, i, n) == Parsed(true, Values(groups), j)
    decreases |groups|
  {
    SpellsWellFormed(s, i, groups, j);
    if groups != [] {
      ParseGroup(s, i, groups[0]);
      SpelledIsParsed(s, i + groups[0].Size(), groups[1..], j, n + 1);
    }
  }

  /** Soundness: a string is accepted only if it spells the bytes returned, six or all up to its end. */
  lemma {:induction false} ParsedIsSpelled(s: string, i: nat, n: nat) returns (groups: seq<Group>)
    requires i <= |s| && n <= ETH_ALEN && Parse(s, i, n).ok
    ensures Spells(s, i, groups, Parse(s, i, n).cursor) && Parse(s, i, n).cursor <= |s|
    ensures n + |groups| == ETH_ALEN || (n + |groups| < ETH_ALEN && CharAt(s, Parse(s, i, n).cursor) == '\0')
    ensures forall k :: 0 <= k < |groups| ==> groups[k].WellFormed()
    ensures Values(groups) == Parse(s, i, n).bytes
    decreases |s| - i
  {
    if CharAt(s, i) == '\0' || n >= ETH_ALEN {
      groups := [];
    } else {
      var g := GroupOf(s, i);
      var rest := ParsedIsSpelled(s, i + g.Size(), n + 1);
      groups := [g] + rest;
      assert groups[1..] == rest;
    }
  }

  lemma ValuesLength(groups: seq<Group>)
    requires forall k :: 0 <= k < |groups| ==> groups[k].WellFormed()
    ensures |Values(groups)| == |groups|
  {}

  /** The string begins with six groups. */
  ghost predicate SpellsSix(s: string) {
    exists groups, j :: |groups| == ETH_ALEN && Spells(s, 0, groups, j)
  }

  /** Not every address accepted has six bytes: the empty one has none. */
  lemma EmptyAddressAccepted()
    ensures Parse("", 0, 0) == Parsed(true, [], 0)
  {}

  /** Exactly when an address is accepted with all its six bytes. */
  lemma SixBytesIffSpelled(s: string)
    ensures Parse(s, 0, 0).ok && |Parse(s, 0, 0).bytes| == ETH_ALEN <==> SpellsSix(s)
  {
    if Parse(s, 0, 0).ok && |Parse(s, 0, 0).bytes| == ETH_ALEN {
      var groups := ParsedIsSpelled(s, 0, 0);
      ValuesLength(groups);
    }
    if SpellsSix(s) {
      var groups, j :| |groups| == ETH_ALEN && Spells(s, 0, groups, j);
      SpelledIsParsed(s, 0, groups, j, 0);
      ValuesLength(groups);
    }
  }

  // ----- printing and parsing back

  function Digit(v: nat, upper: bool): (c: char)
    requires v < 16
    ensures HexValue(c) == Some(v)
  {
    if v < 10 then '0' + v as char
    else if upper then 'A' + (v - 10) as char
    else 'a' + (v - 10) as char
  }

  /** Two digits, each in either case, with or without a colon; or one digit, with a colon or at the end. */
  datatype Style =
    | TwoDigits(upperHigh: bool, upperLow: bool, colon: bool)
    | OneDigit(upper: bool, colon: bool)

  function Printed(b: byte, style: Style): (g: Group)
    requires style.OneDigit? ==> b < 16
    ensures g.WellFormed() && g.Value() == b
  {
    match style
    case TwoDigits(upperHigh, upperLow, colon) => Pair(Digit(b / 16, upperHigh), Digit(b % 16, upperLow), colon)
    case OneDigit(upper, colon) => if colon then Single(Digit(b, upper), false) else Bare(Digit(b, upper))
  }

  /** A style fits a byte; without a colon, one digit is for the end of the string only. */
  predicate Printable(bytes: seq<byte>, styles: seq<Style>) {
    |styles| == |bytes| &&
    forall k :: 0 <= k < |bytes| && styles[k].OneDigit? ==> bytes[k] < 16 && (styles[k].colon || k == |bytes| - 1)
  }

  function Print(bytes: seq<byte>, styles: seq<Style>): string
    requires Printable(bytes, styles)
  {
    if bytes == [] then "" else Printed(bytes[0], styles[0]).Text() + Print(bytes[1..], styles[1..])
  }

  lemma PrintStart(bytes: seq<byte>, styles: seq<Style>)
    requires Printable(bytes, styles)
    ensures CharAt(Print(bytes, styles), 0) != ':'
    ensures bytes == [] ==> Print(bytes, styles) == ""
  {}

  lemma GroupStands(before: string, g: Group, after: string)
    requires g.WellFormed() && CharAt(after, 0) != ':' && (g.Bare? ==> after == "")
    ensures g.StandsAt(before + g.Text() + after, |before|)
  {
    var s, i := before + g.Text() + after, |before|;
    assert |g.Text()| == g.Size();
    assert CharAt(s, i + g.Size()) == CharAt(after, 0);
  }

  lemma OneMoreGroup(s: string, i: nat, g: Group, rest: seq<Group>)
    requires g.StandsAt(s, i) && (forall k :: 0 <= k < |rest| ==> rest[k].WellFormed())
    requires Spells(s, i + |g.Text()|, rest, |s|)
    ensures forall k :: 0 <= k < |[g] + rest| ==> ([g] + rest)[k].WellFormed()
    ensures Spells(s, i, [g] + rest, |s|) && Values([g] + rest) == [g.Value()] + Values(rest)
  {
    assert ([g] + rest)[1..] == rest;
    assert |g.Text()| == g.Size();
  }

  lemma {:induction false} PrintedIsSpelled(before: string, bytes: seq<byte>, styles: seq<Style>)
      returns (groups: seq<Group>)
    requires Printable(bytes, styles)
    ensures |groups| == |bytes| && forall k :: 0 <= k < |groups| ==> groups[k].WellFormed()
    ensures Values(groups) == bytes
    ensures var s := before + Print(bytes, styles); Spells(s, |before|, groups, |s|)
    decreases |bytes|
  {
    if bytes == [] {
      groups := [];
    } else {
      var g := Printed(bytes[0], styles[0]);
      var after := Print(bytes[1..], styles[1..]);
      PrintStart(bytes[1..], styles[1..]);
      GroupStands(before, g, after);
      var rest := PrintedIsSpelled(before + g.Text(), bytes[1..], styles[1..]);
      groups := [g] + rest;
      Glue(before, g.Text(), after);
      OneMoreGroup(before + Print(bytes, styles), |before|, g, rest);
    }
  }

  /** Round trip: six bytes, printed in any of the styles, are parsed back, and the cursor ends at the end of
      the string. */
  lemma PrintParse(bytes: seq<byte>, styles: seq<Style>)
    requires |bytes| == ETH_ALEN && Printable(bytes, styles)
    ensures Parse(Print(bytes, styles), 0, 0) == Parsed(true, bytes, |Print(bytes, styles)|)
  {
    var groups := PrintedIsSpelled("", bytes, styles);
    assert "" + Print(bytes, styles) == Print(bytes, styles);
    SpelledIsParsed(Print(bytes, styles), 0, groups, |Print(bytes, styles)|, 0);
  }

  // ----- the magic packet

  /** Six bytes 0xff, then sixteen times the six bytes of the address. */
  ghost predicate IsMagicPacket(packet: seq<byte>, address: seq<byte>)
    requires |address| >= ETH_ALEN
  {
    && |packet| == 102
    && (forall k :: 0 <= k < 6 ==> packet[k] == 0xff)
    && (forall k :: 0 <= k < 96 ==> packet[6 + k] == address[k % 6])
  }

  method BuildPacket(ethaddr: array<byte>, buf: array<byte>) returns (ptr: nat)
    requires ethaddr.Length >= ETH_ALEN && buf.Length == 128 && buf != ethaddr
    modifies buf
    ensures ptr == 102 && IsMagicPacket(buf[..ptr], ethaddr[..])
  {
    ptr := 0;
    for i := 0 to 6
      invariant ptr == i && forall k :: 0 <= k < i ==> buf[k] == 0xff
    {
      buf[ptr] := 0xff;
      ptr := ptr + 1;
    }
    for j := 0 to 16
      invariant ptr == 6 + 6 * j
      invariant forall k :: 0 <= k < 6 ==> buf[k] == 0xff
      invariant forall k :: 0 <= k < 6 * j ==> buf[6 + k] == ethaddr[k % 6]
    {
      for i := 0 to ETH_ALEN
        invariant ptr == 6 + 6 * j + i
        invariant forall k :: 0 <= k < 6 ==> buf[k] == 0xff
        invariant forall k :: 0 <= k < 6 * j + i ==> buf[6 + k] == ethaddr[k % 6]
      {
        assert (6 * j + i) % 6 == i;
        buf[ptr] := ethaddr[i];
        ptr := ptr + 1;
      }
    }
  }

  /** A packet that may be handed to the network for the address: the magic packet of the bytes parsed, with
      any bytes in the places of those that are missing. */
  ghost predicate MaySend(mac: string, packet: seq<byte>) {
    var bytes := Parse(mac, 0, 0).bytes;
    Parse(mac, 0, 0).ok && exists rest :: |bytes + rest| == ETH_ALEN && IsMagicPacket(packet, bytes + rest)
  }

  function MagicPacket(address: seq<byte>): (packet: seq<byte>)
    requires |address| == ETH_ALEN
    ensures IsMagicPacket(packet, address)
  {
    seq(102, k requires 0 <= k < 102 => if k < 6 then 0xff else address[(k - 6) % 6])
  }

  lemma MagicPacketUnique(packet: seq<byte>, address: seq<byte>)
    requires |address| == ETH_ALEN && IsMagicPacket(packet, address)
    ensures packet == MagicPacket(address)
  {
    forall k | 6 <= k < 102
      ensures packet[k] == MagicPacket(address)[k]
    {
      assert packet[6 + (k - 6)] == address[(k - 6) % 6];
    }
  }

  ghost predicate OnePacket(mac: string) {
    forall x, y :: MaySend(mac, x) && MaySend(mac, y) ==> x == y
  }

  lemma SixBytesPacket(mac: string, packet: seq<byte>)
    requires MaySend(mac, packet) && |Parse(mac, 0, 0).bytes| == ETH_ALEN
    ensures packet == MagicPacket(Parse(mac, 0, 0).bytes)
  {
    var bytes := Parse(mac, 0, 0).bytes;
    var rest :| |bytes + rest| == ETH_ALEN && IsMagicPacket(packet, bytes + rest);
    assert bytes + rest == bytes;
    MagicPacketUnique(packet, bytes);
  }

  /** The packet is determined by the address exactly if that spells six bytes. */
  lemma PacketDetermined(mac: string)
    requires Parse(mac, 0, 0).ok
    ensures OnePacket(mac) <==> SpellsSix(mac)
  {
    SixBytesIffSpelled(mac);
    ParseLength(mac, 0, 0);
    var bytes := Parse(mac, 0, 0).bytes;
    if |bytes| == ETH_ALEN {
      forall x | MaySend(mac, x)
        ensures x == MagicPacket(bytes)
      {
        SixBytesPacket(mac, x);
      }
    } else {
      var zeros, ones := seq(ETH_ALEN - |bytes|, _ => 0 as byte), seq(ETH_ALEN - |bytes|, _ => 1 as byte);
      var x, y := MagicPacket(bytes + zeros), MagicPacket(bytes + ones);
      assert MaySend(mac, x) && MaySend(mac, y);
      assert x[11] == (bytes + zeros)[5] == 0 && y[11] == (bytes + ones)[5] == 1;
    }
  }

  /** What the buffer held counts for the bytes that are missing. */
  lemma AnyRest(mac: string, ethaddr: seq<byte>, packet: seq<byte>)
    requires Parse(mac, 0, 0).ok && |ethaddr| >= ETH_ALEN && IsMagicPacket(packet, ethaddr)
    requires Parse(mac, 0, 0).bytes <= ethaddr[..ETH_ALEN]
    ensures MaySend(mac, packet)
  {
    var bytes := Parse(mac, 0, 0).bytes;
    assert bytes + ethaddr[|bytes|..ETH_ALEN] == ethaddr[..ETH_ALEN];
  }

  /** The outcomes of `socket`, `setsockopt` and `sendto` are given; packet is what `sendto` is called with. */
  method SendWol(mac: string, socketOpen: bool, broadcastSet: bool, delivered: bool)
      returns (ok: bool, packet: Option<seq<byte>>)
    ensures ok <==> packet.Some? && delivered
    ensures packet.Some? <==> Parse(mac, 0, 0).ok && socketOpen && broadcastSet
    ensures packet.Some? ==> MaySend(mac, packet.value)
  {
    var ethaddr := new byte[8];
    var parsed := ConvertMacStringToBinary(mac, ethaddr);
    if !parsed {
      return false, None;
    }
    if !socketOpen {
      return false, None;
    }
    if !broadcastSet {
      return false, None;
    }
    var buf := new byte[128];
    var ptr := BuildPacket(ethaddr, buf);
    packet := Some(buf[..102]);
    AnyRest(mac, ethaddr[..], packet.value);
    if !delivered {
      return false, packet;
    }
    return true, packet;
  }
}
