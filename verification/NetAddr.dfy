/** net/netip: IP addresses and address-port pairs, their printed form and their parsers.
    IPv4 text is concrete.  IPv6 text is an arbitrary codec with an inverse and netip's alphabet. */
module NetAddr {
  import opened Text
  import opened Decimal

  type u128 = x: nat | x < 0x1_0000_0000_0000_0000_0000_0000_0000_0000

  datatype Addr = V4(a: u8, b: u8, c: u8, d: u8) | V6(bits: u128)

  datatype AddrPort = AddrPort(addr: Addr, port: u16)

  /** The separator that decides how netip.ParseAddr reads a text. */
  function FirstSpecial(s: string): Option<char> {
    if s == [] then None
    else if s[0] == '.' || s[0] == ':' || s[0] == '%' then Some(s[0])
    else FirstSpecial(s[1..])
  }

  predicate IsV6Char(c: char) {
    IsDigit(c) || 'a' <= c <= 'f' || c == ':' || c == '.'
  }

  /** The shape of every zone-free IPv6 text that netip prints. */
  predicate IsV6Shape(s: string) {
    s != [] && (forall i | 0 <= i < |s| :: IsV6Char(s[i])) && FirstSpecial(s) == Some(':')
  }

  /** Before position i, and at it, no percent sign opens a zone. */
  predicate OutsideZone(s: string, i: nat) {
    i < |s| && '%' !in s[..i + 1]
  }

  /** The characters of IPv6 text that netip reads; in a zone it reads every character. */
  predicate IsV6Input(c: char) {
    IsV6Char(c) || 'A' <= c <= 'F'
  }

  /** IPv6 text: a printer of addresses without zones, and a parser, which may read zones too. */
  datatype V6Codec = V6Codec(show: u128 -> string, parse: string -> Option<u128>) {
    ghost predicate Valid() {
      && (forall n: u128 {:trigger show(n)} :: IsV6Shape(show(n)) && parse(show(n)) == Some(n))
      && (forall s: string, i: nat | OutsideZone(s, i) && parse(s).Some? :: IsV6Input(s[i]))
    }
  }

  function SampleShow(n: u128): string {
    ":" + FormatNat(n)
  }

  function SampleParse(s: string): Option<u128> {
    if s == [] || s[0] != ':' then None
    else
      match ParseNat(s[1..], 0xFFFF_FFFF_FFFF_FFFF_FFFF_FFFF_FFFF_FFFF)
      case None => None
      case Some(n) => Some(n)
  }

  /** The requirements on an IPv6 codec can be met. */
  lemma SampleCodecValid()
    ensures V6Codec(SampleShow, SampleParse).Valid()
  {
    forall n: u128
      ensures IsV6Shape(SampleShow(n)) && SampleParse(SampleShow(n)) == Some(n)
    {
      assert SampleShow(n)[1..] == FormatNat(n);
      ParseFormatNat(n, 0xFFFF_FFFF_FFFF_FFFF_FFFF_FFFF_FFFF_FFFF);
    }
  }

  type ValidV6Codec = c: V6Codec | c.Valid()
    witness (SampleCodecValid(); V6Codec(SampleShow, SampleParse))

  /** Deliberately without a value: every theorem holds for whatever valid codec this is. */
  const V6TEXT: ValidV6Codec

  function ShowV4(a: u8, b: u8, c: u8, d: u8): string {
    FormatNat(a) + "." + (FormatNat(b) + "." + (FormatNat(c) + "." + FormatNat(d)))
  }

  /** Addr.String. */
  function ShowAddr(a: Addr): string {
    match a
    case V4(a, b, c, d) => ShowV4(a, b, c, d)
    case V6(bits) => V6TEXT.show(bits)
  }

  /** The host part of a printed pair. */
  function HostText(a: Addr): string {
    if a.V6? then "[" + ShowAddr(a) + "]" else ShowAddr(a)
  }

  /** AddrPort.String. */
  function ShowAddrPort(p: AddrPort): string {
    HostText(p.addr) + ":" + FormatNat(p.port)
  }

  /** strings.Split for a one-character separator. */
  function Split(s: string, c: char): (parts: seq<string>)
    ensures parts != []
    decreases |s|
  {
    var i := Index(s, c);
    if i == -1 then [s] else [s[..i]] + Split(s[i + 1..], c)
  }

  lemma SplitHead(w: string, c: char, rest: string)
    requires c !in w
    ensures Split(w + [c] + rest, c) == [w] + Split(rest, c)
  {
    hide Index;
    IndexAfter(w, c, rest);
  }

  lemma SplitLast(w: string, c: char)
    requires c !in w
    ensures Split(w, c) == [w]
  {
  }

  /** One field of a dotted quad: no leading zero, at most 255. */
  function ParseOctet(s: string): Option<u8> {
    if |s| > 1 && s[0] == '0' then None
    else
      match ParseNat(s, 255)
      case None => None
      case Some(n) => Some(n)
  }

  function ParseV4(s: string): Option<Addr> {
    var parts := Split(s, '.');
    if |parts| != 4 then None
    else
      match (ParseOctet(parts[0]), ParseOctet(parts[1]), ParseOctet(parts[2]), ParseOctet(parts[3]))
      case (Some(a), Some(b), Some(c), Some(d)) => Some(V4(a, b, c, d))
      case _ => None
  }

  /** netip.ParseAddr; every failure is None. */
  function ParseAddr(s: string): Option<Addr> {
    match FirstSpecial(s)
    case Some('.') => ParseV4(s)
    case Some(':') =>
      (match V6TEXT.parse(s)
       case Some(n) => Some(V6(n))
       case None => None)
    case _ => None
  }

  /** netip.ParseAddrPort: split at the last colon, brackets around IPv6 and around nothing else. */
  function ParseAddrPort(s: string): Option<AddrPort> {
    var i := LastIndex(s, ':');
    if i <= 0 || i + 1 == |s| then None
    else
      var ip := s[..i];
      var bracketed := ip[0] == '[';
      if bracketed && (|ip| < 2 || ip[|ip| - 1] != ']') then None
      else
        match (ParseNat(s[i + 1..], MAX_UINT16), ParseAddr(if bracketed then ip[1..|ip| - 1] else ip))
        case (Some(port), Some(addr)) => if bracketed == addr.V6? then Some(AddrPort(addr, port)) else None
        case _ => None
  }

  lemma {:induction false} FirstSpecialOf(w: string, rest: string)
    requires forall i | 0 <= i < |w| :: w[i] != '.' && w[i] != ':' && w[i] != '%'
    ensures FirstSpecial(w + rest) == FirstSpecial(rest)
  {
    if w == [] {
      assert w + rest == rest;
    } else {
      FirstSpecialOf(w[1..], rest);
      assert (w + rest)[1..] == w[1..] + rest;
    }
  }

  lemma OctetRoundTrip(n: u8)
    ensures ParseOctet(FormatNat(n)) == Some(n)
    ensures '.' !in FormatNat(n)
  {
    ParseFormatNat(n, 255);
  }

  lemma SplitDotted(a: string, b: string, c: string, d: string)
    requires '.' !in a && '.' !in b && '.' !in c && '.' !in d
    ensures Split(a + "." + (b + "." + (c + "." + d)), '.') == [a, b, c, d]
  {
    hide Split;
    var sc := c + "." + d;
    var sb := b + "." + sc;
    assert Split(sc, '.') == [c, d] by {
      SplitHead(c, '.', d);
      SplitLast(d, '.');
    }
    assert Split(sb, '.') == [b, c, d] by {
      SplitHead(b, '.', sc);
      assert [b] + [c, d] == [b, c, d];
    }
    SplitHead(a, '.', sb);
    assert [a] + [b, c, d] == [a, b, c, d];
  }

  lemma DottedSpecial(w: string, rest: string)
    requires AllDigits(w)
    ensures FirstSpecial(w + "." + rest) == Some('.')
  {
    FirstSpecialOf(w, "." + rest);
    assert w + "." + rest == w + ("." + rest);
  }

  lemma V4RoundTrip(a: u8, b: u8, c: u8, d: u8)
    ensures ParseAddr(ShowV4(a, b, c, d)) == Some(V4(a, b, c, d))
  {
    var s := ShowV4(a, b, c, d);
    assert Split(s, '.') == [FormatNat(a), FormatNat(b), FormatNat(c), FormatNat(d)] by {
      OctetRoundTrip(a);
      OctetRoundTrip(b);
      OctetRoundTrip(c);
      OctetRoundTrip(d);
      SplitDotted(FormatNat(a), FormatNat(b), FormatNat(c), FormatNat(d));
    }
    assert ParseV4(s) == Some(V4(a, b, c, d)) by {
      OctetRoundTrip(a);
      OctetRoundTrip(b);
      OctetRoundTrip(c);
      OctetRoundTrip(d);
    }
    DottedSpecial(FormatNat(a), FormatNat(b) + "." + (FormatNat(c) + "." + FormatNat(d)));
  }

  /** Parsing undoes printing for every address. */
  lemma AddrRoundTrip(a: Addr)
    ensures ParseAddr(ShowAddr(a)) == Some(a)
  {
    match a
    case V4(x, y, z, w) => V4RoundTrip(x, y, z, w);
    case V6(n) => assert IsV6Shape(V6TEXT.show(n));
  }

  /** Printed addresses use digits, hexadecimal letters, dots and colons only; IPv4 has no colon. */
  lemma AddrAlphabet(a: Addr)
    ensures ShowAddr(a) != []
    ensures forall i | 0 <= i < |ShowAddr(a)| :: IsV6Char(ShowAddr(a)[i])
    ensures a.V4? ==> ':' !in ShowAddr(a)
  {
    match a
    case V4(a, b, c, d) =>
      hide FormatNat;
      var r2 := FormatNat(c) + "." + FormatNat(d);
      assert forall i | 0 <= i < |r2| :: IsDigit(r2[i]) || r2[i] == '.';
      var r1 := FormatNat(b) + "." + r2;
      assert forall i | 0 <= i < |r1| :: IsDigit(r1[i]) || r1[i] == '.';
      assert ShowV4(a, b, c, d) == FormatNat(a) + "." + r1;
    case V6(n) =>
      assert IsV6Shape(V6TEXT.show(n));
  }

  /** host:port splits back when the port is a printed number. */
  lemma LastColonOf(host: string, n: nat)
    ensures var s := host + ":" + FormatNat(n);
            LastIndex(s, ':') == |host| && s[..|host|] == host && s[|host| + 1..] == FormatNat(n)
  {
  }

  lemma HostTextShape(a: Addr)
    ensures var h := HostText(a);
            h != [] && (h[0] == '[' <==> a.V6?)
            && (a.V6? ==> |h| > 2 && h[|h| - 1] == ']' && h[1..|h| - 1] == ShowAddr(a))
            && (a.V4? ==> h == ShowAddr(a))
  {
  }

  /** Parsing undoes printing for every address-port pair. */
  lemma AddrPortRoundTrip(p: AddrPort)
    ensures ParseAddrPort(ShowAddrPort(p)) == Some(p)
  {
    var h := HostText(p.addr);
    HostTextShape(p.addr);
    LastColonOf(h, p.port);
    ParseFormatNat(p.port, MAX_UINT16);
    AddrRoundTrip(p.addr);
  }

  /** A printed pair is a word of the address alphabet plus brackets. */
  lemma AddrPortAlphabet(p: AddrPort)
    ensures ShowAddrPort(p) != []
    ensures forall i | 0 <= i < |ShowAddrPort(p)| ::
              IsV6Char(ShowAddrPort(p)[i]) || ShowAddrPort(p)[i] == '[' || ShowAddrPort(p)[i] == ']'
  {
    hide ShowAddr;
    AddrAlphabet(p.addr);
  }

  /** A printed address without a port is no pair. */
  lemma BareAddressIsNoPair(a: Addr)
    ensures ParseAddrPort(ShowAddr(a)) == None
  {
    AddrAlphabet(a);
    var s := ShowAddr(a);
    if a.V6? {
      hide ParseV4;
      var i := LastIndex(s, ':');
      assert s[0] != '[' && IsV6Char(s[0]);
      assert IsV6Shape(s);
      if i > 0 {
        FirstSpecialOfPrefix(s, i);
      }
    } else {
      assert LastIndex(s, ':') == -1;
    }
  }

  lemma {:induction false} FirstSpecialOfPrefix(s: string, i: nat)
    requires FirstSpecial(s) == Some(':') && i <= |s|
    ensures FirstSpecial(s[..i]) == None || FirstSpecial(s[..i]) == Some(':')
  {
    if i > 0 && s[0] != ':' {
      FirstSpecialOfPrefix(s[1..], i - 1);
      assert s[..i][1..] == s[1..][..i - 1];
    }
  }

  lemma SmallNumbers()
    ensures FormatNat(0) == "0" && FormatNat(2) == "2" && FormatNat(10) == "10" && FormatNat(192) == "192"
    ensures FormatNat(9987) == "9987"
  {
    assert FormatNat(19) == "19";
    assert FormatNat(99) == "99";
    assert FormatNat(998) == "998";
  }

  /** How addresses and pairs are written. */
  lemma AddressTexts(n: u128, port: u16)
    ensures ShowAddr(V4(192, 0, 2, 10)) == "192.0.2.10"
    ensures ShowAddrPort(AddrPort(V4(192, 0, 2, 10), 9987)) == "192.0.2.10:9987"
    ensures ShowAddrPort(AddrPort(V6(n), port)) == "[" + V6TEXT.show(n) + "]:" + FormatNat(port)
  {
    hide FormatNat;
    SmallNumbers();
    assert "2" + "." + "10" == "2.10" && "0" + "." + "2.10" == "0.2.10";
    assert "192" + "." + "0.2.10" == "192.0.2.10";
    PairText(V6TEXT.show(n), FormatNat(port));
  }

  lemma PairText(host: string, port: string)
    ensures "[" + host + "]" + ":" + port == "[" + host + "]:" + port
  {
  }

  // ----- Which texts are addresses and pairs -----

  ghost predicate IsV4Text(s: string) {
    exists a: u8, b: u8, c: u8, d: u8 :: s == ShowV4(a, b, c, d)
  }

  predicate IsV6Text(s: string) {
    FirstSpecial(s) == Some(':') && V6TEXT.parse(s).Some?
  }

  /** A decimal number of at most 16 bits, leading zeros allowed. */
  predicate IsPort(p: string) {
    p != [] && AllDigits(p) && Value(p) <= MAX_UINT16
  }

  ghost predicate IsHost(host: string) {
    IsV4Text(host) || exists inner :: IsV6Text(inner) && host == "[" + inner + "]"
  }

  /** An address-port pair: a host, bracketed for IPv6 and only then, a colon and a port. */
  ghost predicate IsPairText(w: string) {
    exists host, port :: w == host + ":" + port && IsPort(port) && IsHost(host)
  }

  /** netip accepts an octet only as it prints it. */
  lemma ParseOctetExact(s: string, n: u8)
    ensures ParseOctet(s) == Some(n) <==> s == FormatNat(n)
  {
    OctetRoundTrip(n);
    if ParseOctet(s) == Some(n) {
      FormatOfValue(s);
    }
  }

  lemma SplitFirst(s: string, c: char) returns (rest: string)
    requires |Split(s, c)| > 1
    ensures s == Split(s, c)[0] + [c] + rest && Split(rest, c) == Split(s, c)[1..]
  {
    hide Index;
    var i := Index(s, c);
    rest := s[i + 1..];
    assert Split(s, c) == [s[..i]] + Split(rest, c);
    assert s == s[..i] + [c] + rest;
  }

  lemma SplitOne(s: string, c: char)
    requires |Split(s, c)| == 1
    ensures s == Split(s, c)[0]
  {
  }

  lemma SplitFour(s: string)
    requires |Split(s, '.')| == 4
    ensures var p := Split(s, '.'); s == p[0] + "." + (p[1] + "." + (p[2] + "." + p[3]))
  {
    hide Split;
    var p := Split(s, '.');
    var t := SplitFirst(s, '.');
    var u := SplitFirst(t, '.');
    var v := SplitFirst(u, '.');
    SplitOne(v, '.');
  }

  /** netip accepts an IPv4 address only as it prints it. */
  lemma ParseV4Exact(s: string)
    ensures ParseV4(s).Some? ==> IsV4Text(s)
  {
    hide ParseOctet, Split;
    if ParseV4(s).Some? {
      var p, v := Split(s, '.'), ParseV4(s).value;
      SplitFour(s);
      ParseOctetExact(p[0], v.a);
      ParseOctetExact(p[1], v.b);
      ParseOctetExact(p[2], v.c);
      ParseOctetExact(p[3], v.d);
      assert s == ShowV4(v.a, v.b, v.c, v.d);
    }
  }

  lemma V4TextParses(s: string)
    requires IsV4Text(s)
    ensures ParseAddr(s).Some? && ParseAddr(s).value.V4? && FirstSpecial(s) == Some('.')
  {
    hide ParseV4, FirstSpecial;
    var a: u8, b: u8, c: u8, d: u8 :| s == ShowV4(a, b, c, d);
    V4RoundTrip(a, b, c, d);
    DottedSpecial(FormatNat(a), FormatNat(b) + "." + (FormatNat(c) + "." + FormatNat(d)));
  }

  /** ParseAddr reads exactly the IPv4 and the IPv6 texts. */
  lemma ParseAddrExact(s: string)
    ensures ParseAddr(s).Some? && ParseAddr(s).value.V4? <==> IsV4Text(s)
    ensures ParseAddr(s).Some? && ParseAddr(s).value.V6? <==> IsV6Text(s)
  {
    hide FirstSpecial, IsV4Text;
    ParseV4Exact(s);
    if IsV4Text(s) {
      V4TextParses(s);
    }
  }

  /** ParseAddrPort reads exactly the pairs. */
  lemma ParseAddrPortExact(w: string)
    ensures ParseAddrPort(w).Some? <==> IsPairText(w)
  {
    if ParseAddrPort(w).Some? {
      PairIsText(w);
    }
    if IsPairText(w) {
      var host, port :| w == host + ":" + port && IsPort(port) && IsHost(host);
      TextIsPair(host, port);
    }
  }

  lemma PairIsText(w: string)
    requires ParseAddrPort(w).Some?
    ensures IsPairText(w)
  {
    hide ParseAddr, IsV4Text, IsV6Text, IsHost, Value, LastIndex;
    var i := LastIndex(w, ':');
    var ip, port := w[..i], w[i + 1..];
    assert w == ip + ":" + port;
    if ip[0] == '[' {
      var inner := ip[1..|ip| - 1];
      ParseAddrExact(inner);
      assert ip == "[" + inner + "]";
      HostForms(inner);
    } else {
      ParseAddrExact(ip);
      HostForms(ip);
    }
    assert IsPort(port) && IsHost(ip);
  }

  lemma HostForms(s: string)
    ensures IsV4Text(s) ==> IsHost(s)
    ensures IsV6Text(s) ==> IsHost("[" + s + "]")
  {
    hide IsV6Text, IsV4Text;
  }

  lemma HostShape(host: string)
    requires IsHost(host)
    ensures host != [] && (host[0] == '[' <==> !IsV4Text(host))
    ensures host[0] == '[' ==> |host| > 2 && host[|host| - 1] == ']' && IsV6Text(host[1..|host| - 1])
  {
    if IsV4Text(host) {
      var a: u8, b: u8, c: u8, d: u8 :| host == ShowV4(a, b, c, d);
      AddrAlphabet(V4(a, b, c, d));
      assert IsV6Char(host[0]);
    } else {
      var inner :| IsV6Text(inner) && host == "[" + inner + "]";
      assert host[1..|host| - 1] == inner;
    }
  }

  lemma LastColonBeforePort(host: string, port: string)
    requires AllDigits(port)
    ensures var w := host + ":" + port; LastIndex(w, ':') == |host| && w[..|host|] == host && w[|host| + 1..] == port
  {
    hide LastIndex;
    var w := host + ":" + port;
    assert w[|host|] == ':' && forall k | |host| < k < |w| :: w[k] == port[k - |host| - 1];
  }

  lemma TextIsPair(host: string, port: string)
    requires IsPort(port) && IsHost(host)
    ensures ParseAddrPort(host + ":" + port).Some?
  {
    hide ParseAddr, IsV4Text, IsV6Text, Value, LastIndex, IsHost;
    var w := host + ":" + port;
    HostShape(host);
    LastColonBeforePort(host, port);
    if host[0] == '[' {
      ParseAddrExact(host[1..|host| - 1]);
    } else {
      ParseAddrExact(host);
    }
  }

  /** Outside a zone no address and no pair holds a character outside their alphabet. */
  lemma AddrTextAlphabet(s: string, i: nat)
    requires OutsideZone(s, i) && !IsV6Input(s[i])
    ensures ParseAddr(s) == None
  {
    hide FirstSpecial, ParseV4;
    ParseAddrExact(s);
    if IsV4Text(s) {
      var a: u8, b: u8, c: u8, d: u8 :| s == ShowV4(a, b, c, d);
      AddrAlphabet(V4(a, b, c, d));
    }
  }

  lemma PairTextAlphabet(w: string, i: nat)
    requires OutsideZone(w, i) && !IsV6Input(w[i]) && w[i] != '[' && w[i] != ']'
    ensures ParseAddrPort(w) == None
  {
    hide ParseAddr, Value, LastIndex, ParseNat;
    var colon := LastIndex(w, ':');
    if colon > 0 && colon + 1 < |w| {
      var ip, port := w[..colon], w[colon + 1..];
      if i < colon {
        assert ip[..i + 1] == w[..i + 1];
        AddrTextAlphabet(ip, i);
        if |ip| >= 2 && ip[0] == '[' && ip[|ip| - 1] == ']' {
          var inner := ip[1..|ip| - 1];
          assert inner[i - 1] == w[i] && inner[..i] == w[..i + 1][1..];
          AddrTextAlphabet(inner, i - 1);
        }
      } else {
        assert port[i - colon - 1] == w[i];
        PortAlphabet(port, w[i]);
      }
    }
  }

  lemma PortAlphabet(port: string, c: char)
    requires c in port && !IsDigit(c)
    ensures ParseNat(port, MAX_UINT16) == None
  {
  }
}
