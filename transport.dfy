/**
 * The transport abstraction: addresses, wire envelopes, the "ip:port"
 * rendering of an address and the "<tag>:<body>" payload convention used
 * for replies and by the gossip handler.
 */
module Transport {
  import opened Wrappers

  /** A network endpoint; a value type used as a map key. */
  datatype Address = Address(ip: string, port: int) {

    /** The "ip:port" rendering, with the port written in decimal. */
    function String(): (s: string)
      ensures s == ip + ":" + IntDecimal(port)
      ensures ParseAddress(s) == Some(this)
    {
      AddressRoundTrip(ip, port);
      ip + ":" + IntDecimal(port)
    }
  }

  /** A wire envelope. The network back-reference that replies use is passed separately. */
  datatype Message = Message(from: Address, to: Address, payload: string)

  // ---------------------------------------------------------------------------
  // Decimal rendering of integers, as the "%d" verb writes them

  predicate IsDigit(c: char) { '0' <= c <= '9' }

  predicate AllDigits(s: string) { forall i :: 0 <= i < |s| ==> IsDigit(s[i]) }

  function Digit(d: nat): (c: char)
    requires d < 10
    ensures IsDigit(c) && c as int - '0' as int == d
  {
    ('0' as int + d) as char
  }

  /** Decimal digits of a natural number, most significant first, without leading zeros. */
  function NatDecimal(n: nat): (s: string)
    ensures |s| > 0 && AllDigits(s)
    ensures s[0] == '0' ==> n == 0 && |s| == 1
    decreases n
  {
    if n < 10 then [Digit(n)] else NatDecimal(n / 10) + [Digit(n % 10)]
  }

  /** A decimal integer, with a leading '-' for negative values. */
  function IntDecimal(n: int): string
  {
    if n < 0 then "-" + NatDecimal(-n) else NatDecimal(n)
  }

  /** The value of a string of decimal digits. */
  function DigitsValue(s: string): nat
    requires AllDigits(s)
  {
    if s == [] then 0 else DigitsValue(s[..|s| - 1]) * 10 + (s[|s| - 1] as int - '0' as int)
  }

  /**
   * Reads back what IntDecimal writes. It also accepts forms IntDecimal never
   * writes, such as leading zeros ("007") and "-0"; any other string is rejected.
   */
  function ParseInt(s: string): Option<int>
  {
    if |s| > 1 && s[0] == '-' && AllDigits(s[1..]) then Some(0 - DigitsValue(s[1..]))
    else if |s| > 0 && AllDigits(s) then Some(DigitsValue(s))
    else None
  }

  lemma {:induction false} NatDecimalValue(n: nat)
    ensures DigitsValue(NatDecimal(n)) == n
    decreases n
  {
    if n >= 10 {
      NatDecimalValue(n / 10);
      var s := NatDecimal(n);
      assert s[..|s| - 1] == NatDecimal(n / 10);
    }
  }

  /** Decimal rendering is undone by ParseInt, for every integer. */
  lemma IntDecimalRoundTrip(n: int)
    ensures ParseInt(IntDecimal(n)) == Some(n)
  {
    var s := IntDecimal(n);
    if n < 0 {
      var d := NatDecimal(-n);
      NatDecimalValue(-n);
      assert s == "-" + d;
      assert s[1..] == d;
      assert |s| > 1 && s[0] == '-' && AllDigits(s[1..]);
    } else {
      NatDecimalValue(n);
      assert IsDigit(s[0]);
    }
  }

  // ---------------------------------------------------------------------------
  // Reading an address back from its rendering

  /** The index of the last occurrence of c in s, or -1. */
  function LastIndexOf(s: string, c: char): (r: int)
    ensures -1 <= r < |s|
    ensures r >= 0 ==> s[r] == c
    ensures forall i :: r < i < |s| ==> s[i] != c
  {
    if s == [] then -1
    else if s[|s| - 1] == c then |s| - 1
    else LastIndexOf(s[..|s| - 1], c)
  }

  lemma {:induction false} LastIndexAfter(a: string, c: char, b: string)
    requires forall i :: 0 <= i < |b| ==> b[i] != c
    ensures LastIndexOf(a + [c] + b, c) == |a|
    decreases |b|
  {
    var s := a + [c] + b;
    if b != [] {
      assert s[..|s| - 1] == a + [c] + b[..|b| - 1];
      LastIndexAfter(a, c, b[..|b| - 1]);
    }
  }

  /** Splits at the last ':'; the IP part may itself contain ':' (IPv6). */
  function ParseAddress(s: string): Option<Address>
  {
    var i := LastIndexOf(s, ':');
    if i < 0 then None
    else match ParseInt(s[i + 1..])
      case Some(port) => Some(Address(s[..i], port))
      case None => None
  }

  lemma AddressRoundTrip(ip: string, port: int)
    ensures ParseAddress(ip + ":" + IntDecimal(port)) == Some(Address(ip, port))
  {
    var d := IntDecimal(port);
    var s := ip + ":" + d;
    assert forall i :: 0 <= i < |d| ==> d[i] != ':' by {
      if port < 0 { assert d == "-" + NatDecimal(-port); }
    }
    LastIndexAfter(ip, ':', d);
    assert s == ip + [':'] + d;
    assert s[|ip| + 1..] == d && s[..|ip|] == ip;
    IntDecimalRoundTrip(port);
  }

  /** Distinct addresses never share a rendering. */
  lemma AddressStringInjective(a: Address, b: Address)
    requires a.String() == b.String()
    ensures a == b
  {
  }

  // ---------------------------------------------------------------------------
  // Payloads and replies

  /** The "<tag>:<body>" payload convention. */
  function TagPayload(tag: string, body: string): (p: string)
    ensures |p| == |tag| + 1 + |body|
    ensures p[..|tag|] == tag && p[|tag|] == ':'
    ensures p[|tag| + 1..] == body
  {
    tag + ":" + body
  }

  /** The reply to m: endpoints swapped, payload "<prefix>:<message>". */
  function Reply(m: Message, prefix: string, message: string): (r: Message)
    ensures r.from == m.to && r.to == m.from
    ensures |r.payload| == |prefix| + 1 + |message|
    ensures r.payload[..|prefix|] == prefix && r.payload[|prefix|] == ':'
    ensures r.payload[|prefix| + 1..] == message
  {
    Message(m.to, m.from, TagPayload(prefix, message))
  }

  /** Replying to a reply addresses the original sender again. */
  lemma ReplyOfReply(m: Message, p1: string, s1: string, p2: string, s2: string)
    ensures Reply(Reply(m, p1, s1), p2, s2).to == m.to
    ensures Reply(Reply(m, p1, s1), p2, s2).from == m.from
  {
  }
}
