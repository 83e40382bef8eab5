/** `ifla_addr2str` of the netlink debugging helpers (nlutils.c): a link-layer
    address as lower-case two-digit hexadecimal bytes separated by colons,
    written into a 1024-byte static buffer. */
module NlAddr {
  import opened Types

  /** A lower-case hexadecimal digit, as `%x` prints it. */
  function HexDigit(d: nat): (c: char)
    requires d < 16
    ensures '0' <= c <= '9' || 'a' <= c <= 'f'
  {
    if d < 10 then (48 + d) as char else (97 + d - 10) as char
  }

  /** `%02x` of one byte: the high and the low nibble as digits. */
  function Hex2(b: byte): (s: string)
    ensures |s| == 2
  {
    [HexDigit((b as int) / 16), HexDigit((b as int) % 16)]
  }

  /** The text for a non-empty address: the first byte, then `:` and the next
      byte for each further one. */
  function HexColon(a: seq<byte>): string
    requires |a| >= 1
  {
    if |a| == 1 then Hex2(a[0]) else HexColon(a[..|a| - 1]) + ":" + Hex2(a[|a| - 1])
  }

  /** Three characters per byte, less the missing leading colon. */
  lemma {:induction false} HexColonLength(a: seq<byte>)
    requires |a| >= 1
    ensures |HexColon(a)| == 3 * |a| - 1
  {
    if |a| > 1 {
      HexColonLength(a[..|a| - 1]);
    }
  }

  /** `ifla_addr2str`: `sprintf("%02x", addr[0])`, then `":%02x"` appended for
      each further byte. It reads `addr[0]` whatever the length and writes
      three characters per byte into 1024 bytes, so callers must pass at least
      one and at most 341 bytes. */
  method IflaAddr2Str(addr: seq<byte>) returns (buf: string)
    requires 1 <= |addr| <= 341
    ensures buf == HexColon(addr)
    ensures |buf| == 3 * |addr| - 1 && |buf| < 1024
  {
    buf := Hex2(addr[0]);
    assert addr[..1] == [addr[0]];
    var i := 1;
    while i < |addr|
      invariant 1 <= i <= |addr|
      invariant buf == HexColon(addr[..i])
    {
      assert addr[..i + 1][..i] == addr[..i];
      buf := buf + ":" + Hex2(addr[i]);
      i := i + 1;
    }
    assert addr[..i] == addr;
    HexColonLength(addr);
  }

  // ---------------------------------------------------------------------------
  // Reading the text back

  /** The value of a lower-case hexadecimal digit. */
  function HexValue(c: char): (v: Option<nat>)
    ensures v.Some? ==> v.value < 16 && HexDigit(v.value) == c
  {
    if '0' <= c <= '9' then Some(c as int - 48)
    else if 'a' <= c <= 'f' then Some(c as int - 97 + 10)
    else None
  }

  function ParseByte(s: string): Option<byte>
    requires |s| == 2
  {
    var h, l := HexValue(s[0]), HexValue(s[1]);
    if h.Some? && l.Some? then Some((h.value * 16 + l.value) as byte) else None
  }

  /** Reads colon-separated two-digit bytes back, from the last one. */
  function ParseHexColon(s: string): Option<seq<byte>>
    decreases |s|
  {
    if |s| == 2 then
      var b := ParseByte(s);
      if b.Some? then Some([b.value]) else None
    else if |s| >= 5 && s[|s| - 3] == ':' then
      var init, b := ParseHexColon(s[..|s| - 3]), ParseByte(s[|s| - 2..]);
      if init.Some? && b.Some? then Some(init.value + [b.value]) else None
    else None
  }

  /** Each digit is read back as the value it was written for. */
  lemma HexValueDigit(d: nat)
    requires d < 16
    ensures HexValue(HexDigit(d)) == Some(d)
  {
  }

  lemma ParseHex2(b: byte)
    ensures ParseByte(Hex2(b)) == Some(b)
  {
    var h, l := (b as int) / 16, (b as int) % 16;
    HexValueDigit(h);
    HexValueDigit(l);
    var s := Hex2(b);
    assert HexValue(s[0]) == Some(h) && HexValue(s[1]) == Some(l);
    assert ParseByte(s) == Some((h * 16 + l) as byte);
    ByteOfNibbles(b);
  }

  lemma ByteOfNibbles(b: byte)
    ensures ((b as int) / 16 * 16 + (b as int) % 16) as byte == b
  {
    assert (b as int) / 16 * 16 + (b as int) % 16 == b as int;
  }

  /** The text determines the address: reading it back gives the bytes. */
  lemma {:induction false} HexColonRoundTrip(a: seq<byte>)
    requires |a| >= 1
    ensures ParseHexColon(HexColon(a)) == Some(a)
  {
    var n := |a|;
    if n == 1 {
      ParseSingle(a[0]);
      assert [a[0]] == a;
    } else {
      ParseHex2(a[n - 1]);
      var init := a[..n - 1];
      HexColonLength(init);
      HexColonRoundTrip(init);
      var t, h := HexColon(init), Hex2(a[n - 1]);
      assert HexColon(a) == t + ":" + h;
      ParseStep(t, h, init, a[n - 1]);
      assert init + [a[n - 1]] == a;
    }
  }

  lemma ParseSingle(b: byte)
    ensures ParseHexColon(Hex2(b)) == Some([b])
  {
    ParseHex2(b);
  }

  /** Reading `t + ":" + h` reads `t`, then the byte in `h`. */
  lemma ParseStep(t: string, h: string, init: seq<byte>, b: byte)
    requires |t| >= 2 && |h| == 2
    requires ParseHexColon(t) == Some(init) && ParseByte(h) == Some(b)
    ensures ParseHexColon(t + ":" + h) == Some(init + [b])
  {
    var s := t + ":" + h;
    assert s[..|s| - 3] == t;
    assert s[|s| - 2..] == h;
  }

  /** Different addresses give different texts. */
  lemma HexColonInjective(a: seq<byte>, b: seq<byte>)
    requires |a| >= 1 && |b| >= 1 && HexColon(a) == HexColon(b)
    ensures a == b
  {
    HexColonRoundTrip(a);
    HexColonRoundTrip(b);
  }
}
