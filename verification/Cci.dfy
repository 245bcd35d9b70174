/** CCI messages (Figure 7-19 of CXL r3.1): a 12-byte header followed by the payload. */
module Cci {
  import opened Wire

  const HEADER: nat := 12
  const CATEGORY_REQ: byte := 0
  const CATEGORY_RSP: byte := 1
  const VENDOR_EXT_STATUS: nat := 0xabcd
  const TUNNEL_COMMAND: byte := 0x00
  const MLD_PORT: byte := 0x53

  /** A message is anything long enough to hold the header. */
  predicate IsMessage(m: Bytes) { |m| >= HEADER }

  function RequestHeader(tag: int, command: byte, commandSet: byte, plLength: nat): (h: Bytes)
    ensures |h| == HEADER
    ensures h[0] == CATEGORY_REQ && h[1] == tag % 256 && h[3] == command && h[4] == commandSet
  {
    [CATEGORY_REQ, tag % 256, 0, command, commandSet,
     plLength % 256, plLength / 256 % 256, plLength / 65536 % 256,
     0, 0] + Le16(VENDOR_EXT_STATUS)
  }

  function Tag(m: Bytes): byte
    requires IsMessage(m)
  {
    m[1]
  }

  predicate SameOpcode(a: Bytes, b: Bytes)
    requires IsMessage(a) && IsMessage(b)
  {
    a[3] == b[3] && a[4] == b[4]
  }

  function ReturnCode(m: Bytes): nat
    requires IsMessage(m)
  {
    Get16(m, 8)
  }

  /** The payload length is a 20-bit field; the upper four bits of its last byte are flags. */
  function PayloadLength(m: Bytes): (n: nat)
    requires IsMessage(m)
    ensures n < 0x10_0000
  {
    m[5] as int + 256 * (m[6] as int) + 65536 * (m[7] as int % 16)
  }

  lemma Split20(n: nat)
    requires n < 0x10_0000
    ensures n == n % 256 + 256 * (n / 256 % 256) + 65536 * (n / 65536 % 16)
  {
    assert n / 65536 == n / 256 / 256;
  }

  /** The verdict on a reply: -1 when it is refused, otherwise the return code it carries.
      `len` is the received length, which a failed receive turns into a huge number. */
  function SanityCheck(req: Bytes, rsp: Bytes, len: nat, fixedLength: bool, minLength: nat): (rc: int)
    requires IsMessage(req) && IsMessage(rsp)
  {
    if len < HEADER then -1
    else if rsp[0] != CATEGORY_RSP then -1
    else if Tag(rsp) != Tag(req) then -1
    else if !SameOpcode(rsp, req) then -1
    else if ReturnCode(rsp) != 0 then ReturnCode(rsp)
    else if fixedLength && len != minLength then -1
    else if !fixedLength && len < minLength then -1
    else if len - HEADER != PayloadLength(rsp) then -1
    else 0
  }

  /** What the header of a request says, byte by byte. */
  lemma RequestHeaderReads(tag: int, command: byte, commandSet: byte, plLength: nat)
    ensures var h := RequestHeader(tag, command, commandSet, plLength);
            && h[0] == 0 && h[1] == tag % 256 && h[2] == 0 && h[3] == command && h[4] == commandSet
            && h[5] as int + 256 * (h[6] as int) + 65536 * (h[7] as int) == plLength % 0x100_0000
            && h[8] == h[9] == 0 && h[10] == 0xcd && h[11] == 0xab
            && (plLength < 0x10_0000 ==> PayloadLength(h) == plLength)
  {
    ThreeBytes(plLength);
    if plLength < 0x10_0000 { Split20(plLength); }
  }

  lemma ThreeBytes(n: nat)
    ensures n % 256 + 256 * (n / 256 % 256) + 65536 * (n / 65536 % 256) == n % 0x100_0000
  {
    var a, b := n % 256, n / 256;
    var c, d := b % 256, b / 256;
    var e, f := d % 256, d / 256;
    assert n == 0x100_0000 * f + (65536 * e + 256 * c + a);
    assert n / 65536 == d;
    LowPart(n, f, 65536 * e + 256 * c + a);
  }

  lemma TwentyBits(n: nat)
    ensures n % 256 + 256 * (n / 256 % 256) + 65536 * (n / 65536 % 16) == n % 0x10_0000
  {
    var a, b := n % 256, n / 256;
    var c, d := b % 256, b / 256;
    var e, f := d % 16, d / 16;
    assert n == 0x10_0000 * f + (65536 * e + 256 * c + a);
    assert n / 65536 == d;
    LowTwenty(n, f, 65536 * e + 256 * c + a);
  }

  lemma LowTwenty(n: nat, q: nat, r: nat)
    requires n == 0x10_0000 * q + r && r < 0x10_0000
    ensures n % 0x10_0000 == r
  {
  }

  lemma LowPart(n: nat, q: nat, r: nat)
    requires n == 0x100_0000 * q + r && r < 0x100_0000
    ensures n % 0x100_0000 == r
  {
  }

  /** The bytes say that `rsp` answers `req`. */
  predicate Replies(req: Bytes, rsp: Bytes)
    requires IsMessage(req) && IsMessage(rsp)
  {
    rsp[0] == 1 && rsp[1] == req[1] && rsp[3] == req[3] && rsp[4] == req[4]
  }

  /** The verdict, read off the bytes: success exactly for a reply without an error whose length is the
      stated one and acceptable to the caller; a code exactly when a reply states one, whatever its
      length; refusal otherwise. */
  lemma SanityCheckExact(req: Bytes, rsp: Bytes, len: nat, fixedLength: bool, minLength: nat)
    requires IsMessage(req) && IsMessage(rsp)
    ensures var rc := SanityCheck(req, rsp, len, fixedLength, minLength);
            var code := rsp[8] as int + 256 * (rsp[9] as int);
            var stated := rsp[5] as int + 256 * (rsp[6] as int) + 65536 * (rsp[7] as int % 16);
            && (rc == 0 <==> len >= 12 && Replies(req, rsp) && code == 0 && len == 12 + stated &&
                             if fixedLength then len == minLength else len >= minLength)
            && (rc > 0 <==> len >= 12 && Replies(req, rsp) && code != 0)
            && (rc > 0 ==> rc == code) && (rc < 0 ==> rc == -1)
  {
  }
}
