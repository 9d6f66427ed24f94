/**
 * IPv4 addresses as the option parser handles them: host-order `uint32_t`
 * values, the DHCP-range default derived from the gateway, and inet_ntoa's
 * dotted-quad text.
 */
module Ipv4 {
  import opened Types
  import Wire

  /**
   * The gateway with its lowest octet replaced by 254. The source masks with
   * 0xFFFFFF00 and ors in 0xFE; clearing the low eight bits of a 32-bit value
   * is the same as rounding it down to a multiple of 256.
   */
  function DhcpEndDefault(gw: uint32): (e: uint32)
    ensures e / 0x100 == gw / 0x100
    ensures e % 0x100 == 0xFE
  {
    gw / 0x100 * 0x100 + 0xFE
  }

  function DigitChar(d: nat): (c: char)
    requires d < 10
    ensures '0' <= c <= '9'
  {
    ('0' as int + d) as char
  }

  /** Decimal text of a natural number, no leading zeros. */
  function Dec(n: nat): (s: string)
    ensures 1 <= |s|
    ensures forall k :: 0 <= k < |s| ==> '0' <= s[k] <= '9'
    ensures |s| > 1 ==> s[0] != '0'
    decreases n
  {
    if n < 10 then [DigitChar(n)] else Dec(n / 10) + [DigitChar(n % 10)]
  }

  predicate IsDigits(s: string) {
    forall k :: 0 <= k < |s| ==> '0' <= s[k] <= '9'
  }

  /** Value of a decimal digit string (the inverse of Dec). */
  function DecValue(s: string): nat
    requires IsDigits(s)
  {
    if |s| == 0 then 0 else DecValue(s[..|s| - 1]) * 10 + (s[|s| - 1] as int - '0' as int)
  }

  lemma {:induction false} DecValueDec(n: nat)
    ensures DecValue(Dec(n)) == n
    decreases n
  {
    if n >= 10 {
      var s := Dec(n);
      assert s[..|s| - 1] == Dec(n / 10);
      DecValueDec(n / 10);
    }
  }

  lemma DecInjective(m: nat, n: nat)
    ensures Dec(m) == Dec(n) ==> m == n
  {
    if Dec(m) == Dec(n) {
      DecValueDec(m);
      DecValueDec(n);
    }
  }

  /** inet_ntoa: the octets of the network-order address, in memory order, joined with dots. */
  function Ntoa(a: uint32): (s: string)
  {
    var b := Wire.Htonl(a);
    Dec(b[0]) + "." + Dec(b[1]) + "." + Dec(b[2]) + "." + Dec(b[3])
  }

  /** The text inet_ntoa gives is the dotted quad of the octets, highest first. */
  lemma NtoaOctets(a: uint32)
    ensures Ntoa(a) == Dec(a / 0x100_0000) + "." + Dec(a / 0x1_0000 % 0x100) + "."
                       + Dec(a / 0x100 % 0x100) + "." + Dec(a % 0x100)
  {
  }

  /**
   * The default DHCP end shares the gateway's first three octets and ends in
   * ".254", both as a number and as the text stored in the options.
   */
  lemma DhcpEndDefaultText(gw: uint32)
    ensures Wire.Htonl(DhcpEndDefault(gw))[..3] == Wire.Htonl(gw)[..3]
    ensures Wire.Htonl(DhcpEndDefault(gw))[3] == 254
    ensures var t := Ntoa(DhcpEndDefault(gw));
            |t| >= 4 && t[|t| - 4..] == ".254"
  {
    var e := DhcpEndDefault(gw);
    assert e / 0x100_0000 == gw / 0x100_0000 by {
      assert e / 0x100_0000 == e / 0x100 / 0x1_0000;
      assert gw / 0x100_0000 == gw / 0x100 / 0x1_0000;
    }
    assert e / 0x1_0000 == gw / 0x1_0000 by {
      assert e / 0x1_0000 == e / 0x100 / 0x100;
      assert gw / 0x1_0000 == gw / 0x100 / 0x100;
    }
    assert Dec(254) == "254";
  }
}
