/**
 * The address filter at the end of `extractIPs` (ip.js:182-192): a candidate
 * is dropped when its dot-separated pieces, compared as strings, name a
 * "this network", private, loopback or link-local range. Only the second
 * piece after "172" is compared as a number, through `parseInt`.
 *
 * Beside the filter as written stands an independent reference: the
 * reserved CIDR blocks as numeric ranges of 32-bit addresses. The two
 * agree on every canonical dotted quad (decimal octets 0-255 without
 * leading zeros); on other candidates the string comparison decides, and
 * `LeadingZeroKept`, `WideOctetKept` and `SecondOctetParsed` record what it
 * does there.
 */
module Routable {
  import opened Wrappers
  import opened Text
  import opened Patterns

  function DigitValue(c: char): (v: nat)
    requires IsDigit(c)
    ensures v <= 9
  {
    (c as int) - ('0' as int)
  }

  /** The decimal value of a string of digits. */
  function Value(t: string): (v: nat)
    requires AllDigits(t)
    decreases |t|
  {
    if |t| == 0 then 0
    else
      var init := t[..|t| - 1];
      assert AllDigits(init) by {
        forall k | 0 <= k < |init| ensures IsDigit(init[k]) {
          assert init[k] == t[k];
        }
      }
      10 * Value(init) + DigitValue(t[|t| - 1])
  }

  /**
   * `parseInt(t)` on the texts the filter meets: the value of the leading
   * run of digits, or `None` (NaN) when `t` does not start with a digit.
   */
  function ParseInt(t: string): (r: Option<nat>)
    ensures r.None? <==> |t| == 0 || !IsDigit(t[0])
    ensures AllDigits(t) && |t| > 0 ==> r == Some(Value(t))
  {
    var n := RunEnd(t, 0);
    assert AllDigits(t[..n]) by {
      forall k | 0 <= k < n ensures IsDigit(t[..n][k]) {
        assert t[..n][k] == t[k];
      }
    }
    assert AllDigits(t) ==> n == |t| && t[..n] == t;
    if n == 0 then None else Some(Value(t[..n]))
  }

  /** `parseInt(x) >= lo && parseInt(x) <= hi`; every comparison with NaN is false. */
  predicate Between(x: Option<nat>, lo: int, hi: int) {
    x.Some? && lo <= x.value <= hi
  }

  /**
   * The filter callback of ip.js:182-192. `parts[1]` is `undefined` when
   * there is no '.'; it then equals no string and `parseInt` makes NaN of it.
   * A candidate is dropped only when its first piece is a canonical octet
   * naming a reserved first octet; how it agrees with the reserved blocks
   * on canonical quads is `KeepIsNotReserved`.
   */
  predicate Keep(ip: string): (r: bool)
    ensures !r ==> var first := Split(ip, '.')[0];
                   CanonicalOctet(first) && Value(first) in {0, 10, 127, 169, 172, 192}
  {
    FirstOctetLiterals();
    PrivateOctetLiterals();
    var parts := Split(ip, '.');
    var first := parts[0];
    var second: Option<string> := if |parts| > 1 then Some(parts[1]) else None;
    !(|| first == "0"
      || first == "10"
      || first == "127"
      || (first == "169" && second == Some("254"))
      || (first == "172" && second.Some? && Between(ParseInt(second.value), 16, 31))
      || (first == "192" && second == Some("168")))
  }

  /** `ips.filter(keep)`: the elements that pass, in their original order. */
  function FilterBy(ips: seq<string>, keep: string -> bool): (r: seq<string>)
    ensures forall x :: x in r <==> x in ips && keep(x)
    ensures |r| <= |ips|
  {
    PassingMember(ips, keep);
    Passing(ips, keep)
  }

  /** The elements of `ips` that pass `keep`, in order. */
  function Passing(ips: seq<string>, keep: string -> bool): seq<string>
    decreases |ips|
  {
    if |ips| == 0 then []
    else if keep(ips[0]) then [ips[0]] + Passing(ips[1..], keep)
    else Passing(ips[1..], keep)
  }

  lemma {:induction false} PassingMember(ips: seq<string>, keep: string -> bool)
    ensures forall x :: x in Passing(ips, keep) <==> x in ips && keep(x)
    ensures |Passing(ips, keep)| <= |ips|
    decreases |ips|
  {
    if |ips| > 0 {
      PassingMember(ips[1..], keep);
      assert forall x :: x in ips <==> x == ips[0] || x in ips[1..];
    }
  }

  /** Filtering a concatenation filters each part: the filter looks at one candidate at a time. */
  lemma FilterConcat(a: seq<string>, b: seq<string>, keep: string -> bool)
    ensures FilterBy(a + b, keep) == FilterBy(a, keep) + FilterBy(b, keep)
  {
    PassingConcat(a, b, keep);
  }

  lemma {:induction false} PassingConcat(a: seq<string>, b: seq<string>, keep: string -> bool)
    ensures Passing(a + b, keep) == Passing(a, keep) + Passing(b, keep)
    decreases |a|
  {
    if |a| > 0 {
      PassingConcat(a[1..], b, keep);
      assert (a + b)[0] == a[0];
      assert (a + b)[1..] == a[1..] + b;
    } else {
      assert a + b == b;
    }
  }

  /** The filter of ip.js:182-192 applied to the candidates of one source. */
  function Filter(ips: seq<string>): (r: seq<string>)
    ensures forall x :: x in r <==> x in ips && Keep(x)
  {
    FilterBy(ips, Keep)
  }

  /** An octet as a canonical address writes it: 1 to 3 digits, no leading zero, at most 255. */
  predicate CanonicalOctet(t: string) {
    GroupOk(t, true) && (|t| == 1 || t[0] != '0') && Value(t) <= 255
  }

  /** Four canonical octets separated by '.'. */
  predicate CanonicalQuad(ip: string) {
    var parts := Split(ip, '.');
    |parts| == 4 && forall i :: 0 <= i < 4 ==> CanonicalOctet(parts[i])
  }

  /** The 32-bit address a canonical dotted quad denotes. */
  function Address(ip: string): (n: nat)
    requires CanonicalQuad(ip)
    ensures n < 0x1_0000_0000
  {
    var parts := Split(ip, '.');
    assert CanonicalOctet(parts[0]) && CanonicalOctet(parts[1]);
    assert CanonicalOctet(parts[2]) && CanonicalOctet(parts[3]);
    Value(parts[0]) * 0x100_0000 + Value(parts[1]) * 0x1_0000 + Value(parts[2]) * 0x100 + Value(parts[3])
  }

  /** A CIDR block as a range of addresses: `base` and the number of addresses in it. */
  datatype Block = Block(base: nat, size: nat)

  /** The ranges the filter is meant to exclude. */
  const ReservedBlocks: seq<Block> := [
    Block(0x0000_0000, 0x100_0000),  // 0.0.0.0/8, "this network"
    Block(0x0A00_0000, 0x100_0000),  // 10.0.0.0/8, private
    Block(0x7F00_0000, 0x100_0000),  // 127.0.0.0/8, loopback
    Block(0xA9FE_0000, 0x1_0000),    // 169.254.0.0/16, link-local
    Block(0xAC10_0000, 0x10_0000),   // 172.16.0.0/12, private
    Block(0xC0A8_0000, 0x1_0000)     // 192.168.0.0/16, private
  ]

  predicate InBlock(n: nat, b: Block) {
    b.base <= n < b.base + b.size
  }

  predicate Reserved(n: nat) {
    exists i :: 0 <= i < |ReservedBlocks| && InBlock(n, ReservedBlocks[i])
  }

  /** The value of a string of at most three digits, digit by digit. */
  lemma ValueDigits(t: string)
    requires AllDigits(t) && 1 <= |t| <= 3
    ensures |t| == 1 ==> Value(t) == DigitValue(t[0])
    ensures |t| == 2 ==> Value(t) == 10 * DigitValue(t[0]) + DigitValue(t[1])
    ensures |t| == 3 ==> Value(t) == 100 * DigitValue(t[0]) + 10 * DigitValue(t[1]) + DigitValue(t[2])
  {
    var u := t[..|t| - 1];
    if |t| >= 2 {
      var w := u[..|u| - 1];
      assert u[|u| - 1] == t[|t| - 2];
      if |t| == 3 {
        assert w[..0] == [] && w[0] == t[0];
      } else {
        assert w == [] && u[0] == t[0];
      }
    } else {
      assert u == [];
    }
  }

  /** A canonical octet is determined by its value. */
  lemma CanonicalUnique(t: string, u: string)
    requires CanonicalOctet(t) && CanonicalOctet(u) && Value(t) == Value(u)
    ensures t == u
  {
    ValueDigits(t);
    ValueDigits(u);
    assert |t| == |u|;
    forall i | 0 <= i < |t| ensures t[i] == u[i] {
      assert DigitValue(t[i]) == DigitValue(u[i]);
    }
  }

  /** For a canonical octet, comparing the text with a canonical literal is comparing values. */
  lemma OctetIs(t: string, lit: string)
    requires CanonicalOctet(t) && CanonicalOctet(lit)
    ensures t == lit <==> Value(t) == Value(lit)
  {
    if Value(t) == Value(lit) {
      CanonicalUnique(t, lit);
    }
  }

  /** Where the fields of an address fall, in terms of its octets. */
  lemma AddressRanges(a: nat, b: nat, c: nat, d: nat)
    requires a <= 255 && b <= 255 && c <= 255 && d <= 255
    ensures var n := a * 0x100_0000 + b * 0x1_0000 + c * 0x100 + d;
            && (InBlock(n, ReservedBlocks[0]) <==> a == 0)
            && (InBlock(n, ReservedBlocks[1]) <==> a == 10)
            && (InBlock(n, ReservedBlocks[2]) <==> a == 127)
            && (InBlock(n, ReservedBlocks[3]) <==> a == 169 && b == 254)
            && (InBlock(n, ReservedBlocks[4]) <==> a == 172 && 16 <= b <= 31)
            && (InBlock(n, ReservedBlocks[5]) <==> a == 192 && b == 168)
  {
  }

  /** The filter's decision on a canonical quad, in terms of the values of its first two octets. */
  lemma KeepByOctets(ip: string)
    requires CanonicalQuad(ip)
    ensures var parts := Split(ip, '.');
            var a, b := Value(parts[0]), Value(parts[1]);
            Keep(ip) <==> !(|| a == 0 || a == 10 || a == 127 || (a == 169 && b == 254)
                            || (a == 172 && 16 <= b <= 31) || (a == 192 && b == 168))
  {
    var parts := Split(ip, '.');
    assert CanonicalOctet(parts[0]) && CanonicalOctet(parts[1]);
    assert ParseInt(parts[1]) == Some(Value(parts[1]));
    FirstOctetLiterals();
    PrivateOctetLiterals();
    SecondOctetLiterals();
    OctetIs(parts[0], "0");
    OctetIs(parts[0], "10");
    OctetIs(parts[0], "127");
    OctetIs(parts[0], "169");
    OctetIs(parts[0], "172");
    OctetIs(parts[0], "192");
    OctetIs(parts[1], "254");
    OctetIs(parts[1], "168");
  }

  /** Membership in the reserved blocks, in terms of the octets of the address. */
  lemma ReservedByOctets(a: nat, b: nat, c: nat, d: nat)
    requires a <= 255 && b <= 255 && c <= 255 && d <= 255
    ensures Reserved(a * 0x100_0000 + b * 0x1_0000 + c * 0x100 + d)
        <==> (|| a == 0 || a == 10 || a == 127 || (a == 169 && b == 254)
              || (a == 172 && 16 <= b <= 31) || (a == 192 && b == 168))
  {
    var n := a * 0x100_0000 + b * 0x1_0000 + c * 0x100 + d;
    AddressRanges(a, b, c, d);
    if Reserved(n) {
      var i :| 0 <= i < |ReservedBlocks| && InBlock(n, ReservedBlocks[i]);
    }
    if a == 0 {
      assert InBlock(n, ReservedBlocks[0]);
    } else if a == 10 {
      assert InBlock(n, ReservedBlocks[1]);
    } else if a == 127 {
      assert InBlock(n, ReservedBlocks[2]);
    } else if a == 169 && b == 254 {
      assert InBlock(n, ReservedBlocks[3]);
    } else if a == 172 && 16 <= b <= 31 {
      assert InBlock(n, ReservedBlocks[4]);
    } else if a == 192 && b == 168 {
      assert InBlock(n, ReservedBlocks[5]);
    }
  }

  /**
   * On canonical dotted quads the filter as written keeps an address
   * exactly when it lies in none of the reserved CIDR blocks.
   */
  lemma KeepIsNotReserved(ip: string)
    requires CanonicalQuad(ip)
    ensures Keep(ip) <==> !Reserved(Address(ip))
  {
    var parts := Split(ip, '.');
    assert CanonicalOctet(parts[0]) && CanonicalOctet(parts[1]);
    assert CanonicalOctet(parts[2]) && CanonicalOctet(parts[3]);
    KeepByOctets(ip);
    ReservedByOctets(Value(parts[0]), Value(parts[1]), Value(parts[2]), Value(parts[3]));
  }

  /** The literals the filter compares the first octet with are canonical octets of the obvious value. */
  lemma FirstOctetLiterals()
    ensures CanonicalOctet("0") && Value("0") == 0
    ensures CanonicalOctet("10") && Value("10") == 10
    ensures CanonicalOctet("127") && Value("127") == 127
  {
    ValueDigits("0");
    ValueDigits("10");
    ValueDigits("127");
  }

  lemma PrivateOctetLiterals()
    ensures CanonicalOctet("169") && Value("169") == 169
    ensures CanonicalOctet("172") && Value("172") == 172
    ensures CanonicalOctet("192") && Value("192") == 192
  {
    ValueDigits("169");
    ValueDigits("172");
    ValueDigits("192");
  }

  lemma SecondOctetLiterals()
    ensures CanonicalOctet("254") && Value("254") == 254
    ensures CanonicalOctet("168") && Value("168") == 168
  {
    ValueDigits("254");
    ValueDigits("168");
  }

  /**
   * Off the canonical quads the filter compares text, not numbers. A first
   * piece written with a leading zero ("00", "010") equals none of the
   * strings it is compared with, so the candidate is kept, even where it
   * reads as 0 or 10.
   */
  lemma LeadingZeroKept(ip: string)
    requires var first := Split(ip, '.')[0]; |first| >= 2 && first[0] == '0'
    ensures Keep(ip)
  {
    var first := Split(ip, '.')[0];
    assert first != "0" && first[0] != "10"[0] && first[0] != "127"[0];
    assert first[0] != "169"[0] && first[0] != "172"[0] && first[0] != "192"[0];
  }

  /** A first piece above 255 ("300") equals none of the strings either, so the candidate is kept. */
  lemma WideOctetKept(ip: string)
    requires var first := Split(ip, '.')[0]; AllDigits(first) && Value(first) > 255
    ensures Keep(ip)
  {
    FirstOctetLiterals();
    PrivateOctetLiterals();
  }

  /**
   * After a first piece "172" the second piece is read by `parseInt`, so a
   * leading zero does not save it: "172.016.0.1" is dropped like "172.16.0.1".
   */
  lemma SecondOctetParsed(ip: string)
    requires var parts := Split(ip, '.');
             |parts| > 1 && parts[0] == "172" && |parts[1]| > 0 && AllDigits(parts[1])
    ensures var parts := Split(ip, '.'); Keep(ip) <==> !(16 <= Value(parts[1]) <= 31)
  {
  }

  /**
   * The value `parseInt` reads from "016": decimal 16, not octal 14, since
   * without a radix the leading zero does not select base 8. So "172.016.x.x"
   * is dropped like "172.16.x.x".
   */
  lemma ParseLeadingZero()
    ensures ParseInt("016") == Some(16)
  {
    ValueDigits("016");
  }
}
