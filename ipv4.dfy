/**
  IPv4 addresses and networks as Python's `ipaddress` module reads and prints
  them: `ip_address` on a dotted quad, `ip_network(text, strict=False)` on
  `address[/prefix]`, and `str()` of a network.
 */
module Ipv4 {
  import opened Wrappers
  import opened PyStr

  const AddressSpace: nat := 0x1_0000_0000

  /** An IPv4 network: its network address as a 32-bit number and its prefix length. */
  datatype Network = Network(addr: nat, prefix: nat)

  function Pow2(k: nat): (r: nat)
    ensures r >= 1
  {
    if k == 0 then 1 else 2 * Pow2(k - 1)
  }

  lemma {:induction false} Pow2Add(a: nat, b: nat)
    ensures Pow2(a + b) == Pow2(a) * Pow2(b)
  {
    if a > 0 {
      Pow2Add(a - 1, b);
    }
  }

  lemma Pow2Constants()
    ensures Pow2(8) == 256 && Pow2(32) == AddressSpace
  {
    assert Pow2(4) == 16 by {
      assert Pow2(1) == 2 && Pow2(2) == 4 && Pow2(3) == 8;
    }
    Pow2Add(4, 4);
    Pow2Add(8, 8);
    Pow2Add(16, 16);
  }

  /** Number of addresses in a network with prefix length `prefix`. */
  function BlockSize(prefix: nat): nat
    requires prefix <= 32
  {
    Pow2(32 - prefix)
  }

  /** Canonical network: host bits zero, inside the address space. */
  predicate Valid(n: Network)
  {
    n.prefix <= 32 && n.addr < AddressSpace && n.addr % BlockSize(n.prefix) == 0
  }

  /** `strict=False`: the host bits of `addr` are zeroed. */
  function Normalize(addr: nat, prefix: nat): (n: Network)
    requires addr < AddressSpace && prefix <= 32
    ensures Valid(n) && n.prefix == prefix
    ensures n.addr <= addr < n.addr + BlockSize(prefix)
  {
    NormalizeFacts(addr, prefix);
    Network(RoundDown(addr, BlockSize(prefix)), prefix)
  }

  /** `x` with its remainder modulo `m` cleared. */
  function RoundDown(x: nat, m: nat): nat
    requires m > 0
  {
    m * (x / m)
  }

  lemma NormalizeFacts(addr: nat, prefix: nat)
    requires addr < AddressSpace && prefix <= 32
    ensures Valid(Network(RoundDown(addr, BlockSize(prefix)), prefix))
    ensures RoundDown(addr, BlockSize(prefix)) <= addr < RoundDown(addr, BlockSize(prefix)) + BlockSize(prefix)
  {
    RoundDownFacts(addr, BlockSize(prefix));
  }

  lemma RoundDownFacts(x: nat, m: nat)
    requires m > 0
    ensures RoundDown(x, m) <= x < RoundDown(x, m) + m
    ensures RoundDown(x, m) % m == 0
  {
    var q := x / m;
    DivMod(x, m);
    MultipleMod(q, m);
  }

  // ---- arithmetic on a non-constant divisor, one step at a time ----

  lemma DivMod(x: int, m: int)
    requires m > 0
    ensures x == m * (x / m) + x % m && 0 <= x % m < m
  {
  }

  lemma MulAtLeast(m: int, t: int)
    requires m > 0 && t >= 1
    ensures m * t >= m
  {
  }

  lemma MulAtMost(m: int, t: int)
    requires m > 0 && t <= -1
    ensures m * t <= -m
  {
  }

  lemma Distribute(m: int, a: int, b: int)
    ensures m * (a - b - 1) == m * a - m * b - m
  {
  }

  lemma ModAddSelf(x: nat, m: nat)
    requires m > 0
    ensures (x + m) % m == x % m
  {
    var a, b := (x + m) / m, x / m;
    DivMod(x, m);
    DivMod(x + m, m);
    Distribute(m, a, b);
    var t := a - b - 1;
    if t >= 1 {
      MulAtLeast(m, t);
    }
    if t <= -1 {
      MulAtMost(m, t);
    }
  }

  lemma {:induction false} MultipleMod(q: nat, m: nat)
    requires m > 0
    ensures (m * q) % m == 0
  {
    if q > 0 {
      MultipleMod(q - 1, m);
      assert m * q == m * (q - 1) + m;
      ModAddSelf(m * (q - 1), m);
    }
  }

  lemma NormalizeValid(n: Network)
    requires Valid(n)
    ensures Normalize(n.addr, n.prefix) == n
  {
    DivMod(n.addr, BlockSize(n.prefix));
  }

  // ---- decimal digits ----

  predicate IsDigit(c: char) { '0' <= c <= '9' }

  predicate AllDigits(s: string) { forall i :: 0 <= i < |s| ==> IsDigit(s[i]) }

  function DigitChar(d: nat): (c: char)
    requires d < 10
    ensures IsDigit(c)
  {
    ('0' as int + d) as char
  }

  /** Value of a string of ASCII decimal digits, as `int(s, 10)`. */
  function DigitsValue(s: string): nat
    requires AllDigits(s)
  {
    if s == [] then 0 else 10 * DigitsValue(s[..|s| - 1]) + (s[|s| - 1] as int - '0' as int)
  }

  /** Decimal rendering without leading zeros, as `str(n)`. */
  function ShowNat(n: nat): (s: string)
    ensures |s| >= 1 && AllDigits(s)
  {
    if n < 10 then [DigitChar(n)] else ShowNat(n / 10) + [DigitChar(n % 10)]
  }

  lemma {:induction false} ShowNatValue(n: nat)
    ensures DigitsValue(ShowNat(n)) == n
  {
    if n >= 10 {
      ShowNatValue(n / 10);
      var s := ShowNat(n);
      assert s[..|s| - 1] == ShowNat(n / 10);
    }
  }

  lemma {:induction false} ShowNatShape(n: nat)
    ensures n < 1000 ==> |ShowNat(n)| <= 3
    ensures n < 100 ==> |ShowNat(n)| <= 2
    ensures n < 10 ==> |ShowNat(n)| == 1
    ensures (ShowNat(n)[0] == '0') <==> n == 0
  {
    if n >= 10 {
      ShowNatShape(n / 10);
    }
  }

  lemma NoSeparatorInShowNat(n: nat)
    ensures '.' !in ShowNat(n) && '/' !in ShowNat(n) && ' ' !in ShowNat(n)
  {
    var s := ShowNat(n);
    forall c | c in s
      ensures IsDigit(c)
    {
      var i :| 0 <= i < |s| && s[i] == c;
    }
  }

  // ---- addresses ----

  /**
    One part of a dotted quad, as `ipaddress` accepts it: one to three ASCII
    digits, no leading zero, at most 255.
   */
  function ParseOctet(s: string): (r: Option<nat>)
    ensures r.Some? ==> r.value < 256
  {
    if s == [] || !AllDigits(s) || |s| > 3 || (s != "0" && s[0] == '0') then None
    else if DigitsValue(s) > 255 then None
    else Some(DigitsValue(s))
  }

  /** `ip_address(s)` restricted to IPv4: exactly four dot-separated octets. */
  function ParseAddress(s: string): (r: Option<nat>)
    ensures r.Some? ==> r.value < AddressSpace
  {
    var parts := Split(s, '.');
    if |parts| != 4 then None
    else match (ParseOctet(parts[0]), ParseOctet(parts[1]), ParseOctet(parts[2]), ParseOctet(parts[3]))
      case (Some(a), Some(b), Some(c), Some(d)) => Some(((a * 256 + b) * 256 + c) * 256 + d)
      case _ => None
  }

  /** The first three octets of an address whose `addr / 256` is `key`, as text. */
  function KeyText(key: nat): string
  {
    ShowNat(key / 256 / 256) + "." + ShowNat(key / 256 % 256) + "." + ShowNat(key % 256)
  }

  /** `str(IPv4Address(addr))`. */
  function ShowAddress(addr: nat): string
  {
    KeyText(addr / 256) + "." + ShowNat(addr % 256)
  }

  lemma ParseShowOctet(n: nat)
    requires n < 256
    ensures ParseOctet(ShowNat(n)) == Some(n)
  {
    ShowNatShape(n);
    ShowNatValue(n);
    if n == 0 {
      assert ShowNat(n) == "0";
    }
  }

  lemma SplitFour(a: string, b: string, c: string, d: string)
    requires '.' !in a && '.' !in b && '.' !in c && '.' !in d
    ensures Split(a + "." + b + "." + c + "." + d, '.') == [a, b, c, d]
  {
    var ab := a + "." + b;
    var abc := ab + "." + c;
    SplitNoSep(a, '.');
    SplitJoinLast(a, '.', b);
    assert Split(ab, '.') == [a, b];
    SplitJoinLast(ab, '.', c);
    assert Split(abc, '.') == [a, b, c];
    SplitJoinLast(abc, '.', d);
  }

  /** Printing an address and reading it back gives the address. */
  lemma ParseShowAddress(addr: nat)
    requires addr < AddressSpace
    ensures ParseAddress(ShowAddress(addr)) == Some(addr)
  {
    var a, b, c, d := addr / 256 / 256 / 256, addr / 256 / 256 % 256, addr / 256 % 256, addr % 256;
    assert ShowAddress(addr) == ShowNat(a) + "." + ShowNat(b) + "." + ShowNat(c) + "." + ShowNat(d);
    ParseShowQuad(a, b, c, d);
    Recombine(addr);
  }

  lemma ParseShowQuad(a: nat, b: nat, c: nat, d: nat)
    requires a < 256 && b < 256 && c < 256 && d < 256
    ensures ParseAddress(ShowNat(a) + "." + ShowNat(b) + "." + ShowNat(c) + "." + ShowNat(d)) == Some(((a * 256 + b) * 256 + c) * 256 + d)
  {
    ShowOctets();
    ParseQuadVia(a, b, c, d, ShowNat);
  }

  /** Every octet value prints as text that parses back to it and has no dot. */
  lemma ShowOctets()
    ensures forall n: nat :: n < 256 ==> ParseOctet(ShowNat(n)) == Some(n) && '.' !in ShowNat(n)
  {
    forall n: nat | n < 256
      ensures ParseOctet(ShowNat(n)) == Some(n) && '.' !in ShowNat(n)
    {
      ParseShowOctet(n);
      NoSeparatorInShowNat(n);
    }
  }

  lemma ParseQuadVia(a: nat, b: nat, c: nat, d: nat, show: nat -> string)
    requires a < 256 && b < 256 && c < 256 && d < 256
    requires forall n: nat :: n < 256 ==> ParseOctet(show(n)) == Some(n) && '.' !in show(n)
    ensures ParseAddress(show(a) + "." + show(b) + "." + show(c) + "." + show(d)) == Some(((a * 256 + b) * 256 + c) * 256 + d)
  {
    var s := show(a) + "." + show(b) + "." + show(c) + "." + show(d);
    assert ParseOctet(show(a)) == Some(a) && ParseOctet(show(b)) == Some(b);
    assert ParseOctet(show(c)) == Some(c) && ParseOctet(show(d)) == Some(d);
    SplitFour(show(a), show(b), show(c), show(d));
    ParseAddressParts(s, [show(a), show(b), show(c), show(d)], a, b, c, d);
  }

  lemma ParseAddressParts(s: string, parts: seq<string>, a: nat, b: nat, c: nat, d: nat)
    requires Split(s, '.') == parts && |parts| == 4
    requires ParseOctet(parts[0]) == Some(a) && ParseOctet(parts[1]) == Some(b)
    requires ParseOctet(parts[2]) == Some(c) && ParseOctet(parts[3]) == Some(d)
    ensures ParseAddress(s) == Some(((a * 256 + b) * 256 + c) * 256 + d)
  {
  }

  /** The four octets of an address put back together give the address. */
  lemma Recombine(addr: nat)
    ensures ((addr / 256 / 256 / 256 * 256 + addr / 256 / 256 % 256) * 256 + addr / 256 % 256) * 256 + addr % 256 == addr
  {
    var q1 := addr / 256;
    var q2 := q1 / 256;
    var q3 := q2 / 256;
    assert q2 == q3 * 256 + q2 % 256;
    assert q1 == q2 * 256 + q1 % 256;
    assert addr == q1 * 256 + addr % 256;
  }

  lemma NoSlashInShowAddress(addr: nat)
    ensures '/' !in ShowAddress(addr) && ' ' !in ShowAddress(addr)
  {
    NoSeparatorInShowNat(addr / 256 / 256 / 256);
    NoSeparatorInShowNat(addr / 256 / 256 % 256);
    NoSeparatorInShowNat(addr / 256 % 256);
    NoSeparatorInShowNat(addr % 256);
  }

  // ---- networks ----

  /** The prefix-length part of `ip_network`'s argument: ASCII digits, value 0..32. */
  function ParsePrefix(s: string): (r: Option<nat>)
    ensures r.Some? ==> r.value <= 32
  {
    if s == [] || !AllDigits(s) || DigitsValue(s) > 32 then None else Some(DigitsValue(s))
  }

  /**
    `ip_network(s, strict=False)`: an address with an optional `/prefix`
    (a missing prefix means /32), host bits zeroed; `None` where it raises.
   */
  function ParseNetwork(s: string): (r: Option<Network>)
    ensures r.Some? ==> Valid(r.value)
    ensures r.Some? ==>
      (ParseAddress(BeforeFirst(s, '/')).Some?
       && r.value == Normalize(ParseAddress(BeforeFirst(s, '/')).value, r.value.prefix))
    ensures r.Some? && '/' !in s ==> r.value.prefix == 32
  {
    var parts := Split(s, '/');
    if |parts| > 2 then None
    else match ParseAddress(parts[0])
      case None => None
      case Some(a) =>
        if |parts| == 1 then Some(Normalize(a, 32))
        else match ParsePrefix(parts[1])
          case None => None
          case Some(p) => Some(Normalize(a, p))
  }

  /** `str(network)`: `address/prefix`. */
  function ShowNetwork(n: Network): string
  {
    ShowAddress(n.addr) + "/" + ShowNat(n.prefix)
  }

  /** Any address with any prefix length parses, host bits zeroed (`strict=False`). */
  lemma ParseNormalizes(addr: nat, p: nat)
    requires addr < AddressSpace && p <= 32
    ensures ParseNetwork(ShowAddress(addr) + "/" + ShowNat(p)) == Some(Normalize(addr, p))
  {
    var a, q := ShowAddress(addr), ShowNat(p);
    var text := a + "/" + q;
    assert Split(text, '/') == [a, q] by {
      NoSlashInShowAddress(addr);
      NoSeparatorInShowNat(p);
      assert text == a + ['/'] + q;
      SplitJoin(a, '/', q);
      SplitNoSep(q, '/');
    }
    assert ParseAddress(a) == Some(addr) by {
      ParseShowAddress(addr);
    }
    assert ParsePrefix(q) == Some(p) by {
      ShowNatValue(p);
    }
    ParseNetworkParts(text, a, q, addr, p);
  }

  lemma ParseNetworkParts(s: string, a: string, q: string, addr: nat, p: nat)
    requires Split(s, '/') == [a, q] && ParseAddress(a) == Some(addr) && ParsePrefix(q) == Some(p)
    ensures ParseNetwork(s) == Some(Normalize(addr, p))
  {
  }

  /** An address without a prefix parses as its /32. */
  lemma ParseHostNormalizes(addr: nat)
    requires addr < AddressSpace
    ensures ParseNetwork(ShowAddress(addr)) == Some(Normalize(addr, 32))
  {
    NoSlashInShowAddress(addr);
    SplitNoSep(ShowAddress(addr), '/');
    ParseShowAddress(addr);
  }

  /** Printing a canonical network and reading it back gives the network. */
  lemma ParseShowNetwork(n: Network)
    requires Valid(n)
    ensures ParseNetwork(ShowNetwork(n)) == Some(n)
  {
    ParseNormalizes(n.addr, n.prefix);
    NormalizeValid(n);
  }

  /** Distinct canonical networks print differently. */
  lemma ShowNetworkInjective(n: Network, m: Network)
    requires Valid(n) && Valid(m) && ShowNetwork(n) == ShowNetwork(m)
    ensures n == m
  {
    ParseShowNetwork(n);
    ParseShowNetwork(m);
  }

  /** Distinct /24 keys give distinct first-three-octet texts. */
  lemma KeyTextInjective(k: nat, j: nat)
    requires k < 0x100_0000 && j < 0x100_0000 && KeyText(k) == KeyText(j)
    ensures k == j
  {
    ShowKeyAddress(k);
    ShowKeyAddress(j);
    ParseShowAddress(k * 256);
    ParseShowAddress(j * 256);
  }

  lemma ShowKeyAddress(k: nat)
    requires k < 0x100_0000
    ensures k * 256 < AddressSpace
    ensures ShowAddress(k * 256) == KeyText(k) + "." + ShowNat(0)
  {
    assert (k * 256) / 256 == k && (k * 256) % 256 == 0;
  }

  /** `f"{first_three_octets}.0/24"` is the text of the /24 network of that key. */
  lemma AggregateText(k: nat)
    ensures KeyText(k) + ".0/24" == ShowNetwork(Network(256 * k, 24))
  {
    var a := 256 * k;
    assert a / 256 == k && a % 256 == 0;
    assert ShowAddress(a) == KeyText(k) + "." + ShowNat(0);
    assert ShowNat(0) == "0" && ShowNat(24) == "24";
    assert ShowNetwork(Network(a, 24)) == ShowAddress(a) + "/" + ShowNat(24);
  }
}
