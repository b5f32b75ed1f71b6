/** expandCIDRs: the addresses of a list of prefixes, found by counting up a byte slice in place (section 3.1 of
    RFC 4632 defines the prefixes). An address is its bytes, most significant first. */
module CidrExpansion {
  import opened Collections
  import opened Options

  type Byte = x: int | 0 <= x < 256
  type Address = seq<Byte>

  const MAX_IPS := 4096

  // ---- Division ------------------------------------------------------------------------------------

  lemma Division(x: nat, size: nat)
    requires size >= 1
    ensures 0 <= x % size < size && x == size * (x / size) + x % size && x % size <= x
  {
    assert 0 <= x % size < size && x / size >= 0;
    assert x == size * (x / size) + x % size;
    MulAtLeast(size, 0, x / size);
  }

  /** `x` rounded down to a multiple of `size`. */
  function RoundDown(x: nat, size: nat): (r: nat)
    requires size >= 1
    ensures r <= x
  {
    Division(x, size);
    x - x % size
  }

  lemma MulAtLeast(size: nat, a: nat, b: nat)
    requires a <= b
    ensures size * a <= size * b
  {
  }

  lemma MulGap(size: nat, a: nat, b: nat)
    requires a < b
    ensures size * a + size <= size * b
  {
    MulAtLeast(size, a + 1, b);
    assert size * (a + 1) == size * a + size;
  }

  lemma Remainder(x: nat, size: nat, q: nat, r: nat)
    requires x == size * q + r && r < size
    ensures x % size == r && x / size == q
  {
    Division(x, size);
    if x / size < q { MulGap(size, x / size, q); }
    if q < x / size { MulGap(size, q, x / size); }
  }

  // ---- Addresses and numbers -----------------------------------------------------------------------

  function Pow2(k: nat): (p: nat)
    ensures p >= 1
  {
    if k == 0 then 1 else 2 * Pow2(k - 1)
  }

  lemma {:induction false} Pow2Sum(j: nat, k: nat)
    ensures Pow2(j + k) == Pow2(j) * Pow2(k)
  {
    if j > 0 { Pow2Sum(j - 1, k); }
  }

  lemma Pow2OfZero()
    ensures Pow2(0) == 1
  {
  }

  lemma Pow2OfByte()
    ensures Pow2(8) == 256
  {
    assert Pow2(4) == 16;
  }

  lemma OneByteMore(k: nat)
    ensures Pow2(8 + k) == 256 * Pow2(k)
  {
    Pow2Sum(8, k);
    Pow2OfByte();
  }

  function Value(b: Address): nat {
    if b == [] then 0 else 256 * Value(b[..|b| - 1]) + b[|b| - 1]
  }

  function Bytes(n: nat, v: nat): (b: Address)
    ensures |b| == n
  {
    if n == 0 then [] else Bytes(n - 1, v / 256) + [v % 256]
  }

  lemma {:induction false} ValueIsBounded(b: Address)
    ensures Value(b) < Pow2(8 * |b|)
  {
    if b != [] {
      ValueIsBounded(b[..|b| - 1]);
      OneByteMore(8 * (|b| - 1));
    }
  }

  lemma {:induction false} BytesOfValue(b: Address)
    ensures Bytes(|b|, Value(b)) == b
  {
    if b != [] { BytesOfValue(b[..|b| - 1]); }
  }

  lemma {:induction false} ValueOfBytes(n: nat, v: nat)
    requires v < Pow2(8 * n)
    ensures Value(Bytes(n, v)) == v
  {
    if n > 0 {
      OneByteMore(8 * (n - 1));
      ValueOfBytes(n - 1, v / 256);
      assert Bytes(n, v)[..n - 1] == Bytes(n - 1, v / 256);
    }
  }

  lemma ValueIsInjective(a: Address, b: Address)
    requires |a| == |b| && Value(a) == Value(b)
    ensures a == b
  {
    BytesOfValue(a);
    BytesOfValue(b);
  }

  // ---- Counting up ---------------------------------------------------------------------------------

  /** The next address, carrying from the last byte. */
  function Inc(b: Address): (next: Address)
    ensures |next| == |b|
  {
    if b == [] then []
    else
      var front, last := b[..|b| - 1], b[|b| - 1];
      if last == 255 then Inc(front) + [0] else front + [last + 1]
  }

  /** Counting up is adding one, modulo the size of the address space. */
  lemma {:induction false} IncAddsOne(b: Address)
    ensures Value(Inc(b)) == (Value(b) + 1) % Pow2(8 * |b|)
  {
    hide Pow2;
    Pow2OfZero();
    if b == [] {
      Remainder(1, 1, 1, 0);
    } else {
      var front, last := b[..|b| - 1], b[|b| - 1];
      OneByteMore(8 * |front|);
      ValueIsBounded(front);
      if last == 255 {
        IncAddsOne(front);
        assert Inc(b)[..|b| - 1] == Inc(front);
        CarryIntoFront(Value(front), Pow2(8 * |front|));
      } else {
        assert Inc(b)[..|b| - 1] == front;
        NoCarry(Value(front), last, Pow2(8 * |front|));
      }
    }
  }

  lemma NoCarry(v: nat, last: Byte, size: nat)
    requires v < size && last < 255
    ensures 256 * v + last + 1 == (256 * v + last + 1) % (256 * size)
  {
    Remainder(256 * v + last + 1, 256 * size, 0, 256 * v + last + 1);
  }

  lemma CarryIntoFront(v: nat, size: nat)
    requires v < size
    ensures 256 * ((v + 1) % size) == (256 * v + 256) % (256 * size)
  {
    if v + 1 == size {
      Remainder(v + 1, size, 1, 0);
      Remainder(256 * v + 256, 256 * size, 1, 0);
    } else {
      Remainder(v + 1, size, 0, v + 1);
      Remainder(256 * v + 256, 256 * size, 0, 256 * v + 256);
    }
  }

  lemma IncOfPrefix(b: Address, j: nat)
    requires j < |b|
    ensures Inc(b[..j + 1]) == if b[j] == 255 then Inc(b[..j]) + [0] else b[..j] + [b[j] + 1]
  {
    assert b[..j + 1][..j] == b[..j];
  }

  lemma UpdateMiddle(b: Address, j: nat, rest: Address, x: Byte)
    requires j < |b|
    ensures (b[..j + 1] + rest)[j := x] == b[..j] + ([x] + rest)
  {
  }

  lemma IncOfNothing()
    ensures Inc([]) == []
  {
  }

  method IncIP(ip: array<Byte>)
    modifies ip
    ensures ip[..] == Inc(old(ip[..]))
  {
    hide Inc;
    ghost var was := ip[..];
    ghost var zeros: Address := [];
    var j := ip.Length - 1;
    assert was[..j + 1] == was;
    while j >= 0
      invariant -1 <= j < ip.Length
      invariant ip[..] == was[..j + 1] + zeros && |zeros| == ip.Length - 1 - j
      invariant Inc(was) == Inc(was[..j + 1]) + zeros
    {
      IncOfPrefix(was, j);
      ghost var before := ip[..];
      assert before[j] == ip[j] == was[j];
      ip[j] := if ip[j] == 255 then 0 else ip[j] + 1;
      assert ip[..] == before[j := ip[j]];
      UpdateMiddle(was, j, zeros, ip[j]);
      Associate(was[..j], [ip[j]], zeros);
      if ip[j] > 0 { return; }
      Associate(Inc(was[..j]), [0], zeros);
      zeros := [0] + zeros;
      j := j - 1;
    }
    IncOfNothing();
  }

  // ---- Masks ---------------------------------------------------------------------------------------

  /** How many leading bits of byte `i` a mask of `ones` bits keeps. */
  function Lead(ones: nat, i: nat): (lead: nat)
    ensures lead <= 8
  {
    if ones >= 8 * (i + 1) then 8 else if ones <= 8 * i then 0 else ones - 8 * i
  }

  function MaskByte(b: Byte, lead: nat): (masked: Byte)
    requires lead <= 8
    ensures masked <= b
  {
    RoundDown(b, Pow2(8 - lead))
  }

  /** The address with all bits after the first `ones` cleared. */
  function Masked(b: Address, ones: nat): (masked: Address)
    ensures |masked| == |b|
  {
    seq(|b|, i requires 0 <= i < |b| => MaskByte(b[i], Lead(ones, i)))
  }

  lemma {:induction false} MaskKeepsAll(b: Address, ones: nat)
    requires ones >= 8 * |b|
    ensures Masked(b, ones) == b
  {
    forall i | 0 <= i < |b| ensures Masked(b, ones)[i] == b[i] {
      assert Lead(ones, i) == 8 && Pow2(0) == 1;
    }
  }

  lemma MaskedParts(b: Address, ones: nat)
    requires b != []
    ensures Masked(b, ones)[..|b| - 1] == Masked(b[..|b| - 1], ones)
    ensures Masked(b, ones)[|b| - 1] == MaskByte(b[|b| - 1], Lead(ones, |b| - 1))
  {
  }

  /** Masking rounds the value down to a multiple of the block size. */
  lemma {:induction false} MaskRoundsDown(b: Address, ones: nat)
    requires ones <= 8 * |b|
    ensures Value(Masked(b, ones)) == RoundDown(Value(b), Pow2(8 * |b| - ones))
  {
    hide Masked, Pow2, MaskByte, RoundDown;
    if b == [] {
      assert Masked(b, ones) == [];
    } else {
      var front, last := b[..|b| - 1], b[|b| - 1];
      MaskedParts(b, ones);
      if ones <= 8 * |front| {
        MaskRoundsDown(front, ones);
        ClearedByte(last);
        OneByteMore(8 * |front| - ones);
        RemainderWithByte(Value(front), last, Pow2(8 * |front| - ones));
      } else {
        MaskKeepsAll(front, ones);
        KeptPart(Value(front), last, 8 * |b| - ones);
      }
    }
  }

  lemma ClearedByte(b: Byte)
    ensures MaskByte(b, 0) == 0
  {
    Pow2OfByte();
  }

  lemma RemainderWithByte(v: nat, last: Byte, size: nat)
    requires size >= 1
    ensures 256 * RoundDown(v, size) == RoundDown(256 * v + last, 256 * size)
  {
    var q, r := v / size, v % size;
    Division(v, size);
    SplitProduct(256, size, q, r);
    assert 256 * v + last == (256 * size) * q + (256 * r + last);
    assert 256 * r + last < 256 * size;
    Remainder(256 * v + last, 256 * size, q, 256 * r + last);
  }

  lemma KeptPart(v: nat, last: Byte, host: nat)
    requires host < 8
    ensures 256 * v + MaskByte(last, 8 - host) == RoundDown(256 * v + last, Pow2(host))
  {
    hide Pow2;
    Pow2Sum(host, 8 - host);
    Pow2OfByte();
    LowBits(v, last, Pow2(host), Pow2(8 - host));
    assert 8 - (8 - host) == host;
  }

  lemma LowBits(v: nat, last: Byte, size: nat, k: nat)
    requires size >= 1 && size * k == 256
    ensures (256 * v + last) % size == last % size
  {
    Division(last, size);
    SplitProduct(size, k, v, last / size);
    Remainder(256 * v + last, size, k * v + last / size, last % size);
  }

  lemma SplitProduct(size: nat, k: nat, v: nat, q: nat)
    ensures size * (k * v + q) == (size * k) * v + size * q
  {
    assert size * (k * v + q) == size * (k * v) + size * q;
    assert size * (k * v) == (size * k) * v;
  }

  // ---- Prefixes ------------------------------------------------------------------------------------

  /** What net.ParseCIDR returns: an address of 4 or 16 bytes and a mask of `ones` bits. */
  datatype Prefix = Prefix(ip: Address, ones: nat)

  predicate ValidPrefix(p: Prefix) {
    (|p.ip| == 4 || |p.ip| == 16) && p.ones <= 8 * |p.ip|
  }

  function BlockSize(p: Prefix): nat
    requires ValidPrefix(p)
  {
    Pow2(8 * |p.ip| - p.ones)
  }

  /** The first address of the prefix, as a number. */
  function Network(p: Prefix): nat
    requires ValidPrefix(p)
  {
    RoundDown(Value(p.ip), BlockSize(p))
  }

  /** IPNet.Contains: the masked bytes are the same. */
  predicate Contains(p: Prefix, ip: Address) { |ip| == |p.ip| && Masked(p.ip, p.ones) == Masked(ip, p.ones) }

  lemma RoundDownIsBlock(x: nat, v: nat, size: nat)
    requires size >= 1
    ensures RoundDown(x, size) == RoundDown(v, size) <==> RoundDown(v, size) <= x < RoundDown(v, size) + size
  {
    var q := v / size;
    Division(v, size);
    Division(x, size);
    if size * q <= x < size * q + size {
      Remainder(x, size, q, x - size * q);
    }
  }

  /** A prefix contains exactly the addresses of its block. */
  lemma ContainsIsBlock(p: Prefix, ip: Address)
    requires ValidPrefix(p) && |ip| == |p.ip|
    ensures Contains(p, ip) <==> Network(p) <= Value(ip) < Network(p) + BlockSize(p)
  {
    hide Masked, Pow2, Value, RoundDown;
    MaskRoundsDown(p.ip, p.ones);
    MaskRoundsDown(ip, p.ones);
    RoundDownIsBlock(Value(ip), Value(p.ip), BlockSize(p));
    if Value(Masked(p.ip, p.ones)) == Value(Masked(ip, p.ones)) {
      ValueIsInjective(Masked(p.ip, p.ones), Masked(ip, p.ones));
    }
  }

  /** The block lies in the address space. */
  lemma BlockFits(p: Prefix)
    requires ValidPrefix(p)
    ensures Network(p) + BlockSize(p) <= Pow2(8 * |p.ip|)
  {
    hide Pow2, Value;
    var size, count := BlockSize(p), Pow2(p.ones);
    ValueIsBounded(p.ip);
    Pow2Sum(8 * |p.ip| - p.ones, p.ones);
    var q := Value(p.ip) / size;
    Division(Value(p.ip), size);
    if q >= count { MulAtLeast(size, count, q); }
    MulGap(size, q, count);
  }

  // ---- The hosts of a prefix -----------------------------------------------------------------------

  /** The addresses that the scan leaves out. */
  predicate Skipped(p: Prefix, v: nat) {
    |p.ip| == 4 && p.ones < 31 && (v % 256 == 0 || v % 256 == 255)
  }

  /** The kept addresses with values `low .. high`, in ascending order. */
  function Hosts(p: Prefix, low: nat, high: nat): seq<Address>
    decreases high
  {
    if low >= high then []
    else Hosts(p, low, high - 1) + if Skipped(p, high - 1) then [] else [Bytes(|p.ip|, high - 1)]
  }

  function Block(p: Prefix): seq<Address>
    requires ValidPrefix(p)
  {
    Hosts(p, Network(p), Network(p) + BlockSize(p))
  }

  /** How many values below `x` end in 0 or 255. */
  function Ends(x: nat): nat { 2 * (x / 256) + if x % 256 > 0 then 1 else 0 }

  predicate Skips(p: Prefix) { |p.ip| == 4 && p.ones < 31 }

  lemma EndsStep(x: nat)
    ensures Ends(x + 1) == Ends(x) + if x % 256 == 0 || x % 256 == 255 then 1 else 0
  {
  }

  lemma {:induction false} HostsCount(p: Prefix, low: nat, high: nat)
    requires low <= high
    ensures |Hosts(p, low, high)| == high - low - if Skips(p) then Ends(high) - Ends(low) else 0
    decreases high
  {
    hide Ends, Bytes;
    if low < high {
      HostsCount(p, low, high - 1);
      EndsStep(high - 1);
    }
  }

  lemma {:induction false} HostsAreComplete(p: Prefix, low: nat, high: nat, v: nat)
    requires low <= v < high && !Skipped(p, v)
    ensures Bytes(|p.ip|, v) in Hosts(p, low, high)
    decreases high
  {
    hide Bytes, Skipped;
    if v < high - 1 { HostsAreComplete(p, low, high - 1, v); }
  }

  lemma {:induction false} HostsAreSound(p: Prefix, low: nat, high: nat, ip: Address)
    requires high <= Pow2(8 * |p.ip|) && ip in Hosts(p, low, high)
    ensures |ip| == |p.ip| && low <= Value(ip) < high && !Skipped(p, Value(ip))
    decreases high
  {
    hide Pow2, Value, Bytes, Skipped;
    ValueOfBytes(|p.ip|, high - 1);
    if ip in Hosts(p, low, high - 1) { HostsAreSound(p, low, high - 1, ip); }
  }

  lemma {:induction false} HostsAscend(p: Prefix, low: nat, high: nat, j: nat, k: nat)
    requires high <= Pow2(8 * |p.ip|) && j < k < |Hosts(p, low, high)|
    ensures Value(Hosts(p, low, high)[j]) < Value(Hosts(p, low, high)[k])
    decreases high
  {
    hide Pow2, Value, Bytes, Skipped;
    var before := Hosts(p, low, high - 1);
    if k < |before| {
      HostsAscend(p, low, high - 1, j, k);
    } else {
      ValueOfBytes(|p.ip|, high - 1);
      HostsAreSound(p, low, high - 1, before[j]);
    }
  }

  /** What the scan gets for one prefix: exactly the addresses of its block that are not skipped, each once, in
      ascending order. */
  lemma BlockIsExact(p: Prefix)
    requires ValidPrefix(p)
    ensures forall ip: Address | |ip| == |p.ip| :: ip in Block(p) <==> Contains(p, ip) && !Skipped(p, Value(ip))
    ensures forall j, k | 0 <= j < k < |Block(p)| :: Value(Block(p)[j]) < Value(Block(p)[k])
    ensures forall ip | ip in Block(p) :: |ip| == |p.ip|
  {
    hide Pow2, Value, Bytes, Skipped, Contains, Hosts, BlockSize, Network;
    BlockFits(p);
    var low, high := Network(p), Network(p) + BlockSize(p);
    forall ip: Address | |ip| == |p.ip| ensures ip in Block(p) <==> Contains(p, ip) && !Skipped(p, Value(ip)) {
      ContainsIsBlock(p, ip);
      if Contains(p, ip) && !Skipped(p, Value(ip)) {
        HostsAreComplete(p, low, high, Value(ip));
        BytesOfValue(ip);
      }
      if ip in Block(p) { HostsAreSound(p, low, high, ip); }
    }
    forall j, k | 0 <= j < k < |Block(p)| ensures Value(Block(p)[j]) < Value(Block(p)[k]) {
      HostsAscend(p, low, high, j, k);
    }
    forall ip | ip in Block(p) ensures |ip| == |p.ip| { HostsAreSound(p, low, high, ip); }
  }

  // ---- The expansion -------------------------------------------------------------------------------

  datatype Result = Ok(ips: seq<Address>) | ParseError(at: nat) | LimitExceeded

  /** A list of parse results, with None where net.ParseCIDR fails. */
  predicate ValidInput(cidrs: seq<Option<Prefix>>) {
    forall i | 0 <= i < |cidrs| :: cidrs[i].Some? ==> ValidPrefix(cidrs[i].value)
  }

  /** Prefix by prefix: the first one that does not parse or does not fit ends the expansion. */
  function Expand(cidrs: seq<Option<Prefix>>): Result
    requires ValidInput(cidrs)
  {
    if cidrs == [] then Ok([]) else
      var before, last := Expand(cidrs[..|cidrs| - 1]), cidrs[|cidrs| - 1];
      if !before.Ok? then before
      else if last == None then ParseError(|cidrs| - 1)
      else
        var ips := before.ips + Block(last.value);
        if |ips| > MAX_IPS then LimitExceeded else Ok(ips)
  }

  lemma {:induction false} ErrorStays(cidrs: seq<Option<Prefix>>, i: nat)
    requires ValidInput(cidrs) && i <= |cidrs| && !Expand(cidrs[..i]).Ok?
    ensures Expand(cidrs) == Expand(cidrs[..i])
  {
    if i < |cidrs| {
      assert cidrs[..|cidrs| - 1][..i] == cidrs[..i];
      ErrorStays(cidrs[..|cidrs| - 1], i);
    } else {
      assert cidrs[..i] == cidrs;
    }
  }

  /** Few kept addresses mean few addresses: at most two of every 256 are left out. */
  lemma FewHostsMeanFewSteps(p: Prefix, k: nat)
    requires ValidPrefix(p)
    ensures |Hosts(p, Network(p), Network(p) + k)| <= MAX_IPS ==> k <= 4200
  {
    hide Hosts;
    HostsCount(p, Network(p), Network(p) + k);
  }

  lemma {:induction false} WholeSpaceIsLarge(bits: nat)
    requires bits >= 32
    ensures Pow2(bits) > 4200
  {
    Pow2Sum(13, bits - 13);
    assert Pow2(13) == 8192 by { Pow2Sum(5, 8); Pow2OfByte(); assert Pow2(5) == 32; }
    MulAtLeast(Pow2(13), 1, Pow2(bits - 13));
  }

  /** After `k` steps the counter is inside the prefix exactly when the block is not finished, even at the top of
      the address space and for the prefix of length zero. */
  lemma InsideUntilDone(p: Prefix, k: nat, ip: Address)
    requires ValidPrefix(p) && k <= BlockSize(p) && |Hosts(p, Network(p), Network(p) + k)| <= MAX_IPS
    requires ip == Bytes(|p.ip|, (Network(p) + k) % Pow2(8 * |p.ip|))
    ensures Contains(p, ip) <==> k < BlockSize(p)
    ensures k < BlockSize(p) ==> Value(ip) == Network(p) + k
  {
    hide Pow2, Value, Bytes, Hosts, Contains, BlockSize, Network;
    var space, at := Pow2(8 * |p.ip|), Network(p) + k;
    BlockFits(p);
    Division(at, space);
    ValueOfBytes(|p.ip|, at % space);
    ContainsIsBlock(p, ip);
    if at < space {
      Remainder(at, space, 0, at);
    } else {
      Remainder(at, space, 1, 0);
      FewHostsMeanFewSteps(p, k);
      WholeSpaceIsLarge(8 * |p.ip|);
    }
  }

  lemma OneStep(n: nat, at: nat)
    ensures Inc(Bytes(n, at % Pow2(8 * n))) == Bytes(n, (at + 1) % Pow2(8 * n))
  {
    hide Pow2, Value, Bytes, Inc;
    var space := Pow2(8 * n);
    var ip := Bytes(n, at % space);
    Division(at, space);
    ValueOfBytes(n, at % space);
    IncAddsOne(ip);
    NextRemainder(at, space);
    BytesOfValue(Inc(ip));
  }

  lemma NextRemainder(x: nat, size: nat)
    requires size >= 1
    ensures (x % size + 1) % size == (x + 1) % size
  {
    Division(x, size);
    var q, r := x / size, x % size;
    if r + 1 < size {
      Remainder(r + 1, size, 0, r + 1);
      Remainder(x + 1, size, q, r + 1);
    } else {
      Remainder(r + 1, size, 1, 0);
      assert size * (q + 1) == size * q + size;
      Remainder(x + 1, size, q + 1, 0);
    }
  }

  lemma {:induction false} HostsGrow(p: Prefix, low: nat, mid: nat, high: nat)
    requires mid <= high
    ensures |Hosts(p, low, mid)| <= |Hosts(p, low, high)|
    decreases high
  {
    hide Bytes, Skipped;
    if mid < high { HostsGrow(p, low, mid, high - 1); }
  }

  lemma TooMany(cidrs: seq<Option<Prefix>>, i: nat, before: seq<Address>, k: nat)
    requires ValidInput(cidrs) && i < |cidrs| && cidrs[i].Some? && Expand(cidrs[..i]) == Ok(before)
    requires k <= BlockSize(cidrs[i].value)
    requires var p := cidrs[i].value; |before + Hosts(p, Network(p), Network(p) + k)| > MAX_IPS
    ensures Expand(cidrs) == LimitExceeded
  {
    hide Hosts, BlockSize, Network;
    var p := cidrs[i].value;
    HostsGrow(p, Network(p), Network(p) + k, Network(p) + BlockSize(p));
    assert cidrs[..i + 1][..i] == cidrs[..i];
    assert Expand(cidrs[..i + 1]) == LimitExceeded;
    ErrorStays(cidrs, i + 1);
  }

  lemma OneMorePrefix(cidrs: seq<Option<Prefix>>, i: nat)
    requires ValidInput(cidrs) && i < |cidrs| && Expand(cidrs[..i]).Ok?
    ensures cidrs[i] == None ==> Expand(cidrs) == ParseError(i)
    ensures cidrs[i].Some? && |Expand(cidrs[..i]).ips + Block(cidrs[i].value)| <= MAX_IPS
      ==> Expand(cidrs[..i + 1]) == Ok(Expand(cidrs[..i]).ips + Block(cidrs[i].value))
  {
    hide Block;
    assert cidrs[..i + 1][..i] == cidrs[..i];
    if cidrs[i] == None { ErrorStays(cidrs, i + 1); }
  }

  lemma OneMoreAddress(p: Prefix, low: nat, v: nat, ip: Address)
    requires low <= v && |ip| == |p.ip| && Value(ip) == v
    ensures Hosts(p, low, v + 1) == Hosts(p, low, v) + if Skipped(p, v) then [] else [ip]
  {
    hide Value, Bytes, Skipped;
    BytesOfValue(ip);
  }

  lemma LastByte(ip: Address)
    requires ip != []
    ensures Value(ip) % 256 == ip[|ip| - 1]
  {
  }

  method ExpandCIDRs(cidrs: seq<Option<Prefix>>) returns (result: Result)
    requires ValidInput(cidrs)
    ensures result == Expand(cidrs)
  {
    hide Pow2, Value, Bytes, Hosts, Contains, BlockSize, Network, Masked, Inc, Expand;
    var out: seq<Address> := [];
    NothingYet();
    assert cidrs[..0] == [];
    for i := 0 to |cidrs|
      invariant Expand(cidrs[..i]) == Ok(out) && |out| <= MAX_IPS
    {
      OneMorePrefix(cidrs, i);
      if cidrs[i] == None { return ParseError(i); }
      var p := cidrs[i].value;
      var network := Masked(p.ip, p.ones);
      var ip := new Byte[|network|](j requires 0 <= j < |network| => network[j]);
      ghost var k, before := 0, out;
      Start(p, ip[..]);
      while Contains(p, ip[..])
        invariant ip.Length == |p.ip|
        invariant k <= BlockSize(p) && ip[..] == Bytes(|p.ip|, (Network(p) + k) % Pow2(8 * |p.ip|))
        invariant out == before + Hosts(p, Network(p), Network(p) + k) && |out| <= MAX_IPS
        decreases BlockSize(p) - k
      {
        InsideUntilDone(p, k, ip[..]);
        OneMoreAddress(p, Network(p), Network(p) + k, ip[..]);
        LastByte(ip[..]);
        var last := ip[ip.Length - 1];
        if !(|p.ip| == 4 && p.ones < 31 && (last == 0 || last == 255)) {
          out := out + [ip[..]];
          if |out| > MAX_IPS {
            TooMany(cidrs, i, before, k + 1);
            return LimitExceeded;
          }
        }
        OneStep(|p.ip|, Network(p) + k);
        IncIP(ip);
        k := k + 1;
      }
      InsideUntilDone(p, k, ip[..]);
    }
    assert cidrs[..|cidrs|] == cidrs;
    result := Ok(out);
  }

  lemma NothingYet()
    ensures Expand([]) == Ok([])
  {
  }

  lemma Start(p: Prefix, ip: Address)
    requires ValidPrefix(p) && ip == Masked(p.ip, p.ones)
    ensures ip == Bytes(|p.ip|, (Network(p) + 0) % Pow2(8 * |p.ip|))
    ensures Hosts(p, Network(p), Network(p) + 0) == []
  {
    hide Pow2, Value, Bytes, Masked;
    MaskRoundsDown(p.ip, p.ones);
    ValueIsBounded(p.ip);
    Division(Value(p.ip), BlockSize(p));
    Remainder(Network(p), Pow2(8 * |p.ip|), 0, Network(p));
    BytesOfValue(ip);
  }

  // ---- What the expansion promises -----------------------------------------------------------------

  predicate AllParsed(cidrs: seq<Option<Prefix>>) { forall i | 0 <= i < |cidrs| :: cidrs[i].Some? }

  /** The blocks of all prefixes, one after the other. */
  function Blocks(cidrs: seq<Option<Prefix>>): seq<Address>
    requires ValidInput(cidrs) && AllParsed(cidrs)
  {
    if cidrs == [] then [] else Blocks(cidrs[..|cidrs| - 1]) + Block(cidrs[|cidrs| - 1].value)
  }

  predicate Overflows(cidrs: seq<Option<Prefix>>, i: nat)
    requires ValidInput(cidrs)
  {
    i < |cidrs| && AllParsed(cidrs[..i + 1]) && |Blocks(cidrs[..i + 1])| > MAX_IPS
  }

  /** The expansion succeeds exactly when every prefix parses and the blocks hold at most 4096 addresses to scan,
      and then it is the blocks, one after the other. Otherwise it names the first prefix that does not parse
      when the ones before it still fit, and the limit when some of them do not. */
  lemma {:induction false} ExpandIsExact(cidrs: seq<Option<Prefix>>)
    requires ValidInput(cidrs)
    ensures Expand(cidrs).Ok? <==> AllParsed(cidrs) && |Blocks(cidrs)| <= MAX_IPS
    ensures Expand(cidrs).Ok? ==> Expand(cidrs).ips == Blocks(cidrs)
    ensures Expand(cidrs).ParseError? ==> var i := Expand(cidrs).at;
            i < |cidrs| && cidrs[i] == None && AllParsed(cidrs[..i]) && |Blocks(cidrs[..i])| <= MAX_IPS
    ensures Expand(cidrs).LimitExceeded? ==> exists i :: Overflows(cidrs, i)
  {
    hide Block;
    if cidrs != [] {
      var n := |cidrs| - 1;
      var front := cidrs[..n];
      assert cidrs[..n + 1] == cidrs;
      ExpandIsExact(front);
      match Expand(front)
      case Ok(_) =>
        if Expand(cidrs).LimitExceeded? { assert Overflows(cidrs, n); }
      case ParseError(i) =>
        assert front[..i] == cidrs[..i];
      case LimitExceeded =>
        var i: nat :| Overflows(front, i);
        assert front[..i + 1] == cidrs[..i + 1];
        assert Overflows(cidrs, i);
        if AllParsed(cidrs) { BlocksGrow(cidrs, i + 1); }
    }
  }

  lemma {:induction false} BlocksGrow(cidrs: seq<Option<Prefix>>, i: nat)
    requires ValidInput(cidrs) && AllParsed(cidrs) && i <= |cidrs|
    ensures |Blocks(cidrs[..i])| <= |Blocks(cidrs)|
  {
    hide Block;
    if i < |cidrs| {
      assert cidrs[..|cidrs| - 1][..i] == cidrs[..i];
      BlocksGrow(cidrs[..|cidrs| - 1], i);
    } else {
      assert cidrs[..i] == cidrs;
    }
  }

  lemma Pow2Values()
    ensures Pow2(0) == 1 && Pow2(1) == 2 && Pow2(2) == 4 && Pow2(3) == 8 && Pow2(4) == 16 && Pow2(5) == 32 && Pow2(6) == 64
    ensures Pow2(7) == 128 && Pow2(8) == 256 && Pow2(12) == 4096 && Pow2(13) == 8192
  {
    Pow2OfByte();
    Pow2Sum(4, 8);
    Pow2Sum(5, 8);
    assert Pow2(3) == 8;
    assert Pow2(5) == 2 * Pow2(4) && Pow2(6) == 2 * Pow2(5) && Pow2(7) == 2 * Pow2(6);
  }

  lemma Pow2Grows(j: nat, k: nat)
    requires j <= k
    ensures Pow2(j) <= Pow2(k)
  {
    hide Pow2;
    Pow2Sum(j, k - j);
    MulAtLeast(Pow2(j), 1, Pow2(k - j));
  }

  /** One prefix is accepted exactly when at most twelve bits are left to the hosts: /20 for IPv4, /116 for IPv6. */
  lemma OnePrefixLimit(p: Prefix)
    requires ValidPrefix(p)
    ensures Expand([Some(p)]).Ok? <==> 8 * |p.ip| - p.ones <= 12
  {
    hide Pow2, Hosts, Network;
    var cidrs := [Some(p)];
    var host := 8 * |p.ip| - p.ones;
    ExpandIsExact(cidrs);
    assert cidrs[..0] == [];
    assert Blocks(cidrs) == Block(p);
    Pow2Values();
    HostsCount(p, Network(p), Network(p) + BlockSize(p));
    if host <= 12 {
      Pow2Grows(host, 12);
    } else {
      Pow2Grows(13, host);
      FewHostsMeanFewSteps(p, BlockSize(p));
    }
  }

  /** The first address of a block ends in zero when the block holds whole groups of 256. */
  lemma NetworkIsMultiple(p: Prefix)
    requires ValidPrefix(p)
    ensures Network(p) % BlockSize(p) == 0
    ensures 8 * |p.ip| - p.ones >= 8 ==> Network(p) % 256 == 0 && BlockSize(p) % 256 == 0
  {
    hide Pow2, Value;
    var size := BlockSize(p);
    var q := Value(p.ip) / size;
    Division(Value(p.ip), size);
    Remainder(Network(p), size, q, 0);
    if 8 * |p.ip| - p.ones >= 8 {
      var k := Pow2(8 * |p.ip| - p.ones - 8);
      OneByteMore(8 * |p.ip| - p.ones - 8);
      assert (256 * k) * q == 256 * (k * q);
      Remainder(Network(p), 256, k * q, 0);
      Remainder(size, 256, k, 0);
    }
  }

  lemma EndsPerGroup(low: nat, size: nat)
    requires low % 256 == 0 && size % 256 == 0
    ensures 256 * (Ends(low + size) - Ends(low)) == 2 * size
  {
    hide Ends;
    var i, j := low / 256, size / 256;
    assert low == 256 * i && low + size == 256 * (i + j);
    GroupEnds(i);
    GroupEnds(i + j);
  }

  lemma GroupEnds(i: nat)
    ensures Ends(256 * i) == 2 * i
  {
  }

  /** A /24 and everything shorter gives 254 addresses for every 256. */
  lemma HostsPerGroup(p: Prefix)
    requires ValidPrefix(p) && |p.ip| == 4 && p.ones <= 24
    ensures 256 * |Block(p)| == 254 * BlockSize(p)
  {
    hide Pow2, Hosts, Network, BlockSize, Ends;
    NetworkIsMultiple(p);
    HostsCount(p, Network(p), Network(p) + BlockSize(p));
    EndsPerGroup(Network(p), BlockSize(p));
  }

  /** Leaving out last bytes 0 and 255 leaves out exactly the network and the broadcast address of an IPv4 prefix
      when it is a /24, and for no other length below 31. */
  lemma SkipsNetworkAndBroadcast(p: Prefix)
    requires ValidPrefix(p) && Skips(p)
    ensures (forall v | Network(p) <= v < Network(p) + BlockSize(p) ::
              Skipped(p, v) <==> v == Network(p) || v == Network(p) + BlockSize(p) - 1)
            <==> p.ones == 24
  {
    hide Pow2, Network, BlockSize, Skipped;
    if p.ones < 24 {
      LongBlockSkipsMore(p);
    } else if p.ones == 24 {
      GroupSkipsItsEnds(p);
    } else {
      ShortBlockKeepsAnEnd(p);
    }
  }

  lemma LongBlockSkipsMore(p: Prefix)
    requires ValidPrefix(p) && Skips(p) && p.ones < 24
    ensures var v := Network(p) + 255; Skipped(p, v) && Network(p) < v < Network(p) + BlockSize(p) - 1
  {
    hide Pow2, Network, BlockSize;
    NetworkIsMultiple(p);
    LongBlock(p);
    GroupEndsIn255(Network(p) / 256);
  }

  lemma LongBlock(p: Prefix)
    requires ValidPrefix(p) && |p.ip| == 4 && p.ones < 24
    ensures BlockSize(p) >= 512
  {
    hide Pow2;
    Pow2Values();
    OneByteMore(24 - p.ones);
    Pow2Grows(1, 24 - p.ones);
  }

  lemma GroupEndsIn255(i: nat)
    ensures (256 * i + 255) % 256 == 255
  {
  }

  lemma GroupSkipsItsEnds(p: Prefix)
    requires ValidPrefix(p) && Skips(p) && p.ones == 24
    ensures forall v | Network(p) <= v < Network(p) + BlockSize(p) ::
      Skipped(p, v) <==> v == Network(p) || v == Network(p) + BlockSize(p) - 1
  {
    hide Pow2, Network;
    NetworkIsMultiple(p);
    Pow2Values();
    var low := Network(p);
    forall v | low <= v < low + 256 ensures Skipped(p, v) <==> v == low || v == low + 255 {
      assert v % 256 == v - low;
    }
  }

  lemma ShortBlockKeepsAnEnd(p: Prefix)
    requires ValidPrefix(p) && Skips(p) && p.ones > 24
    ensures BlockSize(p) >= 1 && (!Skipped(p, Network(p)) || !Skipped(p, Network(p) + BlockSize(p) - 1))
  {
    hide Pow2, Network;
    NetworkIsMultiple(p);
    ShortBlock(Network(p), BlockSize(p), 32 - p.ones);
  }

  lemma ShortBlock(low: nat, size: nat, host: nat)
    requires 1 <= host <= 7 && size == Pow2(host) && low % size == 0
    ensures !((low % 256 == 0 || low % 256 == 255) && ((low + size - 1) % 256 == 0 || (low + size - 1) % 256 == 255))
  {
    Pow2Values();
    hide Pow2;
    assert size == 2 || size == 4 || size == 8 || size == 16 || size == 32 || size == 64 || size == 128;
  }
}
