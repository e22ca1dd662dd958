/** Address patterns (internal/hostsfile/expand.go, from expandAddressPattern on)
    and the whole of expandHostPattern.

    Parsing and printing of addresses belong to Go's net/netip; here they are
    three functions about which only the ranges of their answers are known. */
module ExpandAddress {
  import opened Arith
  import opened Decimals
  import opened Expand
  import opened Options
  import opened Sequences

  const V4_COUNT: nat := 0x1_0000_0000
  const V6_COUNT: nat := 0x1_0000_0000_0000_0000_0000_0000_0000_0000

  type V4Number = n: nat | n < V4_COUNT
  type V6Number = n: nat | n < V6_COUNT
  type V4Bits = b: nat | b <= 32
  type V6Bits = b: nat | b <= 128

  datatype Addr = NoAddr | V4(v4: V4Number) | V6(v6: V6Number)

  datatype Prefix = Prefix4(addr4: V4Number, bits4: V4Bits) | Prefix6(addr6: V6Number, bits6: V6Bits)

  datatype NetIP = NetIP(parseAddr: string -> Option<Addr>, parsePrefix: string -> Option<Prefix>, show: Addr -> string)

  /** The address with number x of the same family; NoAddr past the last one. */
  function Numbered(is4: bool, x: nat): Addr
  {
    if is4 then (if x < V4_COUNT then V4(x) else NoAddr)
    else if x < V6_COUNT then V6(x) else NoAddr
  }

  /** netip.Addr.Next. */
  function Next(a: Addr): Addr
  {
    match a
    case NoAddr => NoAddr
    case V4(n) => Numbered(true, n + 1)
    case V6(n) => Numbered(false, n + 1)
  }

  function Pow2(n: nat): (p: nat)
    ensures p >= 1
  {
    if n == 0 then 1 else 2 * Pow2(n - 1)
  }

  /** The texts of count consecutive addresses. */
  function Run(lib: NetIP, is4: bool, first: nat, count: nat): (r: seq<string>)
    ensures |r| == count
    ensures forall i :: 0 <= i < count ==> r[i] == lib.show(Numbered(is4, first + i))
  {
    seq(count, i requires 0 <= i => lib.show(Numbered(is4, first + i)))
  }

  // ----- CIDR blocks -----

  function Is4(p: Prefix): bool { p.Prefix4? }

  function Number(p: Prefix): nat { if p.Prefix4? then p.addr4 else p.addr6 }

  function HostBits(p: Prefix): nat { if p.Prefix4? then 32 - p.bits4 else 128 - p.bits6 }

  /** IPv4 /30 and wider leave out the network and broadcast addresses. */
  predicate Excludes(p: Prefix) { p.Prefix4? && p.bits4 <= 30 }

  function Masked(p: Prefix): nat { RoundDown(Number(p), Pow2(HostBits(p))) }

  function FirstHost(p: Prefix): nat { Masked(p) + if Excludes(p) then 1 else 0 }

  function HostCount(p: Prefix): int { Pow2(HostBits(p)) - if Excludes(p) then 2 else 0 }

  /** Address a is one of the hosts of p: it agrees with p on every prefix bit,
      and is neither the lowest nor the highest where those are left out. */
  predicate IsHost(p: Prefix, a: nat)
  {
    var block := Pow2(HostBits(p));
    && a / block == Number(p) / block
    && (Excludes(p) ==> a % block != 0 && a % block != block - 1)
  }

  /** The enumerated run is exactly the hosts of the block. */
  lemma CidrRunIsBlock(p: Prefix, a: nat)
    ensures FirstHost(p) <= a < FirstHost(p) + HostCount(p) <==> IsHost(p, a)
  {
    var block := Pow2(HostBits(p));
    BlockBounds(a, Number(p), block);
  }

  lemma BlockBounds(a: nat, x: nat, block: nat)
    requires block >= 1
    ensures a / block == x / block <==> RoundDown(x, block) <= a < RoundDown(x, block) + block
    ensures a / block == x / block ==> a % block == a - RoundDown(x, block)
  {
    var q, r := a / block, x / block;
    if q < r {
      MulOrdered(q + 1, r, block);
    } else if r < q {
      MulOrdered(r + 1, q, block);
    }
  }

  lemma {:induction false} Pow2AtLeast(n: nat, k: nat)
    requires k <= n
    ensures Pow2(k) <= Pow2(n)
  {
    if k < n {
      Pow2AtLeast(n - 1, k);
    }
  }

  function Cidr(lib: NetIP, s: string): Expansion
  {
    match lib.parsePrefix(s)
    case None => Invalid(InvalidCidr)
    case Some(p) =>
      if HostBits(p) > 10 then TooLarge
      else CountNonNegative(p); Hosts(Run(lib, Is4(p), FirstHost(p), HostCount(p)))
  }

  lemma CountNonNegative(p: Prefix)
    ensures HostCount(p) >= 1
  {
    if Excludes(p) {
      Pow2AtLeast(HostBits(p), 2);
      assert Pow2(2) == 2 * Pow2(1) && Pow2(1) == 2 * Pow2(0);
    }
  }

  lemma CountCapped(p: Prefix)
    requires HostBits(p) <= 10
    ensures HostCount(p) <= MAX_EXPANSION
  {
    Pow2AtLeast(10, HostBits(p));
    assert Pow2(10) == 2 * Pow2(9) == 4 * Pow2(8) == 8 * Pow2(7) == 16 * Pow2(6) == 32 * Pow2(5);
    assert Pow2(5) == 2 * Pow2(4) == 4 * Pow2(3) == 8 * Pow2(2) == 16 * Pow2(1) == 32 * Pow2(0);
  }

  method ExpandCIDR(lib: NetIP, s: string) returns (r: Expansion)
    ensures r == Cidr(lib, s)
  {
    var parsed := lib.parsePrefix(s);
    if parsed.None? {
      return Invalid(InvalidCidr);
    }
    var p := parsed.value;
    var hostBits := HostBits(p);
    if hostBits > 10 {
      return TooLarge;
    }
    CountNonNegative(p);
    CountCapped(p);
    var addr, n: int := Numbered(Is4(p), Masked(p)), Pow2(hostBits);
    if Excludes(p) {
      addr, n := Next(addr), n - 2;
    }
    if n > MAX_EXPANSION {
      return TooLarge;
    }
    var out: seq<string> := [];
    for i := 0 to n
      invariant addr == Numbered(Is4(p), FirstHost(p) + i)
      invariant out == Run(lib, Is4(p), FirstHost(p), i)
    {
      out := out + [lib.show(addr)];
      addr := Next(addr);
    }
    r := Hosts(out);
  }

  // ----- IPv4 ranges -----

  function OctetOf(s: string): Option<nat>
  {
    if 1 <= |s| <= 3 && (forall c :: c in s ==> IsDigit(c)) && Value(s) <= 255 then Some(Value(s)) else None
  }

  function RangeEnd(lib: NetIP, start: V4Number, endStr: string): (r: Option<Option<V4Number>>)
  {
    match lib.parseAddr(endStr)
    case Some(V4(e)) => Some(Some(e))
    case Some(_) => Some(None)
    case None =>
      match OctetOf(endStr)
      case Some(octet) => Some(Some(start - start % 256 + octet))
      case None => None
  }

  function Ipv4Range(lib: NetIP, start: V4Number, endStr: string): Expansion
  {
    match RangeEnd(lib, start, endStr)
    case None => Invalid(InvalidRangeEnd)
    case Some(None) => Invalid(NotBothIPv4)
    case Some(Some(end)) =>
      if end < start then Invalid(EndBelowStart)
      else if end - start + 1 > MAX_EXPANSION then TooLarge
      else Hosts(Run(lib, true, start, end - start + 1))
  }

  method ExpandIPv4Range(lib: NetIP, start: V4Number, endStr: string) returns (r: Expansion)
    ensures r == Ipv4Range(lib, start, endStr)
  {
    var end: V4Number;
    var a := lib.parseAddr(endStr);
    if a.Some? {
      if !a.value.V4? {
        return Invalid(NotBothIPv4);
      }
      end := a.value.v4;
    } else {
      var octet := OctetOf(endStr);
      if octet.None? {
        return Invalid(InvalidRangeEnd);
      }
      end := start - start % 256 + octet.value;
    }
    if end < start {
      return Invalid(EndBelowStart);
    }
    if end - start + 1 > MAX_EXPANSION {
      return TooLarge;
    }
    var out: seq<string> := [];
    var addr := V4(start);
    while true
      invariant addr.V4? && start <= addr.v4 <= end
      invariant out == Run(lib, true, start, addr.v4 - start)
      decreases end - addr.v4
    {
      out := out + [lib.show(addr)];
      if addr == V4(end) {
        break;
      }
      addr := Next(addr);
    }
    r := Hosts(out);
  }

  // ----- expandAddressPattern -----

  /** The last position of '-', or -1. */
  function LastDash(s: string): (i: int)
    ensures -1 <= i < |s|
    ensures i >= 0 ==> s[i] == '-'
    ensures forall j :: i < j < |s| ==> s[j] != '-'
  {
    if s == "" then -1
    else if s[|s|-1] == '-' then |s| - 1
    else LastDash(s[..|s|-1])
  }

  function Address(lib: NetIP, s: string): Expansion
  {
    if '/' in s then Cidr(lib, s)
    else
      var i := LastDash(s);
      if i <= 0 then Hosts([s])
      else
        match lib.parseAddr(s[..i])
        case None => Hosts([s])
        case Some(V4(start)) => Ipv4Range(lib, start, s[i+1..])
        case Some(_) => Invalid(Ipv6Range)
  }

  // ----- What a text means -----

  /** The last dash of s is at i, and something stands before it. */
  predicate LastDashAt(s: string, i: nat)
  {
    0 < i < |s| && s[i] == '-' && forall j :: i < j < |s| ==> s[j] != '-'
  }

  /** Neither a block nor a range: no slash, and no address before a last dash. */
  predicate Plain(lib: NetIP, s: string)
  {
    && '/' !in s
    && forall i: nat :: i < |s| && LastDashAt(s, i) ==> lib.parseAddr(s[..i]).None?
  }

  /** The text of a range's end names e: an IPv4 address, or the last octet of an
      address beside the start. */
  predicate EndsAt(lib: NetIP, start: V4Number, endStr: string, e: V4Number)
  {
    || lib.parseAddr(endStr) == Some(V4(e))
    || (lib.parseAddr(endStr).None? && OctetOf(endStr) == Some(e % 256) && e / 256 == start / 256)
  }

  /** The text is an IPv4 range from a to e, split at the dash at i. */
  predicate RangeText(lib: NetIP, s: string, i: nat, a: V4Number, e: V4Number)
  {
    LastDashAt(s, i) && lib.parseAddr(s[..i]) == Some(V4(a)) && EndsAt(lib, a, s[i+1..], e)
  }

  /** The text denotes address number x of that family. */
  ghost predicate Denotes(lib: NetIP, s: string, is4: bool, x: nat)
  {
    if '/' in s then
      lib.parsePrefix(s).Some? && is4 == Is4(lib.parsePrefix(s).value) && IsHost(lib.parsePrefix(s).value, x)
    else
      is4 && exists i: nat, a: V4Number, e: V4Number :: RangeText(lib, s, i, a, e) && a <= x <= e
  }

  /** It denotes `count` consecutive addresses of one family and no others. */
  ghost predicate DenotesRun(lib: NetIP, s: string, is4: bool, first: nat, count: nat)
  {
    forall f: bool, x: nat :: Denotes(lib, s, f, x) <==> f == is4 && first <= x < first + count
  }

  /** What an outcome says of a text: a plain one stands for itself; any other
      stands for the addresses it denotes, each once and in order, if there are 1
      to 1024; it is too large when there are more, invalid when there is none. */
  ghost predicate AsMeant(lib: NetIP, s: string, r: Expansion)
  {
    if Plain(lib, s) then r == Hosts([s])
    else
      match r
      case Hosts(hosts) =>
        && 1 <= |hosts| <= MAX_EXPANSION
        && exists is4, first: nat :: DenotesRun(lib, s, is4, first, |hosts|) && hosts == Run(lib, is4, first, |hosts|)
      case TooLarge =>
        exists is4, first: nat, count: nat :: count > MAX_EXPANSION && DenotesRun(lib, s, is4, first, count)
      case Invalid(_) => forall f: bool, x: nat :: !Denotes(lib, s, f, x)
      case Aborts => false
  }

  lemma LastDashIs(s: string, i: nat)
    requires LastDashAt(s, i)
    ensures LastDash(s) == i
  {
  }

  lemma RangeEndIs(lib: NetIP, start: V4Number, endStr: string, e: V4Number)
    ensures EndsAt(lib, start, endStr, e) <==> RangeEnd(lib, start, endStr) == Some(Some(e))
  {
    hide OctetOf;
    if OctetOf(endStr).Some? {
      OctetInRange(endStr);
      var o := OctetOf(endStr).value;
      DivModIs(start - start % 256 + o, start / 256, 256, o);
    }
  }

  lemma OctetInRange(s: string)
    ensures OctetOf(s).Some? ==> OctetOf(s).value <= 255
  {
  }

  /** A block means its hosts. */
  lemma CidrMeans(lib: NetIP, s: string)
    requires '/' in s
    ensures AsMeant(lib, s, Cidr(lib, s))
  {
    hide HostCount, FirstHost, IsHost;
    var parsed := lib.parsePrefix(s);
    if parsed.Some? {
      var p := parsed.value;
      CountNonNegative(p);
      forall f: bool, x: nat
        ensures Denotes(lib, s, f, x) <==> f == Is4(p) && FirstHost(p) <= x < FirstHost(p) + HostCount(p)
      {
        CidrRunIsBlock(p, x);
      }
      assert DenotesRun(lib, s, Is4(p), FirstHost(p), HostCount(p));
      if HostBits(p) > 10 {
        CountTooLarge(p);
      } else {
        CountCapped(p);
      }
    }
  }

  lemma CountTooLarge(p: Prefix)
    requires HostBits(p) > 10
    ensures HostCount(p) > MAX_EXPANSION
  {
    Pow2AtLeast(HostBits(p), 11);
    assert Pow2(11) == 2 * Pow2(10) == 4 * Pow2(9) == 8 * Pow2(8) == 16 * Pow2(7) == 32 * Pow2(6);
    assert Pow2(6) == 2 * Pow2(5) == 4 * Pow2(4) == 8 * Pow2(3) == 16 * Pow2(2) == 32 * Pow2(1) == 64 * Pow2(0);
  }

  /** A range means the addresses from its start to its end. */
  lemma RangeMeans(lib: NetIP, s: string, i: nat, start: V4Number)
    requires '/' !in s && LastDashAt(s, i) && lib.parseAddr(s[..i]) == Some(V4(start))
    ensures AsMeant(lib, s, Ipv4Range(lib, start, s[i+1..]))
  {
    hide OctetOf, EndsAt, RangeEnd;
    var r, end := Ipv4Range(lib, start, s[i+1..]), RangeEnd(lib, start, s[i+1..]);
    forall j: nat, a: V4Number, e: V4Number
      ensures RangeText(lib, s, j, a, e) <==> j == i && a == start && end == Some(Some(e))
    {
      RangeEndIs(lib, start, s[i+1..], e);
      LastDashIs(s, i);
      if RangeText(lib, s, j, a, e) {
        LastDashIs(s, j);
      }
    }
    assert !Plain(lib, s);
    if end.Some? && end.value.Some? && start <= end.value.value {
      var e := end.value.value;
      assert RangeText(lib, s, i, start, e);
      assert DenotesRun(lib, s, true, start, e - start + 1);
    }
  }

  /** Every outcome is what the text means. */
  lemma AddressMeans(lib: NetIP, s: string)
    ensures AsMeant(lib, s, Address(lib, s))
  {
    hide Cidr, Ipv4Range, EndsAt;
    if '/' in s {
      CidrMeans(lib, s);
    } else {
      var i := LastDash(s);
      forall j: nat | j < |s| && LastDashAt(s, j) ensures i == j {
        LastDashIs(s, j);
      }
      if i > 0 && lib.parseAddr(s[..i]).Some? {
        assert LastDashAt(s, i);
        if lib.parseAddr(s[..i]).value.V4? {
          RangeMeans(lib, s, i, lib.parseAddr(s[..i]).value.v4);
        }
      } else {
        assert Plain(lib, s);
      }
    }
  }

  /** The meaning fixes the outcome, up to the wording of a refusal. */
  lemma MeaningUnique(lib: NetIP, s: string, r: Expansion, r': Expansion)
    requires AsMeant(lib, s, r) && AsMeant(lib, s, r')
    ensures r == r' || (r.Invalid? && r'.Invalid?)
  {
    hide Denotes;
    if !Plain(lib, s) {
      var is4, first: nat, count: nat, is4', first': nat, count': nat;
      if !r.Invalid? {
        is4, first, count := RunMeant(lib, s, r);
        assert Denotes(lib, s, is4, first) && Denotes(lib, s, is4, first + count - 1);
        assert !Denotes(lib, s, is4, first + count);
      }
      if !r'.Invalid? {
        is4', first', count' := RunMeant(lib, s, r');
        assert Denotes(lib, s, is4', first') && Denotes(lib, s, is4', first' + count' - 1);
        assert !Denotes(lib, s, is4', first' + count');
      }
    }
  }

  /** The run behind an outcome that is not a refusal. */
  lemma RunMeant(lib: NetIP, s: string, r: Expansion) returns (is4: bool, first: nat, count: nat)
    requires AsMeant(lib, s, r) && !Plain(lib, s) && !r.Invalid?
    ensures count >= 1 && DenotesRun(lib, s, is4, first, count)
    ensures r == if count <= MAX_EXPANSION then Hosts(Run(lib, is4, first, count)) else TooLarge
  {
    hide Denotes, DenotesRun, Plain;
    match r {
      case Hosts(hosts) =>
        count := |hosts|;
        is4, first :| DenotesRun(lib, s, is4, first, |hosts|) && hosts == Run(lib, is4, first, |hosts|);
      case TooLarge =>
        is4, first, count :| count > MAX_EXPANSION && DenotesRun(lib, s, is4, first, count);
    }
  }

  method ExpandAddressPattern(lib: NetIP, s: string) returns (r: Expansion)
    ensures r == Address(lib, s) && AsMeant(lib, s, r)
  {
    AddressMeans(lib, s);
    hide AsMeant;
    if '/' in s {
      r := ExpandCIDR(lib, s);
      return;
    }
    var i := LastDash(s);
    if i > 0 {
      var start := lib.parseAddr(s[..i]);
      if start.Some? {
        if !start.value.V4? {
          return Invalid(Ipv6Range);
        }
        r := ExpandIPv4Range(lib, start.value.v4, s[i+1..]);
        return;
      }
    }
    r := Hosts([s]);
  }

  // ----- expandHostPattern -----

  predicate HasBrace(s: string) { '{' in s || '}' in s }

  /** The first n brace results expanded in turn; the first problem stands. */
  function Combined(lib: NetIP, braced: seq<string>, n: nat): Expansion
    requires n <= |braced|
  {
    if n == 0 then Hosts([])
    else
      var before := Combined(lib, braced, n - 1);
      var s := braced[n-1];
      if !before.Hosts? then before
      else if HasBrace(s) then Invalid(UnsupportedBrace)
      else
        var a := Address(lib, s);
        if a.Hosts? && |before.hosts| + |a.hosts| > MAX_EXPANSION then TooLarge
        else if a.Hosts? then Hosts(before.hosts + a.hosts)
        else a
  }

  function HostPattern(lib: NetIP, pattern: string): Expansion
  {
    var braced := Expanded(Parse(pattern));
    if braced.Hosts? then Combined(lib, braced.hosts, |braced.hosts|) else braced
  }

  method ExpandHostPattern(lib: NetIP, pattern: string) returns (r: Expansion)
    ensures r == HostPattern(lib, pattern) && (r.Hosts? ==> Yields(lib, Parse(pattern), r.hosts))
  {
    PatternMeans(lib, pattern);
    hide Expanded, Parse, Address, HasBrace, Yields;
    var b := ExpandBraces(pattern);
    if !b.Hosts? {
      return b;
    }
    var braced := b.hosts;
    var out: seq<string> := [];
    for i := 0 to |braced|
      invariant Combined(lib, braced, i) == Hosts(out)
    {
      var s := braced[i];
      if HasBrace(s) {
        CombinedSticks(lib, braced, i + 1);
        return Invalid(UnsupportedBrace);
      }
      var a := ExpandAddressPattern(lib, s);
      if a.TooLarge? || (a.Hosts? && |out| + |a.hosts| > MAX_EXPANSION) {
        CombinedSticks(lib, braced, i + 1);
        return TooLarge;
      }
      if !a.Hosts? {
        CombinedSticks(lib, braced, i + 1);
        return a;
      }
      out := out + a.hosts;
    }
    r := Hosts(out);
  }

  lemma {:induction false} CombinedSticks(lib: NetIP, braced: seq<string>, n: nat)
    requires n <= |braced| && !Combined(lib, braced, n).Hosts?
    ensures Combined(lib, braced, |braced|) == Combined(lib, braced, n)
    decreases |braced| - n
  {
    if n < |braced| {
      CombinedSticks(lib, braced, n + 1);
    }
  }

  /** Total number of hosts of the first n brace results. */
  function TotalHosts(lib: NetIP, braced: seq<string>, n: nat): nat
    requires n <= |braced|
  {
    if n == 0 then 0
    else
      var a := Address(lib, braced[n-1]);
      TotalHosts(lib, braced, n - 1) + if a.Hosts? then |a.hosts| else 0
  }

  /** One pattern never yields more than the cap, and it succeeds exactly when
      every brace result is a plain or expandable address and the total is
      within the cap. */
  lemma {:induction false} HostsWithinCap(lib: NetIP, braced: seq<string>, n: nat)
    requires n <= |braced|
    ensures Combined(lib, braced, n).Hosts? <==>
              && (forall i :: 0 <= i < n ==> !HasBrace(braced[i]) && Address(lib, braced[i]).Hosts?)
              && TotalHosts(lib, braced, n) <= MAX_EXPANSION
    ensures Combined(lib, braced, n).Hosts? ==>
              |Combined(lib, braced, n).hosts| == TotalHosts(lib, braced, n) <= MAX_EXPANSION
  {
    hide Address, HasBrace;
    if n > 0 {
      HostsWithinCap(lib, braced, n - 1);
    }
  }

  /** The capped total is reached only through brace ranges that fit. */
  lemma PatternSucceedsExactly(lib: NetIP, pattern: string)
    ensures var p := Parse(pattern);
            HostPattern(lib, pattern).Hosts? <==>
              && RangesFit(p) && Size(p) <= MAX_EXPANSION
              && var b := Expanded(p);
                 b.Hosts?
                 && (forall i :: 0 <= i < |b.hosts| ==> !HasBrace(b.hosts[i]) && Address(lib, b.hosts[i]).Hosts?)
                 && TotalHosts(lib, b.hosts, |b.hosts|) <= MAX_EXPANSION
    ensures HostPattern(lib, pattern).Hosts? ==> |HostPattern(lib, pattern).hosts| <= MAX_EXPANSION
  {
    BracesSucceedExactly(Parse(pattern));
    var b := Expanded(Parse(pattern));
    if b.Hosts? {
      HostsWithinCap(lib, b.hosts, |b.hosts|);
    }
  }

  // ----- What a whole pattern means -----

  /** parts[k] is what the choice of rank k means, once rendered. */
  ghost predicate PartsMeant(lib: NetIP, p: Pattern, parts: seq<seq<string>>)
  {
    && |parts| == Size(p)
    && forall c :: Choice(p, c) ==> Rank(p, c) < |parts| && AsMeant(lib, Render(p, c), Hosts(parts[Rank(p, c)]))
  }

  /** The hosts are those of the choices, one after the other in order of rank. */
  ghost predicate Yields(lib: NetIP, p: Pattern, hosts: seq<string>)
  {
    exists parts :: PartsMeant(lib, p, parts) && hosts == Concat(parts)
  }

  /** No choice leaves a brace that is not a numeric range. */
  ghost predicate NoBraceLeft(p: Pattern)
  {
    forall c :: Choice(p, c) ==> !HasBrace(Render(p, c))
  }

  /** What each brace result expands to; nothing if it does not. */
  function Parts(lib: NetIP, braced: seq<string>): (parts: seq<seq<string>>)
    ensures |parts| == |braced|
  {
    seq(|braced|, i requires 0 <= i < |braced| =>
      var a := Address(lib, braced[i]); if a.Hosts? then a.hosts else [])
  }

  lemma {:induction false} CombinedIsConcat(lib: NetIP, braced: seq<string>, n: nat)
    requires n <= |braced|
    ensures |Concat(Parts(lib, braced)[..n])| == TotalHosts(lib, braced, n)
    ensures Combined(lib, braced, n).Hosts? ==> Combined(lib, braced, n).hosts == Concat(Parts(lib, braced)[..n])
  {
    hide Address, HasBrace, Concat;
    var parts := Parts(lib, braced);
    if n == 0 {
      EmptyConcat(parts);
    } else {
      CombinedIsConcat(lib, braced, n - 1);
      ConcatSnoc(parts[..n-1], parts[n-1]);
      assert parts[..n-1] + [parts[n-1]] == parts[..n];
    }
  }

  /** An address stands for those hosts exactly when its text means them. */
  lemma MeantExactly(lib: NetIP, s: string, hosts: seq<string>)
    ensures AsMeant(lib, s, Hosts(hosts)) <==> Address(lib, s) == Hosts(hosts)
  {
    hide AsMeant, Address;
    AddressMeans(lib, s);
    if AsMeant(lib, s, Hosts(hosts)) {
      MeaningUnique(lib, s, Address(lib, s), Hosts(hosts));
    }
  }

  /** The parts meant are the parts expanded to, if each brace result expands. */
  lemma PartsExactly(lib: NetIP, p: Pattern, parts: seq<seq<string>>)
    requires Expanded(p).Hosts?
    ensures var braced := Expanded(p).hosts;
            PartsMeant(lib, p, parts)
            <==> parts == Parts(lib, braced) && forall i :: 0 <= i < |braced| ==> Address(lib, braced[i]).Hosts?
  {
    hide AsMeant, Address, Expanded, Choice, Render, Rank;
    var braced := Expanded(p).hosts;
    BracesSucceedExactly(p);
    if PartsMeant(lib, p, parts) {
      forall i | 0 <= i < |braced| ensures Address(lib, braced[i]) == Hosts(parts[i]) {
        var c := RankOnto(p, i);
        BracesAreProduct(p, c);
        MeantExactly(lib, braced[i], parts[i]);
      }
      assert parts == Parts(lib, braced);
    }
    if parts == Parts(lib, braced) && forall i :: 0 <= i < |braced| ==> Address(lib, braced[i]).Hosts? {
      forall c | Choice(p, c) ensures Rank(p, c) < |parts| && AsMeant(lib, Render(p, c), Hosts(parts[Rank(p, c)])) {
        BracesAreProduct(p, c);
        MeantExactly(lib, Render(p, c), parts[Rank(p, c)]);
      }
    }
  }

  lemma BraceLeftExactly(p: Pattern)
    requires Expanded(p).Hosts?
    ensures NoBraceLeft(p) <==> forall i :: 0 <= i < |Expanded(p).hosts| ==> !HasBrace(Expanded(p).hosts[i])
  {
    hide Expanded, Choice, Render, Rank, HasBrace;
    var braced := Expanded(p).hosts;
    BracesSucceedExactly(p);
    forall c | Choice(p, c) ensures Rank(p, c) < |braced| && braced[Rank(p, c)] == Render(p, c) {
      BracesAreProduct(p, c);
    }
    if NoBraceLeft(p) {
      forall i | 0 <= i < |braced| ensures !HasBrace(braced[i]) {
        var c := RankOnto(p, i);
      }
    }
  }

  /** A pattern expands exactly when its ranges fit, no other brace is left, every
      choice means some hosts and together they are within the cap.  The result is
      then the hosts of all choices, in order of rank. */
  lemma PatternMeans(lib: NetIP, pattern: string)
    ensures var p := Parse(pattern);
            HostPattern(lib, pattern).Hosts? <==>
              && RangesFit(p) && Size(p) <= MAX_EXPANSION && NoBraceLeft(p)
              && exists hosts :: Yields(lib, p, hosts) && |hosts| <= MAX_EXPANSION
    ensures HostPattern(lib, pattern).Hosts? ==> Yields(lib, Parse(pattern), HostPattern(lib, pattern).hosts)
  {
    hide Address, HasBrace, Expanded, RangesFit, PartsMeant, NoBraceLeft, Combined, Size;
    var p := Parse(pattern);
    hide Parse;
    BracesSucceedExactly(p);
    var b := Expanded(p);
    if b.Hosts? {
      var parts, n := Parts(lib, b.hosts), |b.hosts|;
      HostsWithinCap(lib, b.hosts, n);
      CombinedIsConcat(lib, b.hosts, n);
      assert parts[..n] == parts;
      BraceLeftExactly(p);
      PartsExactly(lib, p, parts);
      if HostPattern(lib, pattern).Hosts? {
        assert Yields(lib, p, Concat(parts));
      }
      if hosts :| Yields(lib, p, hosts) && |hosts| <= MAX_EXPANSION {
        var meant :| PartsMeant(lib, p, meant) && hosts == Concat(meant);
        PartsExactly(lib, p, meant);
      }
    }
  }

  /** The meaning of a pattern fixes its hosts. */
  lemma YieldsUnique(lib: NetIP, p: Pattern, a: seq<string>, b: seq<string>)
    requires Yields(lib, p, a) && Yields(lib, p, b)
    ensures a == b
  {
    hide AsMeant, Choice, Render, Rank;
    var x :| PartsMeant(lib, p, x) && a == Concat(x);
    var y :| PartsMeant(lib, p, y) && b == Concat(y);
    forall k | 0 <= k < |x| ensures x[k] == y[k] {
      var c := RankOnto(p, k);
      MeaningUnique(lib, Render(p, c), Hosts(x[k]), Hosts(y[k]));
    }
    assert x == y;
  }
}
