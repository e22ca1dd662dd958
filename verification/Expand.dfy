/** Host patterns of the hosts file (internal/hostsfile/expand.go): numeric brace
    ranges, CIDR blocks and IPv4 ranges, all under one cap.

    Go's int is 64 bits wide and wraps; the few places where that can show are
    written with Wrap64. */
module Expand {
  import opened Arith
  import opened Decimals
  import opened Options

  const MAX_EXPANSION := 1024
  const MAX_INT := 0x7fff_ffff_ffff_ffff

  datatype Reason = NumberOutOfRange | StartAboveEnd | UnsupportedBrace | InvalidCidr
                  | Ipv6Range | NotBothIPv4 | InvalidRangeEnd | EndBelowStart

  /** Aborts: the call does not return.  make() panics on a wrapped negative
      capacity, or the loop counter wraps past the largest int and never ends. */
  datatype Expansion = Hosts(hosts: seq<string>) | TooLarge | Invalid(reason: Reason) | Aborts

  function Wrap64(x: int): int
  {
    (x + 0x8000_0000_0000_0000) % 0x1_0000_0000_0000_0000 - 0x8000_0000_0000_0000
  }

  // ----- Finding a brace range -----

  /** Length of the run of digits that begins at i. */
  function DigitRun(s: string, i: nat): (n: nat)
    requires i <= |s|
    ensures i + n <= |s| && (forall j :: i <= j < i + n ==> IsDigit(s[j]))
    ensures i + n < |s| ==> !IsDigit(s[i+n])
    decreases |s| - i
  {
    if i < |s| && IsDigit(s[i]) then 1 + DigitRun(s, i + 1) else 0
  }

  /** A match of {digits..digits}, by the positions of its brace, its dots and
      one past its end. */
  datatype BraceMatch = BraceMatch(open: nat, dots: nat, close: nat, lo: string, hi: string)

  predicate IsMatch(s: string, m: BraceMatch)
  {
    && m.open + 1 < m.dots && m.dots + 3 < m.close <= |s|
    && s[m.open] == '{' && s[m.dots] == '.' && s[m.dots+1] == '.' && s[m.close-1] == '}'
    && m.lo == s[m.open+1..m.dots] && m.hi == s[m.dots+2..m.close-1]
    && (forall j :: m.open < j < m.dots ==> IsDigit(s[j]))
    && (forall j :: m.dots + 2 <= j < m.close - 1 ==> IsDigit(s[j]))
  }

  function MatchAt(s: string, i: nat): (r: Option<BraceMatch>)
    requires i < |s|
    ensures r.Some? ==> r.value.open == i && IsMatch(s, r.value)
  {
    if s[i] != '{' then None
    else
      var dots := i + 1 + DigitRun(s, i + 1);
      if dots == i + 1 || dots + 2 > |s| || s[dots] != '.' || s[dots+1] != '.' then None
      else
        var q := dots + 2 + DigitRun(s, dots + 2);
        if q == dots + 2 || q >= |s| || s[q] != '}' then None
        else Some(BraceMatch(i, dots, q + 1, s[i+1..dots], s[dots+2..q]))
  }

  /** The leftmost match at or after i (FindStringSubmatchIndex). */
  function FindRange(s: string, i: nat): (r: Option<BraceMatch>)
    requires i <= |s|
    ensures r.Some? ==> i <= r.value.open && IsMatch(s, r.value)
    decreases |s| - i
  {
    if i == |s| then None
    else if MatchAt(s, i).Some? then MatchAt(s, i)
    else FindRange(s, i + 1)
  }

  /** MatchAt misses nothing: a match at i is the one it returns.  So FindRange is
      the leftmost match, and answers None only when there is none. */
  lemma FindRangeLeftmost(s: string, m: BraceMatch)
    requires IsMatch(s, m)
    ensures FindRange(s, 0).Some? && FindRange(s, 0).value.open <= m.open
    ensures FindRange(s, 0).value.open == m.open ==> FindRange(s, 0).value == m
  {
    MatchAtComplete(s, m);
    FindRangeReaches(s, 0, m.open);
  }

  lemma {:induction false} FindRangeReaches(s: string, i: nat, j: nat)
    requires i <= j < |s| && MatchAt(s, j).Some?
    ensures FindRange(s, i).Some? && FindRange(s, i).value.open <= j
    ensures FindRange(s, i).value.open == j ==> FindRange(s, i) == MatchAt(s, j)
    decreases j - i
  {
    if i < j && MatchAt(s, i).None? {
      FindRangeReaches(s, i + 1, j);
    }
  }

  lemma {:induction false} DigitRunIs(s: string, i: nat, n: nat)
    requires i + n < |s| && !IsDigit(s[i+n])
    requires forall j :: i <= j < i + n ==> IsDigit(s[j])
    ensures DigitRun(s, i) == n
    decreases n
  {
    if n > 0 {
      DigitRunIs(s, i + 1, n - 1);
    }
  }

  lemma MatchAtComplete(s: string, m: BraceMatch)
    requires IsMatch(s, m)
    ensures MatchAt(s, m.open) == Some(m)
  {
    hide DigitRun;
    DigitRunIs(s, m.open + 1, m.dots - m.open - 1);
    DigitRunIs(s, m.dots + 2, m.close - m.dots - 3);
  }

  // ----- Numbers -----

  function Zeros(n: nat): string { seq(n, _ => '0') }

  /** Go's fmt takes no width above this one from an argument. */
  const MAX_FORMAT_WIDTH := 1_000_000

  /** fmt.Sprintf("%0*d", width, n) for n >= 0. */
  function Padded(width: nat, n: nat): string
  {
    if width > MAX_FORMAT_WIDTH then "%!(BADWIDTH)" + Decimal(n) else ZeroFilled(width, Decimal(n))
  }

  function ZeroFilled(width: nat, d: string): (s: string)
    ensures |s| == if |d| > width then |d| else width
  {
    if |d| >= width then d else Zeros(width - |d|) + d
  }

  /** Zero padding is kept when either bound is written with a leading zero. */
  function Width(m: BraceMatch): nat
  {
    if (|m.lo| > 1 && m.lo[0] == '0') || (|m.hi| > 1 && m.hi[0] == '0')
    then if |m.lo| > |m.hi| then |m.lo| else |m.hi|
    else 0
  }

  /** The text is a numeral exactly when fmt takes the width.  Then padding and
      writing in decimal change nothing: it denotes n, and it is width characters
      long unless n needs more. */
  lemma PaddedDenotes(width: nat, n: nat)
    ensures (forall c :: c in Padded(width, n) ==> IsDigit(c)) <==> width <= MAX_FORMAT_WIDTH
    ensures width <= MAX_FORMAT_WIDTH ==> Value(Padded(width, n)) == n
    ensures width <= MAX_FORMAT_WIDTH ==> |Padded(width, n)| == if |Decimal(n)| > width then |Decimal(n)| else width
  {
    hide Decimal, Value;
    DecimalDenotes(n);
    if width > MAX_FORMAT_WIDTH {
      assert Padded(width, n)[0] == '%' && '%' in Padded(width, n);
    } else if |Decimal(n)| < width {
      ZerosDenote(width - |Decimal(n)|, Decimal(n));
    }
  }

  lemma {:induction false} ZerosDenote(k: nat, d: string)
    requires forall c :: c in d ==> IsDigit(c)
    ensures forall c :: c in Zeros(k) + d ==> IsDigit(c)
    ensures Value(Zeros(k) + d) == Value(d)
  {
    var s := Zeros(k) + d;
    if d != "" {
      ZerosDenote(k, d[..|d|-1]);
      assert s[..|s|-1] == Zeros(k) + d[..|d|-1];
    } else if k > 0 {
      ZerosDenote(k - 1, d);
      assert s[..|s|-1] == Zeros(k - 1) + d;
    }
  }

  // ----- expandBraces -----

  /** A pattern cut at its ranges, left to right: literal text, or text followed
      by the numbers start..end written width wide and the rest. */
  datatype Pattern = Text(text: string)
                   | Range(prefix: string, start: nat, end: nat, width: nat, rest: Pattern)

  function Parse(s: string): Pattern
    decreases |s|
  {
    var r := FindRange(s, 0);
    if r.None? then Text(s)
    else
      var m := r.value;
      Range(s[..m.open], Value(m.lo), Value(m.hi), Width(m), Parse(s[m.close..]))
  }

  function Row(head: string, tails: seq<string>): (r: seq<string>)
    ensures |r| == |tails| && forall j :: 0 <= j < |r| ==> r[j] == head + tails[j]
  {
    seq(|tails|, j requires 0 <= j < |tails| => head + tails[j])
  }

  /** The rows for the numbers start..end-1, in order. */
  function Rows(prefix: string, width: nat, start: nat, end: nat, tails: seq<string>): (r: seq<string>)
    requires start <= end
  {
    if start == end then []
    else Rows(prefix, width, start, end - 1, tails) + Row(prefix + Padded(width, end - 1), tails)
  }

  /** What the source's recursion answers, checks in its order. */
  function Expanded(p: Pattern): Expansion
  {
    if p.Text? then Hosts([p.text])
    else if p.start > MAX_INT || p.end > MAX_INT then Invalid(NumberOutOfRange)
    else if p.start > p.end then Invalid(StartAboveEnd)
    else if Wrap64(p.end - p.start + 1) > MAX_EXPANSION then TooLarge
    else
      var tails := Expanded(p.rest);
      if !tails.Hosts? then tails
      else if Wrap64(Wrap64(p.end - p.start + 1) * |tails.hosts|) > MAX_EXPANSION then TooLarge
      else if p.end == MAX_INT then Aborts
      else Hosts(Rows(p.prefix, p.width, p.start, p.end + 1, tails.hosts))
  }

  method ExpandBraces(s: string) returns (r: Expansion)
    ensures r == Expanded(Parse(s))
    decreases |s|, 1
  {
    var loc := FindRange(s, 0);
    if loc.None? {
      return Hosts([s]);
    }
    var m := loc.value;
    r := ExpandFirst(s[..m.open], Value(m.lo), Value(m.hi), Width(m), s[m.close..], s);
  }

  /** The rest of expandBraces, once the first range of the pattern is known. */
  method ExpandFirst(prefix: string, start: nat, end: nat, width: nat, rest: string, ghost s: string)
    returns (r: Expansion)
    requires |rest| < |s|
    ensures r == Expanded(Range(prefix, start, end, width, Parse(rest)))
    decreases |s|, 0
  {
    if start > MAX_INT || end > MAX_INT {
      return Invalid(NumberOutOfRange);
    }
    if start > end {
      return Invalid(StartAboveEnd);
    }
    if Wrap64(end - start + 1) > MAX_EXPANSION {
      return TooLarge;
    }
    var tails := ExpandBraces(rest);
    if !tails.Hosts? {
      return tails;
    }
    if Wrap64(Wrap64(end - start + 1) * |tails.hosts|) > MAX_EXPANSION {
      return TooLarge;
    }
    if end == MAX_INT {
      return Aborts; // the capacity is negative, or n++ wraps below end for ever
    }
    var out := ExpandRange(prefix, width, start, end, tails.hosts);
    r := Hosts(out);
  }

  method ExpandRange(prefix: string, width: nat, start: nat, end: nat, tails: seq<string>) returns (out: seq<string>)
    requires start <= end
    ensures out == Rows(prefix, width, start, end + 1, tails)
  {
    hide Padded;
    out := [];
    for n := start to end + 1
      invariant out == Rows(prefix, width, start, n, tails)
    {
      var head := prefix + Padded(width, n);
      ghost var row := Row(head, tails);
      for j := 0 to |tails|
        invariant out == Rows(prefix, width, start, n, tails) + row[..j]
      {
        assert row[..j+1] == row[..j] + [head + tails[j]];
        out := out + [head + tails[j]];
      }
      assert row[..|tails|] == row;
    }
  }

  /** Number of hosts a pattern stands for, whatever the cap. */
  function Size(p: Pattern): nat
  {
    if p.Text? then 1
    else if p.start > p.end then 0
    else Times(p.end - p.start + 1, Size(p.rest))
  }

  function Times(a: nat, b: nat): nat { a * b }

  /** Every range ascends and stays below the largest int. */
  predicate RangesFit(p: Pattern)
  {
    p.Range? ==> p.start <= p.end < MAX_INT && RangesFit(p.rest)
  }

  /** Expansion succeeds exactly when every range fits and the product is within
      the cap; it then has exactly that many hosts. */
  lemma {:induction false} BracesSucceedExactly(p: Pattern)
    ensures Expanded(p).Hosts? <==> RangesFit(p) && Size(p) <= MAX_EXPANSION
    ensures Expanded(p).Hosts? ==> 1 <= Size(p) == |Expanded(p).hosts|
    ensures RangesFit(p) ==> 1 <= Size(p) && (Expanded(p).Hosts? || Expanded(p).TooLarge?)
  {
    if p.Range? {
      BracesSucceedExactly(p.rest);
      if p.start <= p.end < MAX_INT {
        var span := p.end - p.start + 1;
        assert Wrap64(span) == span;
        if RangesFit(p.rest) {
          TimesAtLeast(span, Size(p.rest));
        }
        if span <= MAX_EXPANSION && Expanded(p.rest).Hosts? {
          var n := |Expanded(p.rest).hosts|;
          TimesAtMost(span, n);
          assert Wrap64(Times(span, n)) == Times(span, n);
          RowsLength(p.prefix, p.width, p.start, p.end + 1, Expanded(p.rest).hosts);
        }
      }
    }
  }

  lemma TimesAtLeast(a: nat, b: nat)
    requires a >= 1 && b >= 1
    ensures Times(a, b) >= a && Times(a, b) >= b
  {
  }

  lemma TimesAtMost(a: nat, b: nat)
    requires a <= MAX_EXPANSION && b <= MAX_EXPANSION
    ensures Times(a, b) <= MAX_EXPANSION * MAX_EXPANSION
  {
    MulOrdered(a, MAX_EXPANSION, b);
    MulOrdered(b, MAX_EXPANSION, MAX_EXPANSION);
  }

  lemma {:induction false} RowsLength(prefix: string, width: nat, start: nat, end: nat, tails: seq<string>)
    requires start <= end
    ensures |Rows(prefix, width, start, end, tails)| == Times(end - start, |tails|)
  {
    if start < end {
      RowsLength(prefix, width, start, end - 1, tails);
      assert (end - start) * |tails| == (end - 1 - start) * |tails| + |tails|;
    }
  }

  /** A single number written as the largest int aborts the call instead of
      standing for its one host: {9223372036854775807..9223372036854775807}. */
  lemma LargestIntAborts()
    ensures var p := Range("", MAX_INT, MAX_INT, 0, Text(""));
            Size(p) == 1 && Expanded(p) == Aborts
  {
  }

  /** The text that Parse reads as that pattern. */
  lemma LargestIntParses(n: nat)
    requires n == MAX_INT
    ensures Parse("{" + Decimal(n) + ".." + Decimal(n) + "}") == Range("", n, n, 0, Text(""))
  {
    var d := Decimal(n);
    DecimalDenotes(n);
    NoLeadingZero(n);
    ParseSingle(d);
  }

  lemma ParseSingle(d: string)
    requires d != "" && forall c :: c in d ==> IsDigit(c)
    requires |d| > 1 ==> d[0] != '0'
    ensures Parse("{" + d + ".." + d + "}") == Range("", Value(d), Value(d), 0, Text(""))
  {
    var s := "{" + d + ".." + d + "}";
    var m := BraceMatch(0, 1 + |d|, |s|, d, d);
    SingleMatches(d);
    FindRangeLeftmost(s, m);
    ParseFirst(s, m);
    ParseFirst(s[|s|..], m);
  }

  lemma SingleMatches(d: string)
    requires d != "" && forall c :: c in d ==> IsDigit(c)
    ensures var s := "{" + d + ".." + d + "}"; IsMatch(s, BraceMatch(0, 1 + |d|, |s|, d, d))
  {
    var s := "{" + d + ".." + d + "}";
    assert s == "{" + d + (".." + d + "}") && s == ("{" + d + "..") + d + "}";
    Middle("{", d, ".." + d + "}");
    Middle("{" + d + "..", d, "}");
  }

  lemma Middle(a: string, b: string, c: string)
    ensures (a + b + c)[|a|..|a|+|b|] == b
    ensures forall j :: |a| <= j < |a| + |b| ==> (a + b + c)[j] == b[j-|a|]
  {
  }

  lemma ParseFirst(s: string, m: BraceMatch)
    ensures s == "" ==> Parse(s) == Text(s)
    ensures FindRange(s, 0) == Some(m) ==>
              Parse(s) == Range(s[..m.open], Value(m.lo), Value(m.hi), Width(m), Parse(s[m.close..]))
  {
  }

  lemma {:induction false} NoLeadingZero(n: nat)
    ensures n > 0 ==> Decimal(n)[0] != '0'
  {
    if n >= 10 {
      NoLeadingZero(n / 10);
    }
  }

  /** A range whose numbers pass the checks made before its rest is expanded.
      The count of {0..largest int} wraps to a negative number and passes too. */
  predicate PassesFirst(start: nat, end: nat)
  {
    start <= end <= MAX_INT && (end - start + 1 <= MAX_EXPANSION || (start == 0 && end == MAX_INT))
  }

  /** Some range ends at the largest int, the rest after it expands and with it
      stays within the cap (or it starts at 0, where the product wraps), and it is
      reached: the ranges before it pass their first checks. */
  predicate EndsAtLargestInt(p: Pattern)
  {
    p.Range? && PassesFirst(p.start, p.end)
    && (EndsAtLargestInt(p.rest)
        || (p.end == MAX_INT && RangesFit(p.rest) && Size(p.rest) <= MAX_EXPANSION
            && (p.start == 0 || Times(MAX_INT - p.start + 1, Size(p.rest)) <= MAX_EXPANSION)))
  }

  /** The call aborts exactly on such a pattern. */
  lemma {:induction false} AbortsExactly(p: Pattern)
    ensures Expanded(p).Aborts? <==> EndsAtLargestInt(p)
  {
    if p.Range? {
      AbortsExactly(p.rest);
      BracesSucceedExactly(p.rest);
      if p.start <= p.end <= MAX_INT {
        SpanPasses(p.start, p.end);
        if PassesFirst(p.start, p.end) && Expanded(p.rest).Hosts? {
          ProductPasses(p.start, p.end, |Expanded(p.rest).hosts|);
        }
      }
    }
  }

  lemma SpanPasses(start: nat, end: nat)
    requires start <= end <= MAX_INT
    ensures Wrap64(end - start + 1) <= MAX_EXPANSION <==> PassesFirst(start, end)
  {
  }

  lemma ProductPasses(start: nat, end: nat, n: nat)
    requires PassesFirst(start, end) && 1 <= n <= MAX_EXPANSION
    ensures Wrap64(Wrap64(end - start + 1) * n) <= MAX_EXPANSION
            <==> (start == 0 && end == MAX_INT) || Times(end - start + 1, n) <= MAX_EXPANSION
  {
    if start == 0 && end == MAX_INT {
      WrappedMultiple(n);
    } else {
      TimesAtMost(end - start + 1, n);
      hide Wrap64;
      SmallIsItself(end - start + 1);
      SmallIsItself(Times(end - start + 1, n));
    }
  }

  lemma SmallIsItself(x: nat)
    requires x <= MAX_EXPANSION * MAX_EXPANSION
    ensures Wrap64(x) == x
  {
  }

  /** A multiple of -2^63 wraps to 0 or to -2^63. */
  lemma WrappedMultiple(n: nat)
    ensures Wrap64(Wrap64(MAX_INT + 1) * n) <= 0
  {
    var low := -(MAX_INT + 1);
    assert Wrap64(MAX_INT + 1) == low;
    var k := n / 2;
    if n % 2 == 0 {
      assert low * n == -k * 0x1_0000_0000_0000_0000;
    } else {
      assert low * n == -k * 0x1_0000_0000_0000_0000 + low;
    }
  }

  // ----- The cartesian product, by choices -----

  /** c picks one number for each range of p, left to right. */
  predicate Choice(p: Pattern, c: seq<nat>)
  {
    if p.Text? then c == []
    else |c| > 0 && p.start <= c[0] <= p.end && Choice(p.rest, c[1..])
  }

  /** p with each range replaced by the number chosen for it. */
  function Render(p: Pattern, c: seq<nat>): string
    requires Choice(p, c)
  {
    if p.Text? then p.text
    else p.prefix + Padded(p.width, c[0]) + Render(p.rest, c[1..])
  }

  function Place(i: nat, n: nat, x: nat): nat { Times(i, n) + x }

  /** Position of a choice in lexicographic order. */
  function Rank(p: Pattern, c: seq<nat>): nat
    requires Choice(p, c)
  {
    if p.Text? then 0 else Place(c[0] - p.start, Size(p.rest), Rank(p.rest, c[1..]))
  }

  lemma {:induction false} RankBelowSize(p: Pattern, c: seq<nat>)
    requires Choice(p, c)
    ensures Rank(p, c) < Size(p)
  {
    if p.Range? {
      RankBelowSize(p.rest, c[1..]);
      PlaceBelow(c[0] - p.start, p.end - p.start + 1, Size(p.rest), Rank(p.rest, c[1..]));
    }
  }

  lemma PlaceBelow(i: nat, span: nat, n: nat, x: nat)
    requires i < span && x < n
    ensures Place(i, n, x) < Times(span, n)
  {
    MulOrdered(i + 1, span, n);
  }

  /** The cartesian product: the result lists, for every choice, the rendered
      choice at its place in left-to-right order. */
  lemma {:induction false} BracesAreProduct(p: Pattern, c: seq<nat>)
    requires Expanded(p).Hosts? && Choice(p, c)
    ensures Rank(p, c) < |Expanded(p).hosts|
    ensures Expanded(p).hosts[Rank(p, c)] == Render(p, c)
  {
    hide Times, Padded, Rows, RangesFit;
    BracesSucceedExactly(p);
    RankBelowSize(p, c);
    if p.Range? {
      BracesAreProduct(p.rest, c[1..]);
      BracesSucceedExactly(p.rest);
      RowsAt(p.prefix, p.width, p.start, p.end + 1, Expanded(p.rest).hosts, c[0], Rank(p.rest, c[1..]));
    }
  }

  lemma {:induction false} RowsAt(prefix: string, width: nat, start: nat, end: nat, tails: seq<string>, n: nat, j: nat)
    requires start <= n < end && j < |tails|
    ensures Place(n - start, |tails|, j) < |Rows(prefix, width, start, end, tails)|
    ensures Rows(prefix, width, start, end, tails)[Place(n - start, |tails|, j)]
         == prefix + Padded(width, n) + tails[j]
  {
    RowsLength(prefix, width, start, end - 1, tails);
    RowsLength(prefix, width, start, end, tails);
    PlaceBelow(n - start, end - start, |tails|, j);
    if n < end - 1 {
      RowsAt(prefix, width, start, end - 1, tails, n, j);
    }
  }

  /** Every place holds a choice, and only one: Rank is onto, and injective. */
  lemma {:induction false} RankOnto(p: Pattern, k: nat) returns (c: seq<nat>)
    requires k < Size(p)
    ensures Choice(p, c) && Rank(p, c) == k
  {
    if p.Text? {
      c := [];
    } else {
      var n := Size(p.rest);
      QuotientBelow(k, p.end - p.start + 1, n);
      var rest := RankOnto(p.rest, k % n);
      c := [p.start + k / n] + rest;
      assert c[1..] == rest;
    }
  }

  lemma QuotientBelow(k: nat, span: nat, n: nat)
    requires k < Times(span, n)
    ensures n > 0 && k / n < span && k % n < n && Place(k / n, n, k % n) == k
  {
    assert n > 0;
    if k / n >= span {
      MulOrdered(span, k / n, n);
    }
  }

  lemma {:induction false} RankInjective(p: Pattern, c: seq<nat>, d: seq<nat>)
    requires Choice(p, c) && Choice(p, d) && Rank(p, c) == Rank(p, d)
    ensures c == d
  {
    if p.Range? {
      RankBelowSize(p.rest, c[1..]);
      RankBelowSize(p.rest, d[1..]);
      SamePlace(c[0] - p.start, Rank(p.rest, c[1..]), d[0] - p.start, Rank(p.rest, d[1..]), Size(p.rest));
      RankInjective(p.rest, c[1..], d[1..]);
      assert c == [c[0]] + c[1..] && d == [d[0]] + d[1..];
    }
  }
}
