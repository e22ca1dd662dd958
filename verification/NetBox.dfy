/** Display names for NetBox exports (internal/hostsfile/netbox.go) and the check
    that a document's names tell its targets apart
    (cmd/main/config_validation.go, validateHostNames). */
module HostNames {
  import opened Decimals
  import opened Sets

  /** One imported row: its address, the name it asks for, its interface. */
  datatype Row = Row(host: string, baseName: string, iface: string)

  /** A host with its display name; an empty name means none. */
  datatype Named = Named(host: string, name: string)

  // ----- Numbered names -----

  function Numbered(base: string, k: nat): string { base + " #" + Decimal(k) }

  lemma NumberedInjective(base: string, j: nat, k: nat)
    requires Numbered(base, j) == Numbered(base, k)
    ensures j == k
  {
    var p := base + " #";
    assert Numbered(base, j)[|p|..] == Decimal(j);
    assert Numbered(base, k)[|p|..] == Decimal(k);
    DecimalInjective(j, k);
  }

  // ----- What the names should be -----

  /** name is the identity of something other than row i: another row's host, or
      a reserved entry's host or explicit name. */
  ghost predicate Taken(rows: seq<Row>, reserved: seq<Named>, name: string, i: nat)
  {
    || (exists j :: 0 <= j < |rows| && j != i && rows[j].host == name)
    || (exists j :: 0 <= j < |reserved| && (reserved[j].host == name || reserved[j].name == name))
  }

  function Paren(base: string, detail: string): string { base + " (" + detail + ")" }

  function Or(a: string, b: string): string { if a != "" then a else b }

  /** First choice: the bare name when it is nobody else's, else with detail. */
  ghost function Candidate(rows: seq<Row>, reserved: seq<Named>, i: nat): string
    requires i < |rows|
  {
    var r := rows[i];
    if r.baseName == "" then ""
    else if (forall j :: 0 <= j < |rows| && j != i ==> rows[j].baseName != r.baseName)
            && !Taken(rows, reserved, r.baseName, i) then r.baseName
    else Paren(r.baseName, Or(r.iface, r.host))
  }

  ghost predicate Contested(rows: seq<Row>, reserved: seq<Named>, i: nat)
    requires i < |rows|
  {
    var c := Candidate(rows, reserved, i);
    c != "" && ((exists j :: 0 <= j < |rows| && j != i && Candidate(rows, reserved, j) == c)
                || Taken(rows, reserved, c, i))
  }

  /** Second choice: full detail when the first is contested. */
  ghost function Refined(rows: seq<Row>, reserved: seq<Named>, i: nat): string
    requires i < |rows|
  {
    var r := rows[i];
    if !Contested(rows, reserved, i) then Candidate(rows, reserved, i)
    else Paren(r.baseName, if r.iface != "" then r.iface + " " + r.host else r.host)
  }

  /** Names used up once a row that wanted `want` was given `name`. */
  function Use(seen: multiset<string>, want: string, name: string): multiset<string>
  {
    if want == "" then seen
    else if name == want then seen + multiset{want}
    else seen + multiset{want} + multiset{name}
  }

  /** Names used up by the first n rows: each refined name wanted, and each
      numbered name given. */
  ghost function Seen(rows: seq<Row>, reserved: seq<Named>, names: seq<string>, n: nat): multiset<string>
    requires n <= |rows| && n <= |names|
  {
    if n == 0 then multiset{}
    else Use(Seen(rows, reserved, names, n - 1), Refined(rows, reserved, n - 1), names[n-1])
  }

  ghost predicate Free(rows: seq<Row>, reserved: seq<Named>, seen: multiset<string>, name: string, i: nat)
  {
    name !in seen && !Taken(rows, reserved, name, i)
  }

  /** Third choice: the refined name if it is free, otherwise that name with the
      least number that makes it free. */
  ghost predicate Chosen(rows: seq<Row>, reserved: seq<Named>, seen: multiset<string>, want: string, name: string,
                         i: nat)
  {
    if want == "" then name == ""
    else if Free(rows, reserved, seen, want, i) then name == want
    else exists k: nat :: LeastFree(rows, reserved, seen + multiset{want}, want, i, k) && name == Numbered(want, k)
  }

  ghost predicate NameOf(rows: seq<Row>, reserved: seq<Named>, names: seq<string>, i: nat)
    requires i < |rows| && i < |names|
  {
    Chosen(rows, reserved, Seen(rows, reserved, names, i), Refined(rows, reserved, i), names[i], i)
  }

  ghost predicate LeastFree(rows: seq<Row>, reserved: seq<Named>, seen: multiset<string>, want: string, i: nat, k: nat)
  {
    && 2 <= k && seen[want] <= k
    && Free(rows, reserved, seen, Numbered(want, k), i)
    && (forall j: nat :: 2 <= j < k && seen[want] <= j ==> !Free(rows, reserved, seen, Numbered(want, j), i))
  }

  ghost predicate Resolved(rows: seq<Row>, reserved: seq<Named>, names: seq<string>)
  {
    |names| == |rows| && ResolvedUpTo(rows, reserved, names)
  }

  // ----- Counting with maps -----

  function Get(m: map<string, nat>, key: string): nat { if key in m then m[key] else 0 }

  method CountAll(keys: seq<string>) returns (m: map<string, nat>)
    ensures forall x :: Get(m, x) == multiset(keys)[x]
    ensures forall x :: x in m ==> x in keys
  {
    m := map[];
    for i := 0 to |keys|
      invariant forall x :: Get(m, x) == multiset(keys[..i])[x]
      invariant forall x :: x in m ==> x in keys
    {
      m := m[keys[i] := Get(m, keys[i]) + 1];
      assert keys[..i+1] == keys[..i] + [keys[i]];
    }
    assert keys[..|keys|] == keys;
  }

  /** A count above one's own share means that another position has the value. */
  lemma CountOthers(s: seq<string>, i: nat, x: string)
    requires i < |s|
    ensures (multiset(s)[x] > if s[i] == x then 1 else 0) <==> exists j :: 0 <= j < |s| && j != i && s[j] == x
  {
    var l, r := s[..i], s[i+1..];
    assert s == l + [s[i]] + r;
    assert multiset(s) == multiset(l) + multiset{s[i]} + multiset(r);
    if x in l {
      var j :| 0 <= j < |l| && l[j] == x;
      assert s[j] == x;
    } else if x in r {
      var j :| 0 <= j < |r| && r[j] == x;
      assert s[i + 1 + j] == x;
    } else {
      forall j | 0 <= j < |s| && j != i ensures s[j] != x {
        assert if j < i then s[j] == l[j] && l[j] in l else s[j] == r[j - i - 1] && r[j - i - 1] in r;
      }
    }
  }

  function RowHosts(rows: seq<Row>): (s: seq<string>)
    ensures |s| == |rows| && forall i :: 0 <= i < |s| ==> s[i] == rows[i].host
  {
    seq(|rows|, i requires 0 <= i < |rows| => rows[i].host)
  }

  function BaseNames(rows: seq<Row>): (s: seq<string>)
    ensures |s| == |rows| && forall i :: 0 <= i < |s| ==> s[i] == rows[i].baseName
  {
    seq(|rows|, i requires 0 <= i < |rows| => rows[i].baseName)
  }

  function Hosts(entries: seq<Named>): (s: seq<string>)
    ensures |s| == |entries| && forall i :: 0 <= i < |s| ==> s[i] == entries[i].host
  {
    seq(|entries|, i requires 0 <= i < |entries| => entries[i].host)
  }

  /** collidesWithIdentity on the two maps. */
  predicate Collides(hostCount: map<string, nat>, reservedNames: set<string>, name: string, ownHost: string)
  {
    Get(hostCount, name) > (if name == ownHost then 1 else 0) || name in reservedNames
  }

  lemma CollidesMeansTaken(rows: seq<Row>, reserved: seq<Named>, hostCount: map<string, nat>,
                           reservedNames: set<string>, name: string, i: nat)
    requires i < |rows| && name != ""
    requires MapsAgree(rows, reserved, hostCount, reservedNames)
    ensures Collides(hostCount, reservedNames, name, rows[i].host) <==> Taken(rows, reserved, name, i)
  {
    var all := Hosts(reserved) + RowHosts(rows);
    var me := |reserved| + i;
    CountOthers(all, me, name);
    forall j | 0 <= j < |all| && j != me && all[j] == name ensures Taken(rows, reserved, name, i) {
      if j >= |reserved| {
        assert rows[j - |reserved|].host == name;
      } else {
        assert reserved[j].host == name;
      }
    }
    forall j | 0 <= j < |rows| && j != i && rows[j].host == name
      ensures exists k :: 0 <= k < |all| && k != me && all[k] == name
    {
      assert all[|reserved| + j] == name;
    }
    forall j | 0 <= j < |reserved| && reserved[j].host == name
      ensures exists k :: 0 <= k < |all| && k != me && all[k] == name
    {
      assert all[j] == name;
    }
  }

  // ----- resolveNetBoxNames -----

  /** A name the search must pass over. */
  predicate Blocked(seen: map<string, nat>, hostCount: map<string, nat>, reservedNames: set<string>,
                    name: string, ownHost: string)
  {
    Get(seen, name) != 0 || Collides(hostCount, reservedNames, name, ownHost)
  }

  predicate NumberBlocked(seen: map<string, nat>, hostCount: map<string, nat>, reservedNames: set<string>,
                          base: string, k: nat, ownHost: string)
  {
    Blocked(seen, hostCount, reservedNames, Numbered(base, k), ownHost)
  }

  /** The search for a number. The source writes it without a bound; it
      stops because every rejected number uses up a different taken name, and
      only finitely many names are taken. */
  method FirstFreeNumber(base: string, start: nat, seen: map<string, nat>, hostCount: map<string, nat>,
                         reservedNames: set<string>, ownHost: string)
    returns (k: nat)
    ensures start <= k <= start + |TakenNames(seen, hostCount, reservedNames)|
    ensures !NumberBlocked(seen, hostCount, reservedNames, base, k, ownHost)
    ensures BlockedBetween(seen, hostCount, reservedNames, base, start, k, ownHost)
  {
    hide NumberBlocked, TakenNames, UsesNumberBelow;
    ghost var used: set<string> := {};
    k := start;
    while NumberBlocked(seen, hostCount, reservedNames, base, k, ownHost)
      invariant start <= k && |used| == k - start <= |TakenNames(seen, hostCount, reservedNames)|
      invariant BlockedBetween(seen, hostCount, reservedNames, base, start, k, ownHost)
      invariant UsedByNumbers(seen, hostCount, reservedNames, used, base, k)
      decreases start + |TakenNames(seen, hostCount, reservedNames)| - k
    {
      used := UseNumber(seen, hostCount, reservedNames, used, base, k, ownHost);
      k := k + 1;
    }
  }

  ghost function TakenNames(seen: map<string, nat>, hostCount: map<string, nat>,
                            reservedNames: set<string>): set<string>
  {
    seen.Keys + hostCount.Keys + reservedNames
  }

  ghost predicate BlockedBetween(seen: map<string, nat>, hostCount: map<string, nat>, reservedNames: set<string>,
                                 base: string, start: nat, end: nat, ownHost: string)
  {
    forall j: nat :: start <= j < end ==> NumberBlocked(seen, hostCount, reservedNames, base, j, ownHost)
  }

  /** The names in used are taken, and each carries a number below k. */
  ghost predicate UsedByNumbers(seen: map<string, nat>, hostCount: map<string, nat>, reservedNames: set<string>,
                                used: set<string>, base: string, k: nat)
  {
    && used <= TakenNames(seen, hostCount, reservedNames)
    && forall x :: x in used ==> UsesNumberBelow(base, x, k)
  }

  lemma UseNumber(seen: map<string, nat>, hostCount: map<string, nat>, reservedNames: set<string>,
                  used: set<string>, base: string, k: nat, ownHost: string)
    returns (used': set<string>)
    requires UsedByNumbers(seen, hostCount, reservedNames, used, base, k)
    requires NumberBlocked(seen, hostCount, reservedNames, base, k, ownHost)
    ensures UsedByNumbers(seen, hostCount, reservedNames, used', base, k + 1)
    ensures |used'| == |used| + 1 <= |TakenNames(seen, hostCount, reservedNames)|
  {
    FreshNumber(base, used, k);
    used' := used + {Numbered(base, k)};
    SubsetSize(used', TakenNames(seen, hostCount, reservedNames));
  }

  ghost predicate UsesNumberBelow(base: string, name: string, k: nat)
  {
    exists j: nat :: j < k && name == Numbered(base, j)
  }

  lemma FreshNumber(base: string, used: set<string>, k: nat)
    requires forall x :: x in used ==> UsesNumberBelow(base, x, k)
    ensures Numbered(base, k) !in used
    ensures forall x :: x in used + {Numbered(base, k)} ==> UsesNumberBelow(base, x, k + 1)
  {
    if Numbered(base, k) in used {
      var j: nat :| j < k && Numbered(base, k) == Numbered(base, j);
      NumberedInjective(base, j, k);
    }
  }

  /** The maps agree with what they summarise. */
  ghost predicate MapsAgree(rows: seq<Row>, reserved: seq<Named>, hostCount: map<string, nat>,
                            reservedNames: set<string>)
  {
    && (forall x :: Get(hostCount, x) == multiset(Hosts(reserved) + RowHosts(rows))[x])
    && (forall x :: x in reservedNames <==> x != "" && exists j :: 0 <= j < |reserved| && reserved[j].name == x)
  }

  ghost predicate Tallies(m: map<string, nat>, bag: multiset<string>)
  {
    forall x :: Get(m, x) == bag[x]
  }

  /** For one row, the refined name, or its first free number. */
  method NameRow(rows: seq<Row>, reserved: seq<Named>, hostCount: map<string, nat>, reservedNames: set<string>,
                 i: nat, want: string, seen: map<string, nat>, ghost bag: multiset<string>)
    returns (name: string, seen': map<string, nat>)
    requires i < |rows| && MapsAgree(rows, reserved, hostCount, reservedNames)
    requires Tallies(seen, bag) && want != ""
    ensures Chosen(rows, reserved, bag, want, name, i)
    ensures Tallies(seen', Use(bag, want, name))
  {
    hide MapsAgree, Taken, Collides, LeastFree;
    name := want;
    seen' := seen[name := Get(seen, name) + 1];
    CollidesMeansTaken(rows, reserved, hostCount, reservedNames, want, i);
    assert Tallies(seen', bag + multiset{want});
    if seen'[name] > 1 || Collides(hostCount, reservedNames, name, rows[i].host) {
      var start := if seen'[name] > 2 then seen'[name] else 2;
      var k := FirstFreeNumber(want, start, seen', hostCount, reservedNames, rows[i].host);
      name := Numbered(want, k);
      LeastFreeFound(rows, reserved, hostCount, reservedNames, seen', bag + multiset{want}, want, i, start, k);
      seen' := seen'[name := 1];
    }
  }

  lemma LeastFreeFound(rows: seq<Row>, reserved: seq<Named>, hostCount: map<string, nat>, reservedNames: set<string>,
                       seen: map<string, nat>, bag: multiset<string>, want: string, i: nat, start: nat, k: nat)
    requires i < |rows| && MapsAgree(rows, reserved, hostCount, reservedNames)
    requires Tallies(seen, bag)
    requires start == (if bag[want] > 2 then bag[want] else 2) && start <= k
    requires !NumberBlocked(seen, hostCount, reservedNames, want, k, rows[i].host)
    requires BlockedBetween(seen, hostCount, reservedNames, want, start, k, rows[i].host)
    ensures LeastFree(rows, reserved, bag, want, i, k)
  {
    CollidesMeansTaken(rows, reserved, hostCount, reservedNames, Numbered(want, k), i);
    forall j: nat | start <= j < k ensures !Free(rows, reserved, bag, Numbered(want, j), i) {
      assert NumberBlocked(seen, hostCount, reservedNames, want, j, rows[i].host);
      CollidesMeansTaken(rows, reserved, hostCount, reservedNames, Numbered(want, j), i);
    }
  }

  /** The identities the generated names must avoid. */
  method Identities(rows: seq<Row>, reserved: seq<Named>)
    returns (hostCount: map<string, nat>, reservedNames: set<string>)
    ensures MapsAgree(rows, reserved, hostCount, reservedNames)
  {
    hostCount := CountAll(Hosts(reserved) + RowHosts(rows));
    reservedNames := {};
    for i := 0 to |reserved|
      invariant forall x :: x in reservedNames <==> x != "" && exists j :: 0 <= j < i && reserved[j].name == x
    {
      if reserved[i].name != "" {
        reservedNames := reservedNames + {reserved[i].name};
      }
    }
  }

  /** resolveNetBoxNames. */
  method ResolveNetBoxNames(rows: seq<Row>, reserved: seq<Named>) returns (out: seq<Named>)
    ensures |out| == |rows|
    ensures forall i :: 0 <= i < |rows| ==> out[i].host == rows[i].host
    ensures Resolved(rows, reserved, NamesOf(out))
  {
    if |rows| == 0 {
      return [];
    }
    var hostCount, reservedNames := Identities(rows, reserved);
    var baseCount := CountAll(BaseNames(rows));
    var cand := Candidates(rows, reserved, hostCount, reservedNames, baseCount);
    var wanted := Refine(rows, reserved, hostCount, reservedNames, cand);
    out := AssignNames(rows, reserved, hostCount, reservedNames, wanted);
  }

  method AssignNames(rows: seq<Row>, reserved: seq<Named>, hostCount: map<string, nat>,
                     reservedNames: set<string>, wanted: seq<string>)
    returns (out: seq<Named>)
    requires MapsAgree(rows, reserved, hostCount, reservedNames)
    requires |wanted| == |rows| && forall i :: 0 <= i < |rows| ==> wanted[i] == Refined(rows, reserved, i)
    ensures |out| == |rows|
    ensures forall i :: 0 <= i < |rows| ==> out[i].host == rows[i].host
    ensures Resolved(rows, reserved, NamesOf(out))
  {
    hide MapsAgree, Refined, NameOf;
    out := [];
    var seen: map<string, nat> := map[];
    for i := 0 to |rows|
      invariant |out| == i
      invariant forall j :: 0 <= j < i ==> out[j].host == rows[j].host
      invariant ResolvedUpTo(rows, reserved, NamesOf(out))
      invariant Tallies(seen, Seen(rows, reserved, NamesOf(out), i))
    {
      out, seen := NameNext(rows, reserved, hostCount, reservedNames, wanted[i], out, seen);
    }
  }

  /** The next row's name. */
  method NameNext(rows: seq<Row>, reserved: seq<Named>, hostCount: map<string, nat>, reservedNames: set<string>,
                  want: string, out: seq<Named>, seen: map<string, nat>)
    returns (out': seq<Named>, seen': map<string, nat>)
    requires MapsAgree(rows, reserved, hostCount, reservedNames)
    requires |out| < |rows| && want == Refined(rows, reserved, |out|)
    requires ResolvedUpTo(rows, reserved, NamesOf(out)) && Tallies(seen, Seen(rows, reserved, NamesOf(out), |out|))
    ensures |out'| == |out| + 1 && out'[..|out|] == out && out'[|out|].host == rows[|out|].host
    ensures ResolvedUpTo(rows, reserved, NamesOf(out')) && Tallies(seen', Seen(rows, reserved, NamesOf(out'), |out'|))
  {
    hide MapsAgree, Refined, NameOf, ResolvedUpTo, Seen, Free;
    ghost var bag := Seen(rows, reserved, NamesOf(out), |out|);
    var name := want;
    seen' := seen;
    if name != "" {
      name, seen' := NameRow(rows, reserved, hostCount, reservedNames, |out|, name, seen, bag);
    }
    NamesExtend(rows, reserved, NamesOf(out), name);
    out' := out + [Named(rows[|out|].host, name)];
    assert NamesOf(out') == NamesOf(out) + [name];
  }

  ghost predicate ResolvedUpTo(rows: seq<Row>, reserved: seq<Named>, names: seq<string>)
  {
    |names| <= |rows| && forall i :: 0 <= i < |names| ==> NameOf(rows, reserved, names, i)
  }

  lemma NamesExtend(rows: seq<Row>, reserved: seq<Named>, a: seq<string>, name: string)
    requires |a| < |rows| && ResolvedUpTo(rows, reserved, a)
    requires Chosen(rows, reserved, Seen(rows, reserved, a, |a|), Refined(rows, reserved, |a|), name, |a|)
    ensures ResolvedUpTo(rows, reserved, a + [name])
    ensures Seen(rows, reserved, a + [name], |a| + 1)
         == Use(Seen(rows, reserved, a, |a|), Refined(rows, reserved, |a|), name)
  {
    hide Chosen, Refined, Use;
    var b := a + [name];
    SeenPrefix(rows, reserved, a, b, |a|);
    forall j | 0 <= j < |a| ensures NameOf(rows, reserved, b, j) {
      assert NameOf(rows, reserved, a, j);
      assert a[..j] == b[..j];
      SeenPrefix(rows, reserved, a, b, j);
    }
  }

  /** Full detail for every contested candidate. */
  method Refine(rows: seq<Row>, reserved: seq<Named>, hostCount: map<string, nat>,
                reservedNames: set<string>, cand: seq<string>)
    returns (wanted: seq<string>)
    requires MapsAgree(rows, reserved, hostCount, reservedNames)
    requires |cand| == |rows| && forall i :: 0 <= i < |rows| ==> cand[i] == Candidate(rows, reserved, i)
    ensures |wanted| == |rows| && forall i :: 0 <= i < |rows| ==> wanted[i] == Refined(rows, reserved, i)
  {
    hide MapsAgree, Candidate, Contested, Collides;
    var candCount := CountAll(cand);
    wanted := [];
    for i := 0 to |rows|
      invariant |wanted| == i && forall j :: 0 <= j < i ==> wanted[j] == Refined(rows, reserved, j)
    {
      var r := rows[i];
      var name := cand[i];
      ContestedByCount(rows, reserved, hostCount, reservedNames, cand, i);
      if name != "" && (Get(candCount, name) > 1 || Collides(hostCount, reservedNames, name, r.host)) {
        name := Paren(r.baseName, if r.iface != "" then r.iface + " " + r.host else r.host);
      }
      wanted := wanted + [name];
    }
  }

  lemma ContestedByCount(rows: seq<Row>, reserved: seq<Named>, hostCount: map<string, nat>,
                         reservedNames: set<string>, cand: seq<string>, i: nat)
    requires MapsAgree(rows, reserved, hostCount, reservedNames)
    requires i < |rows| == |cand|
    requires forall j :: 0 <= j < |rows| ==> cand[j] == Candidate(rows, reserved, j)
    ensures cand[i] != "" && (multiset(cand)[cand[i]] > 1 || Collides(hostCount, reservedNames, cand[i], rows[i].host))
            <==> Contested(rows, reserved, i)
  {
    if cand[i] != "" {
      CountOthers(cand, i, cand[i]);
      CollidesMeansTaken(rows, reserved, hostCount, reservedNames, cand[i], i);
    }
  }

  function NamesOf(entries: seq<Named>): (s: seq<string>)
    ensures |s| == |entries| && forall i :: 0 <= i < |s| ==> s[i] == entries[i].name
  {
    seq(|entries|, i requires 0 <= i < |entries| => entries[i].name)
  }

  lemma {:induction false} SeenPrefix(rows: seq<Row>, reserved: seq<Named>, a: seq<string>, b: seq<string>, n: nat)
    requires n <= |rows| && n <= |a| && n <= |b| && a[..n] == b[..n]
    ensures Seen(rows, reserved, a, n) == Seen(rows, reserved, b, n)
  {
    hide Refined, Use;
    if n > 0 {
      assert a[n-1] == a[..n][n-1] == b[..n][n-1] == b[n-1];
      assert a[..n-1] == a[..n][..n-1] == b[..n][..n-1] == b[..n-1];
      SeenPrefix(rows, reserved, a, b, n - 1);
    }
  }

  method Candidates(rows: seq<Row>, reserved: seq<Named>, hostCount: map<string, nat>,
                    reservedNames: set<string>, baseCount: map<string, nat>)
    returns (cand: seq<string>)
    requires MapsAgree(rows, reserved, hostCount, reservedNames)
    requires forall x :: Get(baseCount, x) == multiset(BaseNames(rows))[x]
    ensures |cand| == |rows|
    ensures forall i :: 0 <= i < |rows| ==> cand[i] == Candidate(rows, reserved, i)
  {
    cand := [];
    for i := 0 to |rows|
      invariant |cand| == i
      invariant forall j :: 0 <= j < i ==> cand[j] == Candidate(rows, reserved, j)
    {
      var r := rows[i];
      var c := "";
      if r.baseName != "" {
        CountOthers(BaseNames(rows), i, r.baseName);
        CollidesMeansTaken(rows, reserved, hostCount, reservedNames, r.baseName, i);
        if Get(baseCount, r.baseName) == 1 && !Collides(hostCount, reservedNames, r.baseName, r.host) {
          c := r.baseName;
        } else if r.iface != "" {
          c := Paren(r.baseName, r.iface);
        } else {
          c := Paren(r.baseName, r.host);
        }
      }
      cand := cand + [c];
    }
  }

  // ----- What the resolution promises -----

  /** Every generated name is unique among the generated names and is nobody
      else's host or reserved name. */
  lemma {:induction false} GeneratedNamesUnique(rows: seq<Row>, reserved: seq<Named>, names: seq<string>, i: nat)
    requires Resolved(rows, reserved, names)
    requires i < |rows| && names[i] != ""
    ensures forall j :: 0 <= j < |rows| && j != i ==> names[j] != names[i]
    ensures !Taken(rows, reserved, names[i], i)
  {
    assert NameOf(rows, reserved, names, i);
    forall j | 0 <= j < |rows| && j != i ensures names[j] != names[i] {
      assert NameOf(rows, reserved, names, j);
      SeenGrows(rows, reserved, names, if i < j then i else j, if i < j then j else i);
    }
  }

  lemma {:induction false} SeenGrows(rows: seq<Row>, reserved: seq<Named>, names: seq<string>, i: nat, n: nat)
    requires |names| == |rows| && i < n <= |rows|
    requires Resolved(rows, reserved, names)
    ensures names[i] != "" ==> names[i] in Seen(rows, reserved, names, n)
    decreases n
  {
    hide Chosen, Use, Refined;
    assert NameOf(rows, reserved, names, n - 1);
    ChosenUsed(rows, reserved, Seen(rows, reserved, names, n - 1), Refined(rows, reserved, n - 1), names[n-1], n - 1);
    if i < n - 1 {
      SeenGrows(rows, reserved, names, i, n - 1);
    }
  }

  lemma ChosenUsed(rows: seq<Row>, reserved: seq<Named>, seen: multiset<string>, want: string, name: string, i: nat)
    requires Chosen(rows, reserved, seen, want, name, i)
    ensures name != "" ==> name in Use(seen, want, name)
    ensures seen <= Use(seen, want, name)
  {
    hide Free, LeastFree, Numbered;
  }

  /** A row is left unnamed exactly when it asked for no name. */
  lemma UnnamedExactlyWhenAsked(rows: seq<Row>, reserved: seq<Named>, names: seq<string>, i: nat)
    requires Resolved(rows, reserved, names) && i < |rows|
    ensures names[i] == "" <==> rows[i].baseName == ""
  {
    assert NameOf(rows, reserved, names, i);
  }

  /** Resolved leaves no choice: it determines every name. */
  lemma {:induction false} ResolvedUnique(rows: seq<Row>, reserved: seq<Named>, a: seq<string>, b: seq<string>, n: nat)
    requires Resolved(rows, reserved, a) && Resolved(rows, reserved, b) && n <= |rows|
    ensures a[..n] == b[..n]
  {
    hide Seen, Chosen, Refined;
    if n > 0 {
      ResolvedUnique(rows, reserved, a, b, n - 1);
      SeenPrefix(rows, reserved, a, b, n - 1);
      assert NameOf(rows, reserved, a, n - 1) && NameOf(rows, reserved, b, n - 1);
      var bag, want := Seen(rows, reserved, a, n - 1), Refined(rows, reserved, n - 1);
      NameOfUnique(rows, reserved, bag, want, a[n-1], b[n-1], n - 1);
      assert a[..n] == a[..n-1] + [a[n-1]];
      assert b[..n] == b[..n-1] + [b[n-1]];
    }
  }

  lemma NameOfUnique(rows: seq<Row>, reserved: seq<Named>, seen: multiset<string>, want: string,
                     a: string, b: string, i: nat)
    requires Chosen(rows, reserved, seen, want, a, i) && Chosen(rows, reserved, seen, want, b, i)
    ensures a == b
  {
    if want != "" && !Free(rows, reserved, seen, want, i) {
      var bag := seen + multiset{want};
      var j: nat :| LeastFree(rows, reserved, bag, want, i, j) && a == Numbered(want, j);
      var k: nat :| LeastFree(rows, reserved, bag, want, i, k) && b == Numbered(want, k);
      assert j == k;
    }
  }
}
