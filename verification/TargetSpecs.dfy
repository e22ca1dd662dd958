/** Target lists and the groups that index into them (cmd/main/hosts.go,
    cmd/main/targetspec.go, and the deletion in cmd/main/live_targets.go). */
module TargetSpecs {
  import opened Sequences

  /** pinnedIP and name are empty when unset. */
  datatype TargetSpec = TargetSpec(host: string, pinnedIP: string, name: string) {
    function ResolveAddr(): string
    {
      if pinnedIP != "" then pinnedIP else host
    }

    function Display(): string
    {
      var shown := if name != "" then name else host;
      if pinnedIP != "" then shown + " (" + pinnedIP + ")" else shown
    }
  }

  datatype Group = Group(name: string, indices: seq<int>)

  /** A host and a group as the hosts file lists them. */
  datatype HostEntry = HostEntry(host: string, name: string)
  datatype HostGroup = HostGroup(name: string, hosts: seq<HostEntry>)

  // ----- Reading through indices -----

  predicate InRange(indices: seq<int>, n: nat)
  {
    forall j :: 0 <= j < |indices| ==> 0 <= indices[j] < n
  }

  /** What a group shows: the items at its indices, in order. */
  function Read<T>(items: seq<T>, indices: seq<int>): (r: seq<T>)
    requires InRange(indices, |items|)
    ensures |r| == |indices| && forall j :: 0 <= j < |r| ==> r[j] == items[indices[j]]
  {
    seq(|indices|, j requires 0 <= j < |indices| => items[indices[j]])
  }

  predicate GroupsInRange(groups: seq<Group>, n: nat)
  {
    forall g :: 0 <= g < |groups| ==> InRange(groups[g].indices, n)
  }

  /** No index stands in two groups. */
  predicate Disjoint(groups: seq<Group>)
  {
    forall g, h, i :: 0 <= g < h < |groups| && i in groups[g].indices ==> i !in groups[h].indices
  }

  /** Group lists of n targets as they are built: indices in range, groups disjoint. */
  predicate GroupsSound(groups: seq<Group>, n: nat)
  {
    GroupsInRange(groups, n) && Disjoint(groups)
  }

  function Range(from: int, to: int): (r: seq<int>)
    requires from <= to
    ensures |r| == to - from && forall j :: 0 <= j < |r| ==> r[j] == from + j
  {
    seq(to - from, j => from + j)
  }

  lemma TakeNext<T>(s: seq<T>, i: nat)
    requires i < |s|
    ensures s[..i] + [s[i]] == s[..i+1]
  {
  }

  lemma ConcatNext<T>(before: seq<T>, parts: seq<seq<T>>, i: nat)
    requires i < |parts|
    ensures before + Concat(parts[..i]) + parts[i] == before + Concat(parts[..i+1])
  {
    TakeNext(parts, i);
    ConcatSnoc(parts[..i], parts[i]);
  }

  /** Reading a longer list at the same indices. */
  lemma ReadLonger<T>(items: seq<T>, more: seq<T>, indices: seq<int>)
    requires InRange(indices, |items|)
    ensures InRange(indices, |items + more|) && Read(items + more, indices) == Read(items, indices)
  {
  }

  /** A run of consecutive indices reads the items that stand there. */
  lemma ReadRange<T>(before: seq<T>, part: seq<T>, after: seq<T>)
    ensures var r := Range(|before|, |before| + |part|);
            InRange(r, |before + part + after|) && Read(before + part + after, r) == part
  {
  }

  // ----- Building the list (buildHostsAndGroups) -----

  function SpecOf(h: HostEntry): TargetSpec { TargetSpec(h.host, "", h.name) }

  function SpecsOf(hosts: seq<HostEntry>): seq<TargetSpec>
  {
    seq(|hosts|, i requires 0 <= i < |hosts| => SpecOf(hosts[i]))
  }

  function Given(cliHosts: seq<string>): seq<HostEntry>
  {
    seq(|cliHosts|, i requires 0 <= i < |cliHosts| => HostEntry(cliHosts[i], ""))
  }

  /** Each group shows the hosts it lists, in order; groups are disjoint, and no
      group holds an ungrouped host. */
  ghost predicate Grouped(specs: seq<TargetSpec>, groups: seq<Group>, docGroups: seq<HostGroup>, ungrouped: nat)
  {
    && |groups| == |docGroups| && GroupsInRange(groups, |specs|) && Disjoint(groups)
    && (forall g :: 0 <= g < |groups| ==>
          groups[g].name == docGroups[g].name && Read(specs, groups[g].indices) == SpecsOf(docGroups[g].hosts))
    && (forall g, i :: 0 <= g < |groups| && i in groups[g].indices ==> i >= ungrouped)
  }

  function Listed(docGroups: seq<HostGroup>): seq<seq<TargetSpec>>
  {
    seq(|docGroups|, g requires 0 <= g < |docGroups| => SpecsOf(docGroups[g].hosts))
  }

  method BuildHostsAndGroups(docHosts: seq<HostEntry>, docGroups: seq<HostGroup>, cliHosts: seq<string>)
    returns (allHosts: seq<TargetSpec>, uiGroups: seq<Group>)
    ensures var loose := SpecsOf(docHosts + Given(cliHosts));
            && allHosts == loose + Concat(Listed(docGroups))
            && Grouped(allHosts, uiGroups, docGroups, |loose|)
  {
    hide Grouped, Concat;
    var loose := [];
    for i := 0 to |docHosts|
      invariant loose == SpecsOf(docHosts[..i])
    {
      loose := loose + [TargetSpec(docHosts[i].host, "", docHosts[i].name)];
    }
    for i := 0 to |cliHosts|
      invariant loose == SpecsOf(docHosts + Given(cliHosts[..i]))
    {
      loose := loose + [TargetSpec(cliHosts[i], "", "")];
    }
    assert cliHosts[..|cliHosts|] == cliHosts;
    allHosts, uiGroups := AppendGroups(loose, docGroups);
  }

  method AppendGroups(loose: seq<TargetSpec>, docGroups: seq<HostGroup>)
    returns (allHosts: seq<TargetSpec>, uiGroups: seq<Group>)
    ensures allHosts == loose + Concat(Listed(docGroups)) && Grouped(allHosts, uiGroups, docGroups, |loose|)
  {
    ghost var parts := Listed(docGroups);
    allHosts, uiGroups := loose, [];
    assert loose + Concat(parts[..0]) == loose;
    assert Grouped(allHosts, uiGroups, docGroups[..0], |loose|);
    assert |parts| == |docGroups| && forall g :: 0 <= g < |parts| ==> parts[g] == SpecsOf(docGroups[g].hosts);
    hide *;
    for g := 0 to |docGroups|
      invariant allHosts == loose + Concat(parts[..g])
      invariant Grouped(allHosts, uiGroups, docGroups[..g], |loose|)
    {
      var specs, group := AppendGroup(allHosts, docGroups[g]);
      GroupAppended(allHosts, uiGroups, docGroups[..g], |loose|, docGroups[g], group);
      ConcatNext(loose, parts, g);
      TakeNext(docGroups, g);
      allHosts, uiGroups := specs, uiGroups + [group];
    }
    assert parts[..|docGroups|] == parts && docGroups[..|docGroups|] == docGroups;
  }

  /** One group: its hosts at the end of the list, its indices pointing at them. */
  method AppendGroup(allHosts: seq<TargetSpec>, g: HostGroup) returns (specs: seq<TargetSpec>, group: Group)
    ensures specs == allHosts + SpecsOf(g.hosts)
    ensures group == Group(g.name, Range(|allHosts|, |allHosts| + |g.hosts|))
  {
    specs := allHosts;
    for i := 0 to |g.hosts|
      invariant specs == allHosts + SpecsOf(g.hosts[..i])
    {
      specs := specs + [TargetSpec(g.hosts[i].host, "", g.hosts[i].name)];
    }
    assert g.hosts[..|g.hosts|] == g.hosts;
    var indices := [];
    for j := 0 to |g.hosts|
      invariant indices == Range(|allHosts|, |allHosts| + j)
    {
      indices := indices + [|allHosts| + j];
    }
    group := Group(g.name, indices);
  }

  lemma GroupAppended(specs: seq<TargetSpec>, groups: seq<Group>, docGroups: seq<HostGroup>, ungrouped: nat,
                      g: HostGroup, group: Group)
    requires Grouped(specs, groups, docGroups, ungrouped) && ungrouped <= |specs|
    requires group == Group(g.name, Range(|specs|, |specs| + |g.hosts|))
    ensures Grouped(specs + SpecsOf(g.hosts), groups + [group], docGroups + [g], ungrouped)
  {
    var all, gs := specs + SpecsOf(g.hosts), groups + [group];
    ReadRange(specs, SpecsOf(g.hosts), []);
    assert specs + SpecsOf(g.hosts) + [] == all;
    forall k | 0 <= k < |groups|
      ensures InRange(gs[k].indices, |all|) && Read(all, gs[k].indices) == Read(specs, gs[k].indices)
    {
      ReadLonger(specs, SpecsOf(g.hosts), groups[k].indices);
    }
    forall k, i | 0 <= k < |groups| && i in gs[k].indices ensures i !in group.indices {
      assert i < |specs|;
    }
  }

  // ----- Expanding names into all their addresses (expandTargets) -----

  /** What the resolver knows.  answers(i) is its answer for the i-th target, empty
      when the lookup fails; the same name may be answered differently each time. */
  datatype Resolver = Resolver(isLiteral: string -> bool, answers: nat -> seq<string>)

  function Answer(dns: Resolver, specs: seq<TargetSpec>, i: nat): (r: seq<string>)
    requires i < |specs|
    ensures |r| > 0
  {
    if dns.isLiteral(specs[i].host) || dns.answers(i) == [] then [specs[i].host] else dns.answers(i)
  }

  /** The answer that counts for a name: the last one given for it. */
  function Addresses(dns: Resolver, specs: seq<TargetSpec>, n: nat, host: string): seq<string>
    requires n <= |specs|
  {
    if n == 0 then []
    else if specs[n-1].pinnedIP == "" && specs[n-1].host == host then Answer(dns, specs, n - 1)
    else Addresses(dns, specs, n - 1, host)
  }

  lemma {:induction false} AddressesKnown(dns: Resolver, specs: seq<TargetSpec>, n: nat, i: nat)
    requires i < n <= |specs| && specs[i].pinnedIP == ""
    ensures Addresses(dns, specs, n, specs[i].host) != []
  {
    if i < n - 1 {
      AddressesKnown(dns, specs, n - 1, i);
    }
  }

  function Pinned(spec: TargetSpec, ip: string): TargetSpec
  {
    TargetSpec(spec.host, if spec.host != ip then ip else "", spec.name)
  }

  function PinnedAll(spec: TargetSpec, ips: seq<string>): seq<TargetSpec>
  {
    seq(|ips|, k requires 0 <= k < |ips| => Pinned(spec, ips[k]))
  }

  /** What one target becomes. */
  function Expansion(dns: Resolver, specs: seq<TargetSpec>, i: nat): seq<TargetSpec>
    requires i < |specs|
  {
    if specs[i].pinnedIP != "" then [specs[i]]
    else PinnedAll(specs[i], Addresses(dns, specs, |specs|, specs[i].host))
  }

  function Expansions(dns: Resolver, specs: seq<TargetSpec>): seq<seq<TargetSpec>>
  {
    seq(|specs|, i requires 0 <= i < |specs| => Expansion(dns, specs, i))
  }

  /** A target becomes at least one target, of the same host and display name, and
      between them they reach exactly the addresses that count for it. */
  lemma ExpansionReaches(dns: Resolver, specs: seq<TargetSpec>, i: nat)
    requires i < |specs|
    ensures var e := Expansion(dns, specs, i);
            && |e| > 0 && (forall k :: 0 <= k < |e| ==> e[k].host == specs[i].host && e[k].name == specs[i].name)
            && (specs[i].pinnedIP != "" ==> e == [specs[i]])
            && (specs[i].pinnedIP == "" ==>
                  var ips := Addresses(dns, specs, |specs|, specs[i].host);
                  |e| == |ips| && forall k :: 0 <= k < |e| && ips[k] != "" ==> e[k].ResolveAddr() == ips[k])
  {
    if specs[i].pinnedIP == "" {
      AddressesKnown(dns, specs, |specs|, i);
    }
  }

  // ----- The blocks of an expansion -----

  function Start<T>(parts: seq<seq<T>>, i: nat): nat
    requires i <= |parts|
  {
    |Concat(parts[..i])|
  }

  lemma StartNext<T>(parts: seq<seq<T>>, i: nat)
    requires i < |parts|
    ensures Start(parts, i + 1) == Start(parts, i) + |parts[i]|
  {
    assert parts[..i+1] == parts[..i] + [parts[i]];
    ConcatSnoc(parts[..i], parts[i]);
  }

  lemma {:induction false} StartsOrdered<T>(parts: seq<seq<T>>, i: nat, j: nat)
    requires i <= j <= |parts|
    ensures Start(parts, i) <= Start(parts, j)
    decreases j
  {
    if i < j {
      StartNext(parts, j - 1);
      StartsOrdered(parts, i, j - 1);
    }
  }

  /** The indices at which part i stands in the concatenation. */
  function Block<T>(parts: seq<seq<T>>, i: nat): (r: seq<int>)
    requires i < |parts|
    ensures |r| == |parts[i]|
  {
    Range(Start(parts, i), Start(parts, i) + |parts[i]|)
  }

  lemma {:induction false} ConcatAround<T>(parts: seq<seq<T>>, i: nat) returns (rest: seq<T>)
    requires i < |parts|
    ensures Concat(parts) == Concat(parts[..i]) + parts[i] + rest
    decreases |parts|
  {
    var p := parts[..|parts|-1];
    if i == |parts| - 1 {
      rest := [];
      assert Concat(p) + parts[i] + [] == Concat(p) + parts[i];
    } else {
      var r := ConcatAround(p, i);
      assert p[..i] == parts[..i];
      rest := r + parts[|parts|-1];
      assert Concat(parts[..i]) + parts[i] + rest == (Concat(parts[..i]) + parts[i] + r) + parts[|parts|-1];
    }
  }

  lemma BlockReads<T>(parts: seq<seq<T>>, i: nat)
    requires i < |parts|
    ensures InRange(Block(parts, i), |Concat(parts)|) && Read(Concat(parts), Block(parts, i)) == parts[i]
  {
    var rest := ConcatAround(parts, i);
    ReadRange(Concat(parts[..i]), parts[i], rest);
  }

  lemma BlocksApart<T>(parts: seq<seq<T>>, i: nat, j: nat, x: int)
    requires i < |parts| && j < |parts| && x in Block(parts, i) && x in Block(parts, j)
    ensures i == j
  {
    if i < j {
      StartNext(parts, i);
      StartsOrdered(parts, i + 1, j);
    } else if j < i {
      StartNext(parts, j);
      StartsOrdered(parts, j + 1, i);
    }
  }

  /** The indices a group gets: the blocks of its targets, in order; an index that
      stands for no target gets none. */
  function NewIndices<T>(parts: seq<seq<T>>, members: seq<int>): seq<int>
  {
    if members == [] then []
    else NewIndices(parts, members[..|members|-1])
         + if 0 <= members[|members|-1] < |parts| then Block(parts, members[|members|-1]) else []
  }

  /** A group reads the expansions of its members, one after the other. */
  lemma {:induction false} GroupReadsExpansions<T>(parts: seq<seq<T>>, members: seq<int>)
    requires InRange(members, |parts|)
    ensures InRange(NewIndices(parts, members), |Concat(parts)|)
    ensures Read(Concat(parts), NewIndices(parts, members)) == Concat(Read(parts, members))
  {
    if members != [] {
      var rest, last := members[..|members|-1], members[|members|-1];
      GroupReadsExpansions(parts, rest);
      BlockReads(parts, last);
      assert Read(parts, members) == Read(parts, rest) + [parts[last]];
      ConcatSnoc(Read(parts, rest), parts[last]);
      ReadApart(Concat(parts), NewIndices(parts, rest), Block(parts, last));
    }
  }

  lemma ReadApart<T>(items: seq<T>, a: seq<int>, b: seq<int>)
    requires InRange(a, |items|) && InRange(b, |items|)
    ensures InRange(a + b, |items|) && Read(items, a + b) == Read(items, a) + Read(items, b)
  {
  }

  lemma {:induction false} NewIndexOrigin<T>(parts: seq<seq<T>>, members: seq<int>, x: int) returns (i: nat)
    requires x in NewIndices(parts, members)
    ensures i < |parts| && i in members && x in Block(parts, i)
  {
    var rest, last := members[..|members|-1], members[|members|-1];
    if x in NewIndices(parts, rest) {
      i := NewIndexOrigin(parts, rest, x);
    } else {
      i := last;
    }
  }

  lemma {:induction false} NewIndicesInRange<T>(parts: seq<seq<T>>, members: seq<int>)
    ensures InRange(NewIndices(parts, members), |Concat(parts)|)
  {
    if members != [] {
      NewIndicesInRange(parts, members[..|members|-1]);
      if 0 <= members[|members|-1] < |parts| {
        BlockReads(parts, members[|members|-1]);
      }
    }
  }

  function ExpandedGroup<T>(parts: seq<seq<T>>, g: Group): Group
  {
    Group(g.name, NewIndices(parts, g.indices))
  }

  function ExpandedGroups<T>(parts: seq<seq<T>>, groups: seq<Group>): seq<Group>
  {
    seq(|groups|, g requires 0 <= g < |groups| => ExpandedGroup(parts, groups[g]))
  }

  /** Expansion keeps indices in range, memberships, and disjointness. */
  lemma ExpansionKeepsGroups<T>(parts: seq<seq<T>>, groups: seq<Group>)
    ensures var after := ExpandedGroups(parts, groups);
            && GroupsInRange(after, |Concat(parts)|)
            && (Disjoint(groups) ==> Disjoint(after))
            && (GroupsInRange(groups, |parts|) ==>
                  forall g :: 0 <= g < |groups| ==>
                    Read(Concat(parts), after[g].indices) == Concat(Read(parts, groups[g].indices)))
  {
    var after := ExpandedGroups(parts, groups);
    forall g | 0 <= g < |groups| ensures InRange(after[g].indices, |Concat(parts)|) {
      NewIndicesInRange(parts, groups[g].indices);
    }
    if Disjoint(groups) {
      forall g, h, x | 0 <= g < h < |groups| && x in after[g].indices ensures x !in after[h].indices {
        if x in after[h].indices {
          var i := NewIndexOrigin(parts, groups[g].indices, x);
          var j := NewIndexOrigin(parts, groups[h].indices, x);
          BlocksApart(parts, i, j, x);
        }
      }
    }
    if GroupsInRange(groups, |parts|) {
      forall g | 0 <= g < |groups|
        ensures Read(Concat(parts), after[g].indices) == Concat(Read(parts, groups[g].indices))
      {
        GroupReadsExpansions(parts, groups[g].indices);
      }
    }
  }

  /** expandTargets.  Without resolveAll, and with no groups, nothing changes. */
  method ExpandTargets(specs: seq<TargetSpec>, groups: seq<Group>, resolveAll: bool, dns: Resolver)
    returns (expandedSpecs: seq<TargetSpec>, expandedGroups: seq<Group>)
    ensures !resolveAll ==> expandedSpecs == specs && expandedGroups == groups
    ensures resolveAll ==> expandedSpecs == Concat(Expansions(dns, specs))
                           && expandedGroups == ExpandedGroups(Expansions(dns, specs), groups)
  {
    if !resolveAll {
      return specs, groups;
    }
    var resolvedIPs := ResolveAll(specs, dns);
    var expansionMap: map<int, seq<int>>;
    expandedSpecs, expansionMap := ExpandEach(specs, dns, resolvedIPs);
    ghost var parts := Expansions(dns, specs);
    expandedGroups := [];
    for g := 0 to |groups|
      invariant expandedGroups == ExpandedGroups(parts, groups[..g])
    {
      var newIndices: seq<int> := [];
      var members := groups[g].indices;
      for k := 0 to |members|
        invariant newIndices == NewIndices(parts, members[..k])
      {
        assert members[..k+1][..k] == members[..k];
        newIndices := newIndices + if members[k] in expansionMap then expansionMap[members[k]] else [];
      }
      assert members[..|members|] == members;
      expandedGroups := expandedGroups + [Group(groups[g].name, newIndices)];
    }
    assert groups[..|groups|] == groups;
  }

  /** The first loop: one answer per name, a later one replacing an earlier. */
  method ResolveAll(specs: seq<TargetSpec>, dns: Resolver) returns (resolvedIPs: map<string, seq<string>>)
    ensures forall i :: 0 <= i < |specs| && specs[i].pinnedIP == "" ==>
              && specs[i].host in resolvedIPs
              && resolvedIPs[specs[i].host] == Addresses(dns, specs, |specs|, specs[i].host)
  {
    resolvedIPs := map[];
    for i := 0 to |specs|
      invariant forall j :: 0 <= j < i && specs[j].pinnedIP == "" ==> specs[j].host in resolvedIPs
      invariant forall h :: h in resolvedIPs ==> resolvedIPs[h] == Addresses(dns, specs, i, h)
    {
      if specs[i].pinnedIP == "" {
        var h := specs[i].host;
        if dns.isLiteral(h) {
          resolvedIPs := resolvedIPs[h := [h]];
        } else if dns.answers(i) == [] {
          resolvedIPs := resolvedIPs[h := [h]];
        } else {
          resolvedIPs := resolvedIPs[h := dns.answers(i)];
        }
      }
    }
  }

  /** The second loop, which also notes where each target's expansion stands. */
  method ExpandEach(specs: seq<TargetSpec>, dns: Resolver, resolvedIPs: map<string, seq<string>>)
    returns (expandedSpecs: seq<TargetSpec>, expansionMap: map<int, seq<int>>)
    requires forall i :: 0 <= i < |specs| && specs[i].pinnedIP == "" ==>
               && specs[i].host in resolvedIPs
               && resolvedIPs[specs[i].host] == Addresses(dns, specs, |specs|, specs[i].host)
    ensures expandedSpecs == Concat(Expansions(dns, specs))
    ensures forall i :: i in expansionMap <==> 0 <= i < |specs|
    ensures forall i :: 0 <= i < |specs| ==> expansionMap[i] == Block(Expansions(dns, specs), i)
  {
    hide Addresses, PinnedAll, Concat;
    ghost var parts := Expansions(dns, specs);
    EmptyConcat(parts);
    expandedSpecs, expansionMap := [], map[];
    for i := 0 to |specs|
      invariant expandedSpecs == Concat(parts[..i])
      invariant forall j :: j in expansionMap <==> 0 <= j < i
      invariant forall j :: 0 <= j < i ==> expansionMap[j] == Block(parts, j)
    {
      ConcatSnoc(parts[..i], parts[i]);
      assert parts[..i] + [parts[i]] == parts[..i+1];
      var startIdx := |expandedSpecs|;
      if specs[i].pinnedIP != "" {
        expandedSpecs := expandedSpecs + [specs[i]];
      } else {
        expandedSpecs := AppendPinned(expandedSpecs, specs[i], resolvedIPs[specs[i].host]);
      }
      var indices := Indices(startIdx, |expandedSpecs|);
      assert indices == Block(parts, i);
      expansionMap := expansionMap[i := indices];
    }
    assert parts[..|specs|] == parts;
  }

  /** The inner loop: the places the expansion took. */
  method Indices(from: nat, to: nat) returns (indices: seq<int>)
    requires from <= to
    ensures indices == Range(from, to)
  {
    indices := [];
    for j := from to to
      invariant indices == Range(from, j)
    {
      indices := indices + [j];
    }
  }

  method AppendPinned(before: seq<TargetSpec>, spec: TargetSpec, ips: seq<string>) returns (r: seq<TargetSpec>)
    ensures r == before + PinnedAll(spec, ips)
  {
    r := before;
    for k := 0 to |ips|
      invariant r == before + PinnedAll(spec, ips[..k])
    {
      var expanded := TargetSpec(spec.host, "", spec.name);
      if spec.host != ips[k] {
        expanded := expanded.(pinnedIP := ips[k]);
      }
      r := r + [expanded];
    }
    assert ips[..|ips|] == ips;
  }

  // ----- Deleting one target (removeTarget) -----

  function Without<T>(items: seq<T>, i: nat): seq<T>
    requires i < |items|
  {
    items[..i] + items[i+1..]
  }

  /** The members other than i. */
  function Others(members: seq<int>, i: int): seq<int>
  {
    if members == [] then []
    else Others(members[..|members|-1], i) + if members[|members|-1] == i then [] else [members[|members|-1]]
  }

  /** Those members' indices once item i is gone. */
  function Shifted(members: seq<int>, i: int): seq<int>
  {
    if members == [] then []
    else
      var m := members[|members|-1];
      Shifted(members[..|members|-1], i) + if m == i then [] else if m > i then [m - 1] else [m]
  }

  /** A group reads its old items without the deleted one. */
  lemma {:induction false} ShiftedReads<T>(items: seq<T>, members: seq<int>, i: nat)
    requires i < |items| && InRange(members, |items|)
    ensures InRange(Others(members, i), |items|) && InRange(Shifted(members, i), |items| - 1)
    ensures Read(Without(items, i), Shifted(members, i)) == Read(items, Others(members, i))
  {
    if members != [] {
      var rest, m := members[..|members|-1], members[|members|-1];
      ShiftedReads(items, rest, i);
      if m != i {
        var x := if m > i then m - 1 else m;
        assert Without(items, i)[x] == items[m];
        hide Without;
        ReadApart(items, Others(rest, i), [m]);
        ReadApart(Without(items, i), Shifted(rest, i), [x]);
      }
    }
  }

  lemma {:induction false} ShiftedOrigin(members: seq<int>, i: int, x: int) returns (m: int)
    requires x in Shifted(members, i)
    ensures m in members && m != i && x == if m > i then m - 1 else m
  {
    var rest := members[..|members|-1];
    if x in Shifted(rest, i) {
      m := ShiftedOrigin(rest, i, x);
    } else {
      m := members[|members|-1];
    }
  }

  function Removed(groups: seq<Group>, i: int): seq<Group>
  {
    if groups == [] then []
    else
      var g := groups[|groups|-1];
      Removed(groups[..|groups|-1], i)
      + if Shifted(g.indices, i) == [] then [] else [Group(g.name, Shifted(g.indices, i))]
  }

  /** The groups that keep a member when item i goes. */
  function Survivors(groups: seq<Group>, i: int): seq<Group>
  {
    if groups == [] then []
    else
      var g := groups[|groups|-1];
      Survivors(groups[..|groups|-1], i) + if Others(g.indices, i) == [] then [] else [g]
  }

  lemma {:induction false} ShiftedEmpty(members: seq<int>, i: int)
    ensures |Shifted(members, i)| == |Others(members, i)|
  {
    if members != [] {
      ShiftedEmpty(members[..|members|-1], i);
    }
  }

  /** After deletion the groups are the surviving ones in order, each showing what
      it showed before minus the deleted item, and disjoint groups stay so. */
  lemma {:induction false} RemovalKeepsGroups<T>(items: seq<T>, groups: seq<Group>, i: nat)
    requires i < |items| && GroupsInRange(groups, |items|)
    ensures var after, before := Removed(groups, i), Survivors(groups, i);
            && |after| == |before| && GroupsInRange(after, |items| - 1)
            && (forall g :: 0 <= g < |after| ==>
                  && before[g] in groups && after[g].name == before[g].name && after[g].indices != []
                  && InRange(Others(before[g].indices, i), |items|)
                  && Read(Without(items, i), after[g].indices) == Read(items, Others(before[g].indices, i)))
    ensures Disjoint(groups) ==> Disjoint(Removed(groups, i))
  {
    if groups != [] {
      var rest, last := groups[..|groups|-1], groups[|groups|-1];
      assert forall g :: 0 <= g < |rest| ==> rest[g] == groups[g];
      RemovalKeepsGroups(items, rest, i);
      ShiftedReads(items, last.indices, i);
      ShiftedEmpty(last.indices, i);
      if Disjoint(groups) {
        RemovedApart(rest, last, i);
      }
    }
  }

  lemma {:induction false} RemovedApart(groups: seq<Group>, last: Group, i: int)
    requires Disjoint(groups + [last])
    ensures forall g, x :: 0 <= g < |Removed(groups, i)| && x in Removed(groups, i)[g].indices ==>
                             x !in Shifted(last.indices, i)
  {
    if groups != [] {
      var rest, g := groups[..|groups|-1], groups[|groups|-1];
      var all := groups + [last];
      forall h, k, x | 0 <= h < k < |rest + [last]| && x in (rest + [last])[h].indices
        ensures x !in (rest + [last])[k].indices
      {
        assert all[h] == rest[h] && (k < |rest| ==> all[k] == rest[k]) && all[|groups|] == last;
      }
      RemovedApart(rest, last, i);
      assert all[|groups|-1] == g && all[|groups|] == last;
      forall x | x in Shifted(g.indices, i) ensures x !in Shifted(last.indices, i) {
        var m := ShiftedOrigin(g.indices, i, x);
        if x in Shifted(last.indices, i) {
          var n := ShiftedOrigin(last.indices, i, x);
          assert false;
        }
      }
    }
  }

  /** The loop of removeTarget over the groups. */
  method RemoveFromGroups(groups: seq<Group>, i: int) returns (after: seq<Group>)
    ensures after == Removed(groups, i)
  {
    after := [];
    for k := 0 to |groups|
      invariant after == Removed(groups[..k], i)
    {
      var group := Group(groups[k].name, []);
      for j := 0 to |groups[k].indices|
        invariant group == Group(groups[k].name, Shifted(groups[k].indices[..j], i))
      {
        assert groups[k].indices[..j+1][..j] == groups[k].indices[..j];
        var idx := groups[k].indices[j];
        if idx == i {
          continue;
        }
        if idx > i {
          idx := idx - 1;
        }
        group := group.(indices := group.indices + [idx]);
      }
      assert groups[k].indices[..|groups[k].indices|] == groups[k].indices;
      assert groups[..k+1][..k] == groups[..k];
      if |group.indices| > 0 {
        after := after + [group];
      }
    }
    assert groups[..|groups|] == groups;
  }
}
