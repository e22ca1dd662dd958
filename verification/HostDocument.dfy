/** A parsed hosts document: generated names are written back into its entries
    (resolveNetBoxDocNames), and the result is judged by validateHostNames. */
module HostDocument {
  import opened HostNames
  import opened Options
  import opened Sequences

  class Entry {
    var host: string
    var name: string
    var netBox: Option<Row>

    constructor (host: string, name: string, netBox: Option<Row>)
      ensures this.host == host && this.name == name && this.netBox == netBox
    {
      this.host, this.name, this.netBox := host, name, netBox;
    }
  }

  datatype Group = Group(name: string, hosts: seq<Entry>)

  datatype Document = Document(hosts: seq<Entry>, groups: seq<Group>)

  function GroupEntries(groups: seq<Group>): seq<Entry>
  {
    if groups == [] then [] else groups[0].hosts + GroupEntries(groups[1..])
  }

  /** The entries in the order both functions visit them. */
  function AllEntries(doc: Document): seq<Entry>
  {
    doc.hosts + GroupEntries(doc.groups)
  }

  /** An entry as a value. */
  datatype Item = Item(host: string, name: string, netBox: Option<Row>)

  ghost function View(entries: seq<Entry>): (v: seq<Item>)
    reads entries
    ensures |v| == |entries|
    ensures forall i :: 0 <= i < |v| ==> v[i] == Item(entries[i].host, entries[i].name, entries[i].netBox)
  {
    seq(|entries|, i requires 0 <= i < |entries| reads entries =>
      Item(entries[i].host, entries[i].name, entries[i].netBox))
  }

  // ----- validateHostNames -----

  datatype NameCheck = Accepted | Duplicate(name: string) | AlsoHost(name: string)

  ghost predicate HostOfOther(all: seq<Named>, i: nat, name: string)
  {
    exists j :: 0 <= j < |all| && j != i && all[j].host == name
  }

  /** What is wrong with entry i, given that earlier entries are examined first. */
  ghost function Problem(all: seq<Named>, i: nat): NameCheck
    requires i < |all|
  {
    var name := all[i].name;
    if name == "" then Accepted
    else if exists j :: 0 <= j < i && all[j].name == name then Duplicate(name)
    else if HostOfOther(all, i, name) then AlsoHost(name)
    else Accepted
  }

  /** No two targets can be mistaken for one another. */
  ghost predicate NamesSound(all: seq<Named>)
  {
    forall i :: 0 <= i < |all| && all[i].name != "" ==>
      && (forall j :: 0 <= j < |all| && j != i ==> all[j].name != all[i].name)
      && !HostOfOther(all, i, all[i].name)
  }

  method ValidateHostNames(all: seq<Named>) returns (r: NameCheck)
    ensures r.Accepted? <==> NamesSound(all)
    ensures !r.Accepted? ==> exists i :: 0 <= i < |all| && Problem(all, i) == r
                                && forall k :: 0 <= k < i ==> Problem(all, k).Accepted?
  {
    var hostCount := CountAll(Hosts(all));
    var seen: set<string> := {};
    for i := 0 to |all|
      invariant forall k :: 0 <= k < i ==> Problem(all, k).Accepted?
      invariant forall x :: x in seen <==> x != "" && exists k :: 0 <= k < i && all[k].name == x
    {
      var h := all[i];
      if h.name == "" {
        continue;
      }
      if h.name in seen {
        assert Problem(all, i) == Duplicate(h.name);
        AcceptedMeansSound(all);
        return Duplicate(h.name);
      }
      seen := seen + {h.name};
      var others: int := Get(hostCount, h.name);
      if h.host == h.name {
        others := others - 1;
      }
      OthersCounted(all, i, h.name);
      if others > 0 {
        assert Problem(all, i) == AlsoHost(h.name);
        AcceptedMeansSound(all);
        return AlsoHost(h.name);
      }
    }
    AcceptedMeansSound(all);
    r := Accepted;
  }

  lemma AcceptedMeansSound(all: seq<Named>)
    ensures (forall k :: 0 <= k < |all| ==> Problem(all, k).Accepted?) <==> NamesSound(all)
  {
    if forall k :: 0 <= k < |all| ==> Problem(all, k).Accepted? {
      forall i, j | 0 <= i < |all| && all[i].name != "" && 0 <= j < |all| && j != i ensures all[j].name != all[i].name {
        assert Problem(all, i).Accepted? && Problem(all, j).Accepted?;
      }
      forall i | 0 <= i < |all| && all[i].name != "" ensures !HostOfOther(all, i, all[i].name) {
        assert Problem(all, i).Accepted?;
      }
    }
  }

  lemma OthersCounted(all: seq<Named>, i: nat, x: string)
    requires i < |all|
    ensures (multiset(Hosts(all))[x] > if all[i].host == x then 1 else 0) <==> HostOfOther(all, i, x)
  {
    var hosts := Hosts(all);
    CountOthers(hosts, i, x);
    assert forall j :: 0 <= j < |all| ==> hosts[j] == all[j].host;
  }

  // ----- resolveNetBoxDocNames -----

  /** Positions of the imported (or of the explicit) entries among the first n. */
  function Positions(items: seq<Item>, imported: bool, n: nat): (p: seq<nat>)
    requires n <= |items|
    ensures forall k :: 0 <= k < |p| ==> p[k] < n
  {
    if n == 0 then []
    else
      Positions(items, imported, n - 1) + if items[n-1].netBox.Some? == imported then [n-1] else []
  }

  /** p lists, in order and without repetition, exactly the entries of its kind. */
  ghost predicate Lists(items: seq<Item>, imported: bool, n: nat, p: seq<nat>)
    requires n <= |items|
  {
    && (forall k :: 0 <= k < |p| ==> p[k] < n && items[p[k]].netBox.Some? == imported)
    && (forall k, l :: 0 <= k < l < |p| ==> p[k] < p[l])
    && (forall i :: 0 <= i < n && items[i].netBox.Some? == imported ==> i in p)
  }

  lemma {:induction false} PositionsExact(items: seq<Item>, imported: bool, n: nat)
    requires n <= |items|
    ensures Lists(items, imported, n, Positions(items, imported, n))
  {
    if n > 0 {
      PositionsExact(items, imported, n - 1);
      ListsNext(items, imported, n, Positions(items, imported, n - 1));
    }
  }

  lemma ListsNext(items: seq<Item>, imported: bool, n: nat, p: seq<nat>)
    requires 0 < n <= |items| && Lists(items, imported, n - 1, p)
    ensures Lists(items, imported, n, p + if items[n-1].netBox.Some? == imported then [n-1] else [])
  {
    if items[n-1].netBox.Some? == imported {
      var q := p + [n-1];
      assert q[|p|] == n - 1 && forall i :: i in p ==> i in q;
    } else {
      assert p + [] == p;
    }
  }

  function ImportedRows(items: seq<Item>, n: nat): seq<Row>
    requires n <= |items|
  {
    if n == 0 then []
    else ImportedRows(items, n - 1) + if items[n-1].netBox.Some? then [items[n-1].netBox.value] else []
  }

  function ExplicitEntries(items: seq<Item>, n: nat): seq<Named>
    requires n <= |items|
  {
    if n == 0 then []
    else ExplicitEntries(items, n - 1)
         + if items[n-1].netBox.None? then [Named(items[n-1].host, items[n-1].name)] else []
  }

  lemma {:induction false} RowsAligned(items: seq<Item>, n: nat)
    requires n <= |items|
    ensures var p, q := Positions(items, true, n), Positions(items, false, n);
            var rows, es := ImportedRows(items, n), ExplicitEntries(items, n);
            && |rows| == |p| && |es| == |q|
            && (forall k :: 0 <= k < |p| ==> Some(rows[k]) == items[p[k]].netBox)
            && (forall k :: 0 <= k < |q| ==> es[k] == Named(items[q[k]].host, items[q[k]].name))
  {
    if n > 0 {
      RowsAligned(items, n - 1);
    }
  }

  ghost function NamesAt(items: seq<Item>, p: seq<nat>): (names: seq<string>)
    requires forall k :: 0 <= k < |p| ==> p[k] < |items|
    ensures |names| == |p| && forall k :: 0 <= k < |p| ==> names[k] == items[p[k]].name
  {
    seq(|p|, k requires 0 <= k < |p| => items[p[k]].name)
  }

  /** after is before with every import named and nothing else changed. */
  ghost predicate DocResolved(before: seq<Item>, after: seq<Item>)
  {
    && |after| == |before|
    && (forall i :: 0 <= i < |before| ==>
          && after[i].host == before[i].host
          && after[i].netBox.None?
          && (before[i].netBox.None? ==> after[i].name == before[i].name))
    && Resolved(ImportedRows(before, |before|), ExplicitEntries(before, |before|),
                NamesAt(after, Positions(before, true, |before|)))
  }

  ghost predicate Picks(entries: seq<Entry>, all: seq<Entry>, p: seq<nat>)
  {
    |entries| == |p| && forall k :: 0 <= k < |p| ==> p[k] < |all| && entries[k] == all[p[k]]
  }

  method Collect(all: seq<Entry>, ghost items: seq<Item>)
    returns (entries: seq<Entry>, rows: seq<Row>, reserved: seq<Named>)
    requires items == View(all)
    ensures rows == ImportedRows(items, |items|)
    ensures reserved == ExplicitEntries(items, |items|)
    ensures Picks(entries, all, Positions(items, true, |items|))
  {
    entries, rows, reserved := [], [], [];
    for i := 0 to |all|
      invariant rows == ImportedRows(items, i)
      invariant reserved == ExplicitEntries(items, i)
      invariant Picks(entries, all, Positions(items, true, i))
    {
      var h := all[i];
      assert items[i] == Item(h.host, h.name, h.netBox);
      if h.netBox.None? {
        reserved := reserved + [Named(h.host, h.name)];
      } else {
        entries := entries + [h];
        rows := rows + [h.netBox.value];
      }
    }
  }

  /** Write the names back through the collected pointers. */
  method WriteBack(all: seq<Entry>, entries: seq<Entry>, out: seq<Named>, ghost p: seq<nat>)
    requires Distinct(all) && Picks(entries, all, p) && |out| == |entries|
    requires forall k, l :: 0 <= k < l < |p| ==> p[k] < p[l]
    modifies entries
    ensures forall j :: 0 <= j < |all| ==> all[j].host == old(all[j].host)
    ensures forall k :: 0 <= k < |p| ==> all[p[k]].name == out[k].name && all[p[k]].netBox.None?
    ensures forall j :: 0 <= j < |all| && j !in p ==>
              all[j].name == old(all[j].name) && all[j].netBox == old(all[j].netBox)
  {
    for i := 0 to |out|
      invariant forall j :: 0 <= j < |all| ==> all[j].host == old(all[j].host)
      invariant forall j :: 0 <= j < |all| && j !in p ==>
                  all[j].name == old(all[j].name) && all[j].netBox == old(all[j].netBox)
      invariant forall k :: 0 <= k < i ==> all[p[k]].name == out[k].name && all[p[k]].netBox.None?
    {
      assert entries[i] == all[p[i]];
      entries[i].name := out[i].name;
      entries[i].netBox := None;
    }
  }

  method ResolveDocNames(doc: Document)
    requires Distinct(AllEntries(doc))
    modifies AllEntries(doc)
    ensures DocResolved(old(View(AllEntries(doc))), View(AllEntries(doc)))
  {
    var all := AllEntries(doc);
    ghost var before := View(all);
    ghost var p := Positions(before, true, |before|);
    var entries, rows, reserved := Collect(all, before);
    PositionsExact(before, true, |before|);
    RowsAligned(before, |before|);
    var out := ResolveNetBoxNames(rows, reserved);
    WriteBack(all, entries, out, p);
    ghost var after := View(all);
    WrittenBackIsResolved(before, after, out, p);
  }

  lemma WrittenBackIsResolved(before: seq<Item>, after: seq<Item>, out: seq<Named>, p: seq<nat>)
    requires |after| == |before| && p == Positions(before, true, |before|) && |out| == |p|
    requires forall j :: 0 <= j < |before| ==> after[j].host == before[j].host
    requires forall k :: 0 <= k < |p| ==> after[p[k]].name == out[k].name && after[p[k]].netBox.None?
    requires forall j :: 0 <= j < |before| && j !in p ==>
               after[j].name == before[j].name && after[j].netBox == before[j].netBox
    requires Resolved(ImportedRows(before, |before|), ExplicitEntries(before, |before|), NamesOf(out))
    ensures DocResolved(before, after)
  {
    PositionsExact(before, true, |before|);
    assert NamesAt(after, p) == NamesOf(out);
  }

  // ----- The two together -----

  /** Imported rows carry their entry's host (parseNetBoxCSV sets both). */
  ghost predicate HostsAgree(items: seq<Item>)
  {
    forall i :: 0 <= i < |items| && items[i].netBox.Some? ==> items[i].netBox.value.host == items[i].host
  }

  ghost function Entries(items: seq<Item>): (s: seq<Named>)
    ensures |s| == |items| && forall i :: 0 <= i < |s| ==> s[i] == Named(items[i].host, items[i].name)
  {
    seq(|items|, i requires 0 <= i < |items| => Named(items[i].host, items[i].name))
  }

  /** The names the user wrote are sound among all hosts, imported ones included. */
  ghost predicate ExplicitSound(items: seq<Item>)
  {
    forall i :: 0 <= i < |items| && items[i].netBox.None? && items[i].name != "" ==>
      && (forall j :: 0 <= j < |items| && j != i && items[j].netBox.None? ==> items[j].name != items[i].name)
      && !HostOfOther(Entries(items), i, items[i].name)
  }

  /** The name given to an import clashes with nothing in the whole document. */
  lemma {:induction false} ImportedNameSound(before: seq<Item>, after: seq<Item>, i: nat)
    requires HostsAgree(before) && DocResolved(before, after)
    requires i < |before| && before[i].netBox.Some? && after[i].name != ""
    ensures forall j :: 0 <= j < |after| && j != i ==> after[j].name != after[i].name
    ensures !HostOfOther(Entries(after), i, after[i].name)
  {
    var n := |before|;
    var rows, reserved := ImportedRows(before, n), ExplicitEntries(before, n);
    var p, q := Positions(before, true, n), Positions(before, false, n);
    var names := NamesAt(after, p);
    PositionsExact(before, true, n);
    PositionsExact(before, false, n);
    RowsAligned(before, n);
    assert i in p;
    var k :| 0 <= k < |p| && p[k] == i;
    GeneratedNamesUnique(rows, reserved, names, k);
    forall j | 0 <= j < n && j != i
      ensures after[j].name != after[i].name && Entries(after)[j].host != after[i].name
    {
      if before[j].netBox.Some? {
        assert j in p;
        var l :| 0 <= l < |p| && p[l] == j;
        assert names[l] == after[j].name && rows[l].host == after[j].host;
      } else {
        assert j in q;
        var l :| 0 <= l < |q| && q[l] == j;
        assert reserved[l] == Named(after[j].host, after[j].name);
      }
    }
  }

  /** validateHostNames accepts a resolved document exactly when the user's own
      names are sound: generated names never cause a rejection. */
  lemma ResolvedDocumentAccepted(before: seq<Item>, after: seq<Item>)
    requires HostsAgree(before) && DocResolved(before, after)
    ensures NamesSound(Entries(after)) <==> ExplicitSound(before)
  {
    var all := Entries(after);
    assert forall j :: 0 <= j < |all| ==> all[j].host == Entries(before)[j].host;
    if ExplicitSound(before) {
      forall i | 0 <= i < |all| && all[i].name != ""
        ensures (forall j :: 0 <= j < |all| && j != i ==> all[j].name != all[i].name)
                && !HostOfOther(all, i, all[i].name)
      {
        if before[i].netBox.Some? {
          ImportedNameSound(before, after, i);
        } else {
          forall j | 0 <= j < |all| && j != i ensures all[j].name != all[i].name {
            if before[j].netBox.Some? && all[j].name != "" {
              ImportedNameSound(before, after, j);
            }
          }
        }
      }
    }
    if NamesSound(all) {
      forall i | 0 <= i < |before| && before[i].netBox.None? && before[i].name != ""
        ensures (forall j :: 0 <= j < |before| && j != i && before[j].netBox.None? ==> before[j].name != before[i].name)
                && !HostOfOther(Entries(before), i, before[i].name)
      {
        assert all[i].name == before[i].name;
        forall j | 0 <= j < |before| && j != i && before[j].netBox.None? ensures before[j].name != before[i].name {
          assert all[j].name == before[j].name;
        }
      }
    }
  }
}
