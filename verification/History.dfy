/**
The history of strings (w3m/history.c, `pushHist`, `pushHashHist`, `getHashHist`): a doubly
linked list and a hash table that finds its nodes.
*/
module History {
  import opened HashTable

  // ----- the history as a sequence

  ghost predicate NoDuplicates(s: seq<string>) {
    forall i, j :: 0 <= i < j < |s| ==> s[i] != s[j]
  }

  function Without(s: seq<string>, x: string): (r: seq<string>)
    ensures x !in r && forall y :: y in r <==> y in s && y != x
  {
    if s == [] then [] else if s[0] == x then Without(s[1..], x) else [s[0]] + Without(s[1..], x)
  }

  /** Remove if present, then append. */
  function Pushed(s: seq<string>, x: string): seq<string> {
    Without(s, x) + [x]
  }

  lemma {:induction false} WithoutAbsent(s: seq<string>, x: string)
    requires x !in s
    ensures Without(s, x) == s
  {
    if s != [] {
      WithoutAbsent(s[1..], x);
    }
  }

  /** In a list without duplicates the string goes with its only node. */
  lemma {:induction false} WithoutAt(s: seq<string>, i: nat)
    requires i < |s| && NoDuplicates(s)
    ensures Without(s, s[i]) == s[..i] + s[i + 1..]
  {
    if i == 0 {
      WithoutAbsent(s[1..], s[0]);
    } else {
      WithoutAt(s[1..], i - 1);
      assert s[1..][..i - 1] == s[1..i] && s[1..][i - 1 + 1..] == s[i + 1..];
      assert s[..i] == [s[0]] + s[1..i];
    }
  }

  lemma {:induction false} WithoutKeepsDistinct(s: seq<string>, x: string)
    requires NoDuplicates(s)
    ensures NoDuplicates(Without(s, x))
  {
    if s != [] {
      WithoutKeepsDistinct(s[1..], x);
      assert s[0] !in s[1..];
      assert s[0] !in Without(s[1..], x);
    }
  }

  lemma PushedKeepsDistinct(s: seq<string>, x: string)
    requires NoDuplicates(s)
    ensures NoDuplicates(Pushed(s, x))
  {
    WithoutKeepsDistinct(s, x);
  }

  /** The history after a run of pushes. */
  function PushedAll(run: seq<string>): seq<string> {
    if run == [] then [] else Pushed(PushedAll(run[..|run| - 1]), run[|run| - 1])
  }

  /** The distinct strings of a run, in the order of their last occurrences. */
  function LastOccurrences(run: seq<string>): seq<string> {
    if run == [] then [] else if run[0] in run[1..] then LastOccurrences(run[1..]) else [run[0]] + LastOccurrences(run[1..])
  }

  lemma {:induction false} OneMoreOccurrence(run: seq<string>, x: string)
    ensures LastOccurrences(run + [x]) == Pushed(LastOccurrences(run), x)
  {
    if run == [] {
      assert run + [x] == [x] && [x][1..] == [];
    } else {
      OneMoreOccurrence(run[1..], x);
      assert (run + [x])[1..] == run[1..] + [x];
    }
  }

  /** After any run of pushes the history lists every string once, by last use. */
  lemma {:induction false} HistoryIsByLastUse(run: seq<string>)
    ensures PushedAll(run) == LastOccurrences(run) && NoDuplicates(PushedAll(run))
  {
    if run != [] {
      var n := |run| - 1;
      HistoryIsByLastUse(run[..n]);
      OneMoreOccurrence(run[..n], run[n]);
      assert run == run[..n] + [run[n]];
      PushedKeepsDistinct(PushedAll(run[..n]), run[n]);
    }
  }

  // ----- the linked list

  class Node {
    const ptr: string
    var next: Node?
    var prev: Node?

    constructor (s: string, n: Node?, p: Node?)
      ensures ptr == s && next == n && prev == p
    {
      ptr, next, prev := s, n, p;
    }
  }

  function At(nodes: seq<Node>, i: int): Node? {
    if 0 <= i < |nodes| then nodes[i] else null
  }

  ghost predicate Linked(nodes: seq<Node>, first: Node?, last: Node?)
    reads nodes
  {
    && (forall i, j :: 0 <= i < j < |nodes| ==> nodes[i] != nodes[j])
    && first == At(nodes, 0) && last == At(nodes, |nodes| - 1)
    && forall i :: 0 <= i < |nodes| ==> Placed(nodes, i)
  }

  /** Node `i` points to its neighbours. */
  ghost predicate Placed(nodes: seq<Node>, i: nat)
    requires i < |nodes|
    reads nodes
  {
    nodes[i].next == At(nodes, i + 1) && nodes[i].prev == At(nodes, i - 1)
  }

  /** Node `j` points past `nodes[i]`. */
  ghost predicate Skips(nodes: seq<Node>, i: nat, j: nat)
    requires j < |nodes|
    reads nodes
  {
    && nodes[j].next == At(nodes, if j + 1 == i then j + 2 else j + 1)
    && nodes[j].prev == At(nodes, if j - 1 == i then j - 2 else j - 1)
  }

  lemma Relinked(nodes: seq<Node>, i: nat, first: Node?, last: Node?)
    requires i < |nodes| && forall j, k :: 0 <= j < k < |nodes| ==> nodes[j] != nodes[k]
    requires first == At(nodes, if i == 0 then 1 else 0)
    requires last == At(nodes, if i == |nodes| - 1 then |nodes| - 2 else |nodes| - 1)
    requires forall j :: 0 <= j < |nodes| && j != i ==> Skips(nodes, i, j)
    ensures Linked(nodes[..i] + nodes[i + 1..], first, last)
  {
    var rest := nodes[..i] + nodes[i + 1..];
    forall j | 0 <= j < |rest|
      ensures Placed(rest, j)
    {
      assert Skips(nodes, i, if j < i then j else j + 1);
    }
  }

  function Strings(nodes: seq<Node>): (r: seq<string>)
    ensures |r| == |nodes| && forall i :: 0 <= i < |r| ==> r[i] == nodes[i].ptr
  {
    seq(|nodes|, i requires 0 <= i < |nodes| => nodes[i].ptr)
  }

  // ----- the hash table finds the nodes

  /** The table maps exactly the strings of the nodes, each to its node. */
  ghost predicate Finds(t: Table<Node?>, nodes: seq<Node>)
    reads t, t.tab, t.repr
  {
    && t.Valid()
    && (forall i :: 0 <= i < |nodes| ==> nodes[i].ptr in t.items && t.items[nodes[i].ptr].value == nodes[i])
    && forall k :: k in t.items ==> k in Strings(nodes)
  }

  /** Enters `x`: from finding `before` the table goes on to find `rest` and `x`. */
  method Enter(t: Table<Node?>, x: Node, ghost before: seq<Node>, ghost rest: seq<Node>)
    requires Finds(t, before) && Strings(rest) == Without(Strings(before), x.ptr)
    requires forall i :: 0 <= i < |rest| ==> rest[i] in before
    modifies t, t.tab, t.repr
    ensures Finds(t, rest + [x]) && fresh(t.repr - old(t.repr))
  {
    hide *;
    FoundBefore(t, x, before, rest);
    t.Put(x.ptr, x);
    FoundAfter(t, x, rest);
  }

  lemma FoundBefore(t: Table<Node?>, x: Node, before: seq<Node>, rest: seq<Node>)
    requires Finds(t, before) && Strings(rest) == Without(Strings(before), x.ptr)
    requires forall i :: 0 <= i < |rest| ==> rest[i] in before
    ensures t.Valid()
    ensures forall i :: 0 <= i < |rest| ==>
      rest[i].ptr != x.ptr && rest[i].ptr in t.items && t.items[rest[i].ptr].value == rest[i]
    ensures forall k :: k in t.items ==> k == x.ptr || k in Strings(rest)
  {
    hide Without, Strings, t.Valid;
    forall i | 0 <= i < |rest|
      ensures rest[i].ptr != x.ptr && rest[i].ptr in t.items && t.items[rest[i].ptr].value == rest[i]
    {
      assert Strings(rest)[i] == rest[i].ptr;
      assert Strings(rest)[i] in Strings(rest);
      assert rest[i] in before;
    }
  }

  lemma FoundAfter(t: Table<Node?>, x: Node, rest: seq<Node>)
    requires t.Valid() && x.ptr in t.items && t.items[x.ptr].value == x
    requires forall i :: 0 <= i < |rest| ==> rest[i].ptr in t.items && t.items[rest[i].ptr].value == rest[i]
    requires forall k :: k in t.items ==> k == x.ptr || k in Strings(rest)
    ensures Finds(t, rest + [x])
  {
    var nodes := rest + [x];
    assert nodes[..|rest|] == rest && Strings(nodes) == Strings(rest) + [x.ptr];
    hide Strings, t.Valid;
  }

  const HIST_HASH_SIZE: Size := 127

  class Hist {
    var first: Node?
    var last: Node?
    var nitem: nat
    var hash: Table?<Node?>
    ghost var nodes: seq<Node>

    ghost predicate ListValid()
      reads this, nodes
    {
      Linked(nodes, first, last) && nitem == |nodes|
    }

    /** What the hash table consists of, besides its items. */
    ghost function Buckets(): set<object>
      reads this
    {
      if hash == null then {} else {hash, hash.tab}
    }

    ghost function Items(): set<Item<Node?>>
      reads this, hash
    {
      if hash == null then {} else hash.repr
    }

    ghost predicate Valid()
      reads this, nodes, Buckets(), Items()
    {
      ListValid() && NoDuplicates(Strings(nodes)) && (hash != null ==> Finds(hash, nodes))
    }

    /** `newHist`. */
    constructor ()
      ensures Valid() && nodes == [] && hash == null
    {
      first, last, nitem, hash, nodes := null, null, 0, null, [];
    }

    /** `pushHist`. */
    method PushHist(ptr: string) returns (item: Node)
      requires ListValid()
      modifies this, nodes
      ensures ListValid() && fresh(item) && item.ptr == ptr && last == item && nodes == old(nodes) + [item] && hash == old(hash)
    {
      ghost var all := nodes;
      item := new Node(ptr, null, last);
      if last != null {
        last.next := item;
      } else {
        first := item;
      }
      last := item;
      nitem := nitem + 1;
      nodes := nodes + [item];
      forall j | 0 <= j < |nodes|
        ensures Placed(nodes, j)
      {
        if j < |all| {
          assert old(Placed(all, j));
        }
      }
    }

    /** The part of `pushHashHist` that takes a node out. */
    method Unlink(item: Node, ghost i: nat)
      requires ListValid() && i < |nodes| && nodes[i] == item
      modifies this, nodes
      ensures ListValid() && nodes == old(nodes[..i] + nodes[i + 1..]) && hash == old(hash)
    {
      ghost var all := nodes;
      assert Placed(nodes, i);
      if item.next != null {
        item.next.prev := item.prev;
      } else {
        last := item.prev;
      }
      if item.prev != null {
        item.prev.next := item.next;
      } else {
        first := item.next;
      }
      nitem := nitem - 1;
      forall j | 0 <= j < |nodes| && j != i
        ensures Skips(nodes, i, j)
      {
        assert old(Placed(all, j));
      }
      Relinked(nodes, i, first, last);
      nodes := nodes[..i] + nodes[i + 1..];
    }

    /** `getHashHist`; the table is made when it is first needed. */
    method GetHashHist(ptr: string) returns (item: Node?)
      requires Valid()
      modifies this`hash
      ensures Valid() && hash != null && (old(hash) != null ==> hash == old(hash))
      ensures old(hash) == null ==> fresh(Buckets()) && fresh(Items())
      ensures if ptr in Strings(nodes) then item != null && item in nodes && item.ptr == ptr else item == null
    {
      hide Linked, NoDuplicates, Strings, Finds, Table.Valid;
      if hash == null {
        hash := MakeHash();
      }
      FoundIff(hash, nodes, ptr);
      item := hash.Get(ptr, null);
    }

    /** The loop of `getHashHist`. */
    method MakeHash() returns (t: Table<Node?>)
      requires ListValid() && NoDuplicates(Strings(nodes))
      ensures fresh(t) && fresh(t.tab) && fresh(t.repr) && Finds(t, nodes)
    {
      hide *;
      t := new Table<Node?>(HIST_HASH_SIZE);
      FindsNothing(t);
      FirstIs();
      var item := first;
      ghost var n := 0;
      assert nodes[..0] == [];
      while item != null
        invariant n <= |nodes| && item == At(nodes, n)
        invariant fresh(t) && fresh(t.tab) && fresh(t.repr) && Finds(t, nodes[..n])
        decreases |nodes| - n
      {
        NextIs(n);
        PrefixStrings(nodes, n);
        Enter(t, item, nodes[..n], nodes[..n]);
        assert nodes[..n] + [item] == nodes[..n + 1];
        item, n := item.next, n + 1;
      }
      AtEnd(nodes, n);
      assert nodes[..n] == nodes;
    }

    lemma Counts()
      requires Valid()
      ensures nitem == |Strings(nodes)|
    {
    }

    lemma FirstIs()
      requires ListValid()
      ensures first == At(nodes, 0)
    {
    }

    lemma NextIs(n: nat)
      requires ListValid() && At(nodes, n) != null
      ensures n < |nodes| && At(nodes, n) == nodes[n] && nodes[n].next == At(nodes, n + 1)
    {
      assert Placed(nodes, n);
    }

    /** `pushHashHist`. */
    method PushHashHist(ptr: string) returns (item: Node)
      requires Valid()
      modifies this, nodes, Buckets(), Items()
      ensures Valid() && fresh(item) && item.ptr == ptr && last == item && hash != null
      ensures Strings(nodes) == Pushed(old(Strings(nodes)), ptr)
      ensures nitem == |Strings(nodes)|
      ensures fresh(set x | x in nodes && x !in old(nodes)) && fresh(Buckets() - old(Buckets())) && fresh(Items() - old(Items()))
    {
      hide Linked, NoDuplicates, Strings, Finds, Table.Valid, Pushed, Without, At, IndexOf;
      var found := GetHashHist(ptr);
      ghost var before := nodes;
      if found != null {
        ghost var i := IndexOf(nodes, found);
        RemovedStrings(nodes, i);
        Unlink(found, i);
      } else {
        WithoutAbsent(Strings(nodes), ptr);
      }
      ghost var rest := nodes;
      item := PushHist(ptr);
      PushedStrings(before, rest, item);
      Enter(hash, item, before, rest);
    }
  }

  /** A new history after a run of pushes: the strings of the run by last use. */
  method PushAll(run: seq<string>) returns (hist: Hist)
    ensures fresh(hist) && hist.Valid()
    ensures Strings(hist.nodes) == LastOccurrences(run) && hist.nitem == |LastOccurrences(run)|
  {
    hist := new Hist();
    hide Linked, NoDuplicates, Strings, Finds, Table.Valid, Pushed, PushedAll, LastOccurrences, Hist.Valid;
    NoStrings();
    assert run[..0] == [];
    for i := 0 to |run|
      invariant hist.Valid() && fresh(hist) && fresh(hist.nodes) && fresh(hist.Buckets()) && fresh(hist.Items())
      invariant Strings(hist.nodes) == PushedAll(run[..i])
    {
      PushedOne(run, i);
      var _ := hist.PushHashHist(run[i]);
    }
    assert run[..|run|] == run;
    HistoryIsByLastUse(run);
    hist.Counts();
  }

  lemma NoStrings()
    ensures Strings([]) == [] && PushedAll([]) == []
  {
  }

  lemma PushedOne(run: seq<string>, i: nat)
    requires i < |run|
    ensures PushedAll(run[..i + 1]) == Pushed(PushedAll(run[..i]), run[i])
  {
    assert run[..i + 1][..i] == run[..i];
  }

  ghost function IndexOf(nodes: seq<Node>, x: Node): (i: nat)
    requires x in nodes
    ensures i < |nodes| && nodes[i] == x
  {
    if nodes[0] == x then 0 else 1 + IndexOf(nodes[1..], x)
  }

  lemma RemovedStrings(nodes: seq<Node>, i: nat)
    requires i < |nodes| && NoDuplicates(Strings(nodes))
    ensures Strings(nodes[..i] + nodes[i + 1..]) == Without(Strings(nodes), nodes[i].ptr)
    ensures forall x :: x in nodes[..i] + nodes[i + 1..] ==> x in nodes
  {
    hide NoDuplicates;
    WithoutAt(Strings(nodes), i);
    assert Strings(nodes[..i] + nodes[i + 1..]) == Strings(nodes)[..i] + Strings(nodes)[i + 1..];
  }

  lemma PushedStrings(before: seq<Node>, rest: seq<Node>, x: Node)
    requires Strings(rest) == Without(Strings(before), x.ptr) && NoDuplicates(Strings(before))
    ensures Strings(rest + [x]) == Pushed(Strings(before), x.ptr) && NoDuplicates(Strings(rest + [x]))
  {
    PushedKeepsDistinct(Strings(before), x.ptr);
    hide NoDuplicates, Without;
    assert Strings(rest + [x]) == Strings(rest) + [x.ptr];
  }

  lemma AtEnd(nodes: seq<Node>, n: nat)
    requires n <= |nodes| && At(nodes, n) == null
    ensures n == |nodes|
  {
  }

  lemma FindsNothing(t: Table<Node?>)
    requires t.Valid() && t.items == map[]
    ensures Finds(t, [])
  {
  }

  lemma PrefixStrings(nodes: seq<Node>, n: nat)
    requires n < |nodes| && NoDuplicates(Strings(nodes))
    ensures Without(Strings(nodes[..n]), nodes[n].ptr) == Strings(nodes[..n])
  {
    assert Strings(nodes)[n] == nodes[n].ptr;
    forall i | 0 <= i < n
      ensures Strings(nodes[..n])[i] != nodes[n].ptr
    {
      assert Strings(nodes)[i] == nodes[i].ptr;
    }
    WithoutAbsent(Strings(nodes[..n]), nodes[n].ptr);
  }

  lemma FoundIff(t: Table<Node?>, nodes: seq<Node>, ptr: string)
    requires Finds(t, nodes)
    ensures t.Valid() && (ptr in t.items <==> ptr in Strings(nodes))
    ensures ptr in t.items ==> var x := t.items[ptr].value; x != null && x in nodes && x.ptr == ptr
  {
    hide Strings, t.Valid;
    if ptr in t.items {
      var i :| 0 <= i < |nodes| && Strings(nodes)[i] == ptr;
      assert nodes[i].ptr == ptr;
    }
  }
}
