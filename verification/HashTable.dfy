/**
The string hash table (w3m/hash.c, `hashfunc`; w3m/hash.h, the functions its macros define).
*/
module HashTable {

  /** A 32-bit word rotated left by one bit. */
  function Rotated(h: nat): (r: nat)
    ensures h < 0x1_0000_0000 ==> r < 0x1_0000_0000
  {
    if h >= 0x8000_0000 then (h * 2) % 0x1_0000_0000 + 1 else h * 2
  }

  /** What a signed character adds. */
  function Signed(c: char): int {
    var b := c as int % 256;
    if b < 128 then b else b - 256
  }

  /** One round of `hashfunc`: rotate and add. */
  function HashStep(h: nat, c: char): (r: nat)
    ensures r < 0x1_0000_0000
  {
    (Rotated(h) + Signed(c)) % 0x1_0000_0000
  }

  /** No bit gets lost: different words lead to different words. */
  lemma HashStepIsOneToOne(h: nat, h': nat, c: char)
    requires h < 0x1_0000_0000 && h' < 0x1_0000_0000 && HashStep(h, c) == HashStep(h', c)
    ensures h == h'
  {
    SameSum(Rotated(h), Rotated(h'), Signed(c));
    RotatedIsOneToOne(h, h');
  }

  lemma SameSum(x: nat, y: nat, d: int)
    requires x < 0x1_0000_0000 && y < 0x1_0000_0000 && (x + d) % 0x1_0000_0000 == (y + d) % 0x1_0000_0000
    ensures x == y
  {
  }

  lemma RotatedIsOneToOne(h: nat, h': nat)
    requires h < 0x1_0000_0000 && h' < 0x1_0000_0000 && Rotated(h) == Rotated(h')
    ensures h == h'
  {
  }

  function Hash(s: string): (h: nat)
    ensures h < 0x1_0000_0000
  {
    if s == "" then 0 else HashStep(Hash(s[..|s| - 1]), s[|s| - 1])
  }

  /** The first character is the word, with its sign extended. */
  lemma HashOfOne(c: char)
    ensures Hash([c]) == if c as int % 256 < 128 then c as int % 256 else 0xffff_ff00 + c as int % 256
  {
    assert [c][..0] == "" && Hash("") == 0;
  }

  /** `hashfunc`. */
  method HashFunc(s: string) returns (h: nat)
    ensures h == Hash(s)
  {
    h := 0;
    var i := 0;
    assert s[..0] == "";
    while i < |s|
      invariant i <= |s| && h == Hash(s[..i])
    {
      assert s[..i + 1][..i] == s[..i];
      h := HashStep(h, s[i]);
      i := i + 1;
    }
    assert s[..|s|] == s;
  }

  type Size = n: nat | n > 0 witness 1

  /** An entry; its key and its successor never change. */
  class Item<V> {
    const key: string
    const next: Item?<V>
    var value: V

    constructor (key: string, value: V, next: Item?<V>)
      ensures this.key == key && this.value == value && this.next == next
    {
      this.key, this.value, this.next := key, value, next;
    }
  }

  /** `chain` lists the items from `head` on. */
  ghost predicate Chain<V>(head: Item?<V>, chain: seq<Item<V>>) {
    if chain == [] then head == null else head == chain[0] && Chain(chain[0].next, chain[1..])
  }

  /** An item of bucket `h` belongs there and is the one listed for its key. */
  ghost predicate Filed<V>(size: nat, items: map<string, Item<V>>, h: nat, x: Item<V>)
    requires size > 0
  {
    Hash(x.key) % size == h && x.key in items && items[x.key] == x
  }

  /** Bucket heads, the items of the buckets and the item of every key agree. */
  ghost predicate Sound<V>(size: nat, heads: seq<Item?<V>>, chains: seq<seq<Item<V>>>, items: map<string, Item<V>>) {
    && size > 0 && |heads| == |chains| == size
    && (forall h :: 0 <= h < size ==> Chain(heads[h], chains[h]))
    && (forall h, i :: 0 <= h < size && 0 <= i < |chains[h]| ==> Filed(size, items, h, chains[h][i]))
    && forall k :: k in items ==> items[k].key == k && items[k] in chains[Hash(k) % size]
  }

  lemma ChainHead<V>(x: Item<V>, chain: seq<Item<V>>)
    requires Chain(x.next, chain)
    ensures Chain(x, [x] + chain)
  {
    assert ([x] + chain)[1..] == chain;
  }

  lemma SoundWithItem<V>(size: nat, heads: seq<Item?<V>>, chains: seq<seq<Item<V>>>, items: map<string, Item<V>>, x: Item<V>, h: nat)
    requires Sound(size, heads, chains, items) && x.key !in items
    requires h == Hash(x.key) % size && x.next == heads[h]
    ensures Sound(size, heads[h := x], chains[h := [x] + chains[h]], items[x.key := x])
  {
    hide Hash, Chain;
    ChainHead(x, chains[h]);
    var chain := [x] + chains[h];
    var all, listed := chains[h := chain], items[x.key := x];
    forall g, i | 0 <= g < size && 0 <= i < |all[g]|
      ensures Filed(size, listed, g, all[g][i])
    {
      if g != h || i > 0 {
        var y := if g == h then chains[h][i - 1] else chains[g][i];
        assert Filed(size, items, g, y);
      }
    }
    forall k | k in listed
      ensures listed[k].key == k && listed[k] in all[Hash(k) % size]
    {
      if k == x.key {
        assert chain[0] == x;
      } else {
        assert items[k] in chains[Hash(k) % size];
      }
    }
  }

  class Table<V> {
    const size: nat
    const tab: array<Item?<V>>
    ghost var chains: seq<seq<Item<V>>>
    /** The item of every key that is present. */
    ghost var items: map<string, Item<V>>
    /** The items. */
    ghost var repr: set<Item<V>>

    ghost predicate Valid()
      reads this, tab
    {
      Sound(size, tab[..], chains, items) && forall k :: k in items ==> items[k] in repr
    }

    /** `newHash_sv`. */
    constructor (size: Size)
      ensures Valid() && this.size == size && items == map[] && repr == {} && fresh(tab)
    {
      this.size := size;
      tab := new Item?<V>[size](i => null);
      chains := seq(size, i => []);
      items, repr := map[], {};
    }

    /** `lookupHash_sv`: the item of a key, if it has one, and its bucket. */
    method Lookup(key: string) returns (hi: Item?<V>, h: nat)
      requires Valid()
      ensures h == Hash(key) % size
      ensures if key in items then hi == items[key] else hi == null
    {
      var code := HashFunc(key);
      h := code % size;
      hi := tab[h];
      ghost var chain, n := chains[h], 0;
      while hi != null
        invariant n <= |chains[h]| && chain == chains[h][n..] && Chain(hi, chain)
        invariant forall i :: 0 <= i < n ==> chains[h][i].key != key
        decreases |chains[h]| - n
      {
        assert hi == chains[h][n] && Filed(size, items, h, chains[h][n]);
        if hi.key == key {
          return;
        }
        hi, chain, n := hi.next, chain[1..], n + 1;
      }
    }

    /** `putHash_sv`. */
    method Put(key: string, value: V)
      requires Valid()
      modifies this, tab, repr
      ensures Valid() && key in items && items[key].value == value
      ensures items == old(items)[key := items[key]] && (key in old(items) || fresh(items[key]))
      ensures old(repr) <= repr && fresh(repr - old(repr))
      ensures forall k :: k in old(items) && k != key ==> items[k] == old(items)[k] && items[k].value == old(items[k].value)
    {
      hide *;
      KeysMatch();
      var hi, h := Lookup(key);
      if hi != null {
        hi.value := value;
      } else {
        Insert(key, value, h);
      }
    }

    lemma KeysMatch()
      requires Valid()
      ensures forall k :: k in items ==> items[k].key == k && items[k] in repr
      ensures size > 0 && tab.Length == |chains| == size
    {
    }

    /** The tail of `putHash_sv`: a new item at the head of its bucket. */
    method Insert(key: string, value: V, h: nat)
      requires Valid() && key !in items && h == Hash(key) % size
      modifies this, tab
      ensures Valid() && key in items && fresh(items[key]) && items[key].value == value
      ensures items == old(items)[key := items[key]] && repr == old(repr) + {items[key]}
    {
      KeysMatch();
      hide Sound;
      var hi := new Item(key, value, tab[h]);
      SoundWithItem(size, tab[..], chains, items, hi, h);
      tab[h] := hi;
      assert tab[..] == old(tab[..])[h := hi];
      chains := chains[h := [hi] + chains[h]];
      items, repr := items[key := hi], repr + {hi};
    }

    /** `getHash_sv`. */
    method Get(key: string, failval: V) returns (v: V)
      requires Valid()
      ensures v == if key in items then items[key].value else failval
    {
      var hi, h := Lookup(key);
      if hi == null {
        return failval;
      }
      return hi.value;
    }
  }
}
