/** The chained hash table of src/runtime/runtime_dict.c. */
module RuntimeDict {
  import opened Common

  /** The comparison is an equivalence, and equivalent keys hash alike. */
  ghost predicate GoodKeys<T(!new)>(hashFn: T -> nat, cmpFn: (T, T) -> int) {
    && (forall a :: cmpFn(a, a) == 0)
    && (forall a, b :: cmpFn(a, b) == 0 ==> cmpFn(b, a) == 0 && hashFn(a) == hashFn(b))
    && (forall a, b, c :: cmpFn(a, b) == 0 && cmpFn(b, c) == 0 ==> cmpFn(a, c) == 0)
  }

  /** The value of the last assignment to a key equivalent to k. */
  function Latest<T>(history: seq<(T, T)>, cmpFn: (T, T) -> int, k: T): Option<T> {
    if history == [] then None
    else if cmpFn(history[|history| - 1].0, k) == 0 then Some(history[|history| - 1].1)
    else Latest(history[..|history| - 1], cmpFn, k)
  }

  lemma {:induction false} LatestOfEqualKeys<T(!new)>(history: seq<(T, T)>, hashFn: T -> nat, cmpFn: (T, T) -> int, a: T, b: T)
    requires GoodKeys(hashFn, cmpFn) && cmpFn(a, b) == 0
    ensures Latest(history, cmpFn, a) == Latest(history, cmpFn, b)
  {
    if history != [] {
      LatestOfEqualKeys(history[..|history| - 1], hashFn, cmpFn, a, b);
    }
  }

  lemma LatestAfter<T>(history: seq<(T, T)>, cmpFn: (T, T) -> int, key: T, value: T, k: T)
    ensures Latest(history + [(key, value)], cmpFn, k)
            == if cmpFn(key, k) == 0 then Some(value) else Latest(history, cmpFn, k)
  {
    assert (history + [(key, value)])[..|history|] == history;
  }

  class Entry<T> {
    const key: T
    var value: T
    const hash: nat
    var next: Entry?<T>

    constructor (key: T, value: T, hash: nat, next: Entry?<T>)
      ensures this.key == key && this.value == value && this.hash == hash && this.next == next
    {
      this.key, this.value, this.hash, this.next := key, value, hash, next;
    }
  }

  const INITIAL_BUCKET_COUNT: nat := 16

  class Dict<T(==, !new)> {
    const hashFn: T -> nat
    const cmpFn: (T, T) -> int
    const nil: T
    const buckets: array<Entry?<T>>
    var size: nat
    ghost var chains: seq<seq<Entry<T>>>      // the entries of each bucket, in list order
    ghost var entries: set<Entry<T>>          // all of them
    ghost var history: seq<(T, T)>            // every assignment so far

    static ghost predicate Linked(c: seq<Entry<T>>)
      reads (set e | e in c)`next
    {
      c == [] || (c[0].next == Head(c[1..]) && Linked(c[1..]))
    }

    /** Every entry sits in its own hash bucket and no key comes twice. */
    ghost predicate KeysOf(c: seq<Entry<T>>, b: nat)
      requires buckets.Length > 0
    {
      && (forall i | 0 <= i < |c| :: c[i].hash == hashFn(c[i].key) && c[i].hash % buckets.Length == b)
      && (forall i, j | 0 <= i < j < |c| :: cmpFn(c[i].key, c[j].key) != 0)
    }

    static function Head(c: seq<Entry<T>>): Entry?<T> {
      if c == [] then null else c[0]
    }

    /** The chains hold exactly the entries, each in its own bucket, no key twice. */
    ghost predicate Keyed(chains: seq<seq<Entry<T>>>, entries: set<Entry<T>>) {
      && buckets.Length > 0 && |chains| == buckets.Length
      && (forall b | 0 <= b < |chains| :: KeysOf(chains[b], b))
      && (forall b, e | 0 <= b < |chains| && e in chains[b] :: e in entries)
      && (forall e | e in entries :: e in chains[e.hash % buckets.Length])
    }

    lemma KeyedInsert(chains: seq<seq<Entry<T>>>, entries: set<Entry<T>>, e: Entry<T>)
      requires GoodKeys(hashFn, cmpFn) && Keyed(chains, entries)
      requires e.hash == hashFn(e.key) && forall f | f in entries :: cmpFn(f.key, e.key) != 0
      ensures var b := e.hash % buckets.Length;
              Keyed(chains[b := [e] + chains[b]], entries + {e})
    {
      var b := e.hash % buckets.Length;
      var c := [e] + chains[b];
      forall i, j | 0 <= i < j < |c| ensures cmpFn(c[i].key, c[j].key) != 0 {
        assert c[j] == chains[b][j - 1];
        if i == 0 {
          assert c[j] in chains[b] && c[j] in entries;
        } else {
          assert c[i] == chains[b][i - 1];
        }
      }
      forall f | f in entries + {e} ensures f in chains[b := c][f.hash % buckets.Length] {
        if f == e { assert c[0] == e; }
      }
    }

    /** The buckets and the next pointers spell out the chains. */
    ghost predicate AllLinked()
      requires buckets.Length > 0 && |chains| == buckets.Length
      requires forall b, e | 0 <= b < |chains| && e in chains[b] :: e in entries
      reads `chains, `entries, buckets, entries`next
    {
      forall b | 0 <= b < |chains| :: buckets[b] == Head(chains[b]) && Linked(chains[b])
    }

    /** The entries hold, for each class of keys ever set, the last value set. */
    ghost predicate Represents()
      reads `history, `entries, entries`value
    {
      && (forall e | e in entries :: Latest(history, cmpFn, e.key) == Some(e.value))
      && (forall k {:trigger HasEntry(k)} :: Latest(history, cmpFn, k).Some? ==> HasEntry(k))
    }

    ghost predicate HasEntry(k: T)
      reads `entries
    {
      exists e :: e in entries && cmpFn(e.key, k) == 0
    }

    ghost predicate Valid()
      reads this, buckets, entries
    {
      GoodKeys(hashFn, cmpFn) && Keyed(chains, entries) && size == Total(chains) && AllLinked() && Represents()
    }

    static ghost function Total(cs: seq<seq<Entry<T>>>): nat {
      if cs == [] then 0 else |cs[0]| + Total(cs[1..])
    }

    constructor (hashFn: T -> nat, cmpFn: (T, T) -> int, nil: T)
      requires GoodKeys(hashFn, cmpFn)
      ensures Valid() && fresh(buckets) && entries == {} && history == []
      ensures this.hashFn == hashFn && this.cmpFn == cmpFn && this.nil == nil
    {
      this.hashFn, this.cmpFn, this.nil := hashFn, cmpFn, nil;
      buckets := new Entry?<T>[INITIAL_BUCKET_COUNT](_ => null);
      size := 0;
      chains := seq(INITIAL_BUCKET_COUNT, _ => []);
      entries, history := {}, [];
      new;
      EmptyTotal(chains);
    }

    static lemma {:induction false} EmptyTotal(cs: seq<seq<Entry<T>>>)
      requires forall b | 0 <= b < |cs| :: cs[b] == []
      ensures Total(cs) == 0
    {
      if cs != [] { EmptyTotal(cs[1..]); }
    }

    static lemma {:induction false} TotalUpdate(cs: seq<seq<Entry<T>>>, b: nat, c: seq<Entry<T>>)
      requires b < |cs|
      ensures Total(cs[b := c]) == Total(cs) - |cs[b]| + |c|
    {
      if b == 0 {
        assert cs[b := c][1..] == cs[1..];
      } else {
        assert cs[b := c][1..] == cs[1..][b - 1 := c];
        TotalUpdate(cs[1..], b - 1, c);
      }
    }

    /** Walks a bucket for an entry with the key's hash and an equivalent key. */
    method Find(key: T) returns (entry: Entry?<T>)
      requires Valid()
      ensures entry != null ==> entry in entries && cmpFn(entry.key, key) == 0
      ensures entry == null ==> forall e | e in entries :: cmpFn(e.key, key) != 0
    {
      var hash := hashFn(key);
      var bucket := hash % buckets.Length;
      entry := buckets[bucket];
      ghost var c := chains[bucket];
      ghost var rest := c;
      while entry != null
        invariant Linked(rest) && entry == Head(rest)
        invariant forall e | e in rest :: e in c
        invariant forall e | e in c && e !in rest :: cmpFn(e.key, key) != 0
        decreases |rest|
      {
        assert entry in rest && forall e | e in rest :: e == entry || e in rest[1..];
        if entry.hash == hash && cmpFn(entry.key, key) == 0 {
          return;
        }
        entry := entry.next;
        rest := rest[1..];
      }
      forall e | e in entries ensures cmpFn(e.key, key) != 0 {
        if e !in c {
          assert e.hash % buckets.Length != bucket && hashFn(e.key) != hash;
        }
      }
    }

    lemma OneEntryPerKey(e: Entry<T>, f: Entry<T>)
      requires Valid() && e in entries && f in entries && cmpFn(e.key, f.key) == 0
      ensures e == f
    {
      var c := chains[e.hash % buckets.Length];
      assert e in c && f in chains[f.hash % buckets.Length];
      assert hashFn(e.key) == hashFn(f.key);
      var i :| 0 <= i < |c| && c[i] == e;
      var j :| 0 <= j < |c| && c[j] == f;
    }

    lemma HistoryGrows(key: T, value: T)
      ensures forall k :: Latest(history + [(key, value)], cmpFn, k)
                          == if cmpFn(key, k) == 0 then Some(value) else Latest(history, cmpFn, k)
    {
      forall k { LatestAfter(history, cmpFn, key, value, k); }
    }

    method Overwrite(entry: Entry<T>, key: T, value: T)
      requires Valid() && entry in entries && cmpFn(entry.key, key) == 0
      modifies this`history, entry`value
      ensures Valid() && history == old(history) + [(key, value)]
    {
      forall e | e in entries && e != entry ensures cmpFn(key, e.key) != 0 {
        if cmpFn(key, e.key) == 0 { OneEntryPerKey(entry, e); }
      }
      SetValue(entry, key, value);
    }

    /** The only entry with an equal key takes the new value. */
    method SetValue(entry: Entry<T>, key: T, value: T)
      requires GoodKeys(hashFn, cmpFn) && Represents() && entry in entries && cmpFn(entry.key, key) == 0
      requires forall e | e in entries && e != entry :: cmpFn(key, e.key) != 0
      modifies this`history, entry`value
      ensures Represents() && history == old(history) + [(key, value)]
    {
      HistoryGrows(key, value);
      history := history + [(key, value)];
      entry.value := value;
      forall k | Latest(history, cmpFn, k).Some? ensures HasEntry(k) {
        assert if cmpFn(key, k) == 0 then cmpFn(entry.key, k) == 0 else old(HasEntry(k));
      }
    }

    static lemma LinkedCons(e: Entry<T>, c: seq<Entry<T>>)
      requires Linked(c) && e.next == Head(c)
      ensures Linked([e] + c)
    {
      assert ([e] + c)[1..] == c;
    }

    /** Puts a new entry at the front of its bucket's list. */
    method Insert(key: T, value: T, hash: nat, bucket: nat)
      requires Valid() && hash == hashFn(key) && bucket == hash % buckets.Length
      requires forall e | e in entries :: cmpFn(e.key, key) != 0
      modifies this, buckets
      ensures Valid() && fresh(entries - old(entries))
      ensures history == old(history) + [(key, value)]
    {
      var newEntry := new Entry(key, value, hash, buckets[bucket]);
      Place(newEntry, bucket);
      Record(newEntry);
    }

    method Place(newEntry: Entry<T>, bucket: nat)
      requires GoodKeys(hashFn, cmpFn) && Keyed(chains, entries) && size == Total(chains) && AllLinked()
      requires newEntry !in entries && newEntry.hash == hashFn(newEntry.key) && bucket == newEntry.hash % buckets.Length
      requires forall e | e in entries :: cmpFn(e.key, newEntry.key) != 0
      requires newEntry.next == buckets[bucket]
      modifies this`chains, this`size, buckets
      ensures Keyed(chains, entries + {newEntry}) && size == Total(chains)
      ensures forall b | 0 <= b < |chains| :: buckets[b] == Head(chains[b]) && Linked(chains[b])
    {
      KeyedInsert(chains, entries, newEntry);
      TotalUpdate(chains, bucket, [newEntry] + chains[bucket]);
      LinkFront(newEntry, bucket);
      size := size + 1;
    }

    /** The assignment that made a new entry joins the history. */
    ghost method Record(e: Entry<T>)
      requires GoodKeys(hashFn, cmpFn) && Represents() && forall f | f in entries :: cmpFn(f.key, e.key) != 0
      modifies this`history, this`entries
      ensures Represents() && entries == old(entries) + {e} && history == old(history) + [(e.key, e.value)]
    {
      HistoryGrows(e.key, e.value);
      ghost var before := entries;
      history := history + [(e.key, e.value)];
      entries := before + {e};
      forall f | f in entries ensures Latest(history, cmpFn, f.key) == Some(f.value) {
        assert f != e ==> cmpFn(e.key, f.key) != 0;
      }
      forall k | Latest(history, cmpFn, k).Some? ensures HasEntry(k) {
        if cmpFn(e.key, k) != 0 { assert old(HasEntry(k)); }
        StillHasEntry(before, e, k);
      }
    }

    lemma StillHasEntry(before: set<Entry<T>>, e: Entry<T>, k: T)
      requires entries == before + {e}
      requires cmpFn(e.key, k) == 0 || exists f :: f in before && cmpFn(f.key, k) == 0
      ensures HasEntry(k)
    {
      if cmpFn(e.key, k) != 0 {
        var f :| f in before && cmpFn(f.key, k) == 0;
        assert f in entries;
      } else {
        assert e in entries;
      }
    }

    method LinkFront(e: Entry<T>, bucket: nat)
      requires buckets.Length > 0 && |chains| == buckets.Length && bucket < |chains|
      requires forall b, f | 0 <= b < |chains| && f in chains[b] :: f in entries
      requires AllLinked() && e.next == buckets[bucket]
      modifies this`chains, buckets
      ensures chains == old(chains)[bucket := [e] + old(chains)[bucket]]
      ensures forall b | 0 <= b < |chains| :: buckets[b] == Head(chains[b]) && Linked(chains[b])
    {
      LinkedCons(e, chains[bucket]);
      buckets[bucket] := e;
      chains := chains[bucket := [e] + chains[bucket]];
    }

    method Set(key: T, value: T)
      requires Valid()
      modifies this, buckets, entries
      ensures Valid() && fresh(entries - old(entries))
      ensures history == old(history) + [(key, value)]
    {
      var entry := Find(key);
      if entry != null {
        Overwrite(entry, key, value);
      } else {
        var hash := hashFn(key);
        Insert(key, value, hash, hash % buckets.Length);
      }
    }

    /** The value last set for the key's class, or nil. */
    method Get(key: T) returns (value: T)
      requires Valid()
      ensures value == match Latest(history, cmpFn, key) case Some(v) => v case None => nil
    {
      var entry := Find(key);
      if entry != null {
        LatestOfEqualKeys(history, hashFn, cmpFn, entry.key, key);
        return entry.value;
      }
      assert !HasEntry(key);
      return nil;
    }

    /** A key whose last value is nil counts as absent. */
    method Contains(key: T) returns (found: bool)
      requires Valid()
      ensures found <==> Latest(history, cmpFn, key).Some? && Latest(history, cmpFn, key) != Some(nil)
    {
      var value := Get(key);
      return value != nil;
    }

    /** All entries in bucket order. */
    static ghost function Flat(cs: seq<seq<Entry<T>>>): (r: seq<Entry<T>>)
      ensures |r| == Total(cs)
    {
      if cs == [] then [] else cs[0] + Flat(cs[1..])
    }

    static lemma {:induction false} FlatHas(cs: seq<seq<Entry<T>>>, b: nat, e: Entry<T>)
      requires b < |cs| && e in cs[b]
      ensures e in Flat(cs)
    {
      if b > 0 {
        FlatHas(cs[1..], b - 1, e);
      }
    }

    static lemma {:induction false} FlatFinds(cs: seq<seq<Entry<T>>>, e: Entry<T>) returns (b: nat)
      requires e in Flat(cs)
      ensures b < |cs| && e in cs[b]
    {
      b := 0;
      if e !in cs[0] {
        b := FlatFinds(cs[1..], e);
        b := b + 1;
      }
    }

    /** Entries of different buckets have keys that are not equivalent. */
    lemma LaterBucket(from: nat, e: Entry<T>, f: Entry<T>)
      requires Valid() && from < |chains| && e in chains[from] && f in Flat(chains[from + 1..])
      ensures cmpFn(e.key, f.key) != 0
    {
      var b := FlatFinds(chains[from + 1..], f);
      assert f in chains[from + 1 + b] && KeysOf(chains[from + 1 + b], from + 1 + b) && KeysOf(chains[from], from);
      assert f.hash % buckets.Length == from + 1 + b && e.hash % buckets.Length == from;
    }

    /** No two entries of a suffix of the buckets have equivalent keys. */
    lemma {:induction false} FlatDistinct(from: nat)
      requires Valid() && from <= |chains|
      ensures forall i, j | 0 <= i < j < |Flat(chains[from..])| ::
                cmpFn(Flat(chains[from..])[i].key, Flat(chains[from..])[j].key) != 0
      decreases |chains| - from
    {
      if from < |chains| {
        FlatDistinct(from + 1);
        var c, rest := chains[from], Flat(chains[from + 1..]);
        assert chains[from..][1..] == chains[from + 1..];
        var all := Flat(chains[from..]);
        assert all == c + rest;
        forall i, j | 0 <= i < j < |all| ensures cmpFn(all[i].key, all[j].key) != 0 {
          if i < |c| <= j {
            assert rest[j - |c|] in rest;
            LaterBucket(from, c[i], rest[j - |c|]);
          }
        }
      }
    }

    lemma FlatIsEntries()
      requires Valid()
      ensures forall e :: e in Flat(chains) <==> e in entries
      ensures forall i, j | 0 <= i < j < |Flat(chains)| :: Flat(chains)[i] != Flat(chains)[j]
    {
      forall e ensures e in Flat(chains) <==> e in entries {
        if e in Flat(chains) {
          var b := FlatFinds(chains, e);
        }
        if e in entries {
          FlatHas(chains, e.hash % buckets.Length, e);
        }
      }
      assert chains[0..] == chains;
      FlatDistinct(0);
      var all := Flat(chains);
      forall i, j | 0 <= i < j < |all| ensures all[i] != all[j] {
        assert cmpFn(all[i].key, all[j].key) != 0;
      }
    }

    lemma EntryAt(i: nat)
      requires Valid() && i < |Flat(chains)|
      ensures Flat(chains)[i] in entries
      ensures Latest(history, cmpFn, Flat(chains)[i].key) == Some(Flat(chains)[i].value)
    {
      var e := Flat(chains)[i];
      var b := FlatFinds(chains, e);
    }

    lemma IndexFor(k: T) returns (i: nat)
      requires Valid() && Latest(history, cmpFn, k).Some?
      ensures i < |Flat(chains)| && cmpFn(Flat(chains)[i].key, k) == 0
    {
      assert HasEntry(k);
      var e :| e in entries && cmpFn(e.key, k) == 0;
      FlatHas(chains, e.hash % buckets.Length, e);
      i :| 0 <= i < |Flat(chains)| && Flat(chains)[i] == e;
    }

    /** The array starts with the keys and values of these entries, alternating. */
    static ghost predicate Filled(items: array<T>, es: seq<Entry<T>>)
      reads items, (set e | e in es)`value
    {
      && 2 * |es| <= items.Length
      && forall k | 0 <= k < |es| :: items[2 * k] == es[k].key && items[2 * k + 1] == es[k].value
    }

    static method CopyBucket(items: array<T>, index: nat, first: Entry?<T>, ghost c: seq<Entry<T>>, ghost done: seq<Entry<T>>)
      returns (index': nat)
      requires Linked(c) && first == Head(c) && index == |done| && Filled(items, done)
      requires 2 * (index + |c|) <= items.Length
      modifies items
      ensures index' == index + |c| && Filled(items, done + c)
    {
      index' := index;
      var entry := first;
      ghost var copied: seq<Entry<T>>, rest: seq<Entry<T>> := done, c;
      while entry != null
        invariant Linked(rest) && entry == Head(rest) && copied + rest == done + c
        invariant index' == |copied| && Filled(items, copied)
        decreases |rest|
      {
        assert |copied| + |rest| == index + |c|;
        items[index' * 2] := entry.key;
        items[index' * 2 + 1] := entry.value;
        index' := index' + 1;
        copied := copied + [entry];
        entry := entry.next;
        rest := rest[1..];
      }
      assert rest == [] && copied + [] == copied;
    }

    static method FreeBucket(first: Entry?<T>, ghost c: seq<Entry<T>>) returns (freed: seq<Entry<T>>)
      requires Linked(c) && first == Head(c)
      ensures freed == c
    {
      freed := [];
      var entry := first;
      ghost var rest := c;
      while entry != null
        invariant Linked(rest) && entry == Head(rest) && freed + rest == c
        decreases |rest|
      {
        var next := entry.next;
        freed := freed + [entry];
        entry := next;
        rest := rest[1..];
      }
      assert rest == [] && freed + [] == freed;
    }

    static lemma FlatFrom(cs: seq<seq<Entry<T>>>, i: nat)
      requires i < |cs|
      ensures Flat(cs[i..]) == cs[i] + Flat(cs[i + 1..])
    {
      assert cs[i..][1..] == cs[i + 1..];
    }

    static lemma Moved(done: seq<Entry<T>>, c: seq<Entry<T>>, rest: seq<Entry<T>>, all: seq<Entry<T>>)
      requires done + (c + rest) == all
      ensures (done + c) + rest == all && |done| + |c| <= |all|
    {
    }

    /** Keys and values alternating, in bucket order. */
    method CollectItems() returns (items: array<T>)
      requires Valid()
      ensures fresh(items) && items.Length == 2 * size && size == |Flat(chains)|
      ensures Filled(items, Flat(chains))
    {
      items := new T[size * 2](_ => nil);
      var index := 0;
      ghost var done: seq<Entry<T>> := [];
      ghost var all := Flat(chains);
      for i := 0 to buckets.Length
        invariant index == |done| && done + Flat(chains[i..]) == all
        invariant Filled(items, done)
      {
        FlatFrom(chains, i);
        Moved(done, chains[i], Flat(chains[i + 1..]), all);
        index := CopyBucket(items, index, buckets[i], chains[i], done);
        done := done + chains[i];
      }
      assert done + [] == done;
    }

    /** The classes of keys ever set, each once, each with the last value set. */
    method Items() returns (items: array<T>, count: nat)
      requires Valid()
      ensures count == size && items.Length == 2 * count
      ensures forall i | 0 <= i < count :: Latest(history, cmpFn, items[2 * i]) == Some(items[2 * i + 1])
      ensures forall i, j | 0 <= i < j < count :: cmpFn(items[2 * i], items[2 * j]) != 0
      ensures forall k | Latest(history, cmpFn, k).Some? :: exists i | 0 <= i < count :: cmpFn(items[2 * i], k) == 0
    {
      items := CollectItems();
      count := size;
      ghost var all: seq<Entry<T>> := Flat(chains);
      forall i | 0 <= i < count ensures Latest(history, cmpFn, items[2 * i]) == Some(items[2 * i + 1]) {
        EntryAt(i);
      }
      FlatDistinct(0);
      assert chains[0..] == chains;
      forall k | Latest(history, cmpFn, k).Some? ensures exists i | 0 <= i < count :: cmpFn(items[2 * i], k) == 0 {
        var i := IndexFor(k);
        assert items[2 * i] == all[i].key;
      }
    }

    /** The entries in the order in which the lists are torn down: all of them, each once. */
    method Free() returns (freed: seq<Entry<T>>)
      requires Valid()
      ensures forall e :: e in freed <==> e in entries
      ensures forall i, j | 0 <= i < j < |freed| :: freed[i] != freed[j]
    {
      freed := [];
      for i := 0 to buckets.Length
        invariant freed + Flat(chains[i..]) == Flat(chains)
      {
        FlatFrom(chains, i);
        var bucket: seq<Entry<T>> := FreeBucket(buckets[i], chains[i]);
        Moved(freed, bucket, Flat(chains[i + 1..]), Flat(chains));
        freed := freed + bucket;
      }
      assert freed + [] == freed;
      FlatIsEntries();
    }
  }
}
