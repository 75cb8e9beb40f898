/**
 * Insertion-ordered frequency tables: the shape shared by `collections.Counter`
 * and a `defaultdict(int)` used as a counter. A table lists its keys in the
 * order they were first inserted, each with its count; `most_common(1)` and
 * `sorted(items, key=count, reverse=True)` are modelled on it.
 */
module Tallies {
  import opened Opt

  datatype Entry<K> = Entry(key: K, count: nat)

  type Table<K> = seq<Entry<K>>

  predicate DistinctKeys<K(==)>(t: Table<K>)
  {
    forall i, j :: 0 <= i < j < |t| ==> t[i].key != t[j].key
  }

  predicate HasKey<K(==)>(t: Table<K>, k: K)
  {
    exists i :: 0 <= i < |t| && t[i].key == k
  }

  /** The count stored for `k`, or 0 when `k` was never inserted (a dictionary lookup with default 0). */
  function CountOf<K(==)>(t: Table<K>, k: K): nat
  {
    if t == [] then 0
    else if t[0].key == k then t[0].count
    else CountOf(t[1..], k)
  }

  /** The sum of all counts. */
  function Total<K>(t: Table<K>): nat
  {
    if t == [] then 0 else t[0].count + Total(t[1..])
  }

  /** No single count exceeds the sum of all counts. */
  lemma {:induction false} CountAtMostTotal<K>(t: Table<K>, i: nat)
    requires i < |t|
    ensures t[i].count <= Total(t)
  {
    if i > 0 {
      CountAtMostTotal(t[1..], i - 1);
    }
  }

  /** `table[k] += 1`: an existing key keeps its place, a new key goes last with count 1. */
  function Bump<K(==)>(t: Table<K>, k: K): Table<K>
  {
    if t == [] then [Entry(k, 1)]
    else if t[0].key == k then [Entry(k, t[0].count + 1)] + t[1..]
    else [t[0]] + Bump(t[1..], k)
  }

  /** The table built by bumping each element of `s` in turn, from an empty table. */
  function Tally<K(==)>(s: seq<K>): (t: Table<K>)
    ensures |t| <= |s|
  {
    if s == [] then []
    else
      BumpShape(Tally(s[..|s| - 1]), s[|s| - 1]);
      Bump(Tally(s[..|s| - 1]), s[|s| - 1])
  }

  /** Position of the first occurrence of `k` in `s`. */
  function FirstIndex<K(==)>(s: seq<K>, k: K): (i: nat)
    requires k in s
    ensures i < |s| && s[i] == k
    ensures forall j :: 0 <= j < i ==> s[j] != k
  {
    if s[0] == k then 0 else 1 + FirstIndex(s[1..], k)
  }

  /** The values of the present elements, in order: what a generator with an
      `if` filter feeds to the counter. */
  function Present<K>(s: seq<Option<K>>): seq<K>
  {
    if s == [] then []
    else Present(s[..|s| - 1]) + (if s[|s| - 1].Some? then [s[|s| - 1].value] else [])
  }

  // ---------------------------------------------------------------------------
  // Bumping one key

  lemma {:induction false} BumpCountOf<K>(t: Table<K>, k: K, j: K)
    ensures CountOf(Bump(t, k), j) == CountOf(t, j) + (if j == k then 1 else 0)
  {
    if t != [] && t[0].key != k {
      BumpCountOf(t[1..], k, j);
    }
  }

  lemma {:induction false} BumpTotal<K>(t: Table<K>, k: K)
    ensures Total(Bump(t, k)) == Total(t) + 1
  {
    if t == [] {
    } else if t[0].key == k {
      assert Bump(t, k)[1..] == t[1..];
    } else {
      BumpTotal(t[1..], k);
      assert Bump(t, k)[1..] == Bump(t[1..], k);
    }
  }

  /** Bumping a present key changes only its count; bumping a new key appends it. */
  lemma {:induction false} BumpShape<K>(t: Table<K>, k: K)
    ensures HasKey(t, k) ==> |Bump(t, k)| == |t| && forall i :: 0 <= i < |t| ==> Bump(t, k)[i].key == t[i].key
    ensures !HasKey(t, k) ==> Bump(t, k) == t + [Entry(k, 1)]
    ensures forall i :: 0 <= i < |t| && t[i].count >= 1 ==> Bump(t, k)[i].count >= 1
  {
    if t != [] && t[0].key != k {
      BumpShape(t[1..], k);
      if HasKey(t, k) {
        var i :| 0 <= i < |t| && t[i].key == k;
        assert t[1..][i - 1].key == k;
      }
      if !HasKey(t, k) {
        forall i | 0 <= i < |t[1..]| ensures t[1..][i].key != k {
          assert t[1..][i] == t[i + 1];
        }
      }
    } else if t != [] {
      assert t[0].key == k;
    }
  }

  /** Bumping a key listed at position `p` (and nowhere before) adds 1 to that entry only. */
  lemma {:induction false} BumpListed<K>(t: Table<K>, k: K, p: nat)
    requires p < |t| && t[p].key == k
    requires forall i :: 0 <= i < p ==> t[i].key != k
    ensures Bump(t, k) == t[p := Entry(k, t[p].count + 1)]
  {
    if p > 0 {
      BumpListed(t[1..], k, p - 1);
      assert t[1..][p - 1 := Entry(k, t[p].count + 1)] == t[p := Entry(k, t[p].count + 1)][1..];
    }
  }

  // ---------------------------------------------------------------------------
  // Tables built by bumping a sequence

  lemma TallySnoc<K>(s: seq<K>, x: K)
    ensures Tally(s + [x]) == Bump(Tally(s), x)
  {
    assert (s + [x])[..|s|] == s;
  }

  /** Every count in the tally is the number of occurrences of its key. */
  lemma {:induction false} TallyCountOf<K>(s: seq<K>, k: K)
    ensures CountOf(Tally(s), k) == multiset(s)[k]
  {
    if s != [] {
      var init, x := s[..|s| - 1], s[|s| - 1];
      assert s == init + [x];
      TallyCountOf(init, k);
      BumpCountOf(Tally(init), x, k);
    }
  }

  /** The counts add up to the number of elements tallied. */
  lemma {:induction false} TallyTotal<K>(s: seq<K>)
    ensures Total(Tally(s)) == |s|
  {
    if s != [] {
      TallyTotal(s[..|s| - 1]);
      BumpTotal(Tally(s[..|s| - 1]), s[|s| - 1]);
    }
  }

  /** Bumping lists the bumped key and keeps every other listed key. */
  lemma BumpHasKey<K>(t: Table<K>, k: K, j: K)
    ensures HasKey(Bump(t, k), j) <==> HasKey(t, j) || j == k
  {
    BumpShape(t, k);
    var t' := Bump(t, k);
    if HasKey(t, k) {
      if HasKey(t', j) {
        var i :| 0 <= i < |t'| && t'[i].key == j;
        assert t[i].key == j;
      }
      if HasKey(t, j) {
        var i :| 0 <= i < |t| && t[i].key == j;
        assert t'[i].key == j;
      }
      if j == k {
        var i :| 0 <= i < |t| && t[i].key == k;
        assert t'[i].key == j;
      }
    } else {
      if HasKey(t', j) {
        var i :| 0 <= i < |t'| && t'[i].key == j;
        if i < |t| { assert t[i].key == j; }
      }
      if HasKey(t, j) {
        var i :| 0 <= i < |t| && t[i].key == j;
        assert t'[i].key == j;
      }
      assert t'[|t|].key == k;
    }
  }

  /** Exactly the tallied elements are listed. */
  lemma {:induction false} TallyListsElements<K>(s: seq<K>)
    ensures forall k :: HasKey(Tally(s), k) <==> k in s
  {
    if s != [] {
      var init, x := s[..|s| - 1], s[|s| - 1];
      assert s == init + [x];
      TallyListsElements(init);
      forall k ensures HasKey(Tally(s), k) <==> k in s {
        BumpHasKey(Tally(init), x, k);
      }
    }
  }

  /** Each key is listed once and every listed count is at least 1. */
  lemma {:induction false} TallyWellFormed<K>(s: seq<K>)
    ensures DistinctKeys(Tally(s))
    ensures forall i :: 0 <= i < |Tally(s)| ==> Tally(s)[i].count >= 1
  {
    if s != [] {
      var init, x := s[..|s| - 1], s[|s| - 1];
      var t := Tally(init);
      TallyWellFormed(init);
      BumpShape(t, x);
      if !HasKey(t, x) {
        forall i | 0 <= i < |t| ensures t[i].key != x {
          assert HasKey(t, t[i].key);
        }
      }
    }
  }

  /** Keys are listed in the order of their first occurrence in `s`. */
  lemma {:induction false} TallyFirstSeenOrder<K>(s: seq<K>)
    ensures forall i, j :: 0 <= i < j < |Tally(s)| ==>
              Tally(s)[i].key in s && Tally(s)[j].key in s &&
              FirstIndex(s, Tally(s)[i].key) < FirstIndex(s, Tally(s)[j].key)
  {
    if s != [] {
      var init, x := s[..|s| - 1], s[|s| - 1];
      var t := Tally(init);
      assert s == init + [x];
      TallyFirstSeenOrder(init);
      TallyListsElements(init);
      BumpShape(t, x);
      forall i | 0 <= i < |t| ensures t[i].key in init && FirstIndex(s, t[i].key) == FirstIndex(init, t[i].key) {
        assert HasKey(t, t[i].key);
        FirstIndexPrefix(init, [x], t[i].key);
      }
      var t' := Tally(s);
      assert t' == Bump(t, x);
      forall i, j | 0 <= i < j < |t'|
        ensures t'[i].key in s && t'[j].key in s && FirstIndex(s, t'[i].key) < FirstIndex(s, t'[j].key)
      {
        if j < |t| {
          assert t'[i].key == t[i].key && t'[j].key == t[j].key;
        } else {
          assert !HasKey(t, x) && t'[j].key == x && t'[i].key == t[i].key;
          assert x !in init;
          assert FirstIndex(s, x) == |init|;
        }
      }
    } else {
      assert Tally(s) == [];
    }
  }

  // ---------------------------------------------------------------------------
  // Filtering out absent values

  lemma PresentSnoc<K>(s: seq<Option<K>>, o: Option<K>)
    ensures Present(s + [o]) == Present(s) + (if o.Some? then [o.value] else [])
  {
    assert (s + [o])[..|s|] == s;
  }

  /** A value is kept exactly when it is present somewhere. */
  lemma {:induction false} PresentMembership<K>(s: seq<Option<K>>, k: K)
    ensures k in Present(s) <==> Some(k) in s
  {
    if s != [] {
      var init := s[..|s| - 1];
      assert s == init + [s[|s| - 1]];
      PresentMembership(init, k);
    }
  }

  /** Each value is kept as often as it is present. */
  lemma {:induction false} PresentMultiset<K>(s: seq<Option<K>>, k: K)
    ensures multiset(Present(s))[k] == multiset(s)[Some(k)]
  {
    if s != [] {
      var init := s[..|s| - 1];
      assert s == init + [s[|s| - 1]];
      PresentMultiset(init, k);
    }
  }

  /** Filtering keeps order: a value first kept before another was first present before it. */
  lemma {:induction false} PresentFirstSeen<K>(s: seq<Option<K>>, a: K, b: K)
    requires a in Present(s) && b in Present(s)
    ensures Some(a) in s && Some(b) in s
    ensures FirstIndex(Present(s), a) < FirstIndex(Present(s), b) ==> FirstIndex(s, Some(a)) < FirstIndex(s, Some(b))
  {
    PresentMembership(s, a);
    PresentMembership(s, b);
    var n := |s| - 1;
    var init, o := s[..n], s[n];
    var kept := Present(init);
    var extra := if o.Some? then [o.value] else [];
    assert s == init + [o];
    PresentSnoc(init, o);
    PresentMembership(init, a);
    PresentMembership(init, b);
    if a in kept && b in kept {
      PresentFirstSeen(init, a, b);
      FirstIndexPrefix(kept, extra, a);
      FirstIndexPrefix(kept, extra, b);
      FirstIndexPrefix(init, [o], Some(a));
      FirstIndexPrefix(init, [o], Some(b));
    } else if a in kept {
      FirstIndexPrefix(init, [o], Some(a));
      assert FirstIndex(s, Some(b)) == n;
    } else if b in kept {
      FirstIndexPrefix(kept, extra, b);
      assert FirstIndex(Present(s), a) == |kept|;
    }
  }

  lemma {:induction false} FirstIndexPrefix<K>(a: seq<K>, b: seq<K>, k: K)
    requires k in a
    ensures k in a + b && FirstIndex(a + b, k) == FirstIndex(a, k)
  {
    var i := FirstIndex(a, k);
    assert (a + b)[i] == k;
    forall j | 0 <= j < i ensures (a + b)[j] != k {
      assert (a + b)[j] == a[j];
    }
  }

  /** In a table whose keys are distinct, the count looked up for a listed key is its own. */
  lemma {:induction false} CountOfListed<K>(t: Table<K>, i: nat)
    requires DistinctKeys(t) && i < |t|
    ensures CountOf(t, t[i].key) == t[i].count
  {
    if i > 0 {
      assert t[0].key != t[i].key;
      assert DistinctKeys(t[1..]) by {
        forall a, b | 0 <= a < b < |t[1..]| ensures t[1..][a].key != t[1..][b].key {
          assert t[a + 1].key != t[b + 1].key;
        }
      }
      CountOfListed(t[1..], i - 1);
    }
  }

  /** A key that is not listed has count 0. */
  lemma {:induction false} CountOfUnlisted<K>(t: Table<K>, k: K)
    requires !HasKey(t, k)
    ensures CountOf(t, k) == 0
  {
    if t != [] {
      assert t[0].key != k;
      forall i | 0 <= i < |t[1..]| ensures t[1..][i].key != k {
        assert t[1..][i] == t[i + 1];
      }
      CountOfUnlisted(t[1..], k);
    }
  }

  // ---------------------------------------------------------------------------
  // most_common(1): the first entry whose count is maximal

  /** Index of the entry `max(items, key=count)` returns: a largest count, and the
      earliest among entries that share it, because only a strictly larger count
      replaces the running maximum. */
  function MostCommonIndex<K>(t: Table<K>): (k: nat)
    requires |t| > 0
    ensures k < |t|
    ensures forall j :: 0 <= j < |t| ==> t[j].count <= t[k].count
    ensures forall j :: 0 <= j < k ==> t[j].count < t[k].count
  {
    if |t| == 1 then 0
    else
      var m := MostCommonIndex(t[..|t| - 1]);
      if t[|t| - 1].count > t[m].count then |t| - 1 else m
  }

  // ---------------------------------------------------------------------------
  // sorted(items, key=count, reverse=True): a stable sort by descending count

  predicate SortedByCountDesc<K>(t: Table<K>)
  {
    forall i, j :: 0 <= i < j < |t| ==> t[i].count >= t[j].count
  }

  /** Where `x` goes in a table sorted by descending count: after every entry with a
      larger count and before the rest, so that it precedes the entries it ties with. */
  function InsertPos<K>(x: Entry<K>, s: Table<K>): (p: nat)
    ensures p <= |s|
    ensures forall i :: 0 <= i < p ==> s[i].count > x.count
    ensures p < |s| ==> s[p].count <= x.count
  {
    if s == [] || s[0].count <= x.count then 0 else 1 + InsertPos(x, s[1..])
  }

  function Insert<K>(x: Entry<K>, s: Table<K>): Table<K>
  {
    var p := InsertPos(x, s);
    s[..p] + [x] + s[p..]
  }

  function SortByCountDesc<K>(t: Table<K>): (r: Table<K>)
    ensures |r| == |t|
  {
    if t == [] then [] else Insert(t[0], SortByCountDesc(t[1..]))
  }

  /** Where each entry of `s` lands once `x` is inserted. */
  lemma InsertIndex<K>(x: Entry<K>, s: Table<K>)
    ensures var p, r := InsertPos(x, s), Insert(x, s);
            |r| == |s| + 1 && r[p] == x &&
            (forall i :: 0 <= i < p ==> r[i] == s[i]) &&
            (forall i :: p < i < |r| ==> r[i] == s[i - 1])
  {
  }

  lemma InsertMultiset<K>(x: Entry<K>, s: Table<K>)
    ensures multiset(Insert(x, s)) == multiset(s) + multiset{x}
  {
    var p := InsertPos(x, s);
    assert s == s[..p] + s[p..];
  }

  lemma {:induction false} InsertSorted<K>(x: Entry<K>, s: Table<K>)
    requires SortedByCountDesc(s)
    ensures SortedByCountDesc(Insert(x, s))
    ensures multiset(Insert(x, s)) == multiset(s) + multiset{x}
  {
    var p := InsertPos(x, s);
    var r := Insert(x, s);
    InsertIndex(x, s);
    InsertMultiset(x, s);
    forall i, j | 0 <= i < j < |r| ensures r[i].count >= r[j].count {
      if j < p {
        assert r[i] == s[i] && r[j] == s[j];
      } else if j == p {
        assert r[i] == s[i];
      } else if i < p {
        assert r[i] == s[i] && r[j] == s[j - 1];
      } else if i == p {
        assert r[j] == s[j - 1];
      } else {
        assert r[i] == s[i - 1] && r[j] == s[j - 1];
      }
    }
  }

  /** The ranking is ordered by non-increasing count. */
  lemma {:induction false} SortSorted<K>(t: Table<K>)
    ensures SortedByCountDesc(SortByCountDesc(t))
    ensures multiset(SortByCountDesc(t)) == multiset(t)
  {
    if t != [] {
      SortSorted(t[1..]);
      InsertSorted(t[0], SortByCountDesc(t[1..]));
      assert t == [t[0]] + t[1..];
    }
  }

  /** `r` keeps the relative order that tied entries have in `t`: two entries of `r`
      with equal counts occur in `t` in the same order. */
  ghost predicate StableWrt<K>(r: Table<K>, t: Table<K>)
  {
    forall i, j :: 0 <= i < j < |r| && r[i].count == r[j].count ==>
      exists i', j' :: 0 <= i' < j' < |t| && t[i'] == r[i] && t[j'] == r[j]
  }

  /** The sort is stable: entries with equal counts keep their order from the table. */
  lemma {:induction false} SortStable<K>(t: Table<K>)
    ensures StableWrt(SortByCountDesc(t), t)
  {
    if t != [] {
      SortStable(t[1..]);
      SortSorted(t[1..]);
      InsertStable(t[0], t[1..], SortByCountDesc(t[1..]));
      assert t == [t[0]] + t[1..];
    }
  }

  /** Inserting `x` into a stable ranking of `rest` gives a stable ranking of `[x] + rest`. */
  lemma InsertStable<K>(x: Entry<K>, rest: Table<K>, s: Table<K>)
    requires multiset(s) == multiset(rest)
    requires StableWrt(s, rest)
    ensures StableWrt(Insert(x, s), [x] + rest)
  {
    var r := Insert(x, s);
    forall i, j | 0 <= i < j < |r| && r[i].count == r[j].count
      ensures exists i', j' :: 0 <= i' < j' < |[x] + rest| && ([x] + rest)[i'] == r[i] && ([x] + rest)[j'] == r[j]
    {
      InsertStablePair(x, rest, s, i, j);
    }
  }

  lemma InsertAt<K>(x: Entry<K>, s: Table<K>, i: nat)
    requires i <= |s|
    ensures |Insert(x, s)| == |s| + 1
    ensures Insert(x, s)[i] == (if i < InsertPos(x, s) then s[i] else if i == InsertPos(x, s) then x else s[i - 1])
  {
  }

  lemma InsertStablePair<K>(x: Entry<K>, rest: Table<K>, s: Table<K>, i: nat, j: nat)
    requires multiset(s) == multiset(rest)
    requires StableWrt(s, rest)
    requires i < j < |Insert(x, s)| && Insert(x, s)[i].count == Insert(x, s)[j].count
    ensures exists i', j' :: 0 <= i' < j' < |[x] + rest| && ([x] + rest)[i'] == Insert(x, s)[i] && ([x] + rest)[j'] == Insert(x, s)[j]
  {
    var p := InsertPos(x, s);
    InsertAt(x, s, i);
    InsertAt(x, s, j);
    if i == p {
      InsertedFirst(x, rest, s, j - 1);
    } else if j != p {
      var a := if i < p then i else i - 1;
      var b := if j < p then j else j - 1;
      KeptOrder(x, rest, s, a, b);
    }
  }

  lemma InsertedFirst<K>(x: Entry<K>, rest: Table<K>, s: Table<K>, b: nat)
    requires multiset(s) == multiset(rest)
    requires b < |s|
    ensures exists i', j' :: 0 <= i' < j' < |[x] + rest| && ([x] + rest)[i'] == x && ([x] + rest)[j'] == s[b]
  {
    assert s[b] in multiset(rest) by { assert s[b] in multiset(s); }
    var j' :| 0 <= j' < |rest| && rest[j'] == s[b];
    assert ([x] + rest)[0] == x && ([x] + rest)[j' + 1] == s[b];
  }

  lemma KeptOrder<K>(x: Entry<K>, rest: Table<K>, s: Table<K>, a: nat, b: nat)
    requires StableWrt(s, rest)
    requires a < b < |s| && s[a].count == s[b].count
    ensures exists i', j' :: 0 <= i' < j' < |[x] + rest| && ([x] + rest)[i'] == s[a] && ([x] + rest)[j'] == s[b]
  {
    var i', j' :| 0 <= i' < j' < |rest| && rest[i'] == s[a] && rest[j'] == s[b];
    assert ([x] + rest)[i' + 1] == s[a] && ([x] + rest)[j' + 1] == s[b];
  }
}
