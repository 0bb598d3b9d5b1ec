/**
 * The .NET collection operations the pricing core relies on: a SortedDictionary<double, double>
 * seen as its enumeration (entries in ascending key order), and List.Min, List.Max and
 * List.FindIndex over key and value lists.
 */
module Collections {

  datatype Entry = Entry(key: real, value: real)

  predicate StrictlyIncreasing(xs: seq<real>)
  {
    forall i, j :: 0 <= i < j < |xs| ==> xs[i] < xs[j]
  }

  predicate Sorted(d: seq<Entry>)
  {
    forall i, j :: 0 <= i < j < |d| ==> d[i].key < d[j].key
  }

  /** A SortedDictionary: its entries in ascending, hence distinct, key order. */
  type SortedDict = d: seq<Entry> | Sorted(d) witness []

  /** `dict.Keys.ToList()`: ascending whenever the entries are in key order. */
  function Keys(d: seq<Entry>): (ks: seq<real>)
    ensures |ks| == |d|
    ensures Sorted(d) ==> StrictlyIncreasing(ks)
  {
    seq(|d|, i requires 0 <= i < |d| => d[i].key)
  }

  /** `dict.Values.ToList()`. */
  function Values(d: seq<Entry>): seq<real>
  {
    seq(|d|, i requires 0 <= i < |d| => d[i].value)
  }

  /** `List.Min()` (which throws on an empty list). */
  function Min(xs: seq<real>): real
    requires |xs| > 0
  {
    if |xs| == 1 then xs[0]
    else
      var rest := Min(xs[1..]);
      if xs[0] <= rest then xs[0] else rest
  }

  /** `List.Max()` (which throws on an empty list). */
  function Max(xs: seq<real>): real
    requires |xs| > 0
  {
    if |xs| == 1 then xs[0]
    else
      var rest := Max(xs[1..]);
      if xs[0] >= rest then xs[0] else rest
  }

  /** The minimum is an element of the list and no element is smaller. */
  lemma {:induction false} MinIsLeast(xs: seq<real>)
    requires |xs| > 0
    ensures Min(xs) in xs
    ensures forall x :: x in xs ==> Min(xs) <= x
  {
    if |xs| > 1 {
      MinIsLeast(xs[1..]);
      assert forall x :: x in xs ==> x == xs[0] || x in xs[1..];
    }
  }

  /** The maximum is an element of the list and no element is larger. */
  lemma {:induction false} MaxIsGreatest(xs: seq<real>)
    requires |xs| > 0
    ensures Max(xs) in xs
    ensures forall x :: x in xs ==> x <= Max(xs)
  {
    if |xs| > 1 {
      MaxIsGreatest(xs[1..]);
      assert forall x :: x in xs ==> x == xs[0] || x in xs[1..];
    }
  }

  /** On an ascending list the minimum is the first element and the maximum the last. */
  lemma {:induction false} MinMaxOfIncreasing(xs: seq<real>)
    requires |xs| > 0 && StrictlyIncreasing(xs)
    ensures Min(xs) == xs[0] && Max(xs) == xs[|xs| - 1]
  {
    if |xs| > 1 {
      MinMaxOfIncreasing(xs[1..]);
      assert xs[0] < xs[1] && xs[0] < xs[|xs| - 1];
    }
  }

  /**
   * `xs.FindIndex(e => x < e)`: the first index whose element exceeds `x`, or -1 when there is none.
   */
  function FindIndex(xs: seq<real>, x: real): (i: int)
    ensures -1 <= i < |xs|
    ensures i >= 0 ==> x < xs[i] && forall j :: 0 <= j < i ==> !(x < xs[j])
    ensures i == -1 ==> forall j :: 0 <= j < |xs| ==> !(x < xs[j])
  {
    FindIndexFrom(xs, x, 0)
  }

  function FindIndexFrom(xs: seq<real>, x: real, start: nat): (i: int)
    requires start <= |xs|
    ensures i == -1 || start <= i < |xs|
    ensures i >= 0 ==> x < xs[i] && forall j :: start <= j < i ==> !(x < xs[j])
    ensures i == -1 ==> forall j :: start <= j < |xs| ==> !(x < xs[j])
    decreases |xs| - start
  {
    if start == |xs| then -1
    else if x < xs[start] then start
    else FindIndexFrom(xs, x, start + 1)
  }

  /**
   * Strictly inside the range of an ascending list, the search brackets `x`:
   * it finds an index `i >= 1` with `xs[i-1] <= x < xs[i]`.
   */
  lemma FindIndexBrackets(xs: seq<real>, x: real)
    requires |xs| > 0 && StrictlyIncreasing(xs)
    requires xs[0] < x < xs[|xs| - 1]
    ensures var i := FindIndex(xs, x); 1 <= i < |xs| && xs[i - 1] <= x < xs[i]
  {
    var i := FindIndex(xs, x);
    assert x < xs[|xs| - 1];
    assert i != -1;
    assert i != 0;
    assert !(x < xs[i - 1]);
  }

  /** At an inner node `xs[k]` the search stops at the next node, so the bracket starts at `xs[k]`. */
  lemma FindIndexAtNode(xs: seq<real>, k: nat)
    requires StrictlyIncreasing(xs)
    requires 0 < k < |xs| - 1
    ensures FindIndex(xs, xs[k]) == k + 1
  {
    var i := FindIndex(xs, xs[k]);
    assert xs[k] < xs[k + 1];
  }

  /**
   * `dict.Add(key, value)` on a key the dictionary does not hold (Add throws on a duplicate key):
   * the entry is placed at its position in key order and nothing else changes.
   */
  function Add(d: SortedDict, key: real, value: real): (r: SortedDict)
    requires key !in Keys(d)
    ensures multiset(r) == multiset(d) + multiset{Entry(key, value)}
  {
    InsertSorted(d, key, value);
    var i := InsertionPoint(d, key);
    d[..i] + [Entry(key, value)] + d[i..]
  }

  /**
   * Splicing the new entry in at the insertion point keeps the keys in order and adds exactly
   * that entry.
   */
  lemma InsertSorted(d: SortedDict, key: real, value: real)
    requires key !in Keys(d)
    ensures var i := InsertionPoint(d, key);
      && Sorted(d[..i] + [Entry(key, value)] + d[i..])
      && multiset(d[..i] + [Entry(key, value)] + d[i..]) == multiset(d) + multiset{Entry(key, value)}
  {
    var i := InsertionPoint(d, key);
    forall j | 0 <= j < i ensures d[j].key < key {
      assert !(key < Keys(d)[j]);
      assert Keys(d)[j] != key;
    }
    forall j | i <= j < |d| ensures key < d[j].key {
      assert key < Keys(d)[i];
      assert i == j || d[i].key < d[j].key;
    }
    SortedSplice(d, i, Entry(key, value));
    assert d == d[..i] + d[i..];
  }

  /** Placing an entry between the smaller and the larger keys keeps the order. */
  lemma SortedSplice(d: SortedDict, i: nat, e: Entry)
    requires i <= |d|
    requires forall j :: 0 <= j < i ==> d[j].key < e.key
    requires forall j :: i <= j < |d| ==> e.key < d[j].key
    ensures Sorted(d[..i] + [e] + d[i..])
  {
    var r := d[..i] + [e] + d[i..];
    assert forall j :: 0 <= j < i ==> r[j] == d[j];
    assert r[i] == e;
    assert forall j :: i < j < |r| ==> r[j] == d[j - 1];
  }

  /** Where Add places a new key: before the first larger key, or at the end. */
  function InsertionPoint(d: SortedDict, key: real): (i: nat)
    ensures i <= |d|
  {
    var i := FindIndex(Keys(d), key);
    if i == -1 then |d| else i
  }

  /** A key above every key of the dictionary is appended. */
  lemma AddAbove(d: SortedDict, key: real, value: real)
    requires forall e :: e in d ==> e.key < key
    ensures key !in Keys(d)
    ensures Add(d, key, value) == d + [Entry(key, value)]
  {
    assert forall j :: 0 <= j < |d| ==> Keys(d)[j] < key by {
      forall j | 0 <= j < |d| ensures Keys(d)[j] < key { assert d[j] in d; }
    }
    assert FindIndex(Keys(d), key) == -1;
    assert d[..|d|] == d;
  }

  /** A key below every key of the dictionary is prepended. */
  lemma AddBelow(d: SortedDict, key: real, value: real)
    requires forall e :: e in d ==> key < e.key
    ensures key !in Keys(d)
    ensures Add(d, key, value) == [Entry(key, value)] + d
  {
    assert forall j :: 0 <= j < |d| ==> key < Keys(d)[j] by {
      forall j | 0 <= j < |d| ensures key < Keys(d)[j] { assert d[j] in d; }
    }
    if |d| > 0 {
      assert FindIndex(Keys(d), key) == 0;
    }
    assert d[0..] == d;
  }

  /** The position of a key the dictionary holds (the lookup behind `dict[key]`). */
  function IndexOfKey(d: SortedDict, key: real): (i: nat)
    requires key in Keys(d)
    ensures i < |d| && d[i].key == key
  {
    IndexOfKeyFrom(d, key, 0)
  }

  function IndexOfKeyFrom(d: SortedDict, key: real, start: nat): (i: nat)
    requires start <= |d|
    requires key in Keys(d)[start..]
    ensures start <= i < |d| && d[i].key == key
    decreases |d| - start
  {
    if d[start].key == key then start
    else
      assert Keys(d)[start..] == [Keys(d)[start]] + Keys(d)[start + 1..];
      IndexOfKeyFrom(d, key, start + 1)
  }

  /**
   * `dict[key] += delta` on a key the dictionary holds: exactly the entry at `key` changes,
   * by `delta`; every key and every other value stays as it was.
   */
  function Adjust(d: SortedDict, key: real, delta: real): (r: SortedDict)
    requires key in Keys(d)
    ensures Keys(r) == Keys(d)
    ensures forall j :: 0 <= j < |d| ==>
      r[j].value == if d[j].key == key then d[j].value + delta else d[j].value
  {
    var i := IndexOfKey(d, key);
    var r := d[i := Entry(key, d[i].value + delta)];
    assert Sorted(r) by {
      forall p, q | 0 <= p < q < |r| ensures r[p].key < r[q].key {
        assert r[p].key == d[p].key && r[q].key == d[q].key;
      }
    }
    assert forall j :: 0 <= j < |d| && j != i ==> d[j].key != key by {
      forall j | 0 <= j < |d| && j != i ensures d[j].key != key {
        assert j < i ==> d[j].key < d[i].key;
        assert j > i ==> d[i].key < d[j].key;
      }
    }
    r
  }
}
