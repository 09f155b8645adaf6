/** The `reduce((acc, item, index) => ({ ...acc, [prefix + (index + offset)]: item }), {})`
    idiom of the dashboard page, which turns an array into a record keyed
    d0..d12 (query variables) or m1..m12 (monthly cells). */
module KeyedRecord {
  import opened DecimalText

  /** `prefix + i`, JavaScript's string concatenation with a number. */
  function Key(prefix: string, i: nat): string {
    prefix + NatText(i)
  }

  /** Distinct indices give distinct keys. */
  lemma KeyInjective(prefix: string, i: nat, j: nat)
    requires Key(prefix, i) == Key(prefix, j)
    ensures i == j
  {
    assert NatText(i) == Key(prefix, i)[|prefix|..];
    assert NatText(j) == Key(prefix, j)[|prefix|..];
    NatTextInjective(i, j);
  }

  ghost predicate Injective(key: nat -> string) {
    forall i: nat, j: nat :: key(i) == key(j) ==> i == j
  }

  /** The key naming of one prefix, as a function of the index. */
  function Naming(prefix: string): (key: nat -> string)
    ensures Injective(key)
  {
    var key := (i: nat) => Key(prefix, i);
    forall i: nat, j: nat | key(i) == key(j) ensures i == j {
      KeyInjective(prefix, i, j);
    }
    key
  }

  /** The keys key(lo) .. key(hi - 1). */
  function KeySet(key: nat -> string, lo: nat, hi: nat): set<string> {
    set i: nat | lo <= i < hi :: key(i)
  }

  /** The record the reduce builds, one item at a time. */
  function Keyed<T>(key: nat -> string, offset: nat, items: seq<T>): map<string, T> {
    if |items| == 0 then map[]
    else Keyed(key, offset, items[..|items| - 1])[key(offset + |items| - 1) := items[|items| - 1]]
  }

  /** With an injective naming, the record has exactly one key per item,
      key(offset) onwards, and each key is bound to its own item: no item
      overwrites another. */
  lemma {:induction false} KeyedSpec<T>(key: nat -> string, offset: nat, items: seq<T>)
    requires Injective(key)
    ensures Keyed(key, offset, items).Keys == KeySet(key, offset, offset + |items|)
    ensures |Keyed(key, offset, items)| == |items|
    ensures forall i :: 0 <= i < |items| ==> Keyed(key, offset, items)[key(offset + i)] == items[i]
  {
    KeyedKeys(key, offset, items);
    KeyedValues(key, offset, items);
    forall i | 0 <= i < |items|
      ensures Keyed(key, offset, items)[key(offset + i)] == items[i]
    {
      assert offset <= offset + i < offset + |items|;
    }
  }

  lemma {:induction false} KeyedKeys<T>(key: nat -> string, offset: nat, items: seq<T>)
    requires Injective(key)
    ensures Keyed(key, offset, items).Keys == KeySet(key, offset, offset + |items|)
    ensures |Keyed(key, offset, items)| == |items|
  {
    if |items| > 0 {
      var n := |items| - 1;
      KeyedKeys(key, offset, items[..n]);
      KeySetExtend(key, offset, offset + n);
    }
  }

  lemma {:induction false} KeyedValues<T>(key: nat -> string, offset: nat, items: seq<T>)
    requires Injective(key)
    ensures forall j: nat :: offset <= j < offset + |items| ==>
      key(j) in Keyed(key, offset, items) && Keyed(key, offset, items)[key(j)] == items[j - offset]
  {
    if |items| > 0 {
      var n := |items| - 1;
      var front := items[..n];
      KeyedValues(key, offset, front);
      var m := Keyed(key, offset, front);
      var k := key(offset + n);
      assert Keyed(key, offset, items) == m[k := items[n]];
      forall j: nat | offset <= j < offset + n
        ensures key(j) in m[k := items[n]] && m[k := items[n]][key(j)] == items[j - offset]
      {
        assert key(j) != k;
        assert front[j - offset] == items[j - offset];
      }
    }
  }

  /** One more index adds its key, which an injective naming has not used. */
  lemma KeySetExtend(key: nat -> string, lo: nat, hi: nat)
    requires Injective(key) && lo <= hi
    ensures KeySet(key, lo, hi + 1) == KeySet(key, lo, hi) + {key(hi)}
    ensures key(hi) !in KeySet(key, lo, hi)
  {
    assert KeySet(key, lo, hi + 1) == KeySet(key, lo, hi) + {key(hi)};
  }
}
