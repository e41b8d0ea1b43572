/** Walking a finite map in key order, as the source's tree maps are. */
module OrderedMaps {

  datatype Entry<V> = Entry(key: nat, value: V)

  lemma {:induction false} LeastWitness(s: set<nat>) returns (m: nat)
    requires s != {}
    ensures m in s && forall y <- s :: m <= y
    decreases |s|
  {
    var x :| x in s;
    var rest := s - {x};
    if rest == {} {
      m := x;
      assert s == {x};
    } else {
      var m' := LeastWitness(rest);
      m := if m' < x then m' else x;
      forall y <- s ensures m <= y {
        assert y == x || y in rest;
      }
    }
  }

  lemma LeastExists(s: set<nat>)
    requires s != {}
    ensures exists x :: x in s && forall y <- s :: x <= y
  {
    var m := LeastWitness(s);
  }

  function Least(s: set<nat>): (m: nat)
    requires s != {}
    ensures m in s && forall y <- s :: m <= y
  {
    LeastExists(s);
    var x :| x in s && forall y <- s :: x <= y;
    x
  }

  predicate Increasing<V>(list: seq<Entry<V>>) {
    forall i, j | 0 <= i < j < |list| :: list[i].key < list[j].key
  }

  /** The entries of a map in key order. */
  function Entries<V>(m: map<nat, V>): (list: seq<Entry<V>>)
    ensures |list| == |m|
    decreases |m|
  {
    if m == map[] then []
    else
      var k := Least(m.Keys);
      assert (m - {k}).Keys == m.Keys - {k};
      [Entry(k, m[k])] + Entries(m - {k})
  }

  function ToMap<V>(list: seq<Entry<V>>): map<nat, V> {
    if list == [] then map[] else ToMap(list[1..])[list[0].key := list[0].value]
  }

  lemma {:induction false} ToMapKeys<V>(list: seq<Entry<V>>)
    ensures forall k :: k in ToMap(list) <==> exists i | 0 <= i < |list| :: list[i].key == k
  {
    if list != [] {
      var tail := list[1..];
      ToMapKeys(tail);
      forall k ensures k in ToMap(list) <==> exists i | 0 <= i < |list| :: list[i].key == k {
        if k in ToMap(tail) {
          var i :| 0 <= i < |tail| && tail[i].key == k;
          assert list[i + 1].key == k;
        }
        if i :| 0 <= i < |list| && list[i].key == k {
          if i > 0 {
            assert tail[i - 1].key == k;
          }
        }
      }
    }
  }

  lemma PutBack<V>(m: map<nat, V>, k: nat)
    requires k in m
    ensures (m - {k})[k := m[k]] == m && (m - {k}).Keys == m.Keys - {k}
    ensures |m - {k}| < |m|
  {
    assert (m - {k}).Keys == m.Keys - {k};
  }

  lemma ConsIncreasing<V>(e: Entry<V>, tail: seq<Entry<V>>)
    requires Increasing(tail) && forall i | 0 <= i < |tail| :: e.key < tail[i].key
    ensures Increasing([e] + tail)
  {
  }

  lemma EntriesCons<V>(m: map<nat, V>)
    requires m != map[]
    ensures var k := Least(m.Keys);
      Entries(m) == [Entry(k, m[k])] + Entries(m - {k}) && Entries(m)[1..] == Entries(m - {k})
  {
  }

  /** Every entry comes from the map. */
  lemma {:induction false} EntriesIn<V>(m: map<nat, V>)
    ensures forall e <- Entries(m) :: e.key in m && m[e.key] == e.value
    decreases |m|
  {
    if m != map[] {
      var k := Least(m.Keys);
      PutBack(m, k);
      EntriesCons(m);
      EntriesIn(m - {k});
    }
  }

  lemma {:induction false} EntriesIncrease<V>(m: map<nat, V>)
    ensures Increasing(Entries(m))
    decreases |m|
  {
    if m != map[] {
      var k := Least(m.Keys);
      PutBack(m, k);
      EntriesCons(m);
      EntriesIncrease(m - {k});
      EntriesIn(m - {k});
      var tail := Entries(m - {k});
      forall i | 0 <= i < |tail| ensures k < tail[i].key {
        assert tail[i] in tail;
      }
      ConsIncreasing(Entry(k, m[k]), tail);
    }
  }

  /** The entries make up the map. */
  lemma {:induction false} EntriesExact<V>(m: map<nat, V>)
    ensures ToMap(Entries(m)) == m
    decreases |m|
  {
    if m != map[] {
      var k := Least(m.Keys);
      PutBack(m, k);
      EntriesCons(m);
      EntriesExact(m - {k});
    }
  }

  lemma FirstIsLeast<V>(list: seq<Entry<V>>)
    requires Increasing(list) && list != []
    ensures list[0].key in ToMap(list) && Least(ToMap(list).Keys) == list[0].key
  {
    ToMapKeys(list);
    var low := Least(ToMap(list).Keys);
    assert low in ToMap(list);
    var i :| 0 <= i < |list| && list[i].key == low;
    assert forall j | 0 < j < |list| :: list[0].key < list[j].key;
  }

  lemma DropFirst<V>(list: seq<Entry<V>>)
    requires Increasing(list) && list != []
    ensures ToMap(list) - {list[0].key} == ToMap(list[1..])
  {
    var tail := list[1..];
    ToMapKeys(tail);
    assert list[0].key !in ToMap(tail);
  }

  /** An increasing list is how its map is walked. */
  lemma {:induction false} EntriesUnique<V>(list: seq<Entry<V>>)
    requires Increasing(list)
    ensures Entries(ToMap(list)) == list
  {
    if list != [] {
      EntriesUnique(list[1..]);
      FirstIsLeast(list);
      DropFirst(list);
      assert list == [list[0]] + list[1..];
    }
  }
}
