/** Federation sizes, thresholds and the counting facts that quorums rest on. */
module Federation {

  type PeerId = nat

  /** How many faulty guardians a federation of this size tolerates: fewer than a third. */
  function MaxEvil(total: nat): (f: nat)
    requires 0 < total
    ensures 3 * f < total <= 3 * f + 3
  {
    (total - 1) / 3
  }

  /** One more than can be faulty, so an honest one is among them. */
  function OneHonest(total: nat): nat
    requires 0 < total
  {
    MaxEvil(total) + 1
  }

  /** A quorum: everyone but the tolerated faulty ones. */
  function Threshold(total: nat): (t: nat)
    requires 0 < total
    ensures t + MaxEvil(total) == total
    ensures 2 * t > total + MaxEvil(total)
    ensures t > 2 * MaxEvil(total)
  {
    total - MaxEvil(total)
  }

  /** The peers whose answer is `v`. */
  function Holders<R(==)>(responses: map<PeerId, R>, v: R): set<PeerId> {
    set p | p in responses && responses[p] == v
  }

  lemma SubsetSize<T>(a: set<T>, b: set<T>)
    requires a <= b
    ensures |a| <= |b|
    ensures |a| == |b| ==> a == b
  {
    assert b == a + (b - a);
    if |a| == |b| {
      assert |b - a| == 0;
    }
  }

  lemma DisjointSize<T>(a: set<T>, b: set<T>, whole: set<T>)
    requires a !! b && a + b <= whole
    ensures |a| + |b| <= |whole|
  {
    assert |a + b| == |a| + |b|;
    SubsetSize(a + b, whole);
  }

  /** Storing one answer changes a value's support by at most one, and only upwards for that answer. */
  lemma HoldersAfterInsert<R>(responses: map<PeerId, R>, p: PeerId, r: R, v: R)
    ensures Holders(responses[p := r], v)
         == if r == v then Holders(responses, v) + {p} else Holders(responses, v) - {p}
    ensures r != v ==> |Holders(responses[p := r], v)| <= |Holders(responses, v)|
    ensures r == v ==> |Holders(responses[p := r], v)| <= |Holders(responses, v)| + 1
  {
    assert Holders(responses[p := r], v)
        == if r == v then Holders(responses, v) + {p} else Holders(responses, v) - {p};
    if r != v {
      SubsetSize(Holders(responses, v) - {p}, Holders(responses, v));
    }
  }

  /** Two different values cannot both be held by a threshold of peers. */
  lemma ThresholdValueUnique<R>(peers: set<PeerId>, responses: map<PeerId, R>, v: R, w: R)
    requires peers != {} && responses.Keys <= peers
    requires |Holders(responses, v)| >= Threshold(|peers|)
    requires |Holders(responses, w)| >= Threshold(|peers|)
    ensures v == w
  {
    if v != w {
      DisjointSize(Holders(responses, v), Holders(responses, w), peers);
    }
  }
}
