/** Keyed rows and usage counters: selecting, renaming and adding them up. */
module Tables {
  import opened Records

  /** The ids and contents of the rows about `t`, in table order. */
  function RowsFor<B>(rows: seq<Row<B>>, t: Target): seq<(nat, B)> {
    if rows == [] then []
    else (if rows[0].target == t then [(rows[0].id, rows[0].body)] else []) + RowsFor(rows[1..], t)
  }

  /** Every row about `a` made a row about `b`. */
  function Retargeted<B>(rows: seq<Row<B>>, a: Target, b: Target): (r: seq<Row<B>>) {
    if rows == [] then []
    else [if rows[0].target == a then rows[0].(target := b) else rows[0]] + Retargeted(rows[1..], a, b)
  }

  /** Renaming keeps every id and body in place and touches nothing but the rows about `a`. */
  lemma {:induction false} RetargetedAt<B>(rows: seq<Row<B>>, a: Target, b: Target)
    ensures |Retargeted(rows, a, b)| == |rows|
    ensures forall i :: 0 <= i < |rows| ==>
      var r := Retargeted(rows, a, b)[i];
      r.id == rows[i].id && r.body == rows[i].body && r.target == if rows[i].target == a then b else rows[i].target
  {
    if rows != [] {
      RetargetedAt(rows[1..], a, b);
    }
  }

  /** After renaming `a` to an unused `b`, the rows about `b` are those that were about `a`; nobody else's change. */
  lemma {:induction false} RowsForRetargeted<B>(rows: seq<Row<B>>, a: Target, b: Target, t: Target)
    requires a != b
    ensures t == a ==> RowsFor(Retargeted(rows, a, b), t) == []
    ensures t != a && t != b ==> RowsFor(Retargeted(rows, a, b), t) == RowsFor(rows, t)
    ensures t == b && RowsFor(rows, b) == [] ==> RowsFor(Retargeted(rows, a, b), t) == RowsFor(rows, a)
  {
    if rows != [] {
      RowsForRetargeted(rows[1..], a, b, t);
    }
  }

  lemma {:induction false} RowsForMembers<B>(rows: seq<Row<B>>, t: Target, x: (nat, B))
    ensures x in RowsFor(rows, t) <==> Row(x.0, t, x.1) in rows
  {
    if rows != [] {
      RowsForMembers(rows[1..], t, x);
      assert rows == [rows[0]] + rows[1..];
    }
  }

  lemma {:induction false} RowsForAppend<B>(rows: seq<Row<B>>, r: Row<B>, t: Target)
    ensures RowsFor(rows + [r], t) == RowsFor(rows, t) + if r.target == t then [(r.id, r.body)] else []
  {
    if rows == [] {
      assert rows + [r] == [r];
      assert RowsFor([r][1..], t) == [];
    } else {
      assert (rows + [r])[1..] == rows[1..] + [r] && (rows + [r])[0] == rows[0];
      RowsForAppend(rows[1..], r, t);
      var first := if rows[0].target == t then [(rows[0].id, rows[0].body)] else [];
      var last := if r.target == t then [(r.id, r.body)] else [];
      assert first + (RowsFor(rows[1..], t) + last) == (first + RowsFor(rows[1..], t)) + last;
    }
  }

  function Get<K>(m: map<K, int>, k: K): int {
    if k in m then m[k] else 0
  }

  /** Usage after every counter of `a` has been added to the same counter of `b` and deleted. */
  function MovedUsage<B(==)>(m: Usage<B>, a: Target, b: Target): Usage<B> {
    map k | k in UsageKeys(m, a, b) :: if k.0 == b then Get(m, k) + Get(m, (a, k.1)) else Get(m, k)
  }

  function UsageKeys<B(==)>(m: Usage<B>, a: Target, b: Target): set<(Target, B)> {
    (set k | k in m && k.0 != a) + (set k | k in m && k.0 == a :: (b, k.1))
  }

  function Buckets<B(==)>(m: Usage<B>, t: Target): set<B> {
    set k | k in m && k.0 == t :: k.1
  }

  /** The counters of one target. */
  function UsageOf<B(==)>(m: Usage<B>, t: Target): map<B, int> {
    map d | d in Buckets(m, t) :: Get(m, (t, d))
  }

  lemma UsageOfKey<B>(m: Usage<B>, t: Target, d: B)
    ensures d in UsageOf(m, t) <==> (t, d) in m
    ensures d in UsageOf(m, t) ==> UsageOf(m, t)[d] == m[(t, d)]
  {
  }

  lemma MovedUsageAt<B>(m: Usage<B>, a: Target, b: Target, t: Target, d: B)
    requires a != b
    ensures (t, d) in MovedUsage(m, a, b) <==> t != a && ((t, d) in m || (t == b && (a, d) in m))
    ensures Get(MovedUsage(m, a, b), (t, d)) ==
      if t == a then 0 else if t == b then Get(m, (b, d)) + Get(m, (a, d)) else Get(m, (t, d))
  {
  }

  lemma UsageOfMoved<B>(m: Usage<B>, a: Target, b: Target, t: Target)
    requires a != b
    ensures t == a ==> UsageOf(MovedUsage(m, a, b), t) == map[]
    ensures t != a && t != b ==> UsageOf(MovedUsage(m, a, b), t) == UsageOf(m, t)
    ensures t == b && UsageOf(m, b) == map[] ==> UsageOf(MovedUsage(m, a, b), t) == UsageOf(m, a)
  {
    var n := MovedUsage(m, a, b);
    var from := if t == b then a else t;
    var u, v := UsageOf(n, t), UsageOf(m, from);
    if t != b || UsageOf(m, b) == map[] {
      forall d
        ensures d in u <==> t != a && d in v
        ensures d in u ==> u[d] == v[d]
      {
        UsageOfMovedAt(m, a, b, t, d);
      }
    }
  }

  lemma UsageOfMovedAt<B>(m: Usage<B>, a: Target, b: Target, t: Target, d: B)
    requires a != b
    requires t == b ==> UsageOf(m, b) == map[]
    ensures
      var u, v := UsageOf(MovedUsage(m, a, b), t), UsageOf(m, if t == b then a else t);
      (d in u <==> t != a && d in v) && (d in u ==> u[d] == v[d])
  {
    MovedUsageAt(m, a, b, t, d);
    UsageOfKey(MovedUsage(m, a, b), t, d);
    UsageOfKey(m, if t == b then a else t, d);
    if t == b {
      UsageOfKey(m, b, d);
    }
  }

  /** The sum of all values of a map. */
  ghost function Total<K(!new)>(m: map<K, int>): int
    decreases |m|
  {
    if m == map[] then 0
    else
      var k :| k in m;
      m[k] + Total(m - {k})
  }

  lemma {:induction false} TotalRemove<K(!new)>(m: map<K, int>, k: K)
    requires k in m
    ensures Total(m) == m[k] + Total(m - {k})
    decreases |m|
  {
    var p :| p in m && Total(m) == m[p] + Total(m - {p});
    if p != k {
      TotalRemove(m - {p}, k);
      TotalRemove(m - {k}, p);
      assert m - {p} - {k} == m - {k} - {p};
    }
  }

  lemma {:induction false} TotalUpdate<K(!new)>(m: map<K, int>, k: K, v: int)
    ensures Total(m[k := v]) == Total(m) - Get(m, k) + v
  {
    TotalRemove(m[k := v], k);
    assert m[k := v] - {k} == m - {k};
    if k in m {
      TotalRemove(m, k);
    } else {
      assert m - {k} == m;
    }
  }

  function Addresses<B(==)>(m: Usage<B>, d: B): set<string> {
    set k | k in m && k.0.DeviceTarget? && k.1 == d :: k.0.ip
  }

  /** Every device's minutes in one bucket (a day, or a day and an app). */
  function BucketMinutes<B(==)>(m: Usage<B>, d: B): map<string, int> {
    map ip | ip in Addresses(m, d) :: Get(m, (DeviceTarget(ip), d))
  }

  /** Within one bucket, moving usage is a removal at `a` and an addition at `b`. */
  lemma MovedBucket<B>(m: Usage<B>, a: string, b: string, d: B)
    requires a != b
    ensures
      var before := BucketMinutes(m, d);
      BucketMinutes(MovedUsage(m, DeviceTarget(a), DeviceTarget(b)), d) ==
        if a in before then (before - {a})[b := Get(before, b) + before[a]] else before
  {
    hide BucketMinutes, MovedUsage;
    var before, after := BucketMinutes(m, d), BucketMinutes(MovedUsage(m, DeviceTarget(a), DeviceTarget(b)), d);
    var expected := if a in before then (before - {a})[b := Get(before, b) + before[a]] else before;
    forall ip
      ensures ip in after <==> ip in expected
      ensures ip in after ==> after[ip] == expected[ip]
    {
      MovedBucketAt(m, a, b, d, ip);
    }
  }

  lemma MovedBucketAt<B>(m: Usage<B>, a: string, b: string, d: B, ip: string)
    requires a != b
    ensures
      var before, after := BucketMinutes(m, d), BucketMinutes(MovedUsage(m, DeviceTarget(a), DeviceTarget(b)), d);
      (ip in after <==> ip != a && (ip in before || (ip == b && a in before))) &&
      (ip in after ==> after[ip] == if ip == b then Get(before, b) + Get(before, a) else Get(before, ip))
  {
  }

  lemma TotalMoved<K(!new)>(before: map<K, int>, after: map<K, int>, a: K, b: K)
    requires a != b
    requires after == if a in before then (before - {a})[b := Get(before, b) + before[a]] else before
    ensures Total(after) == Total(before)
  {
    if a in before {
      TotalRemove(before, a);
      TotalUpdate(before - {a}, b, Get(before, b) + before[a]);
    }
  }

  /** Moving usage between two addresses changes no bucket's device total. */
  lemma MovedUsageConserves<B>(m: Usage<B>, a: string, b: string, d: B)
    requires a != b
    ensures Total(BucketMinutes(MovedUsage(m, DeviceTarget(a), DeviceTarget(b)), d)) == Total(BucketMinutes(m, d))
  {
    MovedBucket(m, a, b, d);
    TotalMoved(BucketMinutes(m, d), BucketMinutes(MovedUsage(m, DeviceTarget(a), DeviceTarget(b)), d), a, b);
  }
}
