/** The Python containers the pipeline builds: an insertion-ordered dict whose
    entries are (key, value) pairs with distinct keys, grown by `d[k] = v` and by
    `d.setdefault(k, []).append(x)`, and the order-preserving list filter. */
module Collections {

  datatype Option<T> = None | Some(value: T)

  /** A Python dict in insertion order. */
  type Entries<V> = seq<(string, V)>

  function KeysOf<V>(e: Entries<V>): (ks: seq<string>)
    ensures |ks| == |e|
  {
    seq(|e|, i requires 0 <= i < |e| => e[i].0)
  }

  predicate DistinctKeys<V>(e: Entries<V>) {
    forall i, j :: 0 <= i < j < |e| ==> e[i].0 != e[j].0
  }

  /** Position of key k in e, or |e| when k is not a key. */
  function Find<V>(e: Entries<V>, k: string): (p: nat)
    ensures p <= |e|
    ensures p < |e| ==> e[p].0 == k
    ensures forall i :: 0 <= i < p ==> e[i].0 != k
  {
    if e == [] then 0 else if e[0].0 == k then 0 else 1 + Find(e[1..], k)
  }

  /** d[k] = v: replaces the value of an existing key in place, otherwise appends. */
  function Put<V>(e: Entries<V>, k: string, v: V): (r: Entries<V>)
    requires DistinctKeys(e)
    ensures DistinctKeys(r)
    ensures k !in KeysOf(e) ==> r == e + [(k, v)]
    ensures k in KeysOf(e) ==> |r| == |e| && KeysOf(r) == KeysOf(e)
    ensures forall i :: 0 <= i < |r| ==> r[i] == if r[i].0 == k then (k, v) else e[i]
  {
    var p := Find(e, k);
    FindAbsent(e, k);
    if p < |e| then
      assert forall i :: 0 <= i < |e| && i != p ==> e[i].0 != k;
      e[p := (k, v)]
    else
      e + [(k, v)]
  }

  lemma FindAbsent<V>(e: Entries<V>, k: string)
    ensures Find(e, k) == |e| <==> k !in KeysOf(e)
  {
    if Find(e, k) < |e| {
      assert KeysOf(e)[Find(e, k)] == k;
    } else {
      assert forall i :: 0 <= i < |e| ==> KeysOf(e)[i] != k;
    }
  }

  /** d.setdefault(k, []).append(x) */
  function SetDefaultAppend<T>(e: Entries<seq<T>>, k: string, x: T): (r: Entries<seq<T>>) {
    var p := Find(e, k);
    if p < |e| then e[p := (k, e[p].1 + [x])] else e + [(k, [x])]
  }

  /** The keys of a pair list, each kept at its first occurrence. */
  function FirstOccurrences(ks: seq<string>): (r: seq<string>)
  {
    if ks == [] then []
    else
      var r := FirstOccurrences(ks[..|ks| - 1]);
      if ks[|ks| - 1] in r then r else r + [ks[|ks| - 1]]
  }

  /** The values paired with k, in order. */
  function ValuesFor<T>(ps: seq<(string, T)>, k: string): seq<T> {
    if ps == [] then []
    else ValuesFor(ps[..|ps| - 1], k) + (if ps[|ps| - 1].0 == k then [ps[|ps| - 1].1] else [])
  }

  /** Feeds every pair to SetDefaultAppend, starting from an empty dict. */
  function GroupPairs<T>(ps: seq<(string, T)>): (g: Entries<seq<T>>) {
    if ps == [] then []
    else SetDefaultAppend(GroupPairs(ps[..|ps| - 1]), ps[|ps| - 1].0, ps[|ps| - 1].1)
  }

  /** Grouping one more pair is one more setdefault-append. */
  lemma GroupPairsSnoc<T>(ps: seq<(string, T)>, k: string, x: T)
    ensures GroupPairs(ps + [(k, x)]) == SetDefaultAppend(GroupPairs(ps), k, x)
  {
    assert (ps + [(k, x)])[..|ps|] == ps;
  }

  /** The groups have distinct keys, in the order in which the keys first occur. */
  lemma {:induction false} GroupPairsKeys<T>(ps: seq<(string, T)>)
    ensures DistinctKeys(GroupPairs(ps))
    ensures KeysOf(GroupPairs(ps)) == FirstOccurrences(KeysOf(ps))
  {
    if ps != [] {
      var init := ps[..|ps| - 1];
      GroupPairsKeys(init);
      assert KeysOf(ps)[..|ps| - 1] == KeysOf(init);
      SetDefaultAppendKeys(GroupPairs(init), ps[|ps| - 1].0, ps[|ps| - 1].1);
    }
  }

  /** The group under each key holds exactly the values paired with that key, in order. */
  lemma {:induction false} GroupPairsValues<T>(ps: seq<(string, T)>)
    ensures forall j :: 0 <= j < |GroupPairs(ps)| ==> GroupPairs(ps)[j].1 == ValuesFor(ps, GroupPairs(ps)[j].0)
  {
    if ps != [] {
      var init := ps[..|ps| - 1];
      var (k, x) := ps[|ps| - 1];
      var g0 := GroupPairs(init);
      var g := GroupPairs(ps);
      GroupPairsValues(init);
      GroupPairsKeys(init);
      SetDefaultAppendKeys(g0, k, x);
      forall j | 0 <= j < |g| ensures g[j].1 == ValuesFor(ps, g[j].0) {
        assert ValuesFor(ps, g[j].0) == ValuesFor(init, g[j].0) + (if k == g[j].0 then [x] else []);
        if j >= |g0| {
          ValuesForAbsent(init, k);
        }
      }
    }
  }

  lemma SetDefaultAppendKeys<T>(e: Entries<seq<T>>, k: string, x: T)
    requires DistinctKeys(e)
    ensures var r := SetDefaultAppend(e, k, x);
      && DistinctKeys(r)
      && KeysOf(r) == (if k in KeysOf(e) then KeysOf(e) else KeysOf(e) + [k])
      && |r| >= |e|
      && (forall j :: 0 <= j < |e| ==> r[j] == (if e[j].0 == k then (k, e[j].1 + [x]) else e[j]))
      && (|r| > |e| ==> r[|e|] == (k, [x]) && k !in KeysOf(e))
  {
    FindAbsent(e, k);
  }

  /** A key that never occurs has no values. */
  lemma {:induction false} ValuesForAbsent<T>(ps: seq<(string, T)>, k: string)
    requires k !in FirstOccurrences(KeysOf(ps))
    ensures ValuesFor(ps, k) == []
  {
    if ps != [] {
      var init := ps[..|ps| - 1];
      assert KeysOf(ps)[..|ps| - 1] == KeysOf(init);
      FirstOccurrencesGrow(KeysOf(ps));
      ValuesForAbsent(init, k);
    }
  }

  lemma FirstOccurrencesGrow(ks: seq<string>)
    requires ks != []
    ensures FirstOccurrences(ks[..|ks| - 1]) <= FirstOccurrences(ks)
    ensures ks[|ks| - 1] in FirstOccurrences(ks)
  {
  }

  /** A key heads a group exactly when some pair carries it. */
  lemma {:induction false} FirstOccurrencesMembers(ks: seq<string>, k: string)
    ensures k in FirstOccurrences(ks) <==> k in ks
  {
    if ks != [] {
      var init := ks[..|ks| - 1];
      FirstOccurrencesMembers(init, k);
      assert ks == init + [ks[|ks| - 1]];
    }
  }

  /** Every group holds at least one value. */
  lemma {:induction false} GroupsNonEmpty<T>(ps: seq<(string, T)>, j: int)
    requires 0 <= j < |GroupPairs(ps)|
    ensures GroupPairs(ps)[j].1 != []
  {
    var g := GroupPairs(ps);
    var k := g[j].0;
    GroupPairsKeys(ps);
    GroupPairsValues(ps);
    assert KeysOf(g)[j] == k;
    FirstOccurrencesMembers(KeysOf(ps), k);
    var i :| 0 <= i < |ps| && KeysOf(ps)[i] == k;
    ValuesForHit(ps, i);
  }

  lemma {:induction false} ValuesForHit<T>(ps: seq<(string, T)>, i: int)
    requires 0 <= i < |ps|
    ensures ps[i].1 in ValuesFor(ps, ps[i].0)
  {
    if i < |ps| - 1 {
      ValuesForHit(ps[..|ps| - 1], i);
    }
  }

  /** A value is listed under k exactly when it was paired with k. */
  lemma {:induction false} ValuesForMembers<T>(ps: seq<(string, T)>, k: string, x: T)
    ensures x in ValuesFor(ps, k) <==> (k, x) in ps
  {
    if ps != [] {
      var init := ps[..|ps| - 1];
      ValuesForMembers(init, k, x);
      assert ps == init + [ps[|ps| - 1]];
    }
  }

  /** The (key, projection) pairs of the elements that have a key, in order. */
  function KeyedBy<R, T>(rows: seq<R>, key: R -> Option<string>, project: R -> T): (ps: seq<(string, T)>)
    ensures |ps| <= |rows|
  {
    if rows == [] then []
    else
      var last := rows[|rows| - 1];
      KeyedBy(rows[..|rows| - 1], key, project) +
        match key(last)
        case None => []
        case Some(k) => [(k, project(last))]
  }

  lemma KeyedBySnoc<R, T>(rows: seq<R>, key: R -> Option<string>, project: R -> T, x: R)
    ensures key(x).None? ==> KeyedBy(rows + [x], key, project) == KeyedBy(rows, key, project)
    ensures key(x).Some? ==> KeyedBy(rows + [x], key, project) == KeyedBy(rows, key, project) + [(key(x).value, project(x))]
  {
    assert (rows + [x])[..|rows|] == rows;
    assert KeyedBy(rows, key, project) + [] == KeyedBy(rows, key, project);
  }

  /** A pair is produced exactly when some element has its key and projects to its value. */
  lemma {:induction false} KeyedByMembers<R, T>(rows: seq<R>, key: R -> Option<string>, project: R -> T, k: string, x: T)
    ensures (k, x) in KeyedBy(rows, key, project) <==>
      exists i :: 0 <= i < |rows| && key(rows[i]) == Some(k) && x == project(rows[i])
  {
    if rows != [] {
      var n := |rows| - 1;
      var init := rows[..n];
      var last := rows[n];
      assert rows == init + [last];
      KeyedBySnoc(init, key, project, last);
      KeyedByMembers(init, key, project, k, x);
      var hit := key(last) == Some(k) && x == project(last);
      assert (k, x) in KeyedBy(rows, key, project) <==> (k, x) in KeyedBy(init, key, project) || hit;
      if exists i :: 0 <= i < |rows| && key(rows[i]) == Some(k) && x == project(rows[i]) {
        var i :| 0 <= i < |rows| && key(rows[i]) == Some(k) && x == project(rows[i]);
        if i < n {
          assert init[i] == rows[i];
        }
      }
      if exists i :: 0 <= i < |init| && key(init[i]) == Some(k) && x == project(init[i]) {
        var i :| 0 <= i < |init| && key(init[i]) == Some(k) && x == project(init[i]);
        assert rows[i] == init[i];
      }
    }
  }

  /** A key is produced exactly when some element has it. */
  lemma KeyedByKeys<R, T>(rows: seq<R>, key: R -> Option<string>, project: R -> T, k: string)
    ensures k in KeysOf(KeyedBy(rows, key, project)) <==> exists i :: 0 <= i < |rows| && key(rows[i]) == Some(k)
  {
    var ps := KeyedBy(rows, key, project);
    if k in KeysOf(ps) {
      var p :| 0 <= p < |ps| && KeysOf(ps)[p] == k;
      assert ps[p] in ps;
      KeyedByMembers(rows, key, project, k, ps[p].1);
    }
    if exists i :: 0 <= i < |rows| && key(rows[i]) == Some(k) {
      var i :| 0 <= i < |rows| && key(rows[i]) == Some(k);
      KeyedByMembers(rows, key, project, k, project(rows[i]));
      var p :| 0 <= p < |ps| && ps[p] == (k, project(rows[i]));
      assert KeysOf(ps)[p] == k;
    }
  }

  function HasKey<R>(key: R -> Option<string>): R -> bool {
    r => key(r).Some?
  }

  /** One pair per element that has a key. */
  lemma {:induction false} KeyedByLength<R, T>(rows: seq<R>, key: R -> Option<string>, project: R -> T)
    ensures |KeyedBy(rows, key, project)| == |Filter(rows, HasKey(key))|
  {
    if rows != [] {
      KeyedByLength(rows[..|rows| - 1], key, project);
    }
  }

  /** What grouping promises: distinct keys, exactly the keys that occur, each group
      holding exactly its values in order, and every value in some group. */
  lemma GroupPairsFacts<T>(ps: seq<(string, T)>)
    ensures DistinctKeys(GroupPairs(ps))
    ensures forall k :: k in KeysOf(GroupPairs(ps)) <==> k in KeysOf(ps)
    ensures forall j :: 0 <= j < |GroupPairs(ps)| ==> GroupPairs(ps)[j].1 == ValuesFor(ps, GroupPairs(ps)[j].0)
    ensures TotalSize(GroupPairs(ps)) == |ps|
  {
    GroupPairsKeys(ps);
    GroupPairsValues(ps);
    GroupPairsTotal(ps);
    forall k ensures k in KeysOf(GroupPairs(ps)) <==> k in KeysOf(ps) {
      FirstOccurrencesMembers(KeysOf(ps), k);
    }
  }

  /** Sum of the lengths of the groups. */
  function TotalSize<T>(e: Entries<seq<T>>): nat {
    if e == [] then 0 else |e[0].1| + TotalSize(e[1..])
  }

  lemma {:induction false} TotalSizeUpdate<T>(e: Entries<seq<T>>, p: int, v: (string, seq<T>))
    requires 0 <= p < |e|
    ensures TotalSize(e[p := v]) == TotalSize(e) - |e[p].1| + |v.1|
  {
    if p > 0 {
      assert e[p := v][1..] == e[1..][p - 1 := v];
      TotalSizeUpdate(e[1..], p - 1, v);
    }
  }

  lemma {:induction false} TotalSizeAppend<T>(e: Entries<seq<T>>, v: (string, seq<T>))
    ensures TotalSize(e + [v]) == TotalSize(e) + |v.1|
  {
    if e != [] {
      assert (e + [v])[1..] == e[1..] + [v];
      TotalSizeAppend(e[1..], v);
    }
  }

  /** Grouping neither loses nor duplicates a value. */
  lemma {:induction false} GroupPairsTotal<T>(ps: seq<(string, T)>)
    ensures TotalSize(GroupPairs(ps)) == |ps|
  {
    if ps != [] {
      var init := ps[..|ps| - 1];
      var (k, x) := ps[|ps| - 1];
      var g0 := GroupPairs(init);
      GroupPairsTotal(init);
      var p := Find(g0, k);
      if p < |g0| {
        TotalSizeUpdate(g0, p, (k, g0[p].1 + [x]));
      } else {
        TotalSizeAppend(g0, (k, [x]));
      }
    }
  }

  /** f applied to every element of s, in order, where f is defined on each of them. */
  function MapWhere<A, B>(s: seq<A>, f: A --> B): (r: seq<B>)
    requires forall i :: 0 <= i < |s| ==> f.requires(s[i])
    ensures |r| == |s|
  {
    if s == [] then [] else MapWhere(s[..|s| - 1], f) + [f(s[|s| - 1])]
  }

  lemma {:induction false} MapWhereAt<A, B>(s: seq<A>, f: A --> B, i: int)
    requires forall k :: 0 <= k < |s| ==> f.requires(s[k])
    requires 0 <= i < |s|
    ensures MapWhere(s, f)[i] == f(s[i])
  {
    var init := s[..|s| - 1];
    assert MapWhere(s, f) == MapWhere(init, f) + [f(s[|s| - 1])];
    if i < |s| - 1 {
      MapWhereAt(init, f, i);
      assert MapWhere(s, f)[i] == MapWhere(init, f)[i];
    }
  }

  /** Builds MapWhere(s, f) one element at a time. */
  method MapEach<A, B>(s: seq<A>, f: A --> B) returns (r: seq<B>)
    requires forall i :: 0 <= i < |s| ==> f.requires(s[i])
    ensures r == MapWhere(s, f)
    ensures forall i :: 0 <= i < |s| ==> r[i] == f(s[i])
  {
    r := [];
    for i := 0 to |s|
      invariant r == MapWhere(s[..i], f)
      invariant forall k :: 0 <= k < i ==> r[k] == f(s[k])
    {
      assert s[..i + 1][..i] == s[..i];
      r := r + [f(s[i])];
    }
    assert s[..|s|] == s;
  }

  /** Every value of e replaced by its image under f; keys and their order are kept. */
  function MapValues<V, W>(e: Entries<V>, f: V --> W): (r: Entries<W>)
    requires forall i :: 0 <= i < |e| ==> f.requires(e[i].1)
    ensures |r| == |e|
  {
    if e == [] then []
    else MapValues(e[..|e| - 1], f) + [(e[|e| - 1].0, f(e[|e| - 1].1))]
  }

  /** Each entry keeps its key and carries its value's image; keys stay distinct. */
  lemma {:induction false} MapValuesAt<V, W>(e: Entries<V>, f: V --> W)
    requires forall i :: 0 <= i < |e| ==> f.requires(e[i].1)
    ensures forall j :: 0 <= j < |e| ==> MapValues(e, f)[j] == (e[j].0, f(e[j].1))
    ensures KeysOf(MapValues(e, f)) == KeysOf(e)
    ensures DistinctKeys(e) ==> DistinctKeys(MapValues(e, f))
  {
    if e != [] {
      var n := |e| - 1;
      var init := e[..n];
      MapValuesAt(init, f);
      var front := MapValues(init, f);
      var r := MapValues(e, f);
      assert r == front + [(e[n].0, f(e[n].1))];
      forall j | 0 <= j < n ensures r[j] == (e[j].0, f(e[j].1)) {
        assert r[j] == front[j];
        assert init[j] == e[j];
      }
    }
  }

  /** Mapping one more entry appends its image; with distinct keys, its key is new. */
  lemma MapValuesStep<V, W>(e: Entries<V>, f: V --> W, g: int)
    requires forall i :: 0 <= i < |e| ==> f.requires(e[i].1)
    requires DistinctKeys(e) && 0 <= g < |e|
    ensures forall i :: 0 <= i < g ==> f.requires(e[..g][i].1)
    ensures DistinctKeys(MapValues(e[..g], f))
    ensures e[g].0 !in KeysOf(MapValues(e[..g], f))
    ensures MapValues(e[..g + 1], f) == MapValues(e[..g], f) + [(e[g].0, f(e[g].1))]
  {
    assert e[..g + 1][..g] == e[..g];
    var r := MapValues(e[..g], f);
    MapValuesAt(e[..g], f);
    forall k | 0 <= k < g ensures KeysOf(r)[k] != e[g].0 {
      assert r[k].0 == e[..g][k].0 == e[k].0;
    }
  }

  /** {k: f(v) for k, v in e.items()}, built one entry at a time with d[k] = f(v). */
  method MapValuesEach<V, W>(e: Entries<V>, f: V --> W) returns (r: Entries<W>)
    requires DistinctKeys(e)
    requires forall i :: 0 <= i < |e| ==> f.requires(e[i].1)
    ensures r == MapValues(e, f)
    ensures DistinctKeys(r) && KeysOf(r) == KeysOf(e)
    ensures forall j :: 0 <= j < |r| ==> r[j] == (e[j].0, f(e[j].1))
  {
    r := [];
    for g := 0 to |e|
      invariant forall i :: 0 <= i < g ==> f.requires(e[..g][i].1)
      invariant r == MapValues(e[..g], f)
    {
      MapValuesStep(e, f, g);
      r := Put(r, e[g].0, f(e[g].1));
    }
    assert e[..|e|] == e;
    MapValuesAt(e, f);
  }

  /** The elements of s that satisfy keep, in their original order. */
  function Filter<T>(s: seq<T>, keep: T -> bool): (r: seq<T>)
    ensures |r| <= |s|
  {
    if s == [] then []
    else Filter(s[..|s| - 1], keep) + (if keep(s[|s| - 1]) then [s[|s| - 1]] else [])
  }

  /** An element is kept exactly when it occurs in the input and satisfies the predicate. */
  lemma {:induction false} FilterMembers<T>(s: seq<T>, keep: T -> bool, x: T)
    ensures x in Filter(s, keep) <==> x in s && keep(x)
  {
    if s != [] {
      FilterMembers(s[..|s| - 1], keep, x);
      assert s == s[..|s| - 1] + [s[|s| - 1]];
    }
  }

  /** Filtering splits over concatenation. */
  lemma {:induction false} FilterAppend<T>(a: seq<T>, b: seq<T>, keep: T -> bool)
    ensures Filter(a + b, keep) == Filter(a, keep) + Filter(b, keep)
  {
    if b != [] {
      assert (a + b)[..|a + b| - 1] == a + b[..|b| - 1];
      FilterAppend(a, b[..|b| - 1], keep);
    } else {
      assert a + b == a;
    }
  }

  /** A list every element of which is kept passes through unchanged. */
  lemma {:induction false} FilterAllKept<T>(s: seq<T>, keep: T -> bool)
    requires forall i :: 0 <= i < |s| ==> keep(s[i])
    ensures Filter(s, keep) == s
  {
    if s != [] {
      FilterAllKept(s[..|s| - 1], keep);
    }
  }

  /** Filtering twice keeps what filtering once keeps. */
  lemma FilterIdempotent<T>(s: seq<T>, keep: T -> bool)
    ensures Filter(Filter(s, keep), keep) == Filter(s, keep)
  {
    var r := Filter(s, keep);
    forall i | 0 <= i < |r| ensures keep(r[i]) {
      FilterMembers(s, keep, r[i]);
    }
    FilterAllKept(r, keep);
  }
}
