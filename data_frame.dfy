/**
 * The dataframe operations the KPI report chains together: explode, filter,
 * inner join, group_by/agg, sort and limit, as functions on sequences of rows.
 *
 * A query engine does not promise any row order for joins and group_by, and
 * its sorts do not promise an order for ties. The functions below pick one
 * order; the lemmas state only what holds for every admissible order: which
 * rows a join or explode yields (and how many times, for filter and join),
 * which groups a group_by yields and what each group holds, and that a sort
 * returns a permutation of its input ordered by its key.
 */
module DataFrame {

  // ---------------------------------------------------------------------
  // explode, projection, filter, inner join
  // ---------------------------------------------------------------------

  /** Concatenates f(x) over the rows x, in row order: the shape of explode and of a join. */
  function FlatMap<T, U>(xs: seq<T>, f: T -> seq<U>): seq<U>
  {
    if xs == [] then [] else FlatMap(xs[..|xs| - 1], f) + f(xs[|xs| - 1])
  }

  lemma {:induction false} FlatMapMembership<T, U>(xs: seq<T>, f: T -> seq<U>, u: U)
    ensures u in FlatMap(xs, f) <==> exists x :: x in xs && u in f(x)
  {
    if xs != [] {
      var init, last := xs[..|xs| - 1], xs[|xs| - 1];
      assert xs == init + [last];
      FlatMapMembership(init, f, u);
      if u in FlatMap(xs, f) && u !in FlatMap(init, f) {
        assert last in xs && u in f(last);
      }
      if exists x :: x in xs && u in f(x) {
        var x :| x in xs && u in f(x);
        if x != last {
          assert x in init;
        }
      }
    }
  }

  /** FlatMap distributes over concatenation of its rows. */
  lemma {:induction false} FlatMapAppend<T, U>(xs: seq<T>, ys: seq<T>, f: T -> seq<U>)
    ensures FlatMap(xs + ys, f) == FlatMap(xs, f) + FlatMap(ys, f)
  {
    if ys != [] {
      var init, last := ys[..|ys| - 1], ys[|ys| - 1];
      assert (xs + ys)[..|xs + ys| - 1] == xs + init;
      FlatMapAppend(xs, init, f);
    } else {
      assert xs + ys == xs;
    }
  }

  /** A projection (select / with_columns): f applied to every row. */
  function Project<T, U>(xs: seq<T>, f: T -> U): (r: seq<U>)
    ensures |r| == |xs|
    ensures forall i :: 0 <= i < |xs| ==> r[i] == f(xs[i])
  {
    seq(|xs|, i requires 0 <= i < |xs| => f(xs[i]))
  }

  lemma ProjectMembership<T, U>(xs: seq<T>, f: T -> U, u: U)
    ensures u in Project(xs, f) <==> exists x :: x in xs && u == f(x)
  {
    var r := Project(xs, f);
    if u in r {
      var i :| 0 <= i < |r| && r[i] == u;
      assert xs[i] in xs;
    }
    if exists x :: x in xs && u == f(x) {
      var x :| x in xs && u == f(x);
      var i :| 0 <= i < |xs| && xs[i] == x;
      assert r[i] == u;
    }
  }

  /** explode of a list column: one row per list entry, carrying the other columns v of its row. */
  function Tagged<K, V>(ks: seq<K>, v: V): (rows: seq<(K, V)>)
    ensures |rows| == |ks|
    ensures forall i | 0 <= i < |ks| :: rows[i] == (ks[i], v)
  {
    seq(|ks|, i requires 0 <= i < |ks| => (ks[i], v))
  }

  lemma TaggedMembership<K, V>(ks: seq<K>, v: V, k: K, w: V)
    ensures (k, w) in Tagged(ks, v) <==> k in ks && w == v
  {
    var rows := Tagged(ks, v);
    if (k, w) in rows {
      var i :| 0 <= i < |rows| && rows[i] == (k, w);
      assert ks[i] == k;
    }
    if k in ks && w == v {
      var i :| 0 <= i < |ks| && ks[i] == k;
      assert rows[i] == (k, w);
    }
  }

  /** filter: the rows satisfying p, in row order. */
  function Where<T>(xs: seq<T>, p: T -> bool): (r: seq<T>)
    ensures |r| <= |xs|
    ensures forall x | x in r :: x in xs && p(x)
    ensures forall x | x in xs && p(x) :: x in r
    ensures (forall x | x in xs :: !p(x)) ==> r == []
  {
    if xs == [] then []
    else
      var init, last := xs[..|xs| - 1], xs[|xs| - 1];
      assert xs == init + [last];
      Where(init, p) + (if p(last) then [last] else [])
  }

  /** filter keeps every satisfying row as often as it occurs, and no other row. */
  lemma {:induction false} WhereCount<T>(xs: seq<T>, p: T -> bool, x: T)
    ensures multiset(Where(xs, p))[x] == if p(x) then multiset(xs)[x] else 0
  {
    if xs != [] {
      var init, last := xs[..|xs| - 1], xs[|xs| - 1];
      assert xs == init + [last];
      WhereCount(init, p, x);
    }
  }

  /**
   * Pairs every row of rs with l, as (left row, right row). Tagged builds
   * the same shape with the fixed value second, as explode leaves the list
   * entry first and the row's other columns after it; the two are kept apart
   * so each reads in its own column order.
   */
  function Pairs<L, R>(l: L, rs: seq<R>): (ps: seq<(L, R)>)
    ensures |ps| == |rs|
    ensures forall p | p in ps :: p.0 == l && p.1 in rs
    ensures forall r | r in rs :: (l, r) in ps
  {
    var ps := seq(|rs|, i requires 0 <= i < |rs| => (l, rs[i]));
    assert forall p :: p in ps ==> p.0 == l && p.1 in rs;
    assert forall r | r in rs :: (l, r) in ps by {
      forall r | r in rs ensures (l, r) in ps {
        var i :| 0 <= i < |rs| && rs[i] == r;
        assert ps[i] == (l, r);
      }
    }
    ps
  }

  /** Pairs yields (l, r) once per occurrence of r in rs. */
  lemma {:induction false} PairsCount<L, R>(l: L, rs: seq<R>, m: L, r: R)
    ensures multiset(Pairs(l, rs))[(m, r)] == if m == l then multiset(rs)[r] else 0
  {
    if rs != [] {
      var init, last := rs[..|rs| - 1], rs[|rs| - 1];
      assert rs == init + [last];
      assert Pairs(l, rs) == Pairs(l, init) + [(l, last)];
      PairsCount(l, init, m, r);
    }
  }

  /** The output rows of an inner join that one left row produces. */
  function JoinRows<L, R, K(==)>(l: L, right: seq<R>, lk: L -> K, rk: R -> K): (ps: seq<(L, R)>)
    ensures (forall r | r in right :: rk(r) != lk(l)) ==> ps == []
  {
    Pairs(l, Where(right, r => rk(r) == lk(l)))
  }

  /**
   * join(..., how="inner"): one output row per pair of a left row and a
   * right row whose join keys are equal (duplicated keys multiply rows).
   */
  function InnerJoin<L, R, K(==)>(left: seq<L>, right: seq<R>, lk: L -> K, rk: R -> K): seq<(L, R)>
  {
    FlatMap(left, l => JoinRows(l, right, lk, rk))
  }

  lemma InnerJoinMembership<L, R, K>(left: seq<L>, right: seq<R>, lk: L -> K, rk: R -> K, l: L, r: R)
    ensures (l, r) in InnerJoin(left, right, lk, rk) <==> l in left && r in right && lk(l) == rk(r)
  {
    FlatMapMembership(left, l => JoinRows(l, right, lk, rk), (l, r));
  }

  /**
   * The inner join yields (l, r) once per pair of an occurrence of l in
   * left and an occurrence of r in right, when their keys are equal.
   */
  lemma {:induction false} InnerJoinCount<L, R, K>(left: seq<L>, right: seq<R>, lk: L -> K, rk: R -> K, l: L, r: R)
    ensures multiset(InnerJoin(left, right, lk, rk))[(l, r)]
            == if lk(l) == rk(r) then multiset(left)[l] * multiset(right)[r] else 0
  {
    if left != [] {
      var init, last := left[..|left| - 1], left[|left| - 1];
      assert left == init + [last];
      InnerJoinCount(init, right, lk, rk, l, r);
      var matches := Where(right, r' => rk(r') == lk(last));
      var before, extra := InnerJoin(init, right, lk, rk), Pairs(last, matches);
      assert InnerJoin(left, right, lk, rk) == before + extra;
      assert multiset(before + extra)[(l, r)] == multiset(before)[(l, r)] + multiset(extra)[(l, r)];
      PairsCount(last, matches, l, r);
      WhereCount(right, r' => rk(r') == lk(last), r);
      var a, b := multiset(init)[l], multiset(right)[r];
      assert multiset(left)[l] == a + (if l == last then 1 else 0);
      if l == last && lk(l) == rk(r) {
        SuccessorProduct(a, b);
      }
    }
  }

  lemma SuccessorProduct(a: nat, b: nat)
    ensures (a + 1) * b == a * b + b
  {
  }

  /** The inner join keeps nothing of left rows whose key matches no right row. */
  lemma {:induction false} InnerJoinUnmatched<L, R, K>(left: seq<L>, extra: seq<L>, right: seq<R>, lk: L -> K, rk: R -> K)
    requires forall l, r | l in extra && r in right :: lk(l) != rk(r)
    ensures InnerJoin(left + extra, right, lk, rk) == InnerJoin(left, right, lk, rk)
  {
    var f := l => JoinRows(l, right, lk, rk);
    FlatMapAppend(left, extra, f);
    FlatMapEmpty(extra, f);
  }

  lemma {:induction false} FlatMapEmpty<T, U>(xs: seq<T>, f: T -> seq<U>)
    requires forall x | x in xs :: f(x) == []
    ensures FlatMap(xs, f) == []
  {
    if xs != [] {
      assert xs[|xs| - 1] in xs;
      FlatMapEmpty(xs[..|xs| - 1], f);
    }
  }

  // ---------------------------------------------------------------------
  // group_by / agg
  // ---------------------------------------------------------------------

  /** One group of a group_by: its key and the values of its rows, in row order. */
  datatype Group<K, V> = Group(key: K, values: seq<V>)

  /** The values of the rows whose key is k, in row order: what agg sees for key k. */
  function Select<K(==), V>(rows: seq<(K, V)>, k: K): seq<V>
  {
    if rows == [] then []
    else
      var last := rows[|rows| - 1];
      Select(rows[..|rows| - 1], k) + (if last.0 == k then [last.1] else [])
  }

  /** The keys that occur in the rows. */
  function KeySet<K, V>(rows: seq<(K, V)>): set<K>
  {
    if rows == [] then {} else KeySet(rows[..|rows| - 1]) + {rows[|rows| - 1].0}
  }

  lemma {:induction false} KeySetMembership<K, V>(rows: seq<(K, V)>, k: K)
    ensures k in KeySet(rows) <==> exists v :: (k, v) in rows
  {
    if rows != [] {
      var init, last := rows[..|rows| - 1], rows[|rows| - 1];
      assert rows == init + [last];
      KeySetMembership(init, k);
      if k in KeySet(rows) && k !in KeySet(init) {
        assert (k, last.1) in rows;
      }
    }
  }

  lemma {:induction false} SelectMembership<K, V>(rows: seq<(K, V)>, k: K, v: V)
    ensures v in Select(rows, k) <==> (k, v) in rows
  {
    if rows != [] {
      var init, last := rows[..|rows| - 1], rows[|rows| - 1];
      assert rows == init + [last];
      SelectMembership(init, k, v);
    }
  }

  /** A key occurs in the rows exactly when it selects at least one value. */
  lemma {:induction false} SelectNonEmpty<K, V>(rows: seq<(K, V)>, k: K)
    ensures Select(rows, k) != [] <==> k in KeySet(rows)
  {
    if rows != [] {
      SelectNonEmpty(rows[..|rows| - 1], k);
    }
  }

  function GroupKeys<K(==), V>(gs: seq<Group<K, V>>): set<K>
  {
    set i | 0 <= i < |gs| :: gs[i].key
  }

  predicate DistinctKeys<K(==), V>(gs: seq<Group<K, V>>)
  {
    forall i, j :: 0 <= i < j < |gs| ==> gs[i].key != gs[j].key
  }

  /**
   * One step of a hash aggregation: the row (k, v) goes to the group with
   * key k, or opens a new group at the end when there is none.
   */
  function AddRow<K(==), V>(gs: seq<Group<K, V>>, k: K, v: V): (r: seq<Group<K, V>>)
    ensures k in GroupKeys(gs) ==> |r| == |gs|
    ensures k !in GroupKeys(gs) ==> |r| == |gs| + 1 && r[|gs|] == Group(k, [v])
    ensures forall i :: 0 <= i < |gs| ==>
              r[i] == if gs[i].key == k then Group(k, gs[i].values + [v]) else gs[i]
  {
    if k in GroupKeys(gs) then
      seq(|gs|, i requires 0 <= i < |gs| => if gs[i].key == k then Group(k, gs[i].values + [v]) else gs[i])
    else
      gs + [Group(k, [v])]
  }

  /**
   * group_by(key): the groups of the rows, one per distinct key, each
   * holding the values of exactly the rows with its key.
   */
  function GroupBy<K(==), V>(rows: seq<(K, V)>): (gs: seq<Group<K, V>>)
    ensures DistinctKeys(gs)
    ensures GroupKeys(gs) == KeySet(rows)
    ensures forall g | g in gs :: g.values == Select(rows, g.key) && g.values != []
  {
    if rows == [] then []
    else
      var prev := GroupBy(rows[..|rows| - 1]);
      AddRowGroups(rows, prev);
      AddRow(prev, rows[|rows| - 1].0, rows[|rows| - 1].1)
  }

  /** The induction step of GroupBy: adding the last row to the groups of the other rows. */
  lemma AddRowGroups<K, V>(rows: seq<(K, V)>, prev: seq<Group<K, V>>)
    requires rows != []
    requires DistinctKeys(prev)
    requires GroupKeys(prev) == KeySet(rows[..|rows| - 1])
    requires forall g | g in prev :: g.values == Select(rows[..|rows| - 1], g.key) && g.values != []
    ensures var gs := AddRow(prev, rows[|rows| - 1].0, rows[|rows| - 1].1);
            && DistinctKeys(gs)
            && GroupKeys(gs) == KeySet(rows)
            && (forall g | g in gs :: g.values == Select(rows, g.key) && g.values != [])
  {
    var last := rows[|rows| - 1];
    AddRowKeys(prev, last.0, last.1);
    AddRowDistinct(prev, last.0, last.1);
    AddRowValues(rows, prev);
  }

  lemma AddRowKeys<K, V>(prev: seq<Group<K, V>>, k: K, v: V)
    ensures GroupKeys(AddRow(prev, k, v)) == GroupKeys(prev) + {k}
  {
    var gs := AddRow(prev, k, v);
    forall x | x in GroupKeys(gs) ensures x in GroupKeys(prev) + {k} {
      var i :| 0 <= i < |gs| && gs[i].key == x;
      if i < |prev| {
        assert prev[i].key == x;
      }
    }
    forall x | x in GroupKeys(prev) + {k} ensures x in GroupKeys(gs) {
      if x in GroupKeys(prev) {
        var i :| 0 <= i < |prev| && prev[i].key == x;
        assert gs[i].key == x;
      } else {
        assert gs[|prev|].key == x;
      }
    }
  }

  lemma AddRowDistinct<K, V>(prev: seq<Group<K, V>>, k: K, v: V)
    requires DistinctKeys(prev)
    ensures DistinctKeys(AddRow(prev, k, v))
  {
    var gs := AddRow(prev, k, v);
    forall i, j | 0 <= i < j < |gs| ensures gs[i].key != gs[j].key {
      if j == |prev| {
        assert prev[i].key in GroupKeys(prev);
      }
    }
  }

  lemma AddRowValues<K, V>(rows: seq<(K, V)>, prev: seq<Group<K, V>>)
    requires rows != []
    requires GroupKeys(prev) == KeySet(rows[..|rows| - 1])
    requires forall g | g in prev :: g.values == Select(rows[..|rows| - 1], g.key) && g.values != []
    ensures forall g | g in AddRow(prev, rows[|rows| - 1].0, rows[|rows| - 1].1) ::
              g.values == Select(rows, g.key) && g.values != []
  {
    var last := rows[|rows| - 1];
    var gs := AddRow(prev, last.0, last.1);
    forall g | g in gs ensures g.values == Select(rows, g.key) && g.values != [] {
      var i :| 0 <= i < |gs| && gs[i] == g;
      assert Select(rows, g.key) == Select(rows[..|rows| - 1], g.key) + (if last.0 == g.key then [last.1] else []);
      if i < |prev| {
        assert prev[i] in prev;
      } else {
        SelectNonEmpty(rows[..|rows| - 1], last.0);
      }
    }
  }

  /** Uniform description of one aggregated group: its key and all its rows' values. */
  function GroupOf<K(==), V>(rows: seq<(K, V)>, k: K): Group<K, V>
  {
    Group(k, Select(rows, k))
  }

  /** agg can be evaluated on every group the rows form. */
  ghost predicate AggDefined<K, V, Row>(facts: seq<(K, V)>, agg: Group<K, V> --> Row)
  {
    forall k | k in KeySet(facts) :: agg.requires(GroupOf(facts, k))
  }

  /** group_by(key).agg(...): one aggregated row per group. */
  function Summarize<K(==), V, Row>(facts: seq<(K, V)>, agg: Group<K, V> --> Row): (rows: seq<Row>)
    requires AggDefined(facts, agg)
  {
    var gs := GroupBy(facts);
    assert forall i | 0 <= i < |gs| :: gs[i] == GroupOf(facts, gs[i].key) && gs[i].key in KeySet(facts) by {
      forall i | 0 <= i < |gs| ensures gs[i] == GroupOf(facts, gs[i].key) && gs[i].key in KeySet(facts) {
        assert gs[i] in gs;
      }
    }
    seq(|gs|, i requires 0 <= i < |gs| => agg(gs[i]))
  }

  predicate DistinctBy<T, K(==)>(s: seq<T>, key: T -> K)
  {
    forall i, j :: 0 <= i < j < |s| ==> key(s[i]) != key(s[j])
  }

  /**
   * What group_by/agg yields: exactly one row per key of the input, and that
   * row is the aggregate of all the input values carrying that key.
   */
  lemma SummarizeSpec<K, V, Row>(facts: seq<(K, V)>, agg: Group<K, V> --> Row, key: Row -> K)
    requires AggDefined(facts, agg)
    requires forall k | k in KeySet(facts) :: key(agg(GroupOf(facts, k))) == k
    ensures DistinctBy(Summarize(facts, agg), key)
    ensures forall r | r in Summarize(facts, agg) ::
              key(r) in KeySet(facts) && r == agg(GroupOf(facts, key(r)))
    ensures forall k | k in KeySet(facts) :: agg(GroupOf(facts, k)) in Summarize(facts, agg)
  {
    var gs := GroupBy(facts);
    var rows := Summarize(facts, agg);
    assert forall i | 0 <= i < |gs| :: gs[i] == GroupOf(facts, gs[i].key) && gs[i].key in KeySet(facts) by {
      forall i | 0 <= i < |gs| ensures gs[i] == GroupOf(facts, gs[i].key) && gs[i].key in KeySet(facts) {
        assert gs[i] in gs;
      }
    }
    assert forall i | 0 <= i < |gs| :: key(rows[i]) == gs[i].key;
    forall k | k in KeySet(facts) ensures agg(GroupOf(facts, k)) in rows {
      assert k in GroupKeys(gs);
      var g :| g in gs && g.key == k;
      var i :| 0 <= i < |gs| && gs[i] == g;
      assert rows[i] == agg(GroupOf(facts, k));
    }
  }

  // ---------------------------------------------------------------------
  // sort, limit
  // ---------------------------------------------------------------------

  ghost predicate Total<T(!new)>(le: (T, T) -> bool)
  {
    forall a, b :: le(a, b) || le(b, a)
  }

  ghost predicate Transitive<T(!new)>(le: (T, T) -> bool)
  {
    forall a, b, c :: le(a, b) && le(b, c) ==> le(a, c)
  }

  /** Every row is ordered by le before every later row. */
  predicate SortedBy<T>(s: seq<T>, le: (T, T) -> bool)
  {
    forall i, j :: 0 <= i < j < |s| ==> le(s[i], s[j])
  }

  /** Inserts x before the first row it is ordered before. */
  function Insert<T>(x: T, s: seq<T>, le: (T, T) -> bool): (r: seq<T>)
    ensures |r| == |s| + 1
    ensures multiset(r) == multiset(s) + multiset{x}
  {
    if s == [] then [x]
    else if le(x, s[0]) then [x] + s
    else
      assert s == [s[0]] + s[1..];
      [s[0]] + Insert(x, s[1..], le)
  }

  /** sort(by): an insertion sort; ties stay in an order the lemmas do not state. */
  function SortBy<T>(s: seq<T>, le: (T, T) -> bool): (r: seq<T>)
    ensures |r| == |s|
    ensures multiset(r) == multiset(s)
  {
    if s == [] then []
    else
      assert s == [s[0]] + s[1..];
      Insert(s[0], SortBy(s[1..], le), le)
  }

  lemma {:induction false} InsertSorted<T(!new)>(x: T, s: seq<T>, le: (T, T) -> bool)
    requires Total(le) && Transitive(le)
    requires SortedBy(s, le)
    ensures SortedBy(Insert(x, s, le), le)
  {
    if s != [] && !le(x, s[0]) {
      var rest := Insert(x, s[1..], le);
      InsertSorted(x, s[1..], le);
      assert le(s[0], x);
      forall y | y in rest ensures le(s[0], y) {
        assert y in multiset(rest);
        if y != x {
          assert y in s[1..];
        }
      }
      var r := [s[0]] + rest;
      forall i, j | 0 <= i < j < |r| ensures le(r[i], r[j]) {
        if i == 0 {
          assert r[j] in rest;
        } else {
          assert r[i] == rest[i - 1] && r[j] == rest[j - 1];
        }
      }
    }
  }

  /** The result of SortBy is ordered by le when le is a total preorder. */
  lemma {:induction false} SortBySorted<T(!new)>(s: seq<T>, le: (T, T) -> bool)
    requires Total(le) && Transitive(le)
    ensures SortedBy(SortBy(s, le), le)
  {
    if s != [] {
      SortBySorted(s[1..], le);
      InsertSorted(s[0], SortBy(s[1..], le), le);
    }
  }

  lemma {:induction false} InsertDistinct<T, K>(x: T, s: seq<T>, le: (T, T) -> bool, key: T -> K)
    requires DistinctBy(s, key)
    requires forall y | y in s :: key(y) != key(x)
    ensures DistinctBy(Insert(x, s, le), key)
  {
    if s != [] && !le(x, s[0]) {
      var rest := Insert(x, s[1..], le);
      InsertDistinct(x, s[1..], le, key);
      forall y | y in rest ensures key(y) != key(s[0]) {
        assert y in multiset(rest);
        if y != x {
          assert y in s[1..];
          var k :| 0 <= k < |s[1..]| && s[1..][k] == y;
          assert s[k + 1] == y;
        }
      }
      var r := [s[0]] + rest;
      forall i, j | 0 <= i < j < |r| ensures key(r[i]) != key(r[j]) {
        if i == 0 {
          assert r[j] in rest;
        } else {
          assert r[i] == rest[i - 1] && r[j] == rest[j - 1];
        }
      }
    } else if s != [] {
      var r := [x] + s;
      forall i, j | 0 <= i < j < |r| ensures key(r[i]) != key(r[j]) {
        if i == 0 {
          assert r[j] in s;
        } else {
          assert r[i] == s[i - 1] && r[j] == s[j - 1];
        }
      }
    }
  }

  /** Sorting rows whose keys are distinct keeps the keys distinct. */
  lemma {:induction false} SortByDistinct<T, K>(s: seq<T>, le: (T, T) -> bool, key: T -> K)
    requires DistinctBy(s, key)
    ensures DistinctBy(SortBy(s, le), key)
  {
    if s != [] {
      assert DistinctBy(s[1..], key) by {
        forall i, j | 0 <= i < j < |s[1..]| ensures key(s[1..][i]) != key(s[1..][j]) {
          assert s[1..][i] == s[i + 1] && s[1..][j] == s[j + 1];
        }
      }
      SortByDistinct(s[1..], le, key);
      var sorted := SortBy(s[1..], le);
      forall y | y in sorted ensures key(y) != key(s[0]) {
        assert y in multiset(sorted);
        assert y in s[1..];
        var k :| 0 <= k < |s[1..]| && s[1..][k] == y;
        assert s[k + 1] == y;
      }
      InsertDistinct(s[0], sorted, le, key);
    }
  }

  lemma {:induction false} WhereDistinct<T, K>(s: seq<T>, p: T -> bool, key: T -> K)
    requires DistinctBy(s, key)
    ensures DistinctBy(Where(s, p), key)
  {
    if s != [] {
      var init, last := s[..|s| - 1], s[|s| - 1];
      assert DistinctBy(init, key) by {
        forall i, j | 0 <= i < j < |init| ensures key(init[i]) != key(init[j]) {
          assert init[i] == s[i] && init[j] == s[j];
        }
      }
      WhereDistinct(init, p, key);
      var w := Where(init, p);
      forall y | y in w ensures key(y) != key(last) {
        assert y in init;
        var k :| 0 <= k < |init| && init[k] == y;
        assert s[k] == y;
      }
      var r := w + (if p(last) then [last] else []);
      forall i, j | 0 <= i < j < |r| ensures key(r[i]) != key(r[j]) {
        if j == |w| {
          assert r[i] in w;
        } else {
          assert r[i] == w[i] && r[j] == w[j];
        }
      }
    }
  }

  /**
   * group_by(key).agg(...).sort(le): one row per key of the input, each the
   * aggregate of all the values with its key, keys distinct, rows ordered.
   */
  lemma SortedSummary<K, V, Row(!new)>(facts: seq<(K, V)>, agg: Group<K, V> --> Row, key: Row -> K, le: (Row, Row) -> bool)
    requires AggDefined(facts, agg)
    requires forall k | k in KeySet(facts) :: key(agg(GroupOf(facts, k))) == k
    requires Total(le) && Transitive(le)
    ensures DistinctBy(SortBy(Summarize(facts, agg), le), key)
    ensures SortedBy(SortBy(Summarize(facts, agg), le), le)
    ensures forall r | r in SortBy(Summarize(facts, agg), le) ::
              key(r) in KeySet(facts) && r == agg(GroupOf(facts, key(r)))
    ensures forall k | k in KeySet(facts) :: agg(GroupOf(facts, k)) in SortBy(Summarize(facts, agg), le)
  {
    var rows := Summarize(facts, agg);
    var out := SortBy(rows, le);
    SummarizeSpec(facts, agg, key);
    SortBySorted(rows, le);
    SortByDistinct(rows, le, key);
    assert forall r :: r in out <==> r in rows by {
      forall r ensures r in out <==> r in rows {
        assert r in out <==> r in multiset(out);
        assert r in rows <==> r in multiset(rows);
      }
    }
  }

  /** limit(n): the first n rows, or all of them when there are fewer. */
  function Limit<T>(s: seq<T>, n: nat): (r: seq<T>)
    ensures |r| == if |s| < n then |s| else n
    ensures r == s[..|r|]
  {
    if |s| <= n then s else s[..n]
  }

  /** A sort returns exactly the rows it was given. */
  lemma SortByMembership<T>(s: seq<T>, le: (T, T) -> bool, x: T)
    ensures x in SortBy(s, le) <==> x in s
  {
    assert x in SortBy(s, le) <==> x in multiset(SortBy(s, le));
    assert x in s <==> x in multiset(s);
  }

  /**
   * sort then limit(n): a row that limit cuts off comes after n kept rows,
   * each of them ordered before it.
   */
  lemma LimitSortedDropsOnlyLater<T>(s: seq<T>, n: nat, le: (T, T) -> bool, x: T)
    requires SortedBy(s, le)
    requires x in s && x !in Limit(s, n)
    ensures |Limit(s, n)| == n
    ensures forall r | r in Limit(s, n) :: le(r, x)
  {
    var out := Limit(s, n);
    forall r | r in out ensures le(r, x) {
      var j :| 0 <= j < |out| && out[j] == r;
      assert s[j] == r;
    }
  }

  // ---------------------------------------------------------------------
  // sum, mean
  // ---------------------------------------------------------------------

  function Sum(xs: seq<real>): real
  {
    if xs == [] then 0.0 else xs[0] + Sum(xs[1..])
  }

  /** mean(): defined on a non-empty column, as every group of a group_by is. */
  function Mean(xs: seq<real>): real
    requires xs != []
  {
    Sum(xs) / (|xs| as real)
  }

  lemma {:induction false} SumAtLeast(xs: seq<real>, lo: real)
    requires forall x | x in xs :: lo <= x
    ensures lo * (|xs| as real) <= Sum(xs)
  {
    if xs != [] {
      assert xs[0] in xs;
      assert forall x | x in xs[1..] :: x in xs;
      SumAtLeast(xs[1..], lo);
    }
  }

  lemma {:induction false} SumAtMost(xs: seq<real>, hi: real)
    requires forall x | x in xs :: x <= hi
    ensures Sum(xs) <= hi * (|xs| as real)
  {
    if xs != [] {
      assert xs[0] in xs;
      assert forall x | x in xs[1..] :: x in xs;
      SumAtMost(xs[1..], hi);
    }
  }

  /** A mean is at least any lower bound of its values. */
  lemma MeanAtLeast(xs: seq<real>, lo: real)
    requires xs != []
    requires forall x | x in xs :: lo <= x
    ensures lo <= Mean(xs)
  {
    SumAtLeast(xs, lo);
    var n := |xs| as real;
    assert lo * n / n == lo;
  }

  /** A mean is at most any upper bound of its values. */
  lemma MeanAtMost(xs: seq<real>, hi: real)
    requires xs != []
    requires forall x | x in xs :: x <= hi
    ensures Mean(xs) <= hi
  {
    SumAtMost(xs, hi);
    var n := |xs| as real;
    assert hi * n / n == hi;
  }

  // ---------------------------------------------------------------------
  // string order
  // ---------------------------------------------------------------------

  /**
   * The order sort uses on a string column: byte-wise on UTF-8, which is
   * the lexicographic order of the characters' code points.
   */
  predicate LexLe(a: string, b: string)
  {
    a == [] || (b != [] && (a[0] < b[0] || (a[0] == b[0] && LexLe(a[1..], b[1..]))))
  }

  lemma {:induction false} LexLeTotal(a: string, b: string)
    ensures LexLe(a, b) || LexLe(b, a)
  {
    if a != [] && b != [] && a[0] == b[0] {
      LexLeTotal(a[1..], b[1..]);
    }
  }

  lemma {:induction false} LexLeTransitive(a: string, b: string, c: string)
    requires LexLe(a, b) && LexLe(b, c)
    ensures LexLe(a, c)
  {
    if a != [] && a[0] == b[0] && b[0] == c[0] {
      LexLeTransitive(a[1..], b[1..], c[1..]);
    }
  }

  lemma {:induction false} LexLeAntisymmetric(a: string, b: string)
    requires LexLe(a, b) && LexLe(b, a)
    ensures a == b
  {
    if a != [] {
      LexLeAntisymmetric(a[1..], b[1..]);
      assert a == [a[0]] + a[1..] && b == [b[0]] + b[1..];
    }
  }
}
