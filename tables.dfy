/**
 * A database table as the Sequelize models use it: rows keyed by an
 * auto-incremented integer primary key.
 */
module Tables {
  import opened Optional

  /** Rows by id, and the id the next insert receives (MySQL's AUTO_INCREMENT counter). */
  datatype Table<T> = Table(rows: map<int, T>, next: int)

  /** Every id was handed out by the counter, which starts at 1. */
  ghost predicate Wf<T>(t: Table<T>) {
    1 <= t.next && forall k :: k in t.rows ==> 1 <= k < t.next
  }

  function EmptyTable<T>(): (t: Table<T>)
    ensures Wf(t) && t.rows == map[]
  {
    Table(map[], 1)
  }

  /** INSERT: the new row receives the counter's value as its id. */
  function Insert<T>(t: Table<T>, row: T): (r: Table<T>)
    requires Wf(t)
    ensures Wf(r) && t.next !in t.rows
    ensures r.rows == t.rows[t.next := row] && r.next == t.next + 1
  {
    Table(t.rows[t.next := row], t.next + 1)
  }

  /** INSERT of several rows in order (`bulkCreate`): consecutive ids. */
  function InsertAll<T>(t: Table<T>, rows: seq<T>): (r: Table<T>)
    requires Wf(t)
    ensures Wf(r) && r.next == t.next + |rows|
    ensures forall i :: 0 <= i < |rows| ==> t.next + i in r.rows && r.rows[t.next + i] == rows[i]
    ensures forall k :: k in r.rows <==> k in t.rows || t.next <= k < r.next
    ensures forall k :: k in t.rows ==> r.rows[k] == t.rows[k]
    decreases |rows|
  {
    if rows == [] then t
    else
      var r := InsertAll(Insert(t, rows[0]), rows[1..]);
      assert forall i :: 1 <= i < |rows| ==> rows[i] == rows[1..][i - 1];
      r
  }

  /** The ids in `[lo, hi)` whose rows satisfy `p`, in increasing order. */
  function Matching<T>(m: map<int, T>, p: T -> bool, lo: int, hi: int): (ks: seq<int>)
    ensures forall k :: k in ks <==> k in m && lo <= k < hi && p(m[k])
    ensures forall i, j :: 0 <= i < j < |ks| ==> ks[i] < ks[j]
    decreases hi - lo
  {
    if lo >= hi then []
    else if lo in m && p(m[lo]) then
      var rest := Matching(m, p, lo + 1, hi);
      assert forall j :: 0 <= j < |rest| ==> lo < rest[j] by {
        forall j | 0 <= j < |rest| ensures lo < rest[j] {
          assert rest[j] in rest;
        }
      }
      [lo] + rest
    else Matching(m, p, lo + 1, hi)
  }

  /** `findAll({ where })`: the ids of the rows satisfying `p`, by increasing id. */
  function Where<T>(t: Table<T>, p: T -> bool): (ks: seq<int>)
    requires Wf(t)
    ensures forall k :: k in ks <==> k in t.rows && p(t.rows[k])
    ensures forall i, j :: 0 <= i < j < |ks| ==> ks[i] < ks[j]
  {
    Matching(t.rows, p, 1, t.next)
  }

  /** `findOne({ where })`: the matching row with the smallest id, if any. */
  function FindOne<T>(t: Table<T>, p: T -> bool): (r: Option<int>)
    requires Wf(t)
    ensures r.Some? ==> r.value in t.rows && p(t.rows[r.value])
    ensures r.Some? ==> forall k :: k in t.rows && p(t.rows[k]) ==> r.value <= k
    ensures r.None? <==> forall k :: k in t.rows ==> !p(t.rows[k])
  {
    var ks := Where(t, p);
    if ks == [] then None
    else
      assert forall k :: k in ks ==> ks[0] <= k by {
        forall k | k in ks ensures ks[0] <= k {
          var j :| 0 <= j < |ks| && ks[j] == k;
        }
      }
      Some(ks[0])
  }

  /** `findByPk(id)` */
  function FindByPk<T>(t: Table<T>, id: int): (r: Option<T>)
    ensures r.Some? <==> id in t.rows
    ensures r.Some? ==> r.value == t.rows[id]
  {
    if id in t.rows then Some(t.rows[id]) else None
  }

  /** No id is listed twice. */
  predicate Distinct(ks: seq<int>) {
    forall i, j :: 0 <= i < j < |ks| ==> ks[i] != ks[j]
  }

  /** In a list without repeats every id occurs at most once. */
  lemma {:induction false} DistinctOnce(ks: seq<int>, x: int)
    requires Distinct(ks)
    ensures multiset(ks)[x] <= 1
  {
    if ks != [] {
      var tail := ks[1..];
      assert ks == [ks[0]] + tail;
      assert Distinct(tail) by {
        forall i, j | 0 <= i < j < |tail| ensures tail[i] != tail[j] {
          assert tail[i] == ks[i + 1] && tail[j] == ks[j + 1];
        }
      }
      DistinctOnce(tail, x);
      if ks[0] == x {
        assert x !in tail;
      }
    }
  }

  /** A rearrangement of a list without repeats has none either. */
  lemma DistinctRearranged(a: seq<int>, b: seq<int>)
    requires multiset(a) == multiset(b) && Distinct(b)
    ensures Distinct(a)
  {
    forall i, j | 0 <= i < j < |a| ensures a[i] != a[j] {
      if a[i] == a[j] {
        var x := a[i];
        assert a == a[..j] + a[j..];
        assert x in a[..j] && x in a[j..];
        assert multiset(a)[x] == multiset(a[..j])[x] + multiset(a[j..])[x];
        DistinctOnce(b, x);
        assert false;
      }
    }
  }

  // ----- ORDER BY createdAt DESC -----

  /** The `createdAt` of row `k`. */
  function CreatedOf<T>(t: Table<T>, createdAt: T -> int, k: int): int {
    if k in t.rows then createdAt(t.rows[k]) else 0
  }

  /** `ks` is ordered by non-increasing `createdAt`. */
  ghost predicate NewestFirstOrder<T>(t: Table<T>, ks: seq<int>, createdAt: T -> int) {
    forall i, j :: 0 <= i < j < |ks| ==> CreatedOf(t, createdAt, ks[i]) >= CreatedOf(t, createdAt, ks[j])
  }

  /** A bound on `createdAt` that holds for `tail` and for `k` holds for any arrangement of them. */
  lemma {:induction false} CreatedBoundCarries<T>(t: Table<T>, createdAt: T -> int, rest: seq<int>, tail: seq<int>, k: int, bound: int)
    requires multiset(rest) == multiset(tail) + multiset{k}
    requires forall i :: 0 <= i < |tail| ==> CreatedOf(t, createdAt, tail[i]) <= bound
    requires CreatedOf(t, createdAt, k) <= bound
    ensures forall j :: 0 <= j < |rest| ==> CreatedOf(t, createdAt, rest[j]) <= bound
  {
    forall j | 0 <= j < |rest| ensures CreatedOf(t, createdAt, rest[j]) <= bound {
      assert rest[j] in multiset(rest);
      if rest[j] != k {
        assert rest[j] in multiset(tail);
        var i :| 0 <= i < |tail| && tail[i] == rest[j];
      }
    }
  }

  /** Inserts row `k` into a newest-first list before the first older row. */
  function InsertByCreated<T>(t: Table<T>, k: int, ks: seq<int>, createdAt: T -> int): (r: seq<int>)
    requires NewestFirstOrder(t, ks, createdAt)
    ensures NewestFirstOrder(t, r, createdAt)
    ensures multiset(r) == multiset(ks) + multiset{k}
  {
    if ks == [] || CreatedOf(t, createdAt, k) >= CreatedOf(t, createdAt, ks[0]) then [k] + ks
    else
      var tail := ks[1..];
      var rest := InsertByCreated(t, k, tail, createdAt);
      assert ks == [ks[0]] + tail;
      assert forall i :: 0 <= i < |tail| ==> CreatedOf(t, createdAt, tail[i]) <= CreatedOf(t, createdAt, ks[0]) by {
        forall i | 0 <= i < |tail| ensures CreatedOf(t, createdAt, tail[i]) <= CreatedOf(t, createdAt, ks[0]) {
          assert tail[i] == ks[i + 1];
        }
      }
      CreatedBoundCarries(t, createdAt, rest, tail, k, CreatedOf(t, createdAt, ks[0]));
      [ks[0]] + rest
  }

  /**
   * `findAll({ order: [['createdAt', 'DESC']] })` over the rows `ks`: the
   * same ids, each as often as in `ks`, newest first.
   */
  function NewestFirst<T>(t: Table<T>, ks: seq<int>, createdAt: T -> int): (r: seq<int>)
    ensures multiset(r) == multiset(ks)
    ensures NewestFirstOrder(t, r, createdAt)
  {
    if ks == [] then []
    else
      assert ks == [ks[0]] + ks[1..];
      InsertByCreated(t, ks[0], NewestFirst(t, ks[1..], createdAt), createdAt)
  }
}
