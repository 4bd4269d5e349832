// Scans over a table keyed by a serial id, in ascending id order. They give
// the model's answer to a `WHERE` on a column that is not the key.
module Rows {
  import opened Wrappers

  /** The keys of a serial-id table lie in `[1, next)`. */
  predicate KeysBelow<T>(rows: map<int, T>, next: int)
  {
    forall k :: k in rows ==> 1 <= k < next
  }

  /** The lowest id in `[lo, hi)` whose row satisfies `p`. */
  function FindFirst<T>(rows: map<int, T>, p: T -> bool, lo: int, hi: int): (r: Option<int>)
    decreases hi - lo
    ensures r.Some? ==> lo <= r.value < hi && r.value in rows && p(rows[r.value])
    ensures r.Some? ==> forall k :: lo <= k < r.value && k in rows ==> !p(rows[k])
    ensures r.None? ==> forall k :: lo <= k < hi && k in rows ==> !p(rows[k])
  {
    if lo >= hi then None
    else if lo in rows && p(rows[lo]) then Some(lo)
    else FindFirst(rows, p, lo + 1, hi)
  }

  /** Every id in `[lo, hi)` whose row satisfies `p`, ascending. */
  function Ascending<T>(rows: map<int, T>, p: T -> bool, lo: int, hi: int): (r: seq<int>)
    decreases hi - lo
    ensures forall i :: 0 <= i < |r| ==> lo <= r[i] < hi && r[i] in rows && p(rows[r[i]])
    ensures forall i, j :: 0 <= i < j < |r| ==> r[i] < r[j]
    ensures forall k :: lo <= k < hi && k in rows && p(rows[k]) ==> k in r
  {
    if lo >= hi then []
    else if lo in rows && p(rows[lo]) then [lo] + Ascending(rows, p, lo + 1, hi)
    else Ascending(rows, p, lo + 1, hi)
  }

  /** The rows of the given ids, in the order of the ids. */
  function Pick<T>(rows: map<int, T>, ids: seq<int>): (r: seq<T>)
    requires forall i :: 0 <= i < |ids| ==> ids[i] in rows
    ensures |r| == |ids| && forall i :: 0 <= i < |r| ==> r[i] == rows[ids[i]]
  {
    seq(|ids|, i requires 0 <= i < |ids| => rows[ids[i]])
  }

  /** `SELECT * ... WHERE p ORDER BY id`: the matching rows in ascending id order. */
  function Where<T>(rows: map<int, T>, p: T -> bool, next: int): (r: seq<T>)
  {
    Pick(rows, Ascending(rows, p, 1, next))
  }

  /** `Where` returns exactly the matching rows of the table. */
  lemma WhereExact<T>(rows: map<int, T>, p: T -> bool, next: int, x: T)
    requires KeysBelow(rows, next)
    ensures x in Where(rows, p, next) <==> exists k :: k in rows && rows[k] == x && p(x)
  {
    var ids := Ascending(rows, p, 1, next);
    var r := Where(rows, p, next);
    if x in r {
      var i :| 0 <= i < |r| && r[i] == x;
      assert rows[ids[i]] == x;
    }
    if exists k :: k in rows && rows[k] == x && p(x) {
      var k :| k in rows && rows[k] == x && p(x);
      assert k in ids;
      var i :| 0 <= i < |ids| && ids[i] == k;
      assert r[i] == x;
    }
  }

  // Tables without a key column are kept as a sequence of rows in insertion order.

  /** `DELETE ... WHERE NOT p` on a keyless table: the rows that satisfy `p`, in order. */
  function Filter<T>(s: seq<T>, p: T -> bool): (r: seq<T>)
    ensures |r| <= |s|
    ensures forall i :: 0 <= i < |r| ==> r[i] in s && p(r[i])
    ensures forall i :: 0 <= i < |s| && p(s[i]) ==> s[i] in r
  {
    if s == [] then [] else (if p(s[0]) then [s[0]] else []) + Filter(s[1..], p)
  }

  /** `Filter` keeps exactly the rows that satisfy `p`. */
  lemma FilterExact<T>(s: seq<T>, p: T -> bool, x: T)
    ensures x in Filter(s, p) <==> x in s && p(x)
  {
    if x in s && p(x) {
      var i :| 0 <= i < |s| && s[i] == x;
    }
  }

  /** The position of the first row that satisfies `p`. */
  function IndexWhere<T>(s: seq<T>, p: T -> bool): (r: Option<nat>)
    ensures r.Some? ==> r.value < |s| && p(s[r.value]) && forall j :: 0 <= j < r.value ==> !p(s[j])
    ensures r.None? <==> forall i :: 0 <= i < |s| ==> !p(s[i])
  {
    if s == [] then None
    else if p(s[0]) then Some(0)
    else match IndexWhere(s[1..], p)
      case Some(i) => Some(i + 1)
      case None => None
  }

  /** The first row that satisfies `p` (a `fetch_optional` over a keyless table). */
  function FirstWhere<T>(s: seq<T>, p: T -> bool): (r: Option<T>)
    ensures r.Some? ==> r.value in s && p(r.value)
    ensures r.None? <==> forall i :: 0 <= i < |s| ==> !p(s[i])
  {
    match IndexWhere(s, p)
    case Some(i) => Some(s[i])
    case None => None
  }

  /** Two tables with rows that agree on `p` position by position have their first match at the same place. */
  lemma {:induction false} IndexWhereAgrees<T>(s: seq<T>, s': seq<T>, p: T -> bool)
    requires |s| == |s'| && forall i :: 0 <= i < |s| ==> p(s[i]) == p(s'[i])
    ensures IndexWhere(s, p) == IndexWhere(s', p)
  {
    if s != [] && !p(s[0]) {
      IndexWhereAgrees(s[1..], s'[1..], p);
    }
  }
}
