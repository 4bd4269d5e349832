// `LIMIT ... OFFSET ...` over an ordered query result, with PostgreSQL's
// refusal of a negative limit or offset, and the `i64` arithmetic the
// paged finders use to compute the offset.
module Paging {
  import opened Wrappers

  function Min(a: int, b: int): int { if a <= b then a else b }

  const I64_MIN: int := -0x8000_0000_0000_0000
  const I64_MAX: int := 0x7FFF_FFFF_FFFF_FFFF

  predicate IsI64(x: int) { I64_MIN <= x <= I64_MAX }

  /**
   * An `i64` result as a release build computes it: wrapped modulo 2^64
   * back into the `i64` range. A value already in range is unchanged.
   */
  function WrapI64(x: int): (r: int)
    ensures IsI64(r)
    ensures IsI64(x) ==> r == x
    ensures (x - r) % 0x1_0000_0000_0000_0000 == 0
  {
    (x - I64_MIN) % 0x1_0000_0000_0000_0000 + I64_MIN
  }

  /**
   * The paged finders' `(page_number - 1) * results_per_page`, computed in
   * `i64`. It is the plain product whenever neither step overflows.
   */
  function Offset(perPage: int, page: int): (r: int)
    ensures IsI64(r)
    ensures NoOverflow(perPage, page) ==> r == (page - 1) * perPage
  {
    WrapI64(WrapI64(page - 1) * perPage)
  }

  /** Neither step of the page offset overflows `i64`. */
  predicate NoOverflow(perPage: int, page: int)
  {
    IsI64(page - 1) && IsI64((page - 1) * perPage)
  }

  /** How many rows `LIMIT limit OFFSET offset` returns from `total` rows. */
  function PageSize(total: int, limit: int, offset: int): int
  {
    if offset >= total then 0 else Min(limit, total - offset)
  }

  /** `LIMIT limit OFFSET offset`; `None` is the database error for a negative bound. */
  function Page<T>(rows: seq<T>, limit: int, offset: int): (r: Option<seq<T>>)
    ensures r.None? <==> limit < 0 || offset < 0
    ensures r.Some? ==> |r.value| == PageSize(|rows|, limit, offset)
    ensures r.Some? ==> forall j :: 0 <= j < |r.value| ==> offset + j < |rows| && r.value[j] == rows[offset + j]
  {
    if limit < 0 || offset < 0 then None
    else if offset >= |rows| then Some([])
    else Some(rows[offset .. Min(offset + limit, |rows|)])
  }

  /**
   * A numbered page: `LIMIT per_page OFFSET (page - 1) * per_page`, the
   * offset taken in `i64`. It fails iff the limit or the offset is negative,
   * and otherwise holds exactly the rows from that offset, at most `perPage`.
   */
  function NumberedPage<T>(rows: seq<T>, perPage: int, page: int): (r: Option<seq<T>>)
    ensures r.None? <==> perPage < 0 || Offset(perPage, page) < 0
    ensures r.Some? ==> |r.value| == PageSize(|rows|, perPage, Offset(perPage, page))
    ensures r.Some? ==> forall j :: 0 <= j < |r.value| ==>
      (Offset(perPage, page) + j < |rows| && r.value[j] == rows[Offset(perPage, page) + j])
  {
    Page(rows, perPage, Offset(perPage, page))
  }

  /**
   * With 20 rows per page, page 2^62 + 1 wraps to offset 0: a release build
   * answers it with the first page, and so does page -2^62 + 1.
   */
  lemma OverflowingPageIsFirstPage<T>(rows: seq<T>)
    ensures NumberedPage(rows, 20, 0x4000_0000_0000_0001) == NumberedPage(rows, 20, 1)
    ensures NumberedPage(rows, 20, -0x3FFF_FFFF_FFFF_FFFF) == NumberedPage(rows, 20, 1)
  {
    assert Offset(20, 0x4000_0000_0000_0001) == 0 by {
      assert WrapI64(0x4000_0000_0000_0000) == 0x4000_0000_0000_0000;
      assert 0x4000_0000_0000_0000 * 20 == 5 * 0x1_0000_0000_0000_0000;
    }
    assert Offset(20, -0x3FFF_FFFF_FFFF_FFFF) == 0 by {
      assert WrapI64(-0x4000_0000_0000_0000) == -0x4000_0000_0000_0000;
      assert -0x4000_0000_0000_0000 * 20 == -5 * 0x1_0000_0000_0000_0000;
    }
  }

  /** Without overflow, the `i64` offset is the plain one and a numbered page is the plain `LIMIT`/`OFFSET` page. */
  lemma NumberedPageWithoutOverflow<T>(rows: seq<T>, perPage: int, page: int)
    requires NoOverflow(perPage, page)
    ensures NumberedPage(rows, perPage, page) == Page(rows, perPage, (page - 1) * perPage)
  {
  }

  /**
   * Pages `1..n` read one after another, each at the offset
   * `(k - 1) * perPage`; while that offset fits in `i64` they are the
   * numbered pages (`NumberedPageWithoutOverflow`).
   */
  function FirstPages<T>(rows: seq<T>, perPage: int, n: nat): seq<T>
    requires perPage > 0
  {
    if n == 0 then [] else FirstPages(rows, perPage, n - 1) + Page(rows, perPage, (n - 1) * perPage).value
  }

  /**
   * Pages tile the result: reading pages `1..n` gives the first
   * `n * perPage` rows, each once and in order, with no gap and no overlap.
   */
  lemma {:induction false} FirstPagesArePrefix<T>(rows: seq<T>, perPage: int, n: nat)
    requires perPage > 0
    ensures FirstPages(rows, perPage, n) == rows[..Min(n * perPage, |rows|)]
  {
    if n > 0 {
      FirstPagesArePrefix(rows, perPage, n - 1);
      var lo := (n - 1) * perPage;
      assert n * perPage == lo + perPage;
      if lo < |rows| {
        assert Page(rows, perPage, lo).value == rows[lo .. Min(lo + perPage, |rows|)];
        assert rows[..lo] + rows[lo .. Min(lo + perPage, |rows|)] == rows[..Min(lo + perPage, |rows|)];
      } else {
        assert Page(rows, perPage, lo).value == [];
      }
    }
  }

  /** Enough pages deliver the whole result. */
  lemma AllPagesGiveEverything<T>(rows: seq<T>, perPage: int, n: nat)
    requires perPage > 0 && n * perPage >= |rows|
    ensures FirstPages(rows, perPage, n) == rows
  {
    FirstPagesArePrefix(rows, perPage, n);
    assert rows[..|rows|] == rows;
  }
}
