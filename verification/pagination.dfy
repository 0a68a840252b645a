/** `PaginationInfo.of`: page metadata derived from a page number, a page
    size and the total number of elements. */
module Pagination {

  datatype PaginationInfo = PaginationInfo(
    page: int,
    size: int,
    totalElements: int,
    totalPages: int,
    hasNext: bool,
    hasPrevious: bool)

  /** The ceiling of the real quotient `total / size`, as `Math.ceil` of a
      floating-point division computes it for values that fit. */
  function CeilDiv(total: nat, size: int): (q: nat)
    requires size >= 1
    ensures total <= q * size
    ensures total > 0 ==> (q - 1) * size < total
    ensures total == 0 ==> q == 0
  {
    var d := total / size;
    assert total == d * size + total % size;
    if total % size == 0 then d else d + 1
  }

  /** For a positive multiplier, `a <= b` iff `a * size <= b * size`. */
  lemma MulMonotone(a: int, b: int, size: int)
    requires size >= 1
    ensures a <= b <==> a * size <= b * size
  {
    if a <= b {
      assert b * size - a * size == (b - a) * size;
    } else {
      assert a * size - b * size == (a - b) * size;
    }
  }

  /** Page `page` of `size` elements is followed by at least one more
      element exactly when the next page starts before the end. */
  function Of(page: int, size: int, totalElements: int): (p: PaginationInfo)
    requires size >= 1 && totalElements >= 0
    ensures p.page == page && p.size == size && p.totalElements == totalElements
    ensures p.totalPages >= 0
    ensures totalElements <= p.totalPages * size
    ensures totalElements > 0 ==> (p.totalPages - 1) * size < totalElements
    ensures totalElements == 0 ==> p.totalPages == 0
    ensures p.hasPrevious <==> page > 0
    ensures p.hasNext <==> (page + 1) * size < totalElements
  {
    var totalPages := CeilDiv(totalElements, size);
    var hasNext := page < totalPages - 1;
    assert hasNext <==> (page + 1) * size < totalElements by {
      MulMonotone(page + 1, totalPages - 1, size);
      MulMonotone(totalPages, page + 1, size);
    }
    PaginationInfo(page, size, totalElements, totalPages, hasNext, page > 0)
  }

  /** The page count is the integer ceiling `(total + size - 1) / size`. */
  lemma TotalPagesIsIntegerCeiling(page: int, size: int, totalElements: int)
    requires size >= 1 && totalElements >= 0
    ensures Of(page, size, totalElements).totalPages == (totalElements + size - 1) / size
  {
    var q := Of(page, size, totalElements).totalPages;
    var n := totalElements + size - 1;
    assert q * size <= n < q * size + size by {
      if totalElements == 0 {
      } else {
        assert (q - 1) * size == q * size - size;
      }
    }
    DivUnique(n, size, q);
  }

  /** `q` is `n / size` whenever `q * size <= n < (q + 1) * size`. */
  lemma DivUnique(n: int, size: int, q: int)
    requires size >= 1
    requires q * size <= n < q * size + size
    ensures n / size == q
  {
    var d := n / size;
    assert n == d * size + n % size;
    MulMonotone(q, d, size);
    MulMonotone(d, q, size);
    assert (d + 1) * size == d * size + size;
    assert (q + 1) * size == q * size + size;
    MulMonotone(q + 1, d, size);
    MulMonotone(d + 1, q, size);
  }

  /** `hasNext` is the comparison with the last page index, so it implies a
      following page exists and is false on the last page, past it, and for
      an empty collection at any page the service can pass (a page below -1
      would report a next page of an empty collection; the service clamps
      the page to 0 or more before calling). */
  lemma HasNextBoundaries(page: int, size: int, totalElements: int)
    requires size >= 1 && totalElements >= 0
    ensures var p := Of(page, size, totalElements);
      && (p.hasNext <==> page < p.totalPages - 1)
      && (p.hasNext ==> page + 1 < p.totalPages)
      && (page >= p.totalPages - 1 ==> !p.hasNext)
      && (totalElements == 0 && page >= -1 ==> !p.hasNext)
  {
    var p := Of(page, size, totalElements);
    MulMonotone(page + 1, p.totalPages - 1, size);
    MulMonotone(p.totalPages, page + 1, size);
  }
}
