/** The `limit: 10, offset: (page - 1) * 10` paging shared by both index queries. */
module Paging {

  /** Rows per page. */
  const PAGE_SIZE: nat := 10

  /** The page requested, `page = 1` when the query string has none. */
  datatype PageParam = DefaultPage | PageNumber(n: int)

  function PageOf(p: PageParam): (n: int)
    ensures p.DefaultPage? ==> n == 1
    ensures p.PageNumber? ==> n == p.n
  {
    match p
    case DefaultPage => 1
    case PageNumber(n) => n
  }

  /** `(page - 1) * 10`; negative for a page below 1. The literal keeps the
      product linear for the solver; it is PAGE_SIZE (see `OffsetAligned`). */
  function Offset(page: int): (off: int)
    ensures off >= 0 <==> page >= 1
  {
    (page - 1) * 10
  }

  /** Page `page` starts on a page boundary: its offset is the (page - 1)-th
      multiple of PAGE_SIZE. */
  lemma OffsetAligned(page: int)
    requires page >= 1
    ensures Offset(page) / PAGE_SIZE == page - 1 && Offset(page) % PAGE_SIZE == 0
  {
  }

  /** How many of `total` rows a page starting at row `offset` shows:
      the rows left after the offset, but at most PAGE_SIZE. */
  function PageLength(total: nat, offset: nat): (n: nat)
    ensures n <= PAGE_SIZE
    ensures n == 0 <==> offset >= total
    ensures offset + n <= total || n == 0
  {
    if offset >= total then 0
    else if total - offset < PAGE_SIZE then total - offset
    else PAGE_SIZE
  }

  /** At most PAGE_SIZE rows of s, starting at row `offset`. */
  function Slice<T>(s: seq<T>, offset: nat): (r: seq<T>)
    ensures |r| <= PAGE_SIZE
    ensures |r| == PageLength(|s|, offset)
    ensures forall k :: 0 <= k < |r| ==> r[k] == s[offset + k]
  {
    if offset >= |s| then []
    else if |s| - offset < PAGE_SIZE then s[offset..]
    else s[offset..offset + PAGE_SIZE]
  }

  /** Paging loses no row: row i of s is row i % 10 of page i / 10 + 1. */
  lemma {:induction false} EveryRowOnAPage<T>(s: seq<T>, i: nat)
    requires i < |s|
    ensures var page := i / PAGE_SIZE + 1;
      Offset(page) >= 0 &&
      i % PAGE_SIZE < |Slice(s, Offset(page))| &&
      Slice(s, Offset(page))[i % PAGE_SIZE] == s[i]
  {
    var page := i / PAGE_SIZE + 1;
    assert Offset(page) == (i / PAGE_SIZE) * PAGE_SIZE;
    assert Offset(page) + i % PAGE_SIZE == i;
  }

  /** Paging repeats no row: different pages show different rows of s. */
  lemma PagesDisjoint<T>(s: seq<T>, p: int, q: int, j: nat, k: nat)
    requires 1 <= p < q
    requires j < |Slice(s, Offset(p))| && k < |Slice(s, Offset(q))|
    ensures Offset(p) + j < Offset(q) + k < |s|
  {
    assert Offset(q) - Offset(p) == (q - p) * 10;
  }
}
