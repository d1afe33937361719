/**
 Offset pagination shared by the list routes: `page` and `limit` come from
 the query string (with defaults), and the database is asked for the
 inclusive row range `from..to` with `from = (page - 1) * limit` and
 `to = from + limit - 1`.
 */
module Paging {
  import opened Optional
  import opened JsValues

  /** `searchParams.get(name) || fallback`: a missing or empty parameter takes the fallback. */
  function ParamOr(param: Option<string>, fallback: string): (s: string)
    ensures param.Some? && param.value != "" ==> s == param.value
    ensures param.None? || param.value == "" ==> s == fallback
  {
    if param.Some? && param.value != "" then param.value else fallback
  }

  /** The requested page and the row range it asks for. */
  datatype Window = Window(page: int, limit: int, from: int, to: int)

  /** The offset `(page - 1) * limit` of a page's first row, counted out page
      by page from page 1 (offset 0) so that it stays linear; `FromIsProduct`
      shows it is the product. */
  function From(page: int, limit: int): (from: int)
    ensures page >= 1 && limit >= 0 ==> from >= 0
    decreases if page < 1 then 1 - page else page - 1
  {
    if page == 1 then 0
    else if page > 1 then From(page - 1, limit) + limit
    else From(page + 1, limit) - limit
  }

  function To(page: int, limit: int): int {
    From(page, limit) + limit - 1
  }

  /** The window of a parsed page and limit. */
  function MakeWindow(page: int, limit: int): (w: Window)
    ensures w.page == page && w.limit == limit
    ensures w.to - w.from + 1 == w.limit
    ensures w.from == From(page, limit)
  {
    Window(page, limit, From(page, limit), To(page, limit))
  }

  /** The window for the query parameters, or `None` when either parameter
      parses to `NaN`. */
  function PageWindow(pageParam: Option<string>, limitParam: Option<string>,
                      defaultLimit: nat, radix: Radix): (w: Option<Window>)
    ensures w.Some? <==>
              ParseInt(ParamOr(pageParam, "1"), radix).Some?
              && ParseInt(ParamOr(limitParam, DecimalString(defaultLimit)), radix).Some?
    ensures w.Some? ==>
              w.value == MakeWindow(ParseInt(ParamOr(pageParam, "1"), radix).value,
                                    ParseInt(ParamOr(limitParam, DecimalString(defaultLimit)), radix).value)
  {
    var page := ParseInt(ParamOr(pageParam, "1"), radix);
    var limit := ParseInt(ParamOr(limitParam, DecimalString(defaultLimit)), radix);
    if page.None? || limit.None? then None
    else Some(MakeWindow(page.value, limit.value))
  }

  /** A missing or empty `page` means page 1. */
  lemma DefaultPage(pageParam: Option<string>, radix: Radix)
    requires pageParam.None? || pageParam.value == ""
    ensures ParseInt(ParamOr(pageParam, "1"), radix) == Some(1)
  {
    ParseIntOfDecimal(1, radix);
    assert DecimalString(1) == "1";
  }

  /** A missing or empty `limit` means the route's default. */
  lemma DefaultLimit(limitParam: Option<string>, defaultLimit: nat, radix: Radix)
    requires limitParam.None? || limitParam.value == ""
    ensures ParseInt(ParamOr(limitParam, DecimalString(defaultLimit)), radix) == Some(defaultLimit)
  {
    ParseIntOfDecimal(defaultLimit, radix);
  }

  /** Without parameters the first page of the default size is asked for. */
  lemma DefaultWindow(pageParam: Option<string>, limitParam: Option<string>, defaultLimit: nat, radix: Radix)
    requires pageParam.None? || pageParam.value == ""
    requires limitParam.None? || limitParam.value == ""
    ensures PageWindow(pageParam, limitParam, defaultLimit, radix)
              == Some(Window(1, defaultLimit, 0, defaultLimit - 1))
  {
    DefaultPage(pageParam, radix);
    DefaultLimit(limitParam, defaultLimit, radix);
    assert MakeWindow(1, defaultLimit) == Window(1, defaultLimit, 0, defaultLimit - 1);
  }

  /** The rows at positions `from` to `to` of the ordered rows that exist:
      what the database returns for a `.range(from, to)` it serves. A range with
      `to < from` gives no rows; for `to == from - 1` (a limit of 0) that is the
      database's answer, while a range with `to < from - 1` (a negative limit)
      is one the database refuses, so callers do not pass it (see `Fetch`). */
  function RangeRows<T>(rows: seq<T>, from: int, to: int): (r: seq<T>)
    requires 0 <= from
    ensures |r| <= if to < from then 0 else to - from + 1
    ensures forall k :: 0 <= k < |r| ==> from + k <= to && from + k < |rows| && r[k] == rows[from + k]
    ensures to < |rows| && from <= to + 1 ==> |r| == to - from + 1
  {
    if to < from || from >= |rows| then []
    else rows[from..if to + 1 < |rows| then to + 1 else |rows|]
  }

  /** The offset is the product the handlers compute. */
  lemma {:induction false} FromIsProduct(page: int, limit: int)
    ensures From(page, limit) == (page - 1) * limit
    decreases if page < 1 then 1 - page else page - 1
  {
    if page > 1 {
      FromIsProduct(page - 1, limit);
      assert (page - 1) * limit == (page - 2) * limit + limit;
    } else if page < 1 {
      FromIsProduct(page + 1, limit);
      assert (page - 1) * limit == page * limit - limit;
    }
  }

  /** From page 1 on, with a non-negative limit, the offset is never negative. */
  lemma {:induction false} FromNonNegative(page: int, limit: int)
    requires page >= 1 && limit >= 0
    ensures From(page, limit) >= 0
    decreases page
  {
    if page > 1 {
      FromNonNegative(page - 1, limit);
    }
  }

  /** Texts that `parseInt` reads as `p` and `l` ask for the window of page
      `p` with `l` rows per page, whatever follows their digits. */
  lemma ParsedWindow(pageText: string, limitText: string, p: int, l: int, defaultLimit: nat, radix: Radix)
    requires ParseInt(pageText, radix) == Some(p)
    requires ParseInt(limitText, radix) == Some(l)
    ensures PageWindow(Some(pageText), Some(limitText), defaultLimit, radix)
            == Some(Window(p, l, From(p, l), To(p, l)))
  {
    ParseIntOfEmpty(radix);
    assert ParamOr(Some(pageText), "1") == pageText;
    assert ParamOr(Some(limitText), DecimalString(defaultLimit)) == limitText;
    assert PageWindow(Some(pageText), Some(limitText), defaultLimit, radix) == Some(MakeWindow(p, l));
  }

  /** Page and limit written as decimal numbers ask for exactly that window. */
  lemma NumberedWindow(p: nat, l: nat, defaultLimit: nat, radix: Radix)
    ensures PageWindow(Some(DecimalString(p)), Some(DecimalString(l)), defaultLimit, radix)
            == Some(Window(p, l, From(p, l), To(p, l)))
  {
    ParseIntOfDecimal(p, radix);
    ParseIntOfDecimal(l, radix);
    ParsedWindow(DecimalString(p), DecimalString(l), p, l, defaultLimit, radix);
  }

  /** What a database that answers `.range(from, to)` faithfully returns for a
      window, and `otherwise` for a window it cannot answer this way (a `NaN`
      parameter, a negative offset, or a negative number of rows
      `to - from + 1`; what the database does then is not modelled). */
  function Fetch<T>(rows: seq<T>, w: Option<Window>, otherwise: seq<T>): seq<T> {
    if w.Some? && w.value.from >= 0 && w.value.to - w.value.from + 1 >= 0 then RangeRows(rows, w.value.from, w.value.to)
    else otherwise
  }

  /** Page `page + 1` starts right where page `page` ends. */
  lemma NextPageFollows(page: int, limit: int)
    ensures From(page + 1, limit) == To(page, limit) + 1
  {
    assert From(page + 1, limit) == From(page, limit) + limit;
  }

  /** An earlier page ends before a later page starts, so pages never overlap. */
  lemma {:induction false} PagesDisjoint(p: int, q: int, limit: int)
    requires p < q
    requires limit >= 0
    ensures To(p, limit) < From(q, limit)
    decreases q - p
  {
    NextPageFollows(p, limit);
    if p + 1 < q {
      PagesDisjoint(p + 1, q, limit);
    }
  }

  /** The rows a range asks for, as one slice of the table. */
  lemma RangeRowsSlice<T>(rows: seq<T>, from: int, to: int)
    requires 0 <= from <= to + 1
    ensures var lo := if from < |rows| then from else |rows|;
            var hi := if to + 1 < |rows| then to + 1 else |rows|;
            lo <= hi && RangeRows(rows, from, to) == rows[lo..hi]
  {
  }

  /** Two adjacent ranges together are the range spanning both. */
  lemma RangeRowsAdjacent<T>(rows: seq<T>, from: int, mid: int, to: int)
    requires 0 <= from <= mid + 1 <= to + 1
    ensures RangeRows(rows, from, mid) + RangeRows(rows, mid + 1, to) == RangeRows(rows, from, to)
  {
    RangeRowsSlice(rows, from, mid);
    RangeRowsSlice(rows, mid + 1, to);
    RangeRowsSlice(rows, from, to);
  }

  /** Two consecutive pages together are exactly the range spanning both. */
  lemma ConsecutivePages<T>(rows: seq<T>, page: int, limit: int)
    requires page >= 1 && limit >= 0
    ensures From(page, limit) >= 0
    ensures RangeRows(rows, From(page, limit), To(page, limit))
            + RangeRows(rows, From(page + 1, limit), To(page + 1, limit))
            == RangeRows(rows, From(page, limit), To(page + 1, limit))
  {
    FromNonNegative(page, limit);
    NextPageFollows(page, limit);
    RangeRowsAdjacent(rows, From(page, limit), To(page, limit), To(page + 1, limit));
  }

  /** Fetching the windows of two consecutive pages gives the range spanning both. */
  lemma ConsecutiveFetches<T>(rows: seq<T>, w: Option<Window>, next: Option<Window>, otherwise: seq<T>,
                              page: int, limit: int)
    requires page >= 1 && limit >= 0
    requires w == Some(Window(page, limit, From(page, limit), To(page, limit)))
    requires next == Some(Window(page + 1, limit, From(page + 1, limit), To(page + 1, limit)))
    ensures From(page, limit) >= 0
    ensures Fetch(rows, w, otherwise) + Fetch(rows, next, otherwise)
            == RangeRows(rows, From(page, limit), To(page + 1, limit))
  {
    FromNonNegative(page, limit);
    FromNonNegative(page + 1, limit);
    ConsecutivePages(rows, page, limit);
  }

  /** All rows of the first `k` pages, in order. */
  function FirstPages<T>(rows: seq<T>, k: nat, limit: nat): seq<T> {
    if k == 0 then []
    else
      assert From(k, limit) >= 0 by { FromNonNegative(k, limit); }
      FirstPages(rows, k - 1, limit) + RangeRows(rows, From(k, limit), To(k, limit))
  }

  /** What a client sees reading pages 1 to `k` one after another, where
      `read(j)` is what it is shown for page `j`. */
  function PagesRead<T>(read: nat -> seq<T>, k: nat): seq<T> {
    if k == 0 then [] else PagesRead(read, k - 1) + read(k)
  }

  /** A client shown each page's window reads exactly the first `k` pages. */
  lemma {:induction false} PagesReadAreFirstPages<T>(rows: seq<T>, read: nat -> seq<T>, k: nat, limit: nat)
    requires forall j: nat {:trigger read(j)} :: 1 <= j <= k ==> From(j, limit) >= 0 && read(j) == RangeRows(rows, From(j, limit), To(j, limit))
    ensures PagesRead(read, k) == FirstPages(rows, k, limit)
  {
    if k > 0 {
      PagesReadAreFirstPages(rows, read, k - 1, limit);
      assert read(k) == RangeRows(rows, From(k, limit), To(k, limit));
    }
  }

  /** Reading pages 1 to `k` one after another yields the first `k * limit`
      rows (or all of them), each once and in order: nothing is skipped or
      repeated. */
  lemma {:induction false} FirstPagesArePrefix<T>(rows: seq<T>, k: nat, limit: nat)
    ensures FirstPages(rows, k, limit) == rows[..if k * limit < |rows| then k * limit else |rows|]
  {
    if k > 0 {
      PageEnds(k, limit);
      var lo := From(k, limit);
      var hi := To(k, limit) + 1;
      FirstPagesArePrefix(rows, k - 1, limit);
      FirstPagesStep(rows, k, limit, if lo < |rows| then lo else |rows|, if hi < |rows| then hi else |rows|);
    }
  }

  /** Page `k` continues the rows of the pages before it. */
  lemma FirstPagesStep<T>(rows: seq<T>, k: nat, limit: nat, a: nat, b: nat)
    requires k >= 1 && a <= b <= |rows|
    requires From(k, limit) >= 0
    requires FirstPages(rows, k - 1, limit) == rows[..a]
    requires RangeRows(rows, From(k, limit), To(k, limit)) == rows[a..b]
    ensures FirstPages(rows, k, limit) == rows[..b]
  {
    assert FirstPages(rows, k, limit) == FirstPages(rows, k - 1, limit) + RangeRows(rows, From(k, limit), To(k, limit));
    assert rows[..a] + rows[a..b] == rows[..b];
  }

  /** Page `k` covers the offsets from `(k - 1) * limit` up to `k * limit`. */
  lemma PageEnds(k: nat, limit: nat)
    requires k >= 1
    ensures From(k, limit) == (k - 1) * limit >= 0
    ensures To(k, limit) + 1 == k * limit
  {
    FromIsProduct(k, limit);
    assert k * limit == (k - 1) * limit + limit;
  }
}
