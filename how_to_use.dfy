/**
  The step-by-step help dialog for exporting to the registration system:
  a page counter moved by a next and a previous button; next on the last
  page closes the dialog. Both page generations share this logic.
*/
module HowToUse {
  import Config

  /** `Math.min` */
  function Min(a: int, b: int): int {
    if a <= b then a else b
  }

  /** `Math.max` */
  function Max(a: int, b: int): int {
    if a >= b then a else b
  }

  /**
    `nextPage` on page `page` of `total`: the new page, and whether `onHide`
    was called. On the last page the dialog closes and the page stays.
  */
  function Next(page: int, total: int): (r: (int, bool))
    requires 1 <= page <= total
    ensures r.1 <==> page == total
    ensures r.1 ==> r.0 == page
    ensures !r.1 ==> r.0 == page + 1
    ensures 1 <= r.0 <= total
  {
    if page == total then (page, true) else (Min(page + 1, total), false)
  }

  /** `prevPage`: one page back, never before the first. */
  function Prev(page: int): (r: int)
    requires 1 <= page
    ensures page == 1 ==> r == 1
    ensures page > 1 ==> r == page - 1
    ensures 1 <= r <= page
  {
    Max(page - 1, 1)
  }

  /** Next then previous comes back to the page, except on the last page where next closes. */
  lemma PrevUndoesNext(page: int, total: int)
    requires 1 <= page < total
    ensures Prev(Next(page, total).0) == page
  {
  }

  /** Previous then next comes back to the page, except on the first page where previous stays. */
  lemma NextUndoesPrev(page: int, total: int)
    requires 1 < page <= total
    ensures Next(Prev(page), total) == (page, false)
  {
  }

  /** The page reached after pressing next `k` times from page 1 without closing. */
  function Forward(total: int, k: nat): (page: int)
    requires k < total
    ensures page == k + 1
  {
    if k == 0 then 1 else Next(Forward(total, k - 1), total).0
  }

  /** Pressing next `total - 1` times walks through every page; the next press closes the dialog. */
  lemma {:induction false} WalkThrough(total: int)
    requires total >= 1
    ensures Forward(total, total - 1) == total
    ensures Next(Forward(total, total - 1), total) == (total, true)
  {
  }

  /** The help dialog's state. */
  class HowToUseModal {
    var currentPage: int
    var totalPages: int

    /** The page is one of the help steps. */
    predicate Valid()
      reads this
    {
      1 <= currentPage <= totalPages
    }

    /** `howToUseExportCode[currentPage - 1]`: the step shown, always in bounds. */
    function StepIndex(): (i: nat)
      requires Valid()
      reads this
      ensures i < totalPages && i + 1 == currentPage
    {
      currentPage - 1
    }

    /** The previous button is disabled exactly where pressing it would leave the page unchanged. */
    function PrevDisabled(): (d: bool)
      requires Valid()
      reads this
      ensures d <==> Prev(currentPage) == currentPage
    {
      currentPage == 1
    }

    /** The next button reads 完成 exactly where pressing it closes the dialog, 下一頁 where it turns the page. */
    function NextLabel(): (caption: string)
      requires Valid()
      reads this
      ensures caption == "完成" <==> Next(currentPage, totalPages).1
      ensures caption == "下一頁" <==> Next(currentPage, totalPages).0 == currentPage + 1
    {
      if currentPage == totalPages then "完成" else "下一頁"
    }

    /** The dialog starts on the first of `steps` pages. */
    constructor (steps: int)
      requires steps >= 1
      ensures Valid()
      ensures currentPage == 1 && totalPages == steps
    {
      currentPage := 1;
      totalPages := steps;
    }

    /** `nextPage`; `closed` tells whether `onHide` was called. */
    method NextPage() returns (closed: bool)
      requires Valid()
      modifies this
      ensures Valid()
      ensures (currentPage, closed) == Next(old(currentPage), old(totalPages))
      ensures totalPages == old(totalPages)
    {
      if currentPage == totalPages {
        closed := true;
        return;
      }
      closed := false;
      currentPage := Min(currentPage + 1, totalPages);
    }

    /** `prevPage` */
    method PrevPage()
      requires Valid()
      modifies this
      ensures Valid()
      ensures currentPage == Prev(old(currentPage))
      ensures totalPages == old(totalPages)
    {
      currentPage := Max(currentPage - 1, 1);
    }
  }

  /** The older page's dialog has one page per entry of `howToUseExportCode`. */
  method NewOlderPageDialog() returns (m: HowToUseModal)
    ensures fresh(m) && m.Valid()
    ensures m.currentPage == 1 && m.totalPages == Config.HowToUseStepCount
  {
    m := new HowToUseModal(Config.HowToUseStepCount);
  }
}
