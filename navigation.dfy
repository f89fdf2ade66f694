/** The page step of the viewer's `update_page` callback: the first, previous,
    next and last page buttons, and a click on a block link, which jumps to
    the page the parser recorded for that block. */
module Navigation {
  import opened Strings

  /** The component whose click fired the callback. */
  datatype Trigger =
    | FirstPageButton
    | PrevPageButton
    | NextPageButton
    | LastPageButton
    | BlockLink(index: int)
    | OtherComponent

  /** The callback's outcome: no update at all, or the new page with its
      label. */
  datatype PageUpdate = PreventUpdate | Update(page: int, info: string)

  function Max(a: int, b: int): int {
    if a >= b then a else b
  }

  function Min(a: int, b: int): int {
    if a <= b then a else b
  }

  /** `f"Page {new_page} of {total_pages}"`. */
  function PageLabel(page: int, total: int): string {
    "Page " + IntToString(page) + " of " + IntToString(total)
  }

  /** The page shown after `trigger` fires on page `current`. A block link
      looks its block up under `str(index)` and stays put when the block has
      no recorded page. From a page of the document, every step lands on a
      page of the document, as long as the recorded block pages do. */
  function NewPage(trigger: Trigger, current: int, total: int, blockPages: map<string, int>): (r: int)
    ensures 1 <= current <= total && PagesInRange(blockPages, total) ==> 1 <= r <= total
    ensures trigger.FirstPageButton? ==> r == 1
    ensures trigger.LastPageButton? ==> r == total
    ensures trigger.PrevPageButton? ==> r >= 1 && r >= current - 1 && (r == 1 || r == current - 1)
    ensures trigger.NextPageButton? ==> r <= total && r <= current + 1 && (r == total || r == current + 1)
    ensures trigger.OtherComponent? ==> r == current
  {
    match trigger
    case FirstPageButton => 1
    case PrevPageButton => Max(1, current - 1)
    case NextPageButton => Min(total, current + 1)
    case LastPageButton => total
    case BlockLink(i) =>
      var key := IntToString(i);
      if key in blockPages then blockPages[key] else current
    case OtherComponent => current
  }

  /** `update_page`: nothing happens unless a component fired and a paper is
      selected; otherwise the new page and its label. */
  function UpdatePage(triggered: bool, paperSelected: bool, trigger: Trigger, current: int, total: int,
                      blockPages: map<string, int>): (r: PageUpdate)
    ensures r.PreventUpdate? <==> !triggered || !paperSelected
    ensures r.Update? ==> r.page == NewPage(trigger, current, total, blockPages)
    ensures r.Update? ==> r.info == PageLabel(r.page, total)
  {
    if !triggered || !paperSelected then PreventUpdate
    else
      var page := NewPage(trigger, current, total, blockPages);
      Update(page, PageLabel(page, total))
  }

  /** Every page the parser recorded lies in the document. */
  predicate PagesInRange(blockPages: map<string, int>, total: int) {
    forall key :: key in blockPages ==> 1 <= blockPages[key] <= total
  }

  /** The buttons move by at most one page, in their own direction, and stop
      at the first and the last page. */
  lemma {:induction false} ButtonsMoveOnePage(current: int, total: int, blockPages: map<string, int>)
    requires 1 <= current <= total
    ensures var prev := NewPage(PrevPageButton, current, total, blockPages);
      && (current > 1 ==> prev == current - 1)
      && (current == 1 ==> prev == 1)
    ensures var next := NewPage(NextPageButton, current, total, blockPages);
      && (current < total ==> next == current + 1)
      && (current == total ==> next == total)
  {
  }

  /** Next then previous, or previous then next, away from the ends, returns
      to the page started from. */
  lemma {:induction false} PrevUndoesNext(current: int, total: int, blockPages: map<string, int>)
    requires 1 <= current < total
    ensures NewPage(PrevPageButton, NewPage(NextPageButton, current, total, blockPages), total, blockPages) == current
    ensures NewPage(NextPageButton, NewPage(PrevPageButton, current + 1, total, blockPages), total, blockPages) == current + 1
  {
  }

  /** Jumping to the first or last page, or to a block's page, twice is the
      same as once. */
  lemma {:induction false} JumpsIdempotent(trigger: Trigger, current: int, total: int, blockPages: map<string, int>)
    requires trigger.FirstPageButton? || trigger.LastPageButton? || trigger.BlockLink?
    ensures var once := NewPage(trigger, current, total, blockPages);
      NewPage(trigger, once, total, blockPages) == once
  {
  }

  /** A block link jumps to the block's recorded page, and leaves the page
      alone when the block has none. */
  lemma {:induction false} BlockLinkPage(i: int, current: int, total: int, blockPages: map<string, int>)
    ensures IntToString(i) in blockPages ==>
      NewPage(BlockLink(i), current, total, blockPages) == blockPages[IntToString(i)]
    ensures IntToString(i) !in blockPages ==>
      NewPage(BlockLink(i), current, total, blockPages) == current
  {
  }
}
