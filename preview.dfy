/** The page preview of the main window (src/MainWindow.xaml.cs): after a
    question the pages used are kept in a list, a cursor picks the page on
    show, the Previous and Next buttons step the cursor, and each button is
    enabled only where its step would move. */
module Preview {
  import opened Chunker
  import opened Prompt

  datatype Option<T> = None | Some(value: T)

  /** The cursor state the window keeps: no list before the first question
      (the list is `null`, the index `-1`); once a question was asked, an
      index inside the list, or 0 when the list is empty. */
  predicate CursorValid(index: int, pages: Option<seq<uint32>>) {
    match pages
    case None => index == -1
    case Some(ps) => if ps == [] then index == 0 else 0 <= index < |ps|
  }

  /** `PreviousPageButton_Click`: nothing when the index is at or below 0,
      otherwise one page back. */
  function PreviousIndex(index: int): int {
    if index <= 0 then index else index - 1
  }

  /** `NextPageButton_Click`: nothing when there is no list or the index is
      at or past its last position, otherwise one page on. */
  function NextIndex(index: int, pages: Option<seq<uint32>>): int {
    if pages.None? || index >= |pages.value| - 1 then index else index + 1
  }

  /** `UpdatePreviousAndNextPageButtonEnabled`, the Previous button. */
  function PreviousEnabled(index: int, pages: Option<seq<uint32>>): bool {
    if pages.None? || |pages.value| == 0 then false else index > 0
  }

  /** `UpdatePreviousAndNextPageButtonEnabled`, the Next button. */
  function NextEnabled(index: int, pages: Option<seq<uint32>>): bool {
    if pages.None? || |pages.value| == 0 then false else index < |pages.value| - 1
  }

  /** Both steps keep the cursor valid, so a page is shown only from inside
      the list. */
  lemma StepsKeepCursorValid(index: int, pages: Option<seq<uint32>>)
    requires CursorValid(index, pages)
    ensures CursorValid(PreviousIndex(index), pages)
    ensures CursorValid(NextIndex(index, pages), pages)
    ensures pages.Some? && pages.value != [] ==> 0 <= index < |pages.value|
  {
  }

  /** On a valid cursor each button is enabled exactly when its step moves
      the cursor; both are disabled while there is no list or it is empty. */
  lemma EnabledIffStepMoves(index: int, pages: Option<seq<uint32>>)
    requires CursorValid(index, pages)
    ensures PreviousEnabled(index, pages) <==> PreviousIndex(index) != index
    ensures NextEnabled(index, pages) <==> NextIndex(index, pages) != index
    ensures pages.None? || pages.value == [] ==>
      !PreviousEnabled(index, pages) && !NextEnabled(index, pages)
  {
  }

  /** A step back that moves is undone by a step on, and the other way
      round. */
  lemma StepsUndoEachOther(index: int, pages: Option<seq<uint32>>)
    requires CursorValid(index, pages)
    ensures PreviousIndex(index) != index ==> NextIndex(PreviousIndex(index), pages) == index
    ensures NextIndex(index, pages) != index ==> PreviousIndex(NextIndex(index, pages)) == index
  {
  }

  /** The search is awaited between resetting the cursor and replacing the
      list: a Next click in between moves the cursor along the old list,
      and a shorter new list then leaves it outside, where the page lookup
      of `UpdatePdfImageAsync` would fail. */
  lemma NextDuringSearchBreaksCursor(a: uint32, b: uint32, c: uint32)
    ensures CursorValid(0, Some([a, b]))
    ensures NextIndex(0, Some([a, b])) == 1
    ensures !CursorValid(NextIndex(0, Some([a, b])), Some([c]))
  {
  }

  /** The window's preview state. */
  class PagePreview {
    var index: int
    var pages: Option<seq<uint32>>

    predicate Valid()
      reads this
    {
      CursorValid(index, pages)
    }

    /** The window opens with no list and the index at -1. */
    constructor()
      ensures index == -1 && pages == None
      ensures Valid()
    {
      index := -1;
      pages := None;
    }

    /** The question handler, up to the search (line 228): the cursor goes
        back to the first page while the list of the previous question, if
        any, stays. */
    method BeginQuestion()
      modifies this
      ensures index == 0 && pages == old(pages)
    {
      index := 0;
    }

    /** The question handler, once the search is back (line 240): the list
        becomes the pages used by the search `results`, whatever the cursor
        became meanwhile. The cursor is valid afterwards exactly when it
        lies inside the new list, or is 0 for an empty one. */
    method ShowPagesUsed(results: seq<TextChunk>)
      modifies this
      ensures pages == Some(PagesUsed(results)) && index == old(index)
      ensures Valid() <==>
        if PagesUsed(results) == [] then index == 0 else 0 <= index < |PagesUsed(results)|
      ensures old(index) == 0 ==> Valid()
    {
      pages := Some(PagesUsed(results));
    }

    /** The question handler when no button is clicked during the search:
        the cursor is on the first page of the new list. */
    method Ask(results: seq<TextChunk>)
      modifies this
      ensures index == 0 && pages == Some(PagesUsed(results))
      ensures Valid()
    {
      BeginQuestion();
      ShowPagesUsed(results);
    }

    /** `PreviousPageButton_Click`. */
    method Previous()
      modifies this
      ensures index == PreviousIndex(old(index)) && pages == old(pages)
      ensures old(Valid()) ==> Valid()
    {
      if index <= 0 {
        return;
      }
      index := index - 1;
    }

    /** `NextPageButton_Click`. */
    method Next()
      modifies this
      ensures index == NextIndex(old(index), old(pages)) && pages == old(pages)
      ensures old(Valid()) ==> Valid()
    {
      if pages.None? || index >= |pages.value| - 1 {
        return;
      }
      index := index + 1;
    }

    /** The enablement of the two buttons, as the window sets it: in a valid
        state a button is enabled exactly when clicking it moves the cursor. */
    method ButtonsEnabled() returns (previous: bool, next: bool)
      ensures previous == PreviousEnabled(index, pages)
      ensures next == NextEnabled(index, pages)
      ensures Valid() ==> (previous <==> PreviousIndex(index) != index)
      ensures Valid() ==> (next <==> NextIndex(index, pages) != index)
    {
      previous := PreviousEnabled(index, pages);
      next := NextEnabled(index, pages);
      if Valid() {
        EnabledIffStepMoves(index, pages);
      }
    }
  }
}
