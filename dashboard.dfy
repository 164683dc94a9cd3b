/** The dashboard's pagination state: the page shown in each paginated
    section, moved by the previous/next buttons and recorded by the loaders'
    callback, with the button states and page label derived from it. The
    loaders themselves fetch and render, and are represented only by the
    requests made to them. */
module Dashboard {
  import opened JsStrings

  /** The sections whose loader takes a page number. */
  const PaginatedSections: set<string> := {"learning", "workshops", "projects"}

  /** `currentPages` when the module loads. */
  const InitialPages: map<string, int> := map["learning" := 1, "workshops" := 1, "projects" := 1]

  /** Every tracked page is a real page number. */
  predicate PagesPositive(pages: map<string, int>) {
    forall s :: s in pages ==> pages[s] >= 1
  }

  /** `currentPages[sectionId] || 1`: a missing entry, or a page of 0 (which
      is falsy), reads as page 1. */
  function PageFor(pages: map<string, int>, section: string): (page: int)
    ensures section in pages && pages[section] != 0 ==> page == pages[section]
    ensures section !in pages || pages[section] == 0 ==> page == 1
    ensures PagesPositive(pages) ==> page >= 1
  {
    if section in pages && pages[section] != 0 then pages[section] else 1
  }

  // ---------------------------------------------------------------------------
  // Pagination clicks

  /** A pagination button: whether it is disabled and its `data-section` and
      `data-page-direction` attributes (undefined when absent). */
  datatype Button = Button(disabled: bool, section: Option<string>, direction: Option<string>)

  /** The page a click asks for: one on for "next", one back for any other
      direction. */
  function Step(page: int, direction: string): int {
    if direction == "next" then page + 1 else page - 1
  }

  /** The section and new page `handlePaginationClick(button)` commits, if any:
      both attributes must be present and non-empty, the section must already
      be tracked, and the new page must be at least 1. */
  function ClickTarget(pages: map<string, int>, button: Button): (r: Option<(string, int)>)
    ensures r.Some? <==> Truthy(button.section) && Truthy(button.direction) && button.section.value in pages
                         && Step(pages[button.section.value], button.direction.value) >= 1
    ensures r.Some? ==> r.value.0 == button.section.value && r.value.0 in pages && r.value.1 >= 1
                        && (r.value.1 == pages[r.value.0] + 1 <==> button.direction.value == "next")
                        && (r.value.1 == pages[r.value.0] - 1 <==> button.direction.value != "next")
  {
    if Truthy(button.section) && Truthy(button.direction) && button.section.value in pages then
      var section := button.section.value;
      var newPage := Step(pages[section], button.direction.value);
      if newPage >= 1 then Some((section, newPage)) else None
    else None
  }

  /** `currentPages` after a click: only the clicked section's entry changes,
      and only when the click commits. */
  function Clicked(pages: map<string, int>, button: Button): (r: map<string, int>)
    ensures r.Keys == pages.Keys
    ensures ClickTarget(pages, button).None? ==> r == pages
    ensures ClickTarget(pages, button).Some? ==>
              var (section, page) := ClickTarget(pages, button).value;
              r[section] == page && forall s :: s in pages && s != section ==> r[s] == pages[s]
  {
    match ClickTarget(pages, button)
    case None => pages
    case Some((section, page)) => pages[section := page]
  }

  /** A click never makes a tracked page smaller than 1. */
  lemma ClickKeepsPagesPositive(pages: map<string, int>, button: Button)
    requires PagesPositive(pages)
    ensures PagesPositive(Clicked(pages, button))
  {
    var r := Clicked(pages, button);
    forall s | s in r ensures r[s] >= 1 {
      if ClickTarget(pages, button).Some? && s == ClickTarget(pages, button).value.0 {
      } else {
        assert r[s] == pages[s];
      }
    }
  }

  /** "Previous" on the first page is refused. */
  lemma PrevOnFirstPageRefused(pages: map<string, int>, section: string)
    requires section in pages && pages[section] == 1
    ensures Clicked(pages, Button(false, Some(section), Some("prev"))) == pages
  {
    assert ClickTarget(pages, Button(false, Some(section), Some("prev"))).None?;
  }

  /** "Next" followed by "previous" on the same section returns every page to
      where it was. */
  lemma NextThenPrev(pages: map<string, int>, section: string)
    requires section != "" && section in pages && pages[section] >= 1
    ensures Clicked(Clicked(pages, Button(false, Some(section), Some("next"))),
                    Button(false, Some(section), Some("prev"))) == pages
  {
    var next := Button(false, Some(section), Some("next"));
    var prev := Button(false, Some(section), Some("prev"));
    var p1 := Clicked(pages, next);
    assert ClickTarget(pages, next) == Some((section, pages[section] + 1));
    assert p1 == pages[section := pages[section] + 1];
    assert ClickTarget(p1, prev) == Some((section, pages[section]));
  }

  // ---------------------------------------------------------------------------
  // The pagination controls

  /** What `updatePaginationUI` shows: the two buttons' disabled flags (also
      written to `aria-disabled`) and the `.page-info` text. */
  datatype Controls = Controls(prevDisabled: bool, nextDisabled: bool, pageInfo: string)

  function PageLabel(currentPage: int, totalPages: int): string {
    if totalPages > 0 then "Page " + IntToString(currentPage) + " of " + IntToString(totalPages)
    else "No pages"
  }

  /** The controls for page `currentPage` of `totalPages`: previous is
      disabled on the first page or before it, next on the last page or after
      it; an empty listing reads "No pages". */
  function ControlsFor(currentPage: int, totalPages: int): (c: Controls)
    ensures c.prevDisabled <==> currentPage <= 1
    ensures c.nextDisabled <==> currentPage >= totalPages
    ensures c.pageInfo == "No pages" <==> totalPages <= 0
  {
    LabelIsNotNoPages(currentPage, totalPages);
    Controls(currentPage <= 1, currentPage >= totalPages, PageLabel(currentPage, totalPages))
  }

  lemma NoSpaceInNumber(n: int)
    ensures ' ' !in IntToString(n)
  {
    var s := NatToString(if n < 0 then -n else n);
    assert forall i :: 0 <= i < |s| ==> IsDigit(s[i]);
    if n < 0 {
      assert IntToString(n) == "-" + s;
      assert forall i :: 0 <= i < |"-" + s| ==> ("-" + s)[i] != ' ';
    }
  }

  lemma LabelIsNotNoPages(currentPage: int, totalPages: int)
    ensures PageLabel(currentPage, totalPages) == "No pages" <==> totalPages <= 0
  {
    if totalPages > 0 {
      assert PageLabel(currentPage, totalPages)[0] == 'P';
    }
  }

  /** In a label, the first space after "Page " ends the current page number. */
  lemma FirstSpace(a: string, b: string)
    requires ' ' !in a
    ensures var l := "Page " + a + " of " + b;
            |l| > 5 + |a| && l[5 + |a|] == ' ' && forall i :: 5 <= i < 5 + |a| ==> l[i] != ' '
  {
    var l := "Page " + a + " of " + b;
    forall i | 5 <= i < 5 + |a| ensures l[i] != ' ' {
      assert l[i] == a[i - 5];
    }
  }

  /** The label names the page and the page count unambiguously: two listings
      with pages share a label only when both numbers agree. */
  lemma PageLabelInjective(c1: int, t1: int, c2: int, t2: int)
    requires t1 > 0 && t2 > 0
    requires PageLabel(c1, t1) == PageLabel(c2, t2)
    ensures c1 == c2 && t1 == t2
  {
    NoSpaceInNumber(c1);
    NoSpaceInNumber(c2);
    SplitLabel(IntToString(c1), IntToString(t1), IntToString(c2), IntToString(t2));
    IntToStringInjective(c1, c2);
    IntToStringInjective(t1, t2);
  }

  /** Two labels agree only when their page numbers and page counts do. */
  lemma SplitLabel(a1: string, b1: string, a2: string, b2: string)
    requires ' ' !in a1 && ' ' !in a2
    requires "Page " + a1 + " of " + b1 == "Page " + a2 + " of " + b2
    ensures a1 == a2 && b1 == b2
  {
    var l1, l2 := "Page " + a1 + " of " + b1, "Page " + a2 + " of " + b2;
    assert |a1| == |a2| by {
      FirstSpace(a1, b1);
      FirstSpace(a2, b2);
    }
    assert a1 == a2 by {
      assert a1 == l1[5..5 + |a1|];
      assert a2 == l2[5..5 + |a2|];
    }
    assert b1 == l1[9 + |a1|..];
    assert b2 == l2[9 + |a2|..];
  }

  /** From page `c` of `t`, an enabled button commits its click, and the new
      page stays between 1 and `t`. */
  lemma EnabledClickStaysInRange(pages: map<string, int>, section: string, t: int, direction: string)
    requires section != "" && section in pages && 1 <= pages[section]
    requires direction == "prev" || direction == "next"
    requires direction == "prev" ==> !ControlsFor(pages[section], t).prevDisabled
    requires direction == "next" ==> !ControlsFor(pages[section], t).nextDisabled
    requires pages[section] <= t
    ensures var target := ClickTarget(pages, Button(false, Some(section), Some(direction)));
            target.Some? && 1 <= target.value.1 <= t
  {
  }

  /** The loads a click requests: the clicked section at its new page, when
      the click commits and the section is paginated. */
  function ClickLoads(pages: map<string, int>, button: Button): seq<(string, int)> {
    match ClickTarget(pages, button)
    case None => []
    case Some(target) => if target.0 in PaginatedSections then [target] else []
  }

  /** The dashboard's pagination state and the page loads it requests. */
  class Dashboard {
    var currentPages: map<string, int>
    /** The `(section, page)` of each call to a paginated loader, in order. */
    var loads: seq<(string, int)>

    constructor ()
      ensures currentPages == InitialPages && loads == []
      ensures PagesPositive(currentPages)
    {
      currentPages := InitialPages;
      loads := [];
    }

    /** `loadDataForSection(sectionId)`: a paginated section is loaded at its
        tracked page, or page 1; other sections take no page. */
    method LoadDataForSection(section: string)
      modifies this
      ensures currentPages == old(currentPages)
      ensures loads == old(loads) + if section in PaginatedSections then [(section, PageFor(currentPages, section))] else []
    {
      var page := PageFor(currentPages, section);
      if section in PaginatedSections {
        loads := loads + [(section, page)];
      }
    }

    /** `handlePaginationClick(button)`: a committed click stores the new page
        and then reloads the section. */
    method HandlePaginationClick(button: Button)
      modifies this
      ensures currentPages == Clicked(old(currentPages), button)
      ensures loads == old(loads) + ClickLoads(old(currentPages), button)
    {
      var section := button.section;
      var direction := button.direction;
      if Truthy(section) && Truthy(direction) && section.value in currentPages {
        var currentPage := currentPages[section.value];
        var newPage := if direction.value == "next" then currentPage + 1 else currentPage - 1;
        if newPage >= 1 {
          currentPages := currentPages[section.value := newPage];
          LoadDataForSection(section.value);
        }
      }
    }

    /** The body's click listener for a click whose target lies inside a
        pagination button, if any: a disabled button is ignored. */
    method OnPaginationClick(button: Option<Button>)
      modifies this
      ensures button.None? || button.value.disabled ==>
                currentPages == old(currentPages) && loads == old(loads)
      ensures button.Some? && !button.value.disabled ==>
                currentPages == Clicked(old(currentPages), button.value)
                && loads == old(loads) + ClickLoads(old(currentPages), button.value)
    {
      if button.Some? && !button.value.disabled {
        HandlePaginationClick(button.value);
      }
    }

    /** `updatePaginationUI(section, currentPage, totalPages)`: records the page
        (adding the section if new) and, when the section has its controls,
        returns what they show. */
    method UpdatePaginationUI(section: string, currentPage: int, totalPages: int, hasControls: bool)
      returns (shown: Option<Controls>)
      modifies this
      ensures currentPages == old(currentPages)[section := currentPage]
      ensures loads == old(loads)
      ensures shown == if hasControls then Some(ControlsFor(currentPage, totalPages)) else None
    {
      currentPages := currentPages[section := currentPage];
      if !hasControls {
        return None;
      }
      return Some(ControlsFor(currentPage, totalPages));
    }
  }
}
