/** The paged dashboard: pages of chart elements, the grid each page is laid
    out on, and the arrow keys that move between pages. */
module Dashboard {
  import opened Frames

  /** A chart to draw: the plotting function's name and its arguments. */
  datatype Element = Element(func: string, args: seq<Json>, kwargs: map<string, Json>)

  /** One subplot of a rendered page: its 1-based position in the grid and
      the element drawn there. */
  datatype Placement = Placement(slot: nat, element: Element)

  /** What rendering a page produces: the title, the grid (none for a page
      without elements) and where each element goes. */
  datatype Layout = Layout(title: string, grid: Option<(nat, nat)>, placed: seq<Placement>)

  /** The `(rows, cols)` grid for `n` elements: one column for a single
      element, two otherwise, and as many rows as it takes. */
  function GridFor(n: nat): (g: Option<(nat, nat)>)
    ensures g.None? <==> n == 0
    ensures g.Some? ==> g.value.1 == (if n > 1 then 2 else 1)
    ensures g.Some? ==> g.value.0 >= 1 && g.value.0 * g.value.1 >= n
    ensures g.Some? ==> (g.value.0 - 1) * g.value.1 < n
  {
    if n == 0 then None
    else
      var cols := if n > 1 then 2 else 1;
      var rows := (n + 1) / 2;
      GridFits(n, rows, cols);
      Some((rows, cols))
  }

  /** The grid holds every element and has no empty row. */
  lemma GridFits(n: nat, rows: nat, cols: nat)
    requires n > 0 && rows == (n + 1) / 2 && cols == (if n > 1 then 2 else 1)
    ensures rows >= 1 && rows * cols >= n && (rows - 1) * cols < n
  {
    if n == 1 {
      assert rows == 1 && cols == 1;
    } else {
      assert cols == 2;
      assert 2 * rows == n || 2 * rows == n + 1;
    }
  }

  const Right := "right"
  const Left := "left"

  /** The page index after a key press among `n` pages. Python's `%` and
      Dafny's agree for a positive divisor, and `x % 0` is the
      `ZeroDivisionError` a key press raises when there are no pages. */
  function Step(i: nat, key: string, n: nat): (r: Result<nat>)
    ensures key != Right && key != Left ==> r == Ok(i)
    ensures (key == Right || key == Left) ==> (r.Err? <==> n == 0)
    ensures r.Err? ==> r.error == ZeroDivisionError
    ensures (key == Right || key == Left) && r.Ok? ==> r.value < n
  {
    if key == Right then
      if n == 0 then Err(ZeroDivisionError) else Ok((i + 1) % n)
    else if key == Left then
      if n == 0 then Err(ZeroDivisionError) else Ok((i - 1) % n)
    else Ok(i)
  }

  /** Left undoes right and right undoes left. */
  lemma LeftUndoesRight(i: nat, n: nat)
    requires i < n
    ensures Step(Step(i, Right, n).value, Left, n) == Ok(i)
    ensures Step(Step(i, Left, n).value, Right, n) == Ok(i)
  {
    if i + 1 == n {
      ModUnique(i + 1, n, 1, 0);
      ModUnique(-1, n, -1, n - 1);
    } else {
      ModUnique(i + 1, n, 0, i + 1);
      ModUnique(i, n, 0, i);
    }
    if i == 0 {
      ModUnique(-1, n, -1, n - 1);
      ModUnique(n, n, 1, 0);
    } else {
      ModUnique(i - 1, n, 0, i - 1);
      ModUnique(i, n, 0, i);
    }
  }

  /** `a % n` is the one remainder in `[0, n)` of a division of `a` by `n`. */
  lemma ModUnique(a: int, n: int, q: int, r: int)
    requires n > 0 && 0 <= r < n && a == q * n + r
    ensures a % n == r
  {
    var q', r' := a / n, a % n;
    assert a == q' * n + r';
    if q > q' {
      MulAtLeast(q - q', n, q * n - q' * n);
    } else if q < q' {
      MulAtLeast(q' - q, n, q' * n - q * n);
    }
  }

  lemma MulAtLeast(d: int, n: int, gap: int)
    requires d >= 1 && n > 0 && gap == d * n
    ensures gap >= n
  {
  }

  /** The index after `k` presses of one key. */
  function Presses(i: nat, key: string, k: nat, n: nat): (r: Result<nat>)
  {
    if k == 0 then Ok(i)
    else
      var before := Presses(i, key, k - 1, n);
      if before.Err? then before else Step(before.value, key, n)
  }

  lemma ModSucc(a: nat, n: nat)
    requires n > 0
    ensures (a % n + 1) % n == (a + 1) % n
  {
    var q, r := a / n, a % n;
    assert a == q * n + r;
    if r + 1 == n {
      ModUnique(r + 1, n, 1, 0);
      assert a + 1 == (q + 1) * n + 0;
      ModUnique(a + 1, n, q + 1, 0);
    } else {
      ModUnique(r + 1, n, 0, r + 1);
      ModUnique(a + 1, n, q, r + 1);
    }
  }

  /** Pressing right `k` times moves `k` pages on, wrapping around; so `n`
      presses come back to the starting page. */
  lemma {:induction false} RightPresses(i: nat, k: nat, n: nat)
    requires i < n
    ensures Presses(i, Right, k, n) == Ok((i + k) % n)
  {
    if k == 0 {
      ModUnique(i, n, 0, i);
    } else {
      RightPresses(i, k - 1, n);
      ModSucc(i + k - 1, n);
    }
  }

  lemma RightCycle(i: nat, n: nat)
    requires i < n
    ensures Presses(i, Right, n, n) == Ok(i)
  {
    RightPresses(i, n, n);
    ModUnique(i + n, n, 1, i);
  }

  /** A page: its title and the elements added to it, in order. The caller
      keeps the page returned by `AddNewPage` and adds elements to it
      through the app. */
  class Page {
    var title: string
    var elements: seq<Element>

    constructor (title: string)
      ensures this.title == title && elements == []
    {
      this.title := title;
      elements := [];
    }
  }

  class DashboardApp {
    var pages: seq<Page>
    var currentPageIdx: nat

    /** The index names a page, or is 0 while there are none. */
    predicate Valid()
      reads this
    {
      if pages == [] then currentPageIdx == 0 else currentPageIdx < |pages|
    }

    constructor ()
      ensures Valid()
      ensures pages == [] && currentPageIdx == 0
    {
      pages := [];
      currentPageIdx := 0;
    }

    /** Appends a new empty page and returns it. */
    method AddNewPage(title: string) returns (page: Page)
      requires Valid()
      modifies this
      ensures Valid()
      ensures fresh(page) && page.title == title && page.elements == []
      ensures pages == old(pages) + [page]
      ensures currentPageIdx == old(currentPageIdx)
    {
      page := new Page(title);
      pages := pages + [page];
    }

    /** Appends an element to the given page and to nothing else. */
    method AddElement(page: Page, func: string, args: seq<Json>, kwargs: map<string, Json>)
      modifies page
      ensures page.elements == old(page.elements) + [Element(func, args, kwargs)]
      ensures page.title == old(page.title)
    {
      page.elements := page.elements + [Element(func, args, kwargs)];
    }

    /** Lays out the current page: `self.pages[self.current_page_idx]` is an
        `IndexError` when there are no pages; a page without elements gets
        only its title; otherwise element `i` goes to subplot `i + 1`. */
    method RenderCurrentPage() returns (r: Result<Layout>)
      requires Valid()
      ensures r.Err? <==> pages == []
      ensures r.Err? ==> r.error == IndexError
      ensures r.Ok? ==> r.value.title == pages[currentPageIdx].title
      ensures r.Ok? ==> r.value.grid == GridFor(|pages[currentPageIdx].elements|)
      ensures r.Ok? ==> |r.value.placed| == |pages[currentPageIdx].elements|
      ensures r.Ok? ==> forall i :: 0 <= i < |r.value.placed| ==>
                r.value.placed[i] == Placement(i + 1, pages[currentPageIdx].elements[i])
      ensures r.Ok? && r.value.grid.Some? ==> forall i :: 0 <= i < |r.value.placed| ==>
                1 <= r.value.placed[i].slot <= r.value.grid.value.0 * r.value.grid.value.1
    {
      if pages == [] {
        return Err(IndexError);
      }
      var page := pages[currentPageIdx];
      var elements := page.elements;
      var n := |elements|;
      if n == 0 {
        return Ok(Layout(page.title, None, []));
      }
      var cols := if n > 1 then 2 else 1;
      var rows := (n + 1) / 2;
      GridFits(n, rows, cols);
      var placed: seq<Placement> := [];
      var i := 0;
      while i < n
        invariant 0 <= i <= n
        invariant |placed| == i
        invariant forall k :: 0 <= k < i ==> placed[k] == Placement(k + 1, elements[k])
      {
        placed := placed + [Placement(i + 1, elements[i])];
        i := i + 1;
      }
      r := Ok(Layout(page.title, Some((rows, cols)), placed));
    }

    /** `_on_key`: right and left move the index around the pages, any other
        key keeps it; then the current page is rendered. */
    method OnKey(key: string) returns (r: Result<Layout>)
      requires Valid()
      modifies this
      ensures Valid()
      ensures pages == old(pages)
      ensures Step(old(currentPageIdx), key, |pages|).Err? ==>
                r == Err(ZeroDivisionError) && currentPageIdx == old(currentPageIdx)
      ensures Step(old(currentPageIdx), key, |pages|).Ok? ==>
                currentPageIdx == Step(old(currentPageIdx), key, |pages|).value
      ensures Step(old(currentPageIdx), key, |pages|).Ok? && pages == [] ==> r == Err(IndexError)
      ensures Step(old(currentPageIdx), key, |pages|).Ok? && pages != [] ==>
                r.Ok? && r.value.title == pages[currentPageIdx].title &&
                r.value.grid == GridFor(|pages[currentPageIdx].elements|)
    {
      var next := Step(currentPageIdx, key, |pages|);
      if next.Err? {
        return Err(next.error);
      }
      currentPageIdx := next.value;
      r := RenderCurrentPage();
    }
  }
}
