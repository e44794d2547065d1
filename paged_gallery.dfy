/** The paged gallery of gallery.js: a fixed list of images, a category
    filter, a grid that shows one page of at most six filtered images with
    Prev/Next buttons, and a lightbox whose cursor stops at both ends. */
module PagedGallery {
  import opened Images

  /** Number of tiles on one page of the grid. */
  const ImagesPerPage: nat := 6

  // ---------------------------------------------------------------------
  // Filtering

  /** The images whose category is `category`, as `Array.prototype.filter`
      keeps them: every kept image came from `images`, each has that
      category, and none is invented. */
  function ByCategory(images: seq<Image>, category: string): (r: seq<Image>)
    ensures |r| <= |images|
    ensures forall k :: 0 <= k < |r| ==> r[k].category == category && r[k] in images
  {
    if images == [] then []
    else if images[0].category == category then [images[0]] + ByCategory(images[1..], category)
    else ByCategory(images[1..], category)
  }

  /** The list the grid pages through: the whole list under "all",
      otherwise the images of the selected category. */
  function FilteredImages(images: seq<Image>, filter: string): (r: seq<Image>)
    ensures filter == All ==> r == images
    ensures |r| <= |images|
    ensures forall k :: 0 <= k < |r| ==> Visible(filter, r[k].category)
  {
    if filter == All then images else ByCategory(images, filter)
  }

  /** Filtering by category keeps every copy of a matching image and drops
      every copy of the others. */
  lemma {:induction false} ByCategoryCount(images: seq<Image>, category: string, x: Image)
    ensures multiset(ByCategory(images, category))[x]
            == if x.category == category then multiset(images)[x] else 0
  {
    if images != [] {
      ByCategoryCount(images[1..], category, x);
      assert images == [images[0]] + images[1..];
    }
  }

  /** The filtered list holds exactly the images the filter makes visible,
      each as many times as in the full list. */
  lemma FilteredExactlyVisible(images: seq<Image>, filter: string, x: Image)
    ensures multiset(FilteredImages(images, filter))[x]
            == if Visible(filter, x.category) then multiset(images)[x] else 0
  {
    if filter != All {
      ByCategoryCount(images, filter, x);
    }
  }

  /** `idx` is a strictly increasing list of positions below `n`. */
  ghost predicate IsIndexList(idx: seq<nat>, n: nat)
  {
    (forall k :: 0 <= k < |idx| ==> idx[k] < n) &&
    (forall k, l :: 0 <= k < l < |idx| ==> idx[k] < idx[l])
  }

  /** Every position of an index list moved one place on. */
  lemma ShiftIndexList(idx: seq<nat>, n: nat) returns (shifted: seq<nat>)
    requires IsIndexList(idx, n)
    ensures IsIndexList(shifted, n + 1) && |shifted| == |idx| && 0 !in shifted
    ensures forall k :: 0 <= k < |idx| ==> shifted[k] == idx[k] + 1
    ensures forall j :: 1 <= j <= n ==> (j in shifted <==> j - 1 in idx)
    ensures IsIndexList([0] + shifted, n + 1)
  {
    shifted := seq(|idx|, k requires 0 <= k < |idx| => idx[k] + 1);
    var cons := [0] + shifted;
    forall k, l | 0 <= k < l < |cons|
      ensures cons[k] < cons[l]
    {
      assert cons[l] == shifted[l - 1];
      if k > 0 {
        assert cons[k] == shifted[k - 1];
      }
    }
    forall j | 1 <= j <= n
      ensures j in shifted <==> j - 1 in idx
    {
      if j - 1 in idx {
        var k :| 0 <= k < |idx| && idx[k] == j - 1;
        assert shifted[k] == j;
      }
    }
  }

  /** Filtering by category keeps the original order: the result is the
      list of matching images read off at increasing positions, and the
      positions are exactly those of the matching images. */
  lemma {:induction false} ByCategoryKeepsOrder(images: seq<Image>, category: string)
    returns (idx: seq<nat>)
    ensures IsIndexList(idx, |images|)
    ensures |idx| == |ByCategory(images, category)|
    ensures forall k :: 0 <= k < |idx| ==> ByCategory(images, category)[k] == images[idx[k]]
    ensures forall j :: 0 <= j < |images| ==> (images[j].category == category <==> j in idx)
  {
    if images == [] {
      idx := [];
    } else {
      var rest := ByCategoryKeepsOrder(images[1..], category);
      idx := KeepsOrderStep(images, category, ByCategory(images[1..], category), rest);
    }
  }

  /** The inductive step of ByCategoryKeepsOrder: positions for the tail's
      result, moved one place on and preceded by 0 when the head matches. */
  lemma KeepsOrderStep(images: seq<Image>, category: string, tailResult: seq<Image>, rest: seq<nat>)
    returns (idx: seq<nat>)
    requires images != []
    requires IsIndexList(rest, |images| - 1) && |rest| == |tailResult|
    requires forall k :: 0 <= k < |rest| ==> tailResult[k] == images[1..][rest[k]]
    requires forall j :: 0 <= j < |images| - 1 ==> (images[1..][j].category == category <==> j in rest)
    ensures var r := if images[0].category == category then [images[0]] + tailResult else tailResult;
            IsIndexList(idx, |images|) && |idx| == |r| &&
            (forall k :: 0 <= k < |idx| ==> r[k] == images[idx[k]]) &&
            (forall j :: 0 <= j < |images| ==> (images[j].category == category <==> j in idx))
  {
    var tail := images[1..];
    var shifted := ShiftIndexList(rest, |tail|);
    assert forall k :: 0 <= k < |shifted| ==> images[shifted[k]] == tail[rest[k]];
    assert forall j :: 1 <= j < |images| ==> images[j] == tail[j - 1];
    if images[0].category == category {
      idx := [0] + shifted;
      assert forall j :: 1 <= j < |images| ==> (j in idx <==> j in shifted);
    } else {
      idx := shifted;
    }
  }

  /** The filtered list keeps the original order of the images. */
  lemma FilteredKeepsOrder(images: seq<Image>, filter: string) returns (idx: seq<nat>)
    ensures IsIndexList(idx, |images|)
    ensures |idx| == |FilteredImages(images, filter)|
    ensures forall k :: 0 <= k < |idx| ==> FilteredImages(images, filter)[k] == images[idx[k]]
    ensures forall j :: 0 <= j < |images| ==> (Visible(filter, images[j].category) <==> j in idx)
  {
    if filter == All {
      idx := seq(|images|, k requires 0 <= k < |images| => k);
      assert forall j :: 0 <= j < |images| ==> idx[j] == j;
    } else {
      idx := ByCategoryKeepsOrder(images, filter);
    }
  }

  // ---------------------------------------------------------------------
  // Paging

  /** `s.slice(start, end)` for non-negative bounds: the elements from
      `start` up to `end`, both clipped to the length of `s`. */
  function Slice<T>(s: seq<T>, start: nat, end: nat): (r: seq<T>)
    ensures |r| == if start < end && start < |s| then Min(end, |s|) - start else 0
    ensures forall k :: 0 <= k < |r| ==> start + k < |s| && r[k] == s[start + k]
  {
    if start < end && start < |s| then s[start .. Min(end, |s|)] else []
  }

  /** The images shown on page `page`. */
  function PageWindow(filtered: seq<Image>, page: nat): (w: seq<Image>)
    ensures |w| <= ImagesPerPage
    ensures |w| == if page * ImagesPerPage < |filtered|
                   then Min(ImagesPerPage, |filtered| - page * ImagesPerPage) else 0
    ensures page * ImagesPerPage < |filtered| ==> |w| > 0
    ensures forall k :: 0 <= k < |w| ==>
              page * ImagesPerPage + k < |filtered| && w[k] == filtered[page * ImagesPerPage + k]
  {
    Slice(filtered, page * ImagesPerPage, page * ImagesPerPage + ImagesPerPage)
  }

  /** The page invariant the handlers keep: the first page, or a page that
      starts inside the filtered list. */
  predicate PageInRange(page: nat, count: nat)
  {
    page == 0 || page * ImagesPerPage < count
  }

  /** The Prev button is disabled on the first page. */
  predicate PrevDisabled(page: nat)
  {
    page == 0
  }

  /** The Next button is disabled once the page reaches the end of the list. */
  predicate NextDisabled(page: nat, count: nat)
  {
    page * ImagesPerPage + ImagesPerPage >= count
  }

  /** The page after a click on Prev. */
  function PrevPage(page: nat): (r: nat)
    ensures r <= page && page - r <= 1
    ensures r == page <==> PrevDisabled(page)
    ensures forall count :: PageInRange(page, count) ==> PageInRange(r, count)
  {
    if page > 0 then page - 1 else page
  }

  /** The page after a click on Next. */
  function NextPage(page: nat, count: nat): (r: nat)
    ensures r >= page && r - page <= 1
    ensures r == page <==> NextDisabled(page, count)
    ensures PageInRange(page, count) ==> PageInRange(r, count)
  {
    if (page + 1) * ImagesPerPage < count then page + 1 else page
  }

  /** The last page that holds an image (page 0 for an empty list). */
  function LastPage(count: nat): nat
  {
    if count == 0 then 0 else (count - 1) / ImagesPerPage
  }

  /** The pages in range are exactly the pages up to the last one. */
  lemma PageInRangeUpToLast(page: nat, count: nat)
    ensures PageInRange(page, count) <==> page <= LastPage(count)
  {
  }

  /** The page reached from page 0 by `clicks` clicks on Next. */
  function NextClicks(count: nat, clicks: nat): nat
  {
    if clicks == 0 then 0 else NextPage(NextClicks(count, clicks - 1), count)
  }

  /** Clicking Next walks through the pages one at a time and stops on the
      last page that holds an image. */
  lemma {:induction false} NextClicksReachLastPage(count: nat, clicks: nat)
    ensures NextClicks(count, clicks) == Min(clicks, LastPage(count))
  {
    if clicks > 0 {
      NextClicksReachLastPage(count, clicks - 1);
      var p := NextClicks(count, clicks - 1);
      PageInRangeUpToLast(p, count);
      PageInRangeUpToLast(p + 1, count);
    }
  }

  /** Every filtered image is on some page in range, at its offset there. */
  lemma EveryImageHasAPage(filtered: seq<Image>, j: nat)
    requires j < |filtered|
    ensures PageInRange(j / ImagesPerPage, |filtered|)
    ensures j % ImagesPerPage < |PageWindow(filtered, j / ImagesPerPage)|
    ensures PageWindow(filtered, j / ImagesPerPage)[j % ImagesPerPage] == filtered[j]
  {
  }

  // ---------------------------------------------------------------------
  // The grid

  /** A rendered grid tile: the image it shows, and what its click handler
      captured — the filtered list at render time and the image's position
      in it. */
  datatype Tile = Tile(image: Image, snapshot: seq<Image>, target: nat)

  /** `grid` is the grid of page `page` of `filtered`. */
  ghost predicate ShowsPage(grid: seq<Tile>, filtered: seq<Image>, page: nat)
  {
    |grid| == |PageWindow(filtered, page)| &&
    forall k :: 0 <= k < |grid| ==>
      grid[k] == Tile(PageWindow(filtered, page)[k], filtered, page * ImagesPerPage + k)
  }

  /** The tiles of one page, built one image at a time: at most six, and
      each tile's click target is a valid position of the image it shows
      in the list it captured. */
  method BuildGrid(filtered: seq<Image>, page: nat) returns (grid: seq<Tile>)
    ensures |grid| <= ImagesPerPage
    ensures PageInRange(page, |filtered|) && filtered != [] ==> grid != []
    ensures forall k :: 0 <= k < |grid| ==>
              grid[k].target == page * ImagesPerPage + k &&
              grid[k].snapshot == filtered &&
              grid[k].target < |filtered| &&
              grid[k].image == filtered[grid[k].target]
    ensures ShowsPage(grid, filtered, page)
  {
    var start := page * ImagesPerPage;
    var end := start + ImagesPerPage;
    var window := Slice(filtered, start, end);
    grid := [];
    for idx := 0 to |window|
      invariant |grid| == idx
      invariant forall k :: 0 <= k < idx ==> grid[k] == Tile(window[k], filtered, start + k)
    {
      grid := grid + [Tile(window[idx], filtered, start + idx)];
    }
  }

  // ---------------------------------------------------------------------
  // The lightbox cursor

  /** The lightbox index after ArrowRight: one step on, except on the last
      image, where it stays. */
  function ClampedNext(index: nat, count: nat): (r: nat)
    requires index < count
    ensures r < count
    ensures r == index || r == index + 1
    ensures r == index <==> index == count - 1
  {
    if index < count - 1 then index + 1 else index
  }

  /** The lightbox index after ArrowLeft: one step back, except on the
      first image, where it stays. */
  function ClampedPrev(index: nat): (r: nat)
    ensures r <= index && index - r <= 1
    ensures r == index <==> index == 0
  {
    if index > 0 then index - 1 else index
  }

  /** The index reached from `index` by `presses` presses of ArrowRight. */
  function RightPresses(index: nat, count: nat, presses: nat): (r: nat)
    requires index < count
    ensures r < count
  {
    if presses == 0 then index else ClampedNext(RightPresses(index, count, presses - 1), count)
  }

  /** Holding ArrowRight advances one image per press and stops on the
      last image; it never wraps. */
  lemma {:induction false} RightPressesStopAtEnd(index: nat, count: nat, presses: nat)
    requires index < count
    ensures RightPresses(index, count, presses) == Min(index + presses, count - 1)
  {
    if presses > 0 {
      RightPressesStopAtEnd(index, count, presses - 1);
    }
  }

  // ---------------------------------------------------------------------
  // The gallery's state and its event handlers

  class Gallery {
    /** The image list; it never changes. */
    const images: seq<Image>
    var currentPage: nat
    var currentFilter: string
    /** The tiles in the grid and the disabled flags of the page buttons. */
    var grid: seq<Tile>
    var prevDisabled: bool
    var nextDisabled: bool
    /** The list the lightbox was opened on, its cursor, and whether the
        lightbox has the `active` class. */
    var lightboxImages: seq<Image>
    var lightboxIndex: nat
    var active: bool

    function Filtered(): seq<Image>
      reads this
    {
      FilteredImages(images, currentFilter)
    }

    /** The page is in range, and the open lightbox points at an image. */
    ghost predicate InRange()
      reads this
    {
      PageInRange(currentPage, |Filtered()|) &&
      (lightboxIndex < |lightboxImages| || (!active && lightboxImages == [] && lightboxIndex == 0))
    }

    /** The grid and the buttons show the current page. */
    ghost predicate Rendered()
      reads this
    {
      ShowsPage(grid, Filtered(), currentPage) &&
      prevDisabled == PrevDisabled(currentPage) &&
      nextDisabled == NextDisabled(currentPage, |Filtered()|)
    }

    ghost predicate Valid()
      reads this
    {
      InRange() && Rendered()
    }

    /** The page as loaded: first page, no filter, grid rendered. The
        lightbox starts inactive, as the page's markup is assumed to leave
        it; the script itself does not set its class. */
    constructor (images: seq<Image>)
      ensures Valid()
      ensures this.images == images && currentPage == 0 && currentFilter == All
      ensures lightboxImages == [] && lightboxIndex == 0 && !active
      ensures ShowsPage(grid, images, 0)
    {
      this.images := images;
      currentPage := 0;
      currentFilter := All;
      lightboxImages := [];
      lightboxIndex := 0;
      active := false;
      new;
      Render();
    }

    /** renderGallery: rebuild the grid of the current page and set the
        buttons' disabled flags. */
    method Render()
      modifies this`grid, this`prevDisabled, this`nextDisabled
      ensures Rendered()
    {
      var filtered := Filtered();
      var start := currentPage * ImagesPerPage;
      var end := start + ImagesPerPage;
      grid := BuildGrid(filtered, currentPage);
      prevDisabled := currentPage == 0;
      nextDisabled := end >= |filtered|;
    }

    /** Click on Prev: back one page unless on the first; the page changes
        exactly when the button was enabled. */
    method PrevClick()
      requires Valid()
      modifies this`currentPage, this`grid, this`prevDisabled, this`nextDisabled
      ensures Valid()
      ensures currentPage == PrevPage(old(currentPage))
      ensures currentPage != old(currentPage) <==> !old(prevDisabled)
    {
      if currentPage > 0 {
        currentPage := currentPage - 1;
        Render();
      }
    }

    /** Click on Next: on one page if the next page starts inside the
        filtered list; the page changes exactly when the button was
        enabled. */
    method NextClick()
      requires Valid()
      modifies this`currentPage, this`grid, this`prevDisabled, this`nextDisabled
      ensures Valid()
      ensures currentPage == NextPage(old(currentPage), |Filtered()|)
      ensures currentPage != old(currentPage) <==> !old(nextDisabled)
    {
      var filtered := Filtered();
      if (currentPage + 1) * ImagesPerPage < |filtered| {
        currentPage := currentPage + 1;
        Render();
      }
    }

    /** Click on a filter button: select its filter and go back to the
        first page. */
    method SelectFilter(filter: string)
      requires Valid()
      modifies this`currentFilter, this`currentPage, this`grid, this`prevDisabled, this`nextDisabled
      ensures Valid()
      ensures currentFilter == filter && currentPage == 0
      ensures ShowsPage(grid, FilteredImages(images, filter), 0)
    {
      currentFilter := filter;
      currentPage := 0;
      Render();
    }

    /** openLightbox: remember the list and the position, and show the
        lightbox. The source reads `imgArr[idx]`, so the position must be
        in the list. */
    method OpenLightbox(imgArr: seq<Image>, idx: nat)
      requires Valid()
      requires idx < |imgArr|
      modifies this`lightboxImages, this`lightboxIndex, this`active
      ensures Valid()
      ensures lightboxImages == imgArr && lightboxIndex == idx && active
    {
      lightboxImages := imgArr;
      lightboxIndex := idx;
      active := true;
    }

    /** Click on tile `k` of the grid: open the lightbox on the filtered
        list at the tile's position `start + k`, which shows that tile's
        image. */
    method ClickTile(k: nat)
      requires Valid()
      requires k < |grid|
      modifies this`lightboxImages, this`lightboxIndex, this`active
      ensures Valid()
      ensures active && lightboxImages == Filtered()
      ensures lightboxIndex == currentPage * ImagesPerPage + k
      ensures lightboxIndex < |lightboxImages| && lightboxImages[lightboxIndex] == grid[k].image
    {
      OpenLightbox(grid[k].snapshot, grid[k].target);
    }

    /** Click on the close button: hide the lightbox. */
    method CloseClick()
      requires Valid()
      modifies this`active
      ensures Valid() && !active
    {
      active := false;
    }

    /** Click inside the lightbox: hide it when the click hit the overlay
        itself rather than the image. */
    method LightboxClick(onOverlay: bool)
      requires Valid()
      modifies this`active
      ensures Valid()
      ensures active == (old(active) && !onOverlay)
    {
      if onOverlay {
        active := false;
      }
    }

    /** A key press. Ignored while the lightbox is hidden; otherwise
        ArrowRight and ArrowLeft move the cursor and stop at the ends of
        the list, Escape hides the lightbox, any other key does nothing. */
    method KeyDown(key: string)
      requires Valid()
      modifies this`lightboxIndex, this`active
      ensures Valid()
      ensures !old(active) ==> !active && lightboxIndex == old(lightboxIndex)
      ensures old(active) ==>
                lightboxIndex == (if key == "ArrowRight" then ClampedNext(old(lightboxIndex), |lightboxImages|)
                                  else if key == "ArrowLeft" then ClampedPrev(old(lightboxIndex))
                                  else old(lightboxIndex)) &&
                active == (key != "Escape")
    {
      if !active {
        return;
      }
      if key == "ArrowRight" {
        if lightboxIndex < |lightboxImages| - 1 {
          lightboxIndex := lightboxIndex + 1;
        }
      } else if key == "ArrowLeft" {
        if lightboxIndex > 0 {
          lightboxIndex := lightboxIndex - 1;
        }
      } else if key == "Escape" {
        active := false;
      }
    }
  }
}
