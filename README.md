# Image gallery: filter, pager and lightbox cursors

A model of a small client-side image gallery. The repository holds three
variants of the same widget. Two of them, `gallery.js` and `script.js`, are
modelled here as sequential state machines driven by their event handlers.

- `gallery.js` keeps a fixed list of images, each with a caption and a
  category. A category filter (`'all'` or one category) selects the list the
  grid shows. The grid shows one page of at most six images, with Prev/Next
  buttons that are disabled at the ends. Clicking a tile opens a lightbox on
  the filtered list. In the lightbox, ArrowRight and ArrowLeft move the
  cursor and stop at the first and last image, and Escape closes it.
  Modelled in module `PagedGallery` (`paged_gallery.dfy`). The class
  `PagedGallery.Gallery` holds the source's module-level variables as
  fields: `currentPage`, `currentFilter`, `lightboxImages`, `lightboxIndex`
  and the lightbox's `active` class. It also holds the rendered grid and the
  two button flags.
- `script.js` works on the gallery items already present in the page. A
  filter click shows or hides every item. The lightbox cursor
  `currentIndex` runs over all items, shown or hidden, and wraps around at
  both ends. Modelled in module `StaticGallery` (`static_gallery.dfy`). The
  class `StaticGallery.Gallery` has an array of display flags, one per item,
  and the fields `currentIndex` and `open` (the lightbox's `show` class).
- Module `Images` (`images.dfy`) holds the shared image record, the `'all'`
  filter value, a `Min` helper and the visibility rule of `script.js`
  (`filter === 'all' || filter === category`). The lemmas
  `FilteredExactlyVisible` and `FilteredKeepsOrder` show that the
  `gallery.js` filter keeps exactly the images this rule makes visible, in
  their original order.

Each event handler is a method. The navigation handlers (Prev, Next, the
arrow keys, `showPrev` and `showNext`) give the new state as a pure step
function of the old state: `PrevPage`, `NextPage`, `ClampedNext`,
`ClampedPrev`, `NextIndex` or `PrevIndex`. The other handlers (filter
selection, opening and closing the lightbox, overlay clicks) give their new
fields directly. Each event handler also preserves the class's `Valid()`
invariant:

- the page is 0 or starts inside the filtered list;
- the grid and the buttons show the current page;
- the cursor of an open lightbox points at an image;
- in `StaticGallery`, there is one display flag per item.

`PagedGallery.Gallery.Render` is the exception: it is the shared redraw
step, and it promises only that the grid and the buttons show the current
page.

Lemmas about the step functions state what repeated events do.

Three predicates carry the source's rules into the contracts and have no
contract of their own: `Images.Visible` is the visibility test of
script.js:26, `PagedGallery.PrevDisabled` the Prev button flag of
gallery.js:35, and `PagedGallery.NextDisabled` the Next button flag of
gallery.js:36. The rows for `Render`, `PrevPage`, `NextPage`, `FilterClick`
and `FilteredExactlyVisible` below state what is proved about them.

## Model

| member | source | states |
|---|---|---|
| `PagedGallery.ByCategory` | gallery.js:19 | the category filter returns no more images than it was given; every image it returns has the selected category and comes from the list |
| `PagedGallery.FilteredImages` | gallery.js:18-20 | under `'all'` the filtered list is the whole list; otherwise every image in it is visible under the filter |
| `PagedGallery.ByCategoryCount` | gallery.js:19 | each image occurs in the category filter's result as often as in the list if it has the category, and not at all otherwise |
| `PagedGallery.FilteredExactlyVisible` | gallery.js:18-20 | the filtered list holds exactly the images visible under the filter, with their multiplicities, under `'all'` and under a category |
| `PagedGallery.ByCategoryKeepsOrder` | gallery.js:19 | the category filter's result is the list read at strictly increasing positions, and those positions are exactly the positions of the images with the category |
| `PagedGallery.FilteredKeepsOrder` | gallery.js:18-20 | the filtered list keeps the original order: it is the list read at strictly increasing positions, which are exactly the positions of the visible images |
| `PagedGallery.Slice` | gallery.js:28 | `slice(start, end)` returns the elements from `start`, clipped to the list, and is empty when `start` is past the end |
| `PagedGallery.PageWindow` | gallery.js:25-28 | a page shows `filtered[page*6 + k]` in order, and it holds `min(6, count - page*6)` images when the page starts inside the list and none otherwise |
| `PagedGallery.EveryImageHasAPage` | gallery.js:25-28 | every filtered image `j` appears on page `j / 6`, at offset `j % 6`, and that page is in range |
| `PagedGallery.BuildGrid` | gallery.js:25-34 | the grid has at most 6 tiles. Tile `k` shows `filtered[start + k]`, and its click handler captures `filtered` and the position `start + k` inside it. The grid of an in-range page of a non-empty list is non-empty |
| `PagedGallery.PrevPage` | gallery.js:39-44 | Prev moves back at most one page. It leaves the page unchanged exactly when Prev is disabled (page 0), and it keeps the page invariant |
| `PagedGallery.NextPage` | gallery.js:45-51 | Next moves on at most one page. It leaves the page unchanged exactly when Next is disabled (`page*6 + 6 >= count`), and it keeps the page invariant |
| `PagedGallery.PageInRangeUpToLast` | gallery.js:47 | the pages allowed by the page invariant are exactly pages 0 to the last page that holds an image |
| `PagedGallery.NextClicksReachLastPage` | gallery.js:45-51 | `k` clicks on Next from page 0 reach page `min(k, last page)`: every page is reached in turn, and Next stops at the last page |
| `PagedGallery.ClampedNext` | gallery.js:95-99 | ArrowRight keeps the index in range. It moves the index on by exactly one, except on the last image, where the index stays |
| `PagedGallery.ClampedPrev` | gallery.js:100-104 | ArrowLeft moves the index back by exactly one, except at 0, where it stays; it never goes negative |
| `PagedGallery.RightPressesStopAtEnd` | gallery.js:95-99 | `k` ArrowRight presses from `i` reach `min(i + k, n - 1)`: the lightbox never wraps around |
| `PagedGallery.Gallery.constructor` | gallery.js:14-16 | the initial state is page 0 and filter `'all'` (lines 14-16), and the lightbox holds an empty list at index 0 (lines 67-68). The grid shows the first page of all images, as the initial `renderGallery()` of line 111 draws it. The lightbox starts inactive, as the markup is assumed to leave it (see Left out below) |
| `PagedGallery.Gallery.Render` | gallery.js:22-37 | renderGallery rebuilds the grid for the current page. Prev is disabled exactly on page 0, and Next exactly when `start + 6` reaches the length of the filtered list |
| `PagedGallery.Gallery.PrevClick` | gallery.js:39-44 | the new page is `PrevPage` of the old one. The page changes exactly when Prev was enabled. The invariants are kept |
| `PagedGallery.Gallery.NextClick` | gallery.js:45-51 | the new page is `NextPage` of the old one. The page changes exactly when Next was enabled. The invariants are kept |
| `PagedGallery.Gallery.SelectFilter` | gallery.js:53-61 | selecting a filter sets `currentFilter` and resets the page to 0. The grid then shows the first page of the new filtered list |
| `PagedGallery.Gallery.OpenLightbox` | gallery.js:70-75 | the lightbox takes the given list and index and becomes active, and the gallery invariants are kept |
| `PagedGallery.Gallery.ClickTile` | gallery.js:32 | clicking tile `k` opens the lightbox on the current filtered list at `page*6 + k`. That index is valid, and the image there is the one the tile shows |
| `PagedGallery.Gallery.CloseClick` | gallery.js:83-85 | the close button makes the lightbox inactive |
| `PagedGallery.Gallery.LightboxClick` | gallery.js:87-91 | a click on the overlay makes the lightbox inactive; any other click changes nothing |
| `PagedGallery.Gallery.KeyDown` | gallery.js:93-108 | keys change nothing while the lightbox is inactive. Otherwise ArrowRight is `ClampedNext`, ArrowLeft is `ClampedPrev` and Escape closes the lightbox. The index stays inside the list |
| `StaticGallery.NextIndex` | script.js:52-55 | `(i + 1) % n` stays in `[0, n)`: it is `i + 1` before the last item, and 0 from the last item |
| `StaticGallery.PrevIndex` | script.js:47-50 | `(i - 1 + n) % n` stays in `[0, n)`: it is `i - 1` after the first item, and `n - 1` from 0 |
| `StaticGallery.PrevUndoesNext` | script.js:47-55 | showPrev after showNext returns to the original index |
| `StaticGallery.NextUndoesPrev` | script.js:47-55 | showNext after showPrev returns to the original index |
| `StaticGallery.NextPressesWrap` | script.js:52-55 | `k` calls of showNext from `i` reach `(i + k) % n`: the cursor cycles through all items |
| `StaticGallery.FullRoundReturns` | script.js:52-55 | `n` calls of showNext return to the starting item |
| `StaticGallery.Gallery.constructor` | script.js:6-14 | the items are fixed and the cursor is 0 (line 14). Every item starts displayed and the lightbox hidden, as the page's markup and stylesheet are assumed to leave them (see Left out below) |
| `StaticGallery.Gallery.FilterClick` | script.js:17-33 | after a filter click, each item is displayed exactly when the filter is `'all'` or equals its category. The cursor and the lightbox are unchanged |
| `StaticGallery.Gallery.OpenLightbox` | script.js:36-41 | opening sets `currentIndex` to the clicked item's position and shows the lightbox |
| `StaticGallery.Gallery.CloseLightbox` | script.js:43-45 | closing hides the lightbox and leaves `currentIndex` unchanged |
| `StaticGallery.Gallery.ShowPrev` | script.js:47-50 | the index becomes `PrevIndex` of the old one, over all items whether displayed or not |
| `StaticGallery.Gallery.ShowNext` | script.js:52-55 | the index becomes `NextIndex` of the old one, over all items whether displayed or not |
| `StaticGallery.Gallery.LightboxClick` | script.js:73-75 | a click on the overlay closes the lightbox; any other click changes nothing |
| `StaticGallery.Gallery.KeyDown` | script.js:78-91 | keys change nothing while the lightbox is hidden. Otherwise ArrowLeft is showPrev, ArrowRight is showNext and Escape closes the lightbox. Any other key changes nothing |

## Left out

- DOM access is not modelled. This covers building tiles with `innerHTML`, `appendChild`, setting image `src` and caption text, `classList` and `style.display`. The model keeps only the resulting values: the tiles, the button flags, the display flags and the open/active flags.
- The hard-coded image URLs in gallery.js:2-12 are not modelled. An image is a caption and a category.
- Event-listener registration and the browser event loop are not modelled. Each handler is a method, and calls happen one at a time.
- The `active` class on the filter buttons is styling, and both files set it. In gallery.js it names `currentFilter` after any filter click; before the first click the page's markup decides it.
- `showLightboxImage` and `updateLightboxImage` copy an image's `src` (and, in gallery.js, its caption) into the lightbox, so apart from their index they are not modelled. Both read `list[index]` and throw for an index outside the list; the requires of `OpenLightbox`, `ShowPrev` and `ShowNext` below exclude that path.
- The overlay test `e.target === lightbox` is not modelled. The click handlers take a boolean saying whether the click hit the overlay itself.
- Key names are strings compared with `==`, as `e.key` is.
- StaticGallery.Gallery.ShowPrev: requires at least one gallery item. With none, the source computes `% 0`, which yields NaN, and then throws in `updateLightboxImage`; that path is not modelled. The lightbox cannot open without an item, so `KeyDown` needs no such requirement.
- StaticGallery.Gallery.ShowNext: requires at least one gallery item, for the same reason as `ShowPrev`.
- PagedGallery.Gallery.constructor: the lightbox starts without its `active` class. Neither gallery.js:64-68 nor any other line sets it; the page's markup decides it, and the model assumes it is absent. With markup that starts the lightbox active, gallery.js would run with an active lightbox on an empty list (the arrows do nothing and Escape closes it); `Valid()` rules that state out.
- StaticGallery.Gallery.constructor: the lightbox starts without its `show` class. script.js:6-14 sets only `currentIndex`; the page's markup decides the class, and the model assumes it is absent.
- StaticGallery.Gallery.constructor: the initial `style.display` of the items comes from the stylesheet. The model starts with every item displayed.
- PagedGallery.Gallery.OpenLightbox: requires the index to be inside the list. The source reads `imgArr[idx].src`, which throws for an index outside the list, and its only caller, a grid tile, always passes a valid index (`ClickTile`).
- The filter value and the item categories are modelled as strings. A missing attribute is not modelled. For a filter button without `data-filter`, gallery.js:57 reads `null` through `getAttribute`, and script.js:19 reads `undefined` through `dataset`. In script.js an item without `data-category` also has category `undefined`, so such a button would show exactly the items without a category.
- Dafny's `%` is Euclidean and JavaScript's truncates toward zero. The two agree here because both operands are never negative: `i - 1 + n >= 0` when `0 <= i`.
- The repository's third, class-based variant of the widget is not modelled, and neither are its touch-swipe, window-resize and image-load handling.
