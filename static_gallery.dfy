/** The gallery of script.js: a fixed set of items already in the page,
    filter buttons that show or hide each item, and a lightbox whose cursor
    runs over all items and wraps around at both ends. */
module StaticGallery {
  import opened Images

  // ---------------------------------------------------------------------
  // The wrap-around cursor

  /** The index after `showNext`, `(index + 1) % count`: one step on, and
      from the last item back to the first. */
  function NextIndex(index: nat, count: nat): (r: nat)
    requires index < count
    ensures r < count
    ensures index < count - 1 ==> r == index + 1
    ensures index == count - 1 ==> r == 0
  {
    (index + 1) % count
  }

  /** The index after `showPrev`, `(index - 1 + count) % count`: one step
      back, and from the first item round to the last. */
  function PrevIndex(index: nat, count: nat): (r: nat)
    requires index < count
    ensures r < count
    ensures index > 0 ==> r == index - 1
    ensures index == 0 ==> r == count - 1
  {
    (index - 1 + count) % count
  }

  /** `showPrev` undoes `showNext`. */
  lemma PrevUndoesNext(index: nat, count: nat)
    requires index < count
    ensures PrevIndex(NextIndex(index, count), count) == index
  {
  }

  /** `showNext` undoes `showPrev`. */
  lemma NextUndoesPrev(index: nat, count: nat)
    requires index < count
    ensures NextIndex(PrevIndex(index, count), count) == index
  {
  }

  /** The index reached from `index` by `presses` calls of `showNext`. */
  function NextPresses(index: nat, count: nat, presses: nat): (r: nat)
    requires index < count
    ensures r < count
  {
    if presses == 0 then index else NextIndex(NextPresses(index, count, presses - 1), count)
  }

  /** A remainder is determined by any quotient-remainder split. */
  lemma ModOfSplit(x: nat, q: nat, r: nat, count: nat)
    requires 0 <= r < count && x == q * count + r
    ensures x % count == r
  {
    var q', r' := x / count, x % count;
    if q' < q {
      var d := q - q';
      assert q * count == q' * count + d * count;
      MulAtLeast(d, count);
    } else if q' > q {
      var d := q' - q;
      assert q' * count == q * count + d * count;
      MulAtLeast(d, count);
    }
  }

  /** A positive multiple of `count` is at least `count`. */
  lemma MulAtLeast(d: nat, count: nat)
    requires d >= 1
    ensures d * count >= count
  {
  }

  /** One more step on from `x % count` is `(x + 1) % count`. */
  lemma NextIndexOfMod(x: nat, count: nat)
    requires count > 0
    ensures NextIndex(x % count, count) == (x + 1) % count
  {
    var q, r := x / count, x % count;
    if r < count - 1 {
      ModOfSplit(x + 1, q, r + 1, count);
    } else {
      ModOfSplit(x + 1, q + 1, 0, count);
    }
  }

  /** Calling `showNext` repeatedly visits the items cyclically: after
      `presses` calls the index is `(index + presses) % count`. */
  lemma {:induction false} NextPressesWrap(index: nat, count: nat, presses: nat)
    requires index < count
    ensures NextPresses(index, count, presses) == (index + presses) % count
  {
    if presses == 0 {
      ModOfSplit(index, 0, index, count);
    } else {
      NextPressesWrap(index, count, presses - 1);
      NextIndexOfMod(index + presses - 1, count);
    }
  }

  /** A full round of `count` calls of `showNext` comes back to the start. */
  lemma FullRoundReturns(index: nat, count: nat)
    requires index < count
    ensures NextPresses(index, count, count) == index
  {
    NextPressesWrap(index, count, count);
    ModOfSplit(index + count, 1, index, count);
  }

  // ---------------------------------------------------------------------
  // The gallery's state and its event handlers

  class Gallery {
    /** The gallery items found in the page; they never change. */
    const items: seq<Image>
    /** Whether each item's `style.display` is 'block' (true) or 'none'. */
    const display: array<bool>
    var currentIndex: nat
    /** Whether the lightbox has the `show` class. */
    var open: bool

    /** One display flag per item, and the cursor on an item whenever
        there is one; an open lightbox implies there is one. */
    ghost predicate Valid()
      reads this
    {
      display.Length == |items| &&
      (currentIndex < |items| || (items == [] && currentIndex == 0 && !open))
    }

    /** The page as loaded: cursor 0. Every item displayed and the lightbox
        hidden are what the page's markup and stylesheet are assumed to
        give; the script itself sets neither. */
    constructor (items: seq<Image>)
      ensures Valid()
      ensures this.items == items && currentIndex == 0 && !open
      ensures fresh(display) && forall i :: 0 <= i < display.Length ==> display[i]
    {
      this.items := items;
      display := new bool[|items|](_ => true);
      currentIndex := 0;
      open := false;
    }

    /** Click on a filter button: every item is displayed exactly when the
        filter lets its category through; the lightbox and its cursor are
        left alone. */
    method FilterClick(filter: string)
      requires Valid()
      modifies display
      ensures Valid()
      ensures forall i :: 0 <= i < |items| ==> display[i] == Visible(filter, items[i].category)
      ensures currentIndex == old(currentIndex) && open == old(open)
    {
      for i := 0 to display.Length
        invariant forall k :: 0 <= k < i ==> display[k] == Visible(filter, items[k].category)
      {
        display[i] := Visible(filter, items[i].category);
      }
    }

    /** openLightbox: point the cursor at the clicked item and show the
        lightbox. Each item's click handler passes its own position. */
    method OpenLightbox(index: nat)
      requires Valid()
      requires index < |items|
      modifies this`currentIndex, this`open
      ensures Valid()
      ensures currentIndex == index && open
    {
      currentIndex := index;
      open := true;
    }

    /** closeLightbox: hide the lightbox; the cursor stays where it is. */
    method CloseLightbox()
      requires Valid()
      modifies this`open
      ensures Valid()
      ensures !open && currentIndex == old(currentIndex)
    {
      open := false;
    }

    /** showPrev: one item back, wrapping from the first to the last, over
        all items whether displayed or not. */
    method ShowPrev()
      requires Valid()
      requires |items| > 0
      modifies this`currentIndex
      ensures Valid()
      ensures currentIndex == PrevIndex(old(currentIndex), |items|)
    {
      currentIndex := PrevIndex(currentIndex, |items|);
    }

    /** showNext: one item on, wrapping from the last to the first, over
        all items whether displayed or not. */
    method ShowNext()
      requires Valid()
      requires |items| > 0
      modifies this`currentIndex
      ensures Valid()
      ensures currentIndex == NextIndex(old(currentIndex), |items|)
    {
      currentIndex := NextIndex(currentIndex, |items|);
    }

    /** Click inside the lightbox: hide it when the click hit the overlay
        itself rather than the image. */
    method LightboxClick(onOverlay: bool)
      requires Valid()
      modifies this`open
      ensures Valid()
      ensures open == (old(open) && !onOverlay) && currentIndex == old(currentIndex)
    {
      if onOverlay {
        CloseLightbox();
      }
    }

    /** A key press. Ignored while the lightbox is hidden; otherwise
        ArrowLeft is showPrev, ArrowRight is showNext, Escape closes the
        lightbox and any other key does nothing. */
    method KeyDown(key: string)
      requires Valid()
      modifies this`currentIndex, this`open
      ensures Valid()
      ensures !old(open) ==> !open && currentIndex == old(currentIndex)
      ensures old(open) ==>
                currentIndex == (if key == "ArrowLeft" then PrevIndex(old(currentIndex), |items|)
                                 else if key == "ArrowRight" then NextIndex(old(currentIndex), |items|)
                                 else old(currentIndex)) &&
                open == (key != "Escape")
    {
      if !open {
        return;
      }
      if key == "ArrowLeft" {
        ShowPrev();
      } else if key == "ArrowRight" {
        ShowNext();
      } else if key == "Escape" {
        CloseLightbox();
      }
    }
  }
}
