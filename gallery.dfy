/** The thumbnail grid (src/gallery.rs): the selection, the vertical scroll
    and the column count are fields the key handlers and the renderer update
    in place; thumbnails are requested from a background worker, and the
    grid remembers which indices it has a thumbnail for and which it has
    asked for. */
module GalleryGrid {
  import opened Base
  import opened Grid
  import Draw = Render

  const THUMB_SIZE: nat := 200
  const GAP: nat := 10
  const PADDING: nat := 10
  /** One grid cell: a thumbnail and the gap after it. */
  const CELL: nat := THUMB_SIZE + GAP

  /** `calc_cols`: as many cells as fit between the paddings, at least one. */
  function CalcCols(winW: nat): (cols: nat)
    ensures cols >= 1
    ensures cols == 1 || cols * CELL <= Draw.SatSub(winW, PADDING * 2 + GAP)
    ensures Draw.SatSub(winW, PADDING * 2 + GAP) < (cols + 1) * CELL
  {
    var usable := Draw.SatSub(winW, PADDING * 2 + GAP);
    if usable / CELL < 1 then 1 else usable / CELL
  }

  /** The scroll `ensure_visible` leaves for the row of `selected` in a
      window `winH` pixels high. */
  function ScrollFor(scroll: nat, selected: nat, cols: nat, winH: nat): (s: nat)
    requires cols >= 1
    ensures var yTop := PADDING + (selected / cols) * CELL;
      winH >= CELL + PADDING ==> s <= yTop && yTop + CELL <= s + winH
    ensures var yTop := PADDING + (selected / cols) * CELL;
      scroll <= yTop && yTop + CELL <= scroll + winH ==> s == scroll
  {
    var yTop := PADDING + (selected / cols) * CELL;
    var yBottom := yTop + CELL;
    var s1 := if yTop < scroll then Draw.SatSub(yTop, PADDING) else scroll;
    if yBottom > s1 + winH then Draw.SatSub(yBottom, winH) + PADDING else s1
  }

  /** The indices in `lo .. hi-1` that have no thumbnail and are not
      requested yet, in increasing order. */
  function Missing(lo: nat, hi: nat, cached: set<nat>, pending: set<nat>): (m: seq<nat>)
    ensures |m| <= if hi <= lo then 0 else hi - lo
    decreases hi
  {
    if hi <= lo then []
    else
      var m := Missing(lo, hi - 1, cached, pending);
      if hi - 1 !in cached && hi - 1 !in pending then m + [hi - 1] else m
  }

  /** `Missing` holds exactly the indices of the range that are neither
      cached nor pending, each once, in increasing order. */
  lemma {:induction false} MissingExactly(lo: nat, hi: nat, cached: set<nat>, pending: set<nat>)
    ensures var m := Missing(lo, hi, cached, pending);
      (forall k :: 0 <= k < |m| ==> lo <= m[k] < hi && m[k] !in cached && m[k] !in pending) &&
      (forall j, k :: 0 <= j < k < |m| ==> m[j] < m[k]) &&
      (forall i :: lo <= i < hi && i !in cached && i !in pending ==> i in m)
    decreases hi
  {
    if hi > lo {
      MissingExactly(lo, hi - 1, cached, pending);
    }
  }

  /** Every index the batch so far holds lies below `hi`, so `hi` itself is
      queued only when it is already pending. */
  lemma MissingBelow(lo: nat, hi: nat, cached: set<nat>, pending: set<nat>)
    ensures hi !in Members(Missing(lo, hi, cached, pending))
  {
    MissingExactly(lo, hi, cached, pending);
  }

  /** One more index: `Missing` grows by `hi` exactly when `hi` is neither
      cached nor pending. */
  lemma MissingStep(lo: nat, hi: nat, cached: set<nat>, pending: set<nat>)
    requires lo <= hi
    ensures Missing(lo, hi + 1, cached, pending) ==
      if hi !in cached && hi !in pending then Missing(lo, hi, cached, pending) + [hi]
      else Missing(lo, hi, cached, pending)
  {
  }

  /** The loop of the dispatch: walks `lo .. hi-1`, queues every index that
      is neither cached nor already queued, and returns the batch with the
      grown pending set. */
  method QueueMissing(lo: nat, hi: nat, cached: set<nat>, pending: set<nat>) returns (batch: seq<nat>, queued: set<nat>)
    ensures batch == Missing(lo, hi, cached, pending)
    ensures queued == pending + Members(batch)
  {
    batch, queued := [], pending;
    if hi <= lo {
      return;
    }
    var i := lo;
    while i < hi
      invariant lo <= i <= hi
      invariant batch == Missing(lo, i, cached, pending)
      invariant queued == pending + Members(batch)
    {
      MissingStep(lo, i, cached, pending);
      if i !in cached && i !in queued {
        MembersAppend(batch, i);
        batch := batch + [i];
        queued := queued + {i};
      } else {
        MissingBelow(lo, i, cached, pending);
      }
      i := i + 1;
    }
    assert Missing(lo, i, cached, pending) == Missing(lo, hi, cached, pending);
  }

  lemma MembersAppend(s: seq<nat>, x: nat)
    ensures Members(s + [x]) == Members(s) + {x}
  {
  }

  /** The indices a batch holds. */
  function Members(s: seq<nat>): set<nat>
  {
    set x | x in s
  }

  /** The indices a render asks thumbnails for: the visible rows plus one row
      above and one below, cut to the list. The second half is the visible
      range it contains. */
  function LoadRange(scroll: nat, winH: nat, cols: nat, total: nat): (r: (nat, nat))
    requires cols >= 1
    ensures r.1 <= total
    ensures var firstVisible := (scroll / CELL) * cols;
      var lastVisible := if (((scroll + winH) / CELL + 1) + 1) * cols < total then (((scroll + winH) / CELL + 1) + 1) * cols else total;
      firstVisible < lastVisible ==> r.0 <= firstVisible && lastVisible <= r.1
  {
    var firstVisibleRow := scroll / CELL;
    var lastVisibleRow := (scroll + winH) / CELL + 1;
    var firstVisible := firstVisibleRow * cols;
    var lastVisible := if (lastVisibleRow + 1) * cols < total then (lastVisibleRow + 1) * cols else total;
    var loadStart := Draw.SatSub(firstVisible, cols);
    var loadEnd := if lastVisible + cols < total then lastVisible + cols else total;
    (loadStart, loadEnd)
  }

  /** A step of one whole row keeps the column. */
  lemma ColumnKept(i: nat, cols: nat)
    requires cols >= 1
    ensures (i + cols) % cols == i % cols
  {
    var q, r := i / cols, i % cols;
    assert Index(cols, r, q + 1) == i + cols;
    assert Index(cols, (i + cols) % cols, (i + cols) / cols) == i + cols;
    IndexInjective(cols, r, q + 1, (i + cols) % cols, (i + cols) / cols);
  }

  class Gallery {
    /** The selected index in the image list. */
    var selected: nat
    /** Vertical scroll offset in pixels. */
    var scrollY: nat
    /** Columns of the current layout. */
    var cols: nat
    /** Indices with a thumbnail. */
    var cached: set<nat>
    /** Indices requested from the worker and not yet received. */
    var pending: set<nat>

    predicate Valid()
      reads this
    {
      cols >= 1
    }

    constructor ()
      ensures Valid()
      ensures selected == 0 && scrollY == 0 && cols == 1 && cached == {} && pending == {}
    {
      selected, scrollY, cols, cached, pending := 0, 0, 1, {}, {};
    }

    /** `set_selected`. */
    method SetSelected(index: nat)
      requires Valid()
      modifies this
      ensures Valid()
      ensures selected == index
      ensures scrollY == old(scrollY) && cols == old(cols) && cached == old(cached) && pending == old(pending)
    {
      selected := index;
    }

    /** `move_left`: one step back unless at the first image or the list is empty. */
    method MoveLeft(total: nat)
      requires Valid()
      modifies this
      ensures Valid()
      ensures selected == if total > 0 && old(selected) > 0 then old(selected) - 1 else old(selected)
      ensures old(selected) < total ==> selected < total
      ensures scrollY == old(scrollY) && cols == old(cols) && cached == old(cached) && pending == old(pending)
    {
      if total == 0 {
        return;
      }
      if selected > 0 {
        selected := selected - 1;
      }
    }

    /** `move_right`: one step on while that stays inside the list. */
    method MoveRight(total: nat)
      requires Valid()
      modifies this
      ensures Valid()
      ensures selected == if old(selected) + 1 < total then old(selected) + 1 else old(selected)
      ensures old(selected) < total ==> selected < total
      ensures scrollY == old(scrollY) && cols == old(cols) && cached == old(cached) && pending == old(pending)
    {
      if total == 0 {
        return;
      }
      if selected + 1 < total {
        selected := selected + 1;
      }
    }

    /** `move_up`: one row up when there is a row above. */
    method MoveUp(total: nat)
      requires Valid()
      modifies this
      ensures Valid()
      ensures selected == if old(selected) >= cols then old(selected) - cols else old(selected)
      ensures selected % cols == old(selected) % cols
      ensures old(selected) < total ==> selected < total
      ensures scrollY == old(scrollY) && cols == old(cols) && cached == old(cached) && pending == old(pending)
    {
      if selected >= cols {
        selected := selected - cols;
        ColumnKept(selected, cols);
      }
    }

    /** `move_down`: one row down when that row has an image in this column. */
    method MoveDown(total: nat)
      requires Valid()
      modifies this
      ensures Valid()
      ensures selected == if old(selected) + cols < total then old(selected) + cols else old(selected)
      ensures selected % cols == old(selected) % cols
      ensures old(selected) < total ==> selected < total
      ensures scrollY == old(scrollY) && cols == old(cols) && cached == old(cached) && pending == old(pending)
    {
      if total == 0 {
        return;
      }
      if selected + cols < total {
        ColumnKept(selected, cols);
        selected := selected + cols;
      }
    }

    /** `go_first`: the first image, scrolled to the top. */
    method GoFirst()
      requires Valid()
      modifies this
      ensures Valid()
      ensures selected == 0 && scrollY == 0
      ensures cols == old(cols) && cached == old(cached) && pending == old(pending)
    {
      selected := 0;
      scrollY := 0;
    }

    /** `go_last`: the last image of a non-empty list. */
    method GoLast(total: nat)
      requires Valid()
      modifies this
      ensures Valid()
      ensures total > 0 ==> selected == total - 1
      ensures total == 0 ==> selected == old(selected)
      ensures scrollY == old(scrollY) && cols == old(cols) && cached == old(cached) && pending == old(pending)
    {
      if total > 0 {
        selected := total - 1;
      }
    }

    /** `poll_thumbnails`: takes the indices the worker has finished, in the
        order they arrive, as cached and no longer pending; answers whether
        any arrived. */
    method PollThumbnails(received: seq<nat>) returns (any: bool)
      requires Valid()
      modifies this
      ensures Valid()
      ensures any <==> |received| > 0
      ensures cached == old(cached) + Members(received)
      ensures pending == old(pending) - Members(received)
      ensures selected == old(selected) && scrollY == old(scrollY) && cols == old(cols)
    {
      any := false;
      var i := 0;
      while i < |received|
        invariant 0 <= i <= |received|
        invariant any <==> i > 0
        invariant cached == old(cached) + Members(received[..i])
        invariant pending == old(pending) - Members(received[..i])
        invariant selected == old(selected) && scrollY == old(scrollY) && cols == old(cols)
      {
        assert received[..i + 1] == received[..i] + [received[i]];
        MembersAppend(received[..i], received[i]);
        cached := cached + {received[i]};
        pending := pending - {received[i]};
        any := true;
        i := i + 1;
      }
      assert received[..i] == received;
    }

    /** `ensure_visible`: scrolls just enough to show the selected row. */
    method EnsureVisible(winH: nat)
      requires Valid()
      modifies this
      ensures Valid()
      ensures scrollY == ScrollFor(old(scrollY), selected, cols, winH)
      ensures selected == old(selected) && cols == old(cols) && cached == old(cached) && pending == old(pending)
    {
      var row := selected / cols;
      var yTop := PADDING + row * CELL;
      var yBottom := yTop + CELL;
      if yTop < scrollY {
        scrollY := Draw.SatSub(yTop, PADDING);
      }
      if yBottom > scrollY + winH {
        scrollY := Draw.SatSub(yBottom, winH) + PADDING;
      }
    }

    /** The dispatch loop of `render`: every index of `loadStart .. loadEnd-1`
        without a thumbnail and not yet requested is queued, once, and marked
        pending. */
    method Dispatch(loadStart: nat, loadEnd: nat) returns (batch: seq<nat>)
      requires Valid()
      modifies this
      ensures Valid()
      ensures batch == Missing(loadStart, loadEnd, cached, old(pending))
      ensures pending == old(pending) + Members(batch)
      ensures selected == old(selected) && scrollY == old(scrollY) && cols == old(cols) && cached == old(cached)
    {
      var queued;
      batch, queued := QueueMissing(loadStart, loadEnd, cached, pending);
      pending := queued;
    }

    /** `render` without the drawing: lay out the columns, scroll the selection
        into view and request the missing thumbnails around the visible rows.
        The returned indices are those sent to the worker. */
    method Render(total: nat, winW: nat, winH: nat) returns (batch: seq<nat>)
      requires Valid()
      modifies this
      ensures Valid()
      ensures winW == 0 || winH == 0 ==>
        batch == [] && selected == old(selected) && scrollY == old(scrollY) && cols == old(cols) && pending == old(pending)
      ensures winW > 0 && winH > 0 ==>
        cols == CalcCols(winW) && scrollY == ScrollFor(old(scrollY), selected, cols, winH) &&
        batch == Missing(LoadRange(scrollY, winH, cols, total).0, LoadRange(scrollY, winH, cols, total).1, cached, old(pending)) &&
        pending == old(pending) + (Members(batch))
      ensures forall k :: 0 <= k < |batch| ==> batch[k] < total && batch[k] !in old(pending)
      ensures selected == old(selected) && cached == old(cached)
    {
      if winW == 0 || winH == 0 {
        return [];
      }
      cols := CalcCols(winW);
      EnsureVisible(winH);
      var range := LoadRange(scrollY, winH, cols, total);
      batch := Dispatch(range.0, range.1);
      MissingExactly(range.0, range.1, cached, old(pending));
    }
  }
}
