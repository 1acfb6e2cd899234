/** Row-major index arithmetic shared by every buffer the system walks:
    pixel (x, y) of a `w`-wide grid sits at `y * w + x`. */
module Grid {

  function Index(w: nat, x: nat, y: nat): nat { y * w + x }

  lemma MulLeMul(a: nat, b: nat, c: nat)
    requires a <= b
    ensures a * c <= b * c
  {
  }

  /** Slot `i` of `n` slots of `k` cells ends inside them. */
  lemma SlotFits(i: nat, n: nat, k: nat)
    requires i < n
    ensures i * k + k <= n * k
  {
    MulLeMul(i + 1, n, k);
  }

  /** Division with remainder has one answer. */
  lemma DivMod(n: nat, k: nat, q: nat, r: nat)
    requires 0 <= r < k && n == q * k + r
    ensures n / k == q && n % k == r
  {
    var q', r' := n / k, n % k;
    assert n == q' * k + r';
    if q' > q {
      SlotFits(q, q', k);
      assert false;
    }
    if q' < q {
      SlotFits(q', q, k);
      assert false;
    }
  }

  /** Every in-range position lands inside the `w * h` cells. */
  lemma IndexBound(w: nat, h: nat, x: nat, y: nat)
    requires x < w && y < h
    ensures Index(w, x, y) < w * h
    ensures Index(w, x, y) + 1 <= w * h
  {
    MulLeMul(y, h - 1, w);
    assert (h - 1) * w == h * w - w;
  }

  /** Distinct positions of a row-major grid have distinct indices. */
  lemma IndexInjective(w: nat, x1: nat, y1: nat, x2: nat, y2: nat)
    requires x1 < w && x2 < w
    requires Index(w, x1, y1) == Index(w, x2, y2)
    ensures x1 == x2 && y1 == y2
  {
    if y1 < y2 {
      MulLeMul(y1 + 1, y2, w);
      assert false;
    } else if y2 < y1 {
      MulLeMul(y2 + 1, y1, w);
      assert false;
    }
  }

  /** Every cell index below `w * h` is the index of one in-range position. */
  lemma IndexCover(w: nat, h: nat, p: nat)
    requires p < w * h
    ensures w > 0
    ensures p % w < w && p / w < h
    ensures Index(w, p % w, p / w) == p
  {
    if p / w >= h {
      MulLeMul(h, p / w, w);
      assert false;
    }
  }

  /** The column and row of cell index `p`. */
  lemma CellOf(w: nat, h: nat, p: nat) returns (x: nat, y: nat)
    requires p < w * h
    ensures x < w && y < h && Index(w, x, y) == p
  {
    IndexCover(w, h, p);
    x, y := p % w, p / w;
  }

  /** A cell whose index lies inside the `w * h` cells is in one of the `h` rows. */
  lemma RowOfIndex(w: nat, h: nat, x: nat, y: nat)
    requires x < w && Index(w, x, y) < w * h
    ensures y < h
  {
    if y >= h {
      MulLeMul(h, y, w);
      assert false;
    }
  }

  /** The bytes of row `y` of a `w`-wide, `h`-high RGBA grid lie inside its buffer. */
  lemma RowBound(w: nat, h: nat, y: nat)
    requires y < h
    ensures 0 <= y * w * 4
    ensures y * w * 4 + w * 4 <= w * h * 4
  {
    MulLeMul(y + 1, h, w);
    MulLeMul((y + 1) * w, h * w, 4);
  }

  /** Byte offset of pixel (x, y): the start of row `y` plus four bytes per column. */
  lemma ByteOffset(w: nat, x: nat, y: nat)
    ensures 4 * Index(w, x, y) == y * w * 4 + 4 * x
  {
  }

  /** The regroupings of a byte count `a * b * 4` that the proofs need. */
  lemma Times4(a: nat, b: nat)
    ensures 4 * a * b == a * b * 4 == b * a * 4
    ensures a * (4 * b) == a * b * 4
    ensures (4 * a) * b == a * b * 4
  {
  }
}
