/**
 * The page arithmetic of `split_pdf`: how many pages go into each piece, the
 * half-open page range `[start, end)` of every piece, and the pages that range
 * selects from the source document.
 *
 * A document is a sequence of opaque pages (the type parameter `P`); piece
 * indices are 0-based as in the source's `for i in range(num_pieces)`.
 */
module Partition {

  /** A half-open page range as iterated by `range(start, end)`; when
      `start >= end` the range is empty (the source never clamps `start`). */
  datatype PageRange = PageRange(start: nat, end: nat)

  predicate InRange(p: nat, r: PageRange) {
    r.start <= p < r.end
  }

  /** Number of page numbers `range(r.start, r.end)` yields: the numbers it
      yields are exactly `start, start + 1, ..., start + len - 1`. */
  function RangeLength(r: PageRange): (len: nat)
    ensures forall p: nat :: InRange(p, r) <==> r.start <= p < r.start + len
  {
    if r.start < r.end then r.end - r.start else 0
  }

  function Min(a: nat, b: nat): nat {
    if a <= b then a else b
  }

  /** `ceil(total_pages / num_pieces)`, computed exactly on integers: the least
      number of pages per piece for which `num_pieces` pieces cover the document. */
  function PagesPerPiece(totalPages: nat, numPieces: nat): (ppp: nat)
    requires numPieces > 0
    ensures totalPages <= ppp * numPieces
    ensures ppp > 0 ==> (ppp - 1) * numPieces < totalPages
    ensures ppp == 0 <==> totalPages == 0
    ensures ppp <= totalPages
  {
    CeilDiv(totalPages, numPieces);
    (totalPages + numPieces - 1) / numPieces
  }

  lemma CeilDiv(t: nat, n: nat)
    requires n > 0
    ensures var q := (t + n - 1) / n;
      t <= q * n && (q > 0 ==> (q - 1) * n < t) && (q == 0 <==> t == 0) && q <= t
  {
    var q, r := (t + n - 1) / n, (t + n - 1) % n;
    assert t + n - 1 == q * n + r;
    assert (q - 1) * n == q * n - n;
    if t == 0 {
      assert q * n < n;
      MulStrictLeft(q, 1, n);
    } else {
      assert q * n <= t + n - 1;
      MulMonoLeft(1, q, n);
      if q > t {
        MulMonoLeft(t + 1, q, n);
        assert (t + 1) * n == t * n + n;
        MulMonoLeft(1, n, t);
      }
    }
  }

  lemma MulMonoLeft(a: nat, b: nat, c: nat)
    requires a <= b
    ensures a * c <= b * c
  {
    assert b * c == a * c + (b - a) * c;
  }

  /** Strict cancellation: `a * c < b * c` forces `a < b`. */
  lemma MulStrictLeft(a: nat, b: nat, c: nat)
    requires a * c < b * c
    ensures a < b
  {
    if b <= a {
      MulMonoLeft(b, a, c);
    }
  }

  /** The range of piece `i`: `start = i * ppp`, `end = min((i + 1) * ppp, total_pages)`. */
  function PieceRange(totalPages: nat, numPieces: nat, i: nat): (r: PageRange)
    requires numPieces > 0
    ensures r.end <= totalPages
    ensures RangeLength(r) <= PagesPerPiece(totalPages, numPieces)
  {
    var ppp := PagesPerPiece(totalPages, numPieces);
    assert (i + 1) * ppp == i * ppp + ppp;
    PageRange(i * ppp, Min((i + 1) * ppp, totalPages))
  }

  /** The pages `range(start, end)` copies out of `pages`, in order. */
  function Slice<P>(pages: seq<P>, r: PageRange): (s: seq<P>)
    requires r.end <= |pages|
    ensures |s| == RangeLength(r)
    ensures forall k :: 0 <= k < |s| ==> s[k] == pages[r.start + k]
  {
    if r.start < r.end then pages[r.start..r.end] else []
  }

  /** The pages written to output piece `i`: page `k` of the piece is source
      page `i * ppp + k`, and there are at most `ppp` of them. */
  function Piece<P>(pages: seq<P>, numPieces: nat, i: nat): (s: seq<P>)
    requires numPieces > 0
    ensures |s| <= PagesPerPiece(|pages|, numPieces)
    ensures forall k :: 0 <= k < |s| ==>
      i * PagesPerPiece(|pages|, numPieces) + k < |pages| &&
      s[k] == pages[i * PagesPerPiece(|pages|, numPieces) + k]
  {
    Slice(pages, PieceRange(|pages|, numPieces, i))
  }

  /** All pieces, in the order the source writes them. */
  function Pieces<P>(pages: seq<P>, numPieces: nat): seq<seq<P>>
    requires numPieces > 0
  {
    seq(numPieces, i requires 0 <= i < numPieces => Piece(pages, numPieces, i))
  }

  /** The concatenation of a sequence of pieces, first piece first. */
  function Concat<P>(ss: seq<seq<P>>): seq<P> {
    if ss == [] then [] else Concat(ss[..|ss| - 1]) + ss[|ss| - 1]
  }

  /** Number of pages handed out by the first `k` pieces. */
  function Covered(totalPages: nat, numPieces: nat, k: nat): nat
    requires numPieces > 0
  {
    Min(k * PagesPerPiece(totalPages, numPieces), totalPages)
  }

  /** Piece `k` continues exactly where the first `k` pieces stopped. */
  lemma PieceFollowsCovered<P>(pages: seq<P>, numPieces: nat, k: nat)
    requires numPieces > 0
    ensures Covered(|pages|, numPieces, k) <= Covered(|pages|, numPieces, k + 1)
    ensures pages[..Covered(|pages|, numPieces, k)] + Piece(pages, numPieces, k)
         == pages[..Covered(|pages|, numPieces, k + 1)]
  {
    var t, ppp := |pages|, PagesPerPiece(|pages|, numPieces);
    var r := PieceRange(t, numPieces, k);
    assert (k + 1) * ppp == k * ppp + ppp;
    if r.start < r.end {
      assert pages[..r.start] + pages[r.start..r.end] == pages[..r.end];
    } else {
      assert Covered(t, numPieces, k) == Covered(t, numPieces, k + 1);
    }
  }

  /** The `num_pieces` pieces together cover every page. */
  lemma CoveredAll(totalPages: nat, numPieces: nat)
    requires numPieces > 0
    ensures Covered(totalPages, numPieces, numPieces) == totalPages
  {
    var ppp := PagesPerPiece(totalPages, numPieces);
    assert totalPages <= numPieces * ppp;
  }

  lemma {:induction false} ConcatPrefix<P>(pages: seq<P>, numPieces: nat, k: nat)
    requires 0 < numPieces && k <= numPieces
    ensures Concat(Pieces(pages, numPieces)[..k]) == pages[..Covered(|pages|, numPieces, k)]
  {
    var ps := Pieces(pages, numPieces);
    if k == 0 {
      assert ps[..0] == [];
      assert Covered(|pages|, numPieces, 0) == 0;
    } else {
      ConcatPrefix(pages, numPieces, k - 1);
      assert ps[..k][..k - 1] == ps[..k - 1];
      PieceFollowsCovered(pages, numPieces, k - 1);
    }
  }

  /** The pieces, taken in order, are exactly the source pages: every page once,
      in the original order, with no gap and no duplicate. */
  lemma PiecesConcatenate<P>(pages: seq<P>, numPieces: nat)
    requires numPieces > 0
    ensures Concat(Pieces(pages, numPieces)) == pages
  {
    var ps := Pieces(pages, numPieces);
    ConcatPrefix(pages, numPieces, numPieces);
    assert ps[..numPieces] == ps;
    CoveredAll(|pages|, numPieces);
  }

  /** A page number lies in piece `i` exactly when `i == p / ppp`: every page of
      the document belongs to one piece and to no other. */
  lemma PageOwner(totalPages: nat, numPieces: nat, p: nat, i: nat)
    requires numPieces > 0 && p < totalPages && i < numPieces
    ensures p / PagesPerPiece(totalPages, numPieces) < numPieces
    ensures InRange(p, PieceRange(totalPages, numPieces, i))
        <==> i == p / PagesPerPiece(totalPages, numPieces)
  {
    var ppp := PagesPerPiece(totalPages, numPieces);
    var q := p / ppp;
    DivBounds(p, ppp);
    if q >= numPieces {
      MulMonoLeft(numPieces, q, ppp);
    }
    var r := PieceRange(totalPages, numPieces, i);
    assert InRange(p, r) <==> i * ppp <= p < (i + 1) * ppp;
    if i * ppp <= p < (i + 1) * ppp {
      DivUnique(p, ppp, i);
    }
  }

  lemma DivBounds(p: nat, d: nat)
    requires d > 0
    ensures (p / d) * d <= p < (p / d + 1) * d
  {
    var q, m := p / d, p % d;
    assert p == q * d + m;
    assert (q + 1) * d == q * d + d;
  }

  /** The only `i` with `i * d <= p < (i + 1) * d` is `p / d`. */
  lemma DivUnique(p: nat, d: nat, i: nat)
    requires d > 0 && i * d <= p < (i + 1) * d
    ensures i == p / d
  {
    var q := p / d;
    DivBounds(p, d);
    if i < q {
      MulMonoLeft(i + 1, q, d);
    } else if q < i {
      MulMonoLeft(q + 1, i, d);
    }
  }

  /** Piece `i` receives at least one page exactly when its start lies inside
      the document. */
  lemma PieceNonEmptyIff(totalPages: nat, numPieces: nat, i: nat)
    requires numPieces > 0
    ensures RangeLength(PieceRange(totalPages, numPieces, i)) > 0
        <==> i * PagesPerPiece(totalPages, numPieces) < totalPages
  {
    var ppp := PagesPerPiece(totalPages, numPieces);
    assert (i + 1) * ppp == i * ppp + ppp;
  }

  /** Every piece holds at most `ppp` pages, and exactly `ppp` when its nominal
      end `(i + 1) * ppp` does not pass the last page. */
  lemma PieceSize<P>(pages: seq<P>, numPieces: nat, i: nat)
    requires numPieces > 0
    ensures |Piece(pages, numPieces, i)| <= PagesPerPiece(|pages|, numPieces)
    ensures (i + 1) * PagesPerPiece(|pages|, numPieces) <= |pages|
        ==> |Piece(pages, numPieces, i)| == PagesPerPiece(|pages|, numPieces)
  {
    var ppp := PagesPerPiece(|pages|, numPieces);
    assert (i + 1) * ppp == i * ppp + ppp;
  }

  /** Once a piece is empty every later piece is empty too. */
  lemma EmptyStaysEmpty<P>(pages: seq<P>, numPieces: nat, i: nat, j: nat)
    requires numPieces > 0 && i <= j
    requires Piece(pages, numPieces, i) == []
    ensures Piece(pages, numPieces, j) == []
  {
    var t, ppp := |pages|, PagesPerPiece(|pages|, numPieces);
    PieceNonEmptyIff(t, numPieces, i);
    PieceNonEmptyIff(t, numPieces, j);
    MulMonoLeft(i, j, ppp);
  }

  /** Ten pages in three pieces: four, four and two pages. */
  lemma TenPagesInThree()
    ensures PieceRange(10, 3, 0) == PageRange(0, 4)
    ensures PieceRange(10, 3, 1) == PageRange(4, 8)
    ensures PieceRange(10, 3, 2) == PageRange(8, 10)
  {
  }

  /** Five pages in ten pieces: one page each for piece indices 0-4; the
      trailing ranges are not clamped, so piece index 6 (file `_part_7`) is
      `range(6, 5)`, which yields no page. */
  lemma FivePagesInTen()
    ensures PagesPerPiece(5, 10) == 1
    ensures forall i :: 0 <= i < 5 ==> PieceRange(5, 10, i) == PageRange(i, i + 1)
    ensures forall i :: 5 <= i < 10 ==> PieceRange(5, 10, i) == PageRange(i, 5)
    ensures forall i :: 5 <= i < 10 ==> RangeLength(PieceRange(5, 10, i)) == 0
  {
    assert PagesPerPiece(5, 10) == 1;
  }

  /** Ten pages in six pieces: `ppp == 2`, so the last piece is empty although
      there are more pages than pieces. */
  lemma TenPagesInSix()
    ensures PagesPerPiece(10, 6) == 2
    ensures PieceRange(10, 6, 4) == PageRange(8, 10)
    ensures PieceRange(10, 6, 5) == PageRange(10, 10)
  {
  }
}
