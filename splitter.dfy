/**
 * The extraction loop of `split_pdf`: for every piece a fresh writer is
 * filled, page by page, with the pages of that piece's range, and saved under
 * the piece's file name. A writer is modelled as the sequence of pages added
 * to it; a saved file as its name together with that sequence.
 */
module Splitter {
  import opened Partition
  import opened Naming

  /** One file written to the output directory. */
  datatype OutputFile<P> = OutputFile(name: string, pages: seq<P>)

  /** The page contents of the output files, in the order they were written. */
  function PagesOf<P>(outputs: seq<OutputFile<P>>): seq<seq<P>> {
    seq(|outputs|, i requires 0 <= i < |outputs| => outputs[i].pages)
  }

  /** Splits `pages` into `numPieces` output files named after `baseName`.
      Exactly `numPieces` files are written, empty ones included; file `i` holds
      piece `i`; no file holds more than `ceil(total / numPieces)` pages; and
      the files, read in order, hold every source page once, in order. */
  method SplitPdf<P>(baseName: string, pages: seq<P>, numPieces: nat)
    returns (outputs: seq<OutputFile<P>>)
    requires numPieces > 0
    ensures |outputs| == numPieces
    ensures forall i :: 0 <= i < numPieces ==>
      outputs[i] == OutputFile(OutputName(baseName, i), Piece(pages, numPieces, i))
    ensures forall i :: 0 <= i < numPieces ==>
      |outputs[i].pages| <= PagesPerPiece(|pages|, numPieces)
    ensures Concat(PagesOf(outputs)) == pages
  {
    var totalPages := |pages|;
    outputs := [];
    for i := 0 to numPieces
      invariant |outputs| == i
      invariant forall j :: 0 <= j < i ==>
        outputs[j] == OutputFile(OutputName(baseName, j), Piece(pages, numPieces, j))
    {
      var writer: seq<P> := [];
      var range := PieceRange(totalPages, numPieces, i);
      var pageNum := range.start;
      // `range(start, end)` yields nothing when start >= end
      while pageNum < range.end
        invariant range.start <= pageNum
        invariant pageNum == range.start || pageNum <= range.end
        invariant |writer| == pageNum - range.start
        invariant forall k :: 0 <= k < |writer| ==> writer[k] == pages[range.start + k]
      {
        writer := writer + [pages[pageNum]];
        pageNum := pageNum + 1;
      }
      assert |writer| == RangeLength(range);
      assert writer == Piece(pages, numPieces, i);
      outputs := outputs + [OutputFile(OutputName(baseName, i), writer)];
    }
    assert PagesOf(outputs) == Pieces(pages, numPieces);
    PiecesConcatenate(pages, numPieces);
  }
}
