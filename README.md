# PDF splitter: page partition and extraction

This project models the core of a small PDF-splitting script. The script splits
every PDF in its directory into `num_pieces` output files. It first computes
`pages_per_piece = ceil(total_pages / num_pieces)`. Piece `i` then receives the
source pages `range(i * pages_per_piece, min((i + 1) * pages_per_piece, total_pages))`.
It copies those pages one by one into a fresh writer and saves the result as
`<base>_part_<i + 1>.pdf`. Two gates sit in front of this. The script keeps only
directory entries whose lower-cased name ends in `.pdf`, and it accepts only a
positive piece count.

A document is a sequence of opaque pages (a type parameter `P`). A writer is the
sequence of pages added to it. A saved file is a name together with that
sequence (`Splitter.OutputFile`).

Modules:

- `Partition` (`partition.dfy`): the page arithmetic of `split_pdf` as pure
  functions, and the partition properties proved about them.
- `Naming` (`naming.dfy`): the output file name and Python's decimal notation
  for the piece number.
- `Inputs` (`inputs.dfy`): the `.pdf` file filter and the piece-count test.
- `Splitter` (`splitter.dfy`): the extraction loop of `split_pdf` as a method
  with an outer loop over pieces and an inner loop over page numbers.
- `Wrappers` (`wrappers.dfy`): the `Option` datatype.

The code does not clamp `start_page`. When `(i + 1) * pages_per_piece` passes the
last page, later pieces get `start > end`, for example `range(6, 5)` for piece
index 6 of a 5-page document split into 10. Python's `range` yields nothing
there. The model follows the code: `PieceRange(5, 10, 6) == PageRange(6, 5)`,
and `RangeLength` is 0 for such a range. A piece can be empty even when there
are more pages than pieces: `TenPagesInSix` shows a 10-page document split into
6 pieces, where the last piece is the empty range `[10, 10)`.

## Model

| member | source | states |
|---|---|---|
| `Partition.PagesPerPiece` | pdf-splitter.py:59 | pages per piece is the integer ceiling of total/pieces: the least count whose `num_pieces` multiples cover every page; it is 0 exactly when the document has no pages, otherwise at least 1, and never more than the page count |
| `Partition.PieceRange` | pdf-splitter.py:71-72 | the end of every piece range is at most the page count, so every page index the copy loop reads is in bounds; a range never yields more than `pages_per_piece` page numbers |
| `Partition.RangeLength` | pdf-splitter.py:75 | the number of page numbers `range(start, end)` yields: the numbers yielded are exactly `start .. start + len - 1`, none when `start >= end` |
| `Partition.Piece` | pdf-splitter.py:71-76 | the contents of writer `i`: page `k` of the piece is source page `i * ppp + k`, always in bounds, and there are at most `ppp` of them |
| `Partition.Slice` | pdf-splitter.py:75-76 | the pages copied for a range are the source pages at `start, start + 1, …` in order, as many as `range(start, end)` yields (none when `start >= end`) |
| `Partition.PieceFollowsCovered` | pdf-splitter.py:71-76 | the pages of piece `k` are exactly the pages that follow those handed out by pieces `0 .. k - 1`; the number handed out never decreases |
| `Partition.CoveredAll` | pdf-splitter.py:59-72 | after all `num_pieces` pieces every page has been handed out |
| `Partition.ConcatPrefix` | pdf-splitter.py:67-76 | the first `k` pieces, concatenated, are the first `min(k * ppp, total)` source pages |
| `Partition.PiecesConcatenate` | pdf-splitter.py:67-76 | the `num_pieces` pieces (`Pieces`: one per index of `range(num_pieces)`, empty ones included), concatenated in piece order, equal the source document: every page once, in order, with no gap or duplicate |
| `Partition.PageOwner` | pdf-splitter.py:71-72 | page `p` lies in the range of piece `i` if and only if `i == p / ppp`, and that index is a valid piece index, so every page has exactly one owner |
| `Partition.PieceNonEmptyIff` | pdf-splitter.py:71-75 | a piece receives a page if and only if its start `i * ppp` is below the page count |
| `Partition.PieceSize` | pdf-splitter.py:71-75 | each piece has at most `ppp` pages, and exactly `ppp` when `(i + 1) * ppp` does not pass the page count |
| `Partition.EmptyStaysEmpty` | pdf-splitter.py:71-72 | once a piece is empty, every later piece is empty |
| `Partition.TenPagesInThree` | pdf-splitter.py:59-72 | 10 pages in 3 pieces give the ranges `[0,4)`, `[4,8)`, `[8,10)` |
| `Partition.FivePagesInTen` | pdf-splitter.py:59-72 | 5 pages in 10 pieces give `ppp == 1`, the range `[i, i+1)` for piece indices 0-4, then `(5,5)`, `(6,5)`, …, `(9,5)` for indices 5-9, all empty |
| `Partition.TenPagesInSix` | pdf-splitter.py:59-72 | 10 pages in 6 pieces give `ppp == 2`, and the last piece is the empty range `[10,10)` |
| `Naming.Decimal` | pdf-splitter.py:79 | the piece number is written as decimal digits with no leading zero |
| `Naming.ParseDecimalOfDecimal` | pdf-splitter.py:79 | reading the decimal notation back gives the number: the notation loses nothing |
| `Naming.DecimalInjective` | pdf-splitter.py:79 | two numbers have the same decimal notation if and only if they are equal |
| `Naming.OutputName` | pdf-splitter.py:79 | an output name starts with the document's base name and ends in `.pdf` |
| `Naming.OutputNameInjective` | pdf-splitter.py:79 | two pieces of one document get the same file name if and only if they are the same piece, so no piece of a document overwrites another piece of the same document |
| `Naming.FirstPieceName` | pdf-splitter.py:79 | piece index 0 of `report` is `report_part_1.pdf`, and index 11 is `report_part_12.pdf` |
| `Inputs.LowerChar` | pdf-splitter.py:38 | `str.lower` on one character: an upper-case ASCII letter becomes its lower-case partner, any other character is kept, and no upper-case letter remains |
| `Inputs.Lower` | pdf-splitter.py:38 | lower-casing keeps the length, turns each upper-case ASCII letter into its lower-case partner in its place, keeps every other character in its place, and leaves no upper-case ASCII letter |
| `Inputs.LowerIdempotent` | pdf-splitter.py:38 | lower-casing an already lower-cased name changes nothing |
| `Inputs.EndsWith` | pdf-splitter.py:38 | `endswith`: the suffix is no longer than the string and its characters are, one by one, the string's last characters |
| `Inputs.IsPdfName` | pdf-splitter.py:38 | the filter condition `f.lower().endswith('.pdf')`: the name has at least four characters and its last four lower-case to `.pdf` |
| `Inputs.PdfNameAnyCase` | pdf-splitter.py:38 | a name with a four-character extension passes the filter if and only if the extension lower-cases to `.pdf` (`.PDF`, `.Pdf`, … all pass) |
| `Inputs.UpperCaseExtension` | pdf-splitter.py:38 | `report.PDF` passes the filter and `report.PDX` does not |
| `Inputs.SelectPdfFiles` | pdf-splitter.py:38 | a name is selected if and only if it is listed and its lower-cased form ends in `.pdf`; nothing is added |
| `Inputs.SelectAppend` | pdf-splitter.py:38 | filtering a listing in two parts gives the two results in order, so the selection keeps listing order |
| `Inputs.SelectCount` | pdf-splitter.py:38 | each PDF name is kept as many times as it is listed, and every other name is dropped |
| `Inputs.AcceptPieceCount` | pdf-splitter.py:104-106 | a count is accepted if and only if it is positive, and the accepted value is the number typed |
| `Splitter.SplitPdf` | pdf-splitter.py:67-83 | exactly `num_pieces` files (`Splitter.OutputFile`: a name with the writer's pages) are saved, empty ones included; file `i` is named `OutputName(base, i)` and holds piece `i`; no file holds more than `ppp` pages; the files' pages, in order, are the source document |

## Left out

- PDF parsing and serialisation by the PDF library (`PdfReader`, `PdfWriter.write`): a page is an opaque value, and a document is its sequence of pages.
- Filesystem access: directory listing, creating the output directory, opening and writing output files. The listing is an input to `Inputs.SelectPdfFiles`, and `Splitter.SplitPdf` returns the files it would write.
- The base-name computation with `os.path.splitext` and `os.path.basename`: the base name is an input string.
- Console input and output: the prompts, the retry loop around `int(input(...))` with its `ValueError` handling, the page counts listed per file, and the per-piece "Created: … (Pages a-b)" report. For an empty trailing piece that report prints a range such as "Pages 7-5".
- Output name clashes between documents: `report.pdf` and `report.PDF` both pass the filter and share the base name `report`, so they write the same output names into the one output directory, and the later document's files overwrite the earlier one's. `Naming.OutputNameInjective` only rules out clashes between pieces of the same document.
- The loop in `main` over all selected files and its per-file `try/except`, which only logs errors around I/O.
- `Partition.PagesPerPiece`: computes the ceiling on integers. The source rounds up a floating-point quotient. The two agree when the page count is below 2^53 and `num_pieces` is below 2^1075 times the page count. Beyond that bound the quotient underflows to `0.0`, so the source computes 0 pages per piece and writes only empty files. The model instead gives 1 page per piece to a non-empty document.
- `Inputs.LowerChar`, `Inputs.Lower`: lower ASCII capitals only, one character for one character. Python's `str.lower` also lowers non-ASCII letters (`É` to `é`). It can make a string longer: `İ` (U+0130) becomes `i` followed by U+0307. Its result can also depend on context: `Σ` at the end of a word becomes final sigma `ς`. None of this changes the `.pdf` test. Only `.`, `P`/`p`, `D`/`d` and `F`/`f` lower to those four characters, and the two-character result for `İ` ends in U+0307.
