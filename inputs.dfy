/**
 * The two input gates of the script: which directory entries are taken as PDF
 * files (`get_pdf_files`) and which typed piece counts are accepted (`main`).
 */
module Inputs {
  import opened Wrappers

  predicate IsUpper(c: char) {
    'A' <= c <= 'Z'
  }

  /** `str.lower` on one character; only ASCII letters matter for the `.pdf` test.
      An upper-case letter becomes its lower-case partner, 32 code points on;
      every other character is kept, and no upper-case letter is left. */
  function LowerChar(c: char): (r: char)
    ensures IsUpper(c) ==> 'a' <= r <= 'z' && r as int == c as int + 32
    ensures !IsUpper(c) ==> r == c
    ensures !IsUpper(r)
  {
    if IsUpper(c) then (c as int - 'A' as int + 'a' as int) as char else c
  }

  /** `str.lower` on a string: the length is kept, every upper-case letter
      becomes its lower-case partner in its place, every other character stays
      in its place, and no upper-case letter is left. */
  function Lower(s: string): (r: string)
    ensures |r| == |s|
    ensures forall k :: 0 <= k < |s| && IsUpper(s[k]) ==> r[k] as int == s[k] as int + 32
    ensures forall k :: 0 <= k < |s| && !IsUpper(s[k]) ==> r[k] == s[k]
    ensures forall k :: 0 <= k < |s| ==> !IsUpper(r[k])
  {
    seq(|s|, k requires 0 <= k < |s| => LowerChar(s[k]))
  }

  /** Lower-casing twice is lower-casing once. */
  lemma LowerIdempotent(s: string)
    ensures Lower(Lower(s)) == Lower(s)
  {
    assert forall k :: 0 <= k < |s| ==> Lower(Lower(s))[k] == Lower(s)[k];
  }

  /** `s.endswith(suffix)`: the last `|suffix|` characters of `s` are, one by
      one, the characters of `suffix`. */
  predicate EndsWith(s: string, suffix: string)
    ensures EndsWith(s, suffix) <==>
      |suffix| <= |s| &&
      forall k :: 0 <= k < |suffix| ==> s[|s| - |suffix| + k] == suffix[k]
  {
    |suffix| <= |s| && s[|s| - |suffix|..] == suffix
  }

  /** `f.lower().endswith('.pdf')`: the name has at least four characters and
      its last four lower-case to `.pdf`, whatever their case. */
  predicate IsPdfName(f: string)
    ensures IsPdfName(f) <==> |f| >= 4 && Lower(f[|f| - 4..]) == ".pdf"
  {
    assert |f| >= 4 ==> Lower(f)[|f| - 4..] == Lower(f[|f| - 4..]);
    EndsWith(Lower(f), ".pdf")
  }

  /** The extension test ignores case: a name with a four-character extension
      passes exactly when that extension lower-cases to `.pdf`. */
  lemma PdfNameAnyCase(stem: string, ext: string)
    requires |ext| == 4
    ensures IsPdfName(stem + ext) <==> Lower(ext) == ".pdf"
  {
    var f := stem + ext;
    assert Lower(f)[|f| - 4..] == Lower(ext);
  }

  /** An upper-case extension passes the filter; one with a wrong letter does not. */
  lemma UpperCaseExtension()
    ensures IsPdfName("report.PDF")
    ensures !IsPdfName("report.PDX")
  {
    var f, g := "report.PDF", "report.PDX";
    assert f[6..] == ".PDF" && g[6..] == ".PDX";
    assert Lower(".PDF") == ['.', 'p', 'd', 'f'];
    assert Lower(".PDX")[3] == 'x';
  }

  /** The directory listing filtered to PDF names, in listing order. */
  function SelectPdfFiles(names: seq<string>): (r: seq<string>)
    ensures |r| <= |names|
    ensures forall f :: f in r <==> f in names && IsPdfName(f)
  {
    if names == [] then []
    else
      var rest := SelectPdfFiles(names[1..]);
      assert forall f :: f in names <==> f == names[0] || f in names[1..];
      if IsPdfName(names[0]) then [names[0]] + rest else rest
  }

  /** Filtering a listing piecewise gives the same result as filtering it whole:
      the selection keeps the listing's order. */
  lemma {:induction false} SelectAppend(a: seq<string>, b: seq<string>)
    ensures SelectPdfFiles(a + b) == SelectPdfFiles(a) + SelectPdfFiles(b)
  {
    if a != [] {
      assert (a + b)[1..] == a[1..] + b;
      SelectAppend(a[1..], b);
    } else {
      assert a + b == b;
    }
  }

  /** Every PDF name is kept as often as it is listed; every other name is dropped. */
  lemma {:induction false} SelectCount(names: seq<string>, f: string)
    ensures multiset(SelectPdfFiles(names))[f]
         == if IsPdfName(f) then multiset(names)[f] else 0
  {
    if names != [] {
      SelectCount(names[1..], f);
      assert names == [names[0]] + names[1..];
    }
  }

  /** The piece-count test of `main`: only a positive count is accepted, and an
      accepted count is the number typed. */
  function AcceptPieceCount(k: int): (r: Option<nat>)
    ensures r.Some? <==> k > 0
    ensures r.Some? ==> r.value == k && r.value > 0
  {
    if k > 0 then Some(k) else None
  }
}
