/**
 The text extractor: the résumé PDF is given as the sequence of texts its
 pages yield, page by page, with "" standing for a page that yields no text
 (the PDF library returns None or an empty string for such a page).
 */
module PdfText {
  import opened Results
  import opened Strings

  const EmptyPdf := "PDF File Is Empty"
  const NoText := "No Text Could Be Extracted From The PDF"

  /** Every failure leaves the extractor with this stage prefix. */
  function Wrap(cause: string): string {
    "Error Extracting PDF Text: " + cause
  }

  /** The page texts the extraction loop keeps: the non-empty ones, in page order. */
  function TextPages(pages: seq<string>): (r: seq<string>)
    ensures |r| <= |pages|
    ensures forall k :: 0 <= k < |r| ==> r[k] != ""
    ensures forall x :: x in r <==> x in pages && x != ""
    ensures r == [] <==> forall k :: 0 <= k < |pages| ==> pages[k] == ""
  {
    if pages == [] then []
    else
      var rest := TextPages(pages[1..]);
      assert forall x :: x in pages <==> x == pages[0] || x in pages[1..];
      (if pages[0] == "" then [] else [pages[0]]) + rest
  }

  /** Keeping the non-empty pages commutes with splitting the document anywhere. */
  lemma {:induction false} TextPagesAppend(a: seq<string>, b: seq<string>)
    ensures TextPages(a + b) == TextPages(a) + TextPages(b)
    decreases |a|
  {
    if a == [] {
      assert a + b == b;
    } else {
      assert (a + b)[1..] == a[1..] + b;
      TextPagesAppend(a[1..], b);
    }
  }

  /** What `extract_pdf_text` returns or raises for a document with these page texts. */
  function ExtractedText(pages: seq<string>): (r: Result<string>)
    ensures r.Ok? ==> r.value != ""
  {
    if |pages| == 0 then Err(Wrap(EmptyPdf))
    else
      var text := TextPages(pages);
      if text == [] then Err(Wrap(NoText)) else Ok(Join(text, " "))
  }

  /**
   `extract_pdf_text`: reject a document without pages, collect the non-empty
   page texts in a list, reject the document if none was collected, and join
   the collected texts with single spaces.
   */
  method ExtractPdfText(pages: seq<string>) returns (r: Result<string>)
    ensures r == ExtractedText(pages)
    ensures |pages| == 0 ==> r == Err(Wrap(EmptyPdf))
    ensures |pages| > 0 && (forall k :: 0 <= k < |pages| ==> pages[k] == "") ==> r == Err(Wrap(NoText))
    ensures (exists k :: 0 <= k < |pages| && pages[k] != "") ==> r == Ok(Join(TextPages(pages), " "))
    ensures r.Ok? ==> r.value != ""
  {
    if |pages| == 0 {
      return Err(Wrap(EmptyPdf));
    }
    var text: seq<string> := [];
    for i := 0 to |pages|
      invariant text == TextPages(pages[..i])
    {
      assert pages[..i + 1] == pages[..i] + [pages[i]];
      TextPagesAppend(pages[..i], [pages[i]]);
      if pages[i] != "" {
        text := text + [pages[i]];
      }
    }
    assert pages[..|pages|] == pages;
    if text == [] {
      return Err(Wrap(NoText));
    }
    return Ok(Join(text, " "));
  }

  /**
   An empty page anywhere in a document contributes nothing to the result,
   not even a separator.
   */
  lemma EmptyPageIgnored(a: seq<string>, b: seq<string>)
    requires |a| + |b| > 0
    ensures ExtractedText(a + [""] + b) == ExtractedText(a + b)
  {
    assert TextPages([""]) == [];
    TextPagesAppend(a, [""]);
    assert TextPages(a + [""]) == TextPages(a);
    TextPagesAppend(a + [""], b);
    TextPagesAppend(a, b);
  }

  /**
   One more page with text extends the result by a single space and that
   text; if the earlier pages had none (or there were none), the result is
   that text alone.
   */
  lemma AppendTextPage(pages: seq<string>, p: string)
    requires p != ""
    ensures ExtractedText(pages + [p]) ==
      match ExtractedText(pages)
      case Ok(t) => Ok(t + " " + p)
      case Err(_) => Ok(p)
  {
    TextPagesAppend(pages, [p]);
    assert TextPages([p]) == [p];
    if TextPages(pages) != [] {
      JoinAppend(TextPages(pages), p, " ");
    } else {
      assert TextPages(pages) + [p] == [p];
    }
  }
}
