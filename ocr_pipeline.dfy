/** `extract_text_from_file` and `process_invoice_file`: turn an uploaded file
    into page texts (a PDF page by page, anything else as one image), then
    assemble the document result from them. Rendering a PDF, opening an image
    and running OCR on an image are collaborators this model cannot see; they
    are parameters, each giving a value or the message of the exception it
    raised. */
module OcrPipeline {
  import opened Common
  import opened TextNormalizer
  import opened FieldExtractor

  /** A decoded page or picture; only the OCR function looks inside. */
  datatype Image = Image(pixels: seq<byte>)

  /** `convert_from_bytes(content, dpi=200)`. */
  type PdfRenderer = seq<byte> -> Result<seq<Image>>
  /** `Image.open(io.BytesIO(content))`. */
  type ImageOpener = seq<byte> -> Result<Image>
  /** Preprocessing plus Tesseract on one image, before `.strip()`. */
  type Recogniser = Image -> Result<string>

  const PdfFailed: string := "PDF processing failed: "
  const ImageFailed: string := "Image processing failed: "
  const PageBreak: string := "\n\n--- PAGE BREAK ---\n\n"

  /** `str.lower()` on ASCII letters. */
  function LowerString(s: string): (r: string)
    ensures |r| == |s|
    ensures forall i :: 0 <= i < |s| ==> r[i] == Lower(s[i])
  {
    if s == [] then [] else [Lower(s[0])] + LowerString(s[1..])
  }

  /** A character lower-cases to the lower-case letter `x` exactly when it
      is `x` or its capital. */
  lemma LowersTo(c: char, x: char)
    requires IsLower(x)
    ensures Lower(c) == x <==> c == x || c as int == x as int - 32
  {
  }

  /** The last four characters of a lower-cased name are `.pdf` exactly
      when the name ends in a dot and then p, d, f, each in either case. */
  lemma LowerEndsPdf(filename: string)
    ensures var l := LowerString(filename);
            var n := |filename|;
            (|l| >= 4 && l[|l| - 4..] == ".pdf") <==>
              && n >= 4
              && filename[n - 4] == '.'
              && (filename[n - 3] == 'p' || filename[n - 3] == 'P')
              && (filename[n - 2] == 'd' || filename[n - 2] == 'D')
              && (filename[n - 1] == 'f' || filename[n - 1] == 'F')
  {
    var l := LowerString(filename);
    var n := |filename|;
    if n >= 4 {
      assert l[n - 4..] == [l[n - 4], l[n - 3], l[n - 2], l[n - 1]];
      assert ".pdf" == ['.', 'p', 'd', 'f'];
      LowersTo(filename[n - 3], 'p');
      LowersTo(filename[n - 2], 'd');
      LowersTo(filename[n - 1], 'f');
    }
  }

  /** `filename.lower().endswith('.pdf')`: the suffix test ignores case. */
  predicate IsPdfName(filename: string): (b: bool)
    ensures var n := |filename|;
            b <==> && n >= 4
                   && filename[n - 4] == '.'
                   && (filename[n - 3] == 'p' || filename[n - 3] == 'P')
                   && (filename[n - 2] == 'd' || filename[n - 2] == 'D')
                   && (filename[n - 1] == 'f' || filename[n - 1] == 'F')
  {
    var l := LowerString(filename);
    LowerEndsPdf(filename);
    |l| >= 4 && l[|l| - 4..] == ".pdf"
  }

  /** No whitespace at either end: what `.strip()` leaves. */
  predicate Stripped(p: string) {
    p == [] || (!IsSpace(p[0]) && !IsSpace(p[|p| - 1]))
  }

  /** The first image whose OCR fails is image i. */
  predicate FirstFailure(ocr: Recogniser, images: seq<Image>, i: nat) {
    && i < |images| && ocr(images[i]).Failure?
    && forall j :: 0 <= j < i ==> ocr(images[j]).Success?
  }

  /** The PDF loop of lines 94-96: each rendered image in turn becomes the
      stripped text OCR reads from it; the first failure ends the loop. */
  function RecognisePages(ocr: Recogniser, images: seq<Image>): (r: Result<seq<string>>)
    ensures r.Success? <==> forall i :: 0 <= i < |images| ==> ocr(images[i]).Success?
    ensures r.Success? ==> |r.value| == |images|
    ensures r.Success? ==> forall i :: 0 <= i < |images| ==>
                             r.value[i] == Strip(ocr(images[i]).value)
  {
    if images == [] then Success([])
    else
      var last := images[|images| - 1];
      match RecognisePages(ocr, images[..|images| - 1])
      case Failure(e) => Failure(e)
      case Success(pages) =>
        match ocr(last)
        case Failure(e) => Failure(e)
        case Success(text) => Success(pages + [Strip(text)])
  }

  /** The error that ends the PDF loop is the one of the first image that
      fails. */
  lemma {:induction false} RecogniseFirstFailure(ocr: Recogniser, images: seq<Image>, i: nat)
    requires FirstFailure(ocr, images, i)
    ensures RecognisePages(ocr, images) == Failure(ocr(images[i]).error)
    decreases |images|
  {
    var front := images[..|images| - 1];
    if i < |images| - 1 {
      assert front[i] == images[i];
      assert FirstFailure(ocr, front, i);
      RecogniseFirstFailure(ocr, front, i);
    } else {
      assert RecognisePages(ocr, front).Success?;
    }
  }

  /** Lines 86-108: the pages of a file, or the `ValueError` message. */
  function PagesOf(content: seq<byte>, filename: string, renderPdf: PdfRenderer,
                   openImage: ImageOpener, ocr: Recogniser): (r: Result<seq<string>>)
    ensures r.Success? ==> forall i :: 0 <= i < |r.value| ==> Stripped(r.value[i])
    ensures !IsPdfName(filename) && r.Success? ==> |r.value| == 1
    ensures IsPdfName(filename) && r.Success? ==>
              renderPdf(content).Success? && |r.value| == |renderPdf(content).value|
    ensures IsPdfName(filename) && r.Failure? ==> PdfFailed <= r.error
    ensures !IsPdfName(filename) && r.Failure? ==> ImageFailed <= r.error
  {
    if IsPdfName(filename) then
      match renderPdf(content)
      case Failure(e) => Failure(PdfFailed + e)
      case Success(images) =>
        match RecognisePages(ocr, images)
        case Failure(e) => Failure(PdfFailed + e)
        case Success(pages) => Success(pages)
    else
      match openImage(content)
      case Failure(e) => Failure(ImageFailed + e)
      case Success(image) =>
        match ocr(image)
        case Failure(e) => Failure(ImageFailed + e)
        case Success(text) => Success([Strip(text)])
  }

  /** A PDF gives one page per rendered image, each the stripped OCR text of
      that image; it fails exactly when rendering or the OCR of some image
      fails, and the message then names the PDF stage and the first cause. */
  lemma PdfPages(content: seq<byte>, filename: string, renderPdf: PdfRenderer,
                 openImage: ImageOpener, ocr: Recogniser)
    requires IsPdfName(filename)
    ensures var r := PagesOf(content, filename, renderPdf, openImage, ocr);
            && (renderPdf(content).Failure? ==> r == Failure(PdfFailed + renderPdf(content).error))
            && (renderPdf(content).Success? ==>
                  var images := renderPdf(content).value;
                  && (r.Success? <==> forall i :: 0 <= i < |images| ==> ocr(images[i]).Success?)
                  && (r.Success? ==> forall i :: 0 <= i < |images| ==>
                                       r.value[i] == Strip(ocr(images[i]).value))
                  && (forall i: nat :: FirstFailure(ocr, images, i) ==>
                                   r == Failure(PdfFailed + ocr(images[i]).error)))
  {
    if renderPdf(content).Success? {
      var images := renderPdf(content).value;
      forall i: nat | FirstFailure(ocr, images, i)
        ensures PagesOf(content, filename, renderPdf, openImage, ocr)
                == Failure(PdfFailed + ocr(images[i]).error)
      {
        RecogniseFirstFailure(ocr, images, i);
      }
    }
  }

  /** Any other file is one image and gives exactly one page, its stripped
      OCR text; opening or reading it may fail, with a message naming the
      image stage. */
  lemma ImagePage(content: seq<byte>, filename: string, renderPdf: PdfRenderer,
                  openImage: ImageOpener, ocr: Recogniser)
    requires !IsPdfName(filename)
    ensures var r := PagesOf(content, filename, renderPdf, openImage, ocr);
            && (openImage(content).Failure? ==> r == Failure(ImageFailed + openImage(content).error))
            && (openImage(content).Success? ==>
                  var text := ocr(openImage(content).value);
                  && (text.Failure? ==> r == Failure(ImageFailed + text.error))
                  && (text.Success? ==> r == Success([Strip(text.value)])))
  {
  }

  /** Lines 86-108 step by step: the list of page texts grows by one page per
      image; an exception from any step becomes a `ValueError`. */
  method ExtractTextFromFile(content: seq<byte>, filename: string, renderPdf: PdfRenderer,
                             openImage: ImageOpener, ocr: Recogniser)
    returns (r: Result<seq<string>>)
    ensures r == PagesOf(content, filename, renderPdf, openImage, ocr)
  {
    var pagesText: seq<string> := [];
    if IsPdfName(filename) {
      var rendered := renderPdf(content);
      if rendered.Failure? {
        return Failure(PdfFailed + rendered.error);
      }
      var images := rendered.value;
      var i := 0;
      while i < |images|
        invariant 0 <= i <= |images|
        invariant RecognisePages(ocr, images[..i]) == Success(pagesText)
      {
        var text := ocr(images[i]);
        if text.Failure? {
          assert FirstFailure(ocr, images, i) by {
            forall j | 0 <= j < i ensures ocr(images[j]).Success? {
              assert images[..i][j] == images[j];
            }
          }
          RecogniseFirstFailure(ocr, images, i);
          return Failure(PdfFailed + text.error);
        }
        assert images[..i + 1][..i] == images[..i];
        pagesText := pagesText + [Strip(text.value)];
        i := i + 1;
      }
      assert images[..i] == images;
    } else {
      var image := openImage(content);
      if image.Failure? {
        return Failure(ImageFailed + image.error);
      }
      var text := ocr(image.value);
      if text.Failure? {
        return Failure(ImageFailed + text.error);
      }
      pagesText := pagesText + [Strip(text.value)];
      assert pagesText == [Strip(text.value)];
    }
    r := Success(pagesText);
  }

  /** `sep.join(pages)`; the pipeline joins with `PageBreak`. */
  function Join(sep: string, pages: seq<string>): (r: string)
    ensures |pages| == 0 ==> r == ""
    ensures |pages| > 0 ==> pages[0] <= r && |r| + |sep| == Offset(sep, pages, |pages|)
    decreases |pages|
  {
    if |pages| == 0 then ""
    else if |pages| == 1 then pages[0]
    else
      ShiftedOffset(sep, pages, |pages|);
      pages[0] + sep + Join(sep, pages[1..])
  }

  /** Where page i begins in the joined text: every earlier page and one
      separator after each. */
  function Offset(sep: string, pages: seq<string>, i: nat): nat
    requires i <= |pages|
    decreases i
  {
    if i == 0 then 0 else Offset(sep, pages, i - 1) + |pages[i - 1]| + |sep|
  }

  /** Joining keeps page i at its offset; the last page ends the text. */
  lemma {:induction false} JoinPage(sep: string, pages: seq<string>, i: nat)
    requires i < |pages|
    ensures Offset(sep, pages, i) + |pages[i]| <= |Join(sep, pages)|
    ensures Join(sep, pages)[Offset(sep, pages, i)..Offset(sep, pages, i) + |pages[i]|] == pages[i]
    ensures i == |pages| - 1 ==> Offset(sep, pages, i) + |pages[i]| == |Join(sep, pages)|
    decreases |pages|
  {
    if |pages| > 1 {
      var rest := pages[1..];
      var head := pages[0] + sep;
      assert Join(sep, pages) == head + Join(sep, rest);
      if i == 0 {
        assert Join(sep, pages)[..|pages[0]|] == pages[0];
      } else {
        JoinPage(sep, rest, i - 1);
        assert pages[i] == rest[i - 1];
        ShiftedOffset(sep, pages, i);
        SliceAfterPrefix(head, Join(sep, rest), Offset(sep, rest, i - 1), |pages[i]|);
      }
    }
  }

  /** Between page i and page i + 1 the joined text holds exactly the
      separator. */
  lemma {:induction false} JoinBreak(sep: string, pages: seq<string>, i: nat)
    requires i < |pages| - 1
    ensures Offset(sep, pages, i + 1) <= |Join(sep, pages)|
    ensures Join(sep, pages)[Offset(sep, pages, i) + |pages[i]|..Offset(sep, pages, i + 1)] == sep
    decreases |pages|
  {
    var rest := pages[1..];
    var head := pages[0] + sep;
    assert Join(sep, pages) == head + Join(sep, rest);
    if i == 0 {
      assert Offset(sep, pages, 1) == |head|;
      assert head[|pages[0]|..] == sep;
      assert (head + Join(sep, rest))[|pages[0]|..|head|] == head[|pages[0]|..];
    } else {
      JoinBreak(sep, rest, i - 1);
      var k := Offset(sep, rest, i - 1) + |rest[i - 1]|;
      assert Offset(sep, rest, i) == k + |sep|;
      assert pages[i] == rest[i - 1];
      ShiftedOffset(sep, pages, i);
      ShiftedOffset(sep, pages, i + 1);
      SliceAfterPrefix(head, Join(sep, rest), k, |sep|);
    }
  }

  /** Offsets in `pages` are those in `pages[1..]` moved by the first page
      and its separator. */
  lemma {:induction false} ShiftedOffset(sep: string, pages: seq<string>, i: nat)
    requires |pages| > 1 && 1 <= i <= |pages|
    ensures Offset(sep, pages, i) == |pages[0]| + |sep| + Offset(sep, pages[1..], i - 1)
    decreases i
  {
    if i > 1 {
      ShiftedOffset(sep, pages, i - 1);
      assert pages[i - 1] == pages[1..][i - 2];
    }
  }

  /** A piece of `a + b` lying after `a` is a piece of `b`. */
  lemma SliceAfterPrefix(a: string, b: string, k: nat, n: nat)
    requires k + n <= |b|
    ensures (a + b)[|a| + k..|a| + k + n] == b[k..k + n]
  {
    var c := a + b;
    assert c[|a|..] == b;
    assert c[|a| + k..|a| + k + n] == c[|a|..][k..k + n];
  }

  /** The joined text is empty only for no pages or one empty page. */
  lemma {:induction false} JoinPagesEmpty(pages: seq<string>)
    ensures Join(PageBreak, pages) == "" <==> |pages| == 0 || (|pages| == 1 && pages[0] == "")
  {
    if |pages| > 1 {
      assert |Join(PageBreak, pages)| >= |PageBreak|;
    }
  }

  /** What `process_invoice_file` returns. */
  datatype InvoiceReport = InvoiceReport(
    filename: string,
    rawText: string,
    fields: map<string, string>,
    pageCount: nat)

  /** The report for the pages of a file: the pages joined, the first
      page's fields (none without pages) and the page count. */
  function Report(filename: string, pages: seq<string>): (r: InvoiceReport)
    ensures r.filename == filename && r.pageCount == |pages|
    ensures r.pageCount > 0 ==> r.fields.Keys == FieldNames
    ensures r.pageCount == 0 ==> r.fields == map[] && r.rawText == ""
  {
    InvoiceReport(filename, Join(PageBreak, pages),
                  if |pages| == 0 then map[] else InvoiceFields(pages[0]), |pages|)
  }

  /** Field extraction from one page's text. */
  type PageExtractor = string -> map<string, string>

  /** The fields `f` gives for every page, in page order. */
  function PageFields(f: PageExtractor, pages: seq<string>): (r: seq<map<string, string>>)
    ensures |r| == |pages|
    ensures |pages| > 0 ==> r[0] == f(pages[0])
  {
    if pages == [] then []
    else
      var front := pages[..|pages| - 1];
      assert |front| > 0 ==> front[0] == pages[0];
      PageFields(f, front) + [f(pages[|pages| - 1])]
  }

  /** One more page adds its fields at the end. */
  lemma PageFieldsStep(f: PageExtractor, pages: seq<string>, i: nat)
    requires i < |pages|
    ensures PageFields(f, pages[..i + 1]) == PageFields(f, pages[..i]) + [f(pages[i])]
  {
    assert pages[..i + 1][..i] == pages[..i];
  }

  /** The loop of lines 118-122 and the choice of line 125. The line items
      gathered beside the fields are never used and are not kept here. */
  method AssembleReport(filename: string, pages: seq<string>) returns (report: InvoiceReport)
    ensures report == Report(filename, pages)
  {
    var allFields: seq<map<string, string>> := [];
    var fullRawText := Join(PageBreak, pages);
    for i := 0 to |pages|
      invariant allFields == PageFields(InvoiceFields, pages[..i])
    {
      var fields := ExtractInvoiceFields(pages[i]);
      PageFieldsStep(InvoiceFields, pages, i);
      allFields := allFields + [fields];
    }
    assert pages[..|pages|] == pages;
    var mainFields := if |allFields| > 0 then allFields[0] else map[];
    report := InvoiceReport(filename, fullRawText, mainFields, |pages|);
  }

  /** Lines 111-132: OCR the file, then assemble the report; an OCR failure
      propagates unchanged. */
  method ProcessInvoiceFile(content: seq<byte>, filename: string, renderPdf: PdfRenderer,
                            openImage: ImageOpener, ocr: Recogniser)
    returns (r: Result<InvoiceReport>)
    ensures r == match PagesOf(content, filename, renderPdf, openImage, ocr)
                 case Failure(e) => Failure(e)
                 case Success(pages) => Success(Report(filename, pages))
    ensures r.Success? && !IsPdfName(filename) ==> r.value.pageCount == 1
  {
    var pagesText := ExtractTextFromFile(content, filename, renderPdf, openImage, ocr);
    if pagesText.Failure? {
      return Failure(pagesText.error);
    }
    var report := AssembleReport(filename, pagesText.value);
    r := Success(report);
  }
}
