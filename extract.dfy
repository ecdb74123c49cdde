/** The two text extractors. The libraries they call (PDF rasterisation,
    image decoding and OCR) are inputs: each call either returns a value or
    raises, and the extractors turn every raised error into a returned
    string rather than letting it propagate. */
module Extract {
  import opened Outcomes
  import opened Strings

  const NoTextDetected: string := "No text detected."
  const PdfConversionFailed: string := "PDF conversion failed. No images extracted."
  const PdfErrorPrefix: string := "Error processing PDF: "
  const ImageErrorPrefix: string := "Error processing image: "

  /** The library calls, as functions of their arguments: `convert_from_bytes`
      (PDF bytes to page images, in document order), `Image.open` (image bytes
      to an image) and `image_to_string` (image and OCR language to text). */
  datatype Engines<!Image> = Engines(
    rasterize: seq<byte> -> Outcome<seq<Image>>,
    openImage: seq<byte> -> Outcome<Image>,
    ocr: (Image, string) -> Outcome<string>)

  /** The list comprehension over the pages: OCR runs on each page in turn,
      and the first page whose OCR raises ends it with that error. */
  function OcrPages<Image>(ocr: (Image, string) -> Outcome<string>, pages: seq<Image>, lang: string)
    : (r: Outcome<seq<string>>)
    ensures r.Ok? <==> forall i :: 0 <= i < |pages| ==> ocr(pages[i], lang).Ok?
    ensures r.Ok? ==> |r.value| == |pages| &&
                      forall i :: 0 <= i < |pages| ==> r.value[i] == ocr(pages[i], lang).value
    ensures r.Fail? ==> exists i :: 0 <= i < |pages| && ocr(pages[i], lang) == Fail(r.msg) &&
                                    forall j :: 0 <= j < i ==> ocr(pages[j], lang).Ok?
  {
    if pages == [] then Ok([])
    else
      match ocr(pages[0], lang)
      case Fail(e) => Fail(e)
      case Ok(t) =>
        var rest := OcrPages(ocr, pages[1..], lang);
        if rest.Fail? then
          assert exists i :: 1 <= i < |pages| && ocr(pages[i], lang) == Fail(rest.msg) &&
                             forall j :: 1 <= j < i ==> ocr(pages[j], lang).Ok?;
          rest
        else
          Ok([t] + rest.value)
  }

  /** `[f(x) for x in xs]`. */
  function MapEach<A, B>(f: A -> B, xs: seq<A>): (r: seq<B>)
    ensures |r| == |xs| && forall i :: 0 <= i < |xs| ==> r[i] == f(xs[i])
  {
    if xs == [] then [] else [f(xs[0])] + MapEach(f, xs[1..])
  }

  lemma {:induction false} MapEachAppend<A, B>(f: A -> B, xs: seq<A>, ys: seq<A>)
    ensures MapEach(f, xs + ys) == MapEach(f, xs) + MapEach(f, ys)
  {
    if xs == [] {
      assert xs + ys == ys;
    } else {
      assert (xs + ys)[0] == xs[0] && (xs + ys)[1..] == xs[1..] + ys;
      MapEachAppend(f, xs[1..], ys);
    }
  }

  /** Every page's OCR text, stripped (the `.strip()` inside the comprehension). */
  function StripPages(raw: seq<string>): (r: seq<string>)
    ensures |r| == |raw| && forall i :: 0 <= i < |raw| ==> r[i] == Strip(raw[i])
  {
    MapEach(Strip, raw)
  }

  /** Some page has text other than whitespace. */
  predicate HasText(raw: seq<string>)
  {
    exists i :: 0 <= i < |raw| && !AllSpace(raw[i])
  }

  /** The non-empty page texts, stripped, in page order. */
  function PageSegments(raw: seq<string>): seq<string>
  {
    KeepNonEmpty(StripPages(raw))
  }

  /** `"\n".join(filter(None, stripped)) or "No text detected."` for the OCR
      texts `raw` of the pages of a document. */
  function Assemble(raw: seq<string>): (r: string)
    ensures r != []
  {
    var joined := Join("\n", PageSegments(raw));
    if joined == [] then NoTextDetected else joined
  }

  lemma {:induction false} PageSegmentsAppend(a: seq<string>, b: seq<string>)
    ensures PageSegments(a + b) == PageSegments(a) + PageSegments(b)
  {
    MapEachAppend(Strip, a, b);
    KeepNonEmptyAppend(StripPages(a), StripPages(b));
  }

  /** One page contributes its stripped text as a segment, or nothing when
      it is whitespace only; with PageSegmentsAppend this fixes the segments
      of every document. */
  lemma PageSegmentsOne(t: string)
    ensures PageSegments([t]) == if AllSpace(t) then [] else [Strip(t)]
  {
    assert StripPages([t]) == [Strip(t)];
    assert [Strip(t)][1..] == [];
  }

  lemma PageSegmentsEmptyIff(raw: seq<string>)
    ensures PageSegments(raw) == [] <==> !HasText(raw)
  {
    KeepNonEmptyNone(StripPages(raw));
  }

  /** When no page has text other than whitespace the result is the
      sentinel. */
  lemma AssembleAllBlank(raw: seq<string>)
    requires !HasText(raw)
    ensures Assemble(raw) == NoTextDetected
  {
    PageSegmentsEmptyIff(raw);
  }

  /** When some page has text, the result is the `"\n"`-join of the non-empty
      stripped pages, and not the sentinel by accident of joining. */
  lemma AssembleJoins(raw: seq<string>)
    requires HasText(raw)
    ensures Assemble(raw) == Join("\n", PageSegments(raw))
  {
    PageSegmentsEmptyIff(raw);
    JoinEmptyIff("\n", PageSegments(raw));
  }

  /** One page with text gives that page's stripped text alone. */
  lemma AssembleOnePage(t: string)
    requires !AllSpace(t)
    ensures Assemble([t]) == Strip(t)
  {
    assert HasText([t]) by { assert [t][0] == t; }
    AssembleJoins([t]);
    assert StripPages([t]) == [Strip(t)];
  }

  /** Two runs of pages that both have text are assembled with exactly one
      newline between them: page order is kept and nothing else is added. */
  lemma AssembleAppend(a: seq<string>, b: seq<string>)
    requires HasText(a) && HasText(b)
    ensures Assemble(a + b) == Assemble(a) + "\n" + Assemble(b)
  {
    var i :| 0 <= i < |a| && !AllSpace(a[i]);
    assert (a + b)[i] == a[i];
    AssembleJoins(a);
    AssembleJoins(b);
    AssembleJoins(a + b);
    PageSegmentsAppend(a, b);
    PageSegmentsEmptyIff(a);
    PageSegmentsEmptyIff(b);
    JoinAppend("\n", PageSegments(a), PageSegments(b));
  }

  /** Blank pages contribute neither a segment nor a separator, wherever
      they stand. */
  lemma AssembleSkipsBlank(a: seq<string>, blank: seq<string>, b: seq<string>)
    requires !HasText(blank)
    ensures Assemble(a + blank + b) == Assemble(a + b)
  {
    PageSegmentsEmptyIff(blank);
    assert PageSegments(a + blank + b) == PageSegments(a + b) by {
      PageSegmentsAppend(a + blank, b);
      PageSegmentsAppend(a, blank);
      PageSegmentsAppend(a, b);
      assert PageSegments(a) + PageSegments(blank) == PageSegments(a);
    }
  }

  /** A document where exactly one page has text, blank pages before and
      after it, reads as that page's stripped text alone: no lines for the
      blank pages. */
  lemma AssembleOnlyTextPage(before: seq<string>, t: string, after: seq<string>)
    requires !HasText(before) && !AllSpace(t) && !HasText(after)
    ensures Assemble(before + [t] + after) == Strip(t)
  {
    AssembleSkipsBlank(before + [t], after, []);
    assert before + [t] + after + [] == before + [t] + after;
    assert before + [t] + [] == [] + before + [t];
    AssembleSkipsBlank([], before, [t]);
    assert [] + [t] == [t];
    AssembleOnePage(t);
  }

  /** `extract_text_from_pdf`. */
  function PdfText<Image>(engines: Engines<Image>, pdf: seq<byte>, lang: string): (r: string)
    ensures r != []
  {
    match engines.rasterize(pdf)
    case Fail(e) => PdfErrorPrefix + e
    case Ok(pages) =>
      if |pages| == 0 then PdfConversionFailed
      else
        match OcrPages(engines.ocr, pages, lang)
        case Fail(e) => PdfErrorPrefix + e
        case Ok(raw) => Assemble(raw)
  }

  /** A PDF that rasterises to no pages gives the conversion-failed message
      whatever the OCR engine would have said: OCR is never consulted. */
  lemma PdfZeroPages<Image>(engines: Engines<Image>, other: (Image, string) -> Outcome<string>,
                           pdf: seq<byte>, lang: string)
    requires engines.rasterize(pdf).Ok? && engines.rasterize(pdf).value == []
    ensures PdfText(engines, pdf, lang) == PdfConversionFailed
    ensures PdfText(engines.(ocr := other), pdf, lang) == PdfConversionFailed
  {
  }

  /** A rasterisation error comes back as a string with the PDF error prefix. */
  lemma PdfRasterizeError<Image>(engines: Engines<Image>, pdf: seq<byte>, lang: string)
    requires engines.rasterize(pdf).Fail?
    ensures PdfText(engines, pdf, lang) == PdfErrorPrefix + engines.rasterize(pdf).msg
  {
  }

  /** An OCR error on some page comes back as a string with the PDF error
      prefix and the message of the first page that failed. */
  lemma PdfOcrError<Image>(engines: Engines<Image>, pdf: seq<byte>, lang: string, k: nat)
    requires engines.rasterize(pdf).Ok?
    requires k < |engines.rasterize(pdf).value|
    requires var pages := engines.rasterize(pdf).value;
             engines.ocr(pages[k], lang).Fail? &&
             forall j :: 0 <= j < k ==> engines.ocr(pages[j], lang).Ok?
    ensures PdfText(engines, pdf, lang) == PdfErrorPrefix + engines.ocr(engines.rasterize(pdf).value[k], lang).msg
  {
    var pages := engines.rasterize(pdf).value;
    var r := OcrPages(engines.ocr, pages, lang);
    assert r.Fail?;
    var i :| 0 <= i < |pages| && engines.ocr(pages[i], lang) == Fail(r.msg) &&
             forall j :: 0 <= j < i ==> engines.ocr(pages[j], lang).Ok?;
    assert i == k;
  }

  /** When rasterisation and every page's OCR succeed, the result is the
      assembly of the pages' OCR texts in page order. */
  lemma PdfAllPagesRead<Image>(engines: Engines<Image>, pdf: seq<byte>, lang: string)
    requires engines.rasterize(pdf).Ok? && engines.rasterize(pdf).value != []
    requires forall i :: 0 <= i < |engines.rasterize(pdf).value| ==>
               engines.ocr(engines.rasterize(pdf).value[i], lang).Ok?
    ensures var pages := engines.rasterize(pdf).value;
            PdfText(engines, pdf, lang) ==
              Assemble(seq(|pages|, i requires 0 <= i < |pages| => engines.ocr(pages[i], lang).value))
  {
    var pages := engines.rasterize(pdf).value;
    var r := OcrPages(engines.ocr, pages, lang);
    assert r.value == seq(|pages|, i requires 0 <= i < |pages| => engines.ocr(pages[i], lang).value);
  }

  /** `text.strip() if text else "No text detected."` applied to the OCR
      engine's outcome for one image, errors carrying the image prefix. */
  function ImageResult(ocrText: Outcome<string>): (r: string)
    ensures ocrText.Fail? ==> r == ImageErrorPrefix + ocrText.msg
    ensures ocrText.Ok? ==> Trimmed(r)
    ensures ocrText.Ok? ==> (r == [] <==> ocrText.value != [] && AllSpace(ocrText.value))
    ensures ocrText.Ok? && ocrText.value == [] ==> r == NoTextDetected
  {
    match ocrText
    case Fail(e) => ImageErrorPrefix + e
    case Ok(t) => if t != [] then Strip(t) else NoTextDetected
  }

  /** OCR text with something other than whitespace comes back as the one
      slice of it without surrounding whitespace. */
  lemma ImageResultTrims(t: string, lo: nat, hi: nat)
    requires lo <= hi <= |t| && t != []
    requires SpaceBetween(t, 0, lo) && SpaceBetween(t, hi, |t|) && Trimmed(t[lo..hi])
    ensures ImageResult(Ok(t)) == t[lo..hi]
  {
    StripIsSlice(t, lo, hi);
  }

  /** The image and PDF extractors disagree on a page that OCR reads as
      whitespace only: the image extractor tests for emptiness before it
      strips and returns "", the PDF extractor strips first and returns the
      sentinel. */
  lemma BlankPageDiffers(t: string)
    requires t != [] && AllSpace(t)
    ensures ImageResult(Ok(t)) == ""
    ensures Assemble([t]) == NoTextDetected
  {
    assert !HasText([t]) by { assert [t][0] == t; }
  }

  /** `extract_text_from_image`. */
  function ImageText<Image>(engines: Engines<Image>, bytes: seq<byte>, lang: string): (r: string)
    ensures engines.openImage(bytes).Fail? ==> r == ImageErrorPrefix + engines.openImage(bytes).msg
    ensures engines.openImage(bytes).Ok? ==> r == ImageResult(engines.ocr(engines.openImage(bytes).value, lang))
  {
    match engines.openImage(bytes)
    case Fail(e) => ImageErrorPrefix + e
    case Ok(image) => ImageResult(engines.ocr(image, lang))
  }
}
