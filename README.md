# OCR text-extraction endpoint, modelled in Dafny

The system is a single Flask service, `pdf.py`. It accepts an uploaded PDF or
image on `POST /extract-text`, runs OCR over it and returns the text as JSON.
It also hands the text to a speech engine that reads it aloud on a detached
thread. All real work is done by libraries: Poppler rasterises PDFs, PIL
decodes images, Tesseract does the OCR, gTTS synthesises speech and pygame
plays it. What the service adds is the decision and string logic around
those calls, and that logic is what this project models and proves:

- `Language` — the fixed table from client codes (`en`, `hi`, `mr`) to
  Tesseract codes (`eng`, `hin`, `mar`), with `eng` as the fallback.
- `Strings` — the Python built-ins the service uses: `str.strip()` with
  Python's exact whitespace set, `str.lower()`, `str.endswith()`,
  `str.join()` and `filter(None, …)`.
- `Extract` — the PDF extractor and the image extractor. A PDF's pages are
  OCR'd in order, each text is stripped, empty texts are dropped and the
  rest are joined with `"\n"`. If nothing is left, the result is
  `"No text detected."`. Zero pages give `"PDF conversion failed. No images
  extracted."`. Any library error becomes a returned string with a fixed
  prefix.
- `Speech` — the language rewrite at the start of `speak_text` (`eng`
  becomes `en`) and the utterance handed to the speech engine.
- `Endpoint` — the handler. A missing file gives 400, then an empty file
  gives 400. Otherwise the extractor is chosen by a case-insensitive `.pdf`
  suffix, and the reply is 200 with the engine language and the text.

The library calls are inputs. `Extract.Engines` holds three total functions
that stand for `convert_from_bytes`, `Image.open` and
`pytesseract.image_to_string`. Each returns `Outcome.Ok(value)`, or
`Outcome.Fail(msg)` for a raised exception whose `str(e)` is `msg`. The
image type is a type parameter.

Three behaviours of `pdf.py` are easy to miss, and the model keeps them:

- The zero-page message is `"PDF conversion failed. No images extracted."`
  (pdf.py:42).
- The image extractor tests the raw OCR text for emptiness before stripping
  it (pdf.py:56). So whitespace-only OCR output gives `""`, while the PDF
  extractor strips first and gives `"No text detected."` for the same page.
  `Extract.BlankPageDiffers` states the difference.
- Only `eng` is rewritten for the speech engine (pdf.py:63-64). Hindi and
  Marathi reach it as `hin` and `mar`, the Tesseract codes, not as the
  client codes `hi` and `mr`. `Speech.SpeechLanguageRoundTrip` states this.

## Model

| member | source | states |
|---|---|---|
| `Language.OcrLanguage` | pdf.py:100-101 | the engine code is always `eng`, `hin` or `mar`; it is `hin` exactly for `hi`, `mar` exactly for `mr`, and `eng` for everything else, including an absent field |
| `Language.OcrLanguageFollowsTable` | pdf.py:25-26 | a known code maps to its table entry, an unknown code to the default `eng`, and an absent field behaves as `en` |
| `Language.OcrLanguageInjectiveOnTable` | pdf.py:25 | two supported client codes with the same engine code are the same code |
| `Speech.TtsLanguage` | pdf.py:63-64 | `eng` is rewritten to `en`; every other code passes through unchanged |
| `Speech.Speak` | pdf.py:70 | the speech engine gets the text unchanged and the rewritten language |
| `Speech.SpeechLanguageCodomain` | pdf.py:63-64 | after mapping and rewriting, the speech language is `en`, `hin` or `mar` |
| `Speech.SpeechLanguageRoundTrip` | pdf.py:63-64 | client code → engine code → speech code gives back the client code exactly when the client code is `en` |
| `Strings.LeftEnd` | pdf.py:44 | the scan from the left stops at the first non-whitespace character, or at the end; everything it passed is whitespace |
| `Strings.RightEnd` | pdf.py:44 | the scan from the right stops just after the last non-whitespace character, never below the left end; everything it passed is whitespace |
| `Strings.Strip` | pdf.py:56 | the result is no longer than the input, has no whitespace at either end, and is empty exactly when the input is all whitespace |
| `Strings.StripIsSlice` | pdf.py:44 | `strip` returns the one slice that has only whitespace around it and no whitespace at its ends |
| `Strings.StripOneChar` | pdf.py:56 | `IsSpace` is exactly the set `strip` removes: a one-character string strips to nothing exactly when its character is whitespace |
| `Strings.StripIdempotent` | pdf.py:56 | stripping twice equals stripping once |
| `Strings.Lower` | pdf.py:107 | same length, each character lower-cased |
| `Strings.EndsWithIff` | pdf.py:107 | `EndsWith(s, suffix)` holds exactly when `s` is some string followed by `suffix` |
| `Strings.KeepNonEmpty` | pdf.py:45 | `filter(None, …)` keeps only non-empty strings, keeps each of them, and adds nothing |
| `Strings.KeepNonEmptyAppend` | pdf.py:45 | filtering distributes over concatenation, so the kept strings stay in input order |
| `Strings.KeepNonEmptyNone` | pdf.py:45 | nothing survives the filter exactly when every string is empty |
| `Strings.JoinLength` | pdf.py:45 | `Join` is as long as its parts plus one separator between each two neighbours |
| `Strings.JoinAppend` | pdf.py:45 | joining two non-empty lists puts exactly one separator between their joins |
| `Strings.JoinEmptyIff` | pdf.py:45 | with no empty parts, the join is empty exactly when there are no parts |
| `Extract.OcrPages` | pdf.py:44 | OCR of all pages succeeds exactly when every page's OCR succeeds, and then yields each page's text in page order; otherwise it fails with the error of the first failing page |
| `Extract.MapEach` | pdf.py:44 | a list comprehension yields one result per element, each the function applied to that element |
| `Extract.MapEachAppend` | pdf.py:44 | a list comprehension over two lists concatenated is the two comprehensions concatenated |
| `Extract.StripPages` | pdf.py:44 | every page text is stripped, position by position |
| `Extract.PageSegmentsAppend` | pdf.py:44-45 | the kept, stripped page texts of two runs of pages are those of the first run followed by those of the second |
| `Extract.PageSegmentsOne` | pdf.py:44-45 | `PageSegments` of one page is its stripped text, or nothing when the page is whitespace only; with `PageSegmentsAppend` this fixes the segments of every document |
| `Extract.PageSegmentsEmptyIff` | pdf.py:44-45 | no page text survives exactly when every page is whitespace only |
| `Extract.Assemble` | pdf.py:45 | the assembled text of a document is never empty |
| `Extract.AssembleAllBlank` | pdf.py:45 | when every page is whitespace only, the result is exactly `"No text detected."` |
| `Extract.AssembleJoins` | pdf.py:44-45 | when some page has text, the result is the `"\n"`-join of exactly the non-empty stripped page texts, in page order |
| `Extract.AssembleOnePage` | pdf.py:44-45 | a single page with text yields its stripped text |
| `Extract.AssembleAppend` | pdf.py:45 | two runs of pages that both have text yield their results joined by one newline |
| `Extract.AssembleSkipsBlank` | pdf.py:45 | inserting blank pages anywhere changes nothing: no segment, no extra separator |
| `Extract.AssembleOnlyTextPage` | pdf.py:44-45 | a document whose only page with text is surrounded by blank pages yields exactly that page's stripped text |
| `Extract.PdfText` | pdf.py:36-48 | the PDF extractor never returns the empty string |
| `Extract.PdfZeroPages` | pdf.py:41-42 | zero pages give exactly the conversion-failed message, whatever the OCR engine would do |
| `Extract.PdfRasterizeError` | pdf.py:38-48 | a rasterisation error is returned as `"Error processing PDF: "` followed by its message |
| `Extract.PdfOcrError` | pdf.py:44-48 | an OCR error is returned as `"Error processing PDF: "` followed by the message of the first failing page |
| `Extract.PdfAllPagesRead` | pdf.py:39-45 | when every call succeeds, the result is the assembly of the pages' OCR texts in page order |
| `Extract.ImageResult` | pdf.py:55-58 | an OCR error gets the image prefix; empty OCR text gives the sentinel; otherwise the result has no surrounding whitespace and is empty exactly when the OCR text is non-empty whitespace |
| `Extract.ImageResultTrims` | pdf.py:56 | non-empty OCR text comes back as its one slice without surrounding whitespace |
| `Extract.BlankPageDiffers` | pdf.py:44-56 | for whitespace-only OCR text the image extractor returns `""` while a one-page PDF returns the sentinel |
| `Extract.ImageText` | pdf.py:51-58 | a decoding error gets the image prefix; otherwise the result is the OCR outcome normalised as above |
| `Endpoint.IsPdfNameIff` | pdf.py:107 | `IsPdfName`, the dispatch test: the PDF extractor is chosen exactly when the name ends in `.`, `p`, `d`, `f`, each letter in either case |
| `Endpoint.IsPdfNameIgnoresCase` | pdf.py:107 | `IsPdfName` ignores case: a name and its lower-cased form are dispatched alike |
| `Endpoint.ExtractedByDispatch` | pdf.py:107-110 | `Extracted` depends on the file name only through the `.pdf` test, and a PDF upload's text is never empty |
| `Endpoint.ExtractText` | pdf.py:93-115 | status is 400 exactly when the file is missing or empty, with the matching error payload and no speech; otherwise 200 with the mapped language, the result of the extractor chosen by name, and that text handed to the speech engine |
| `Endpoint.MissingFileFirst` | pdf.py:96-97 | a missing file gives the same reply whatever the language field and the libraries |
| `Endpoint.EmptyFileBeforeDispatch` | pdf.py:103-105 | an empty file gives the same reply whatever its name, the language field and the libraries |
| `Endpoint.ReplyLanguages` | pdf.py:101-115 | a 200 reply carries `eng`, `hin` or `mar`, and speech is asked for `en`, `hin` or `mar` |
| `Endpoint.PdfTextNeverEmpty` | pdf.py:107-108 | a 200 reply for a `.pdf` name never has an empty `extracted_text` |
| `Endpoint.SpeechMatchesReply` | pdf.py:113-115 | speech is requested exactly on 200 replies, with exactly the returned text |

## Left out

- The OCR engine, PDF rasterisation and image decoding (pdf.py:39, 44, 54-55) are foreign library calls. They are inputs (`Extract.Engines`), so any behaviour they have is covered, but none is modelled.
- Speech synthesis, the temporary audio file, playback, its busy-poll loop, the detached thread and `os.remove` (pdf.py:66-85) are audio, file I/O and concurrency. Only the language rewrite and the utterance handed over are modelled. The string `speak_text` returns on a synthesis error (pdf.py:87-89) is ignored by the caller, so it is not modelled.
- Whether synthesis succeeds is not modelled: `speak_text` catches and logs every error (pdf.py:87-89), so a requested utterance may produce no sound, for example for empty text.
- Flask routing, form parsing, `jsonify`, CORS and `app.run` (pdf.py:21-22, 92, 122-123) are HTTP plumbing. The handler is a function from an abstract request to (status, payload, utterance).
- The 500 branch (pdf.py:117-119) catches exceptions raised outside the extractors: reading the upload, or a `None` filename. Every modelled step is total, so the model never produces a 500.
- Logging, the hard-coded Tesseract and Poppler paths and the `PATH` change (pdf.py:18, 29-33) are environment configuration.
- The text of `str(e)` is an opaque input string. Only the fixed prefixes are modelled.
- Strings.Lower: lower-cases ASCII letters only. Python's `str.lower()` also maps other letters, but no other character lowercases to `.`, `p`, `d` or `f`, so the `.pdf` test is unaffected.
- OCR is a function of image and language, so equal requests give equal replies.
