/** The `POST /extract-text` handler as a function from an abstract request
    to a status, a JSON payload and the utterance it hands to the speech
    engine. Routing, form parsing, JSON encoding and CORS are not modelled. */
module Endpoint {
  import opened Outcomes
  import opened Strings
  import Language
  import Speech
  import opened Extract

  /** The uploaded `file` field: its declared name and its content. */
  datatype Upload = Upload(filename: string, content: seq<byte>)

  /** The multipart form: the `file` and `language` fields, either of which
      may be absent. */
  datatype Request = Request(file: Option<Upload>, language: Option<string>)

  /** The JSON object of the reply. */
  datatype Payload =
    | ErrorPayload(error: string)
    | TextPayload(language: string, extractedText: string)

  /** Status, payload, and what was handed to the speech engine, if anything. */
  datatype Response = Response(status: int, payload: Payload, speech: Option<Speech.Utterance>)

  const NoFileUploaded: string := "No file uploaded"
  const EmptyFileUploaded: string := "Empty file uploaded"

  /** The dispatch test `filename.lower().endswith(".pdf")`. */
  predicate IsPdfName(filename: string)
  {
    EndsWith(Lower(filename), ".pdf")
  }

  /** The dispatch test read character by character: the name ends in a dot
      followed by p, d and f, each in either case. */
  lemma IsPdfNameIff(filename: string)
    ensures IsPdfName(filename) <==>
      var n := |filename|;
      && n >= 4
      && filename[n - 4] == '.'
      && (filename[n - 3] == 'p' || filename[n - 3] == 'P')
      && (filename[n - 2] == 'd' || filename[n - 2] == 'D')
      && (filename[n - 1] == 'f' || filename[n - 1] == 'F')
  {
    var n := |filename|;
    if n >= 4 {
      var tail := Lower(filename)[n - 4..];
      assert tail == ".pdf" <==>
        tail[0] == '.' && tail[1] == 'p' && tail[2] == 'd' && tail[3] == 'f';
    }
  }

  /** Case does not matter to the dispatch test: a name and its lower-cased
      form are dispatched alike. */
  lemma {:induction false} IsPdfNameIgnoresCase(filename: string)
    ensures IsPdfName(Lower(filename)) <==> IsPdfName(filename)
  {
    var low := Lower(filename);
    assert Lower(low) == low by {
      forall i | 0 <= i < |low| ensures Lower(low)[i] == low[i] {
        assert LowerChar(LowerChar(filename[i])) == LowerChar(filename[i]);
      }
    }
  }

  /** The extractor result for a non-empty upload in engine language `lang`. */
  function Extracted<Image>(engines: Engines<Image>, upload: Upload, lang: string): string
  {
    if IsPdfName(upload.filename) then PdfText(engines, upload.content, lang)
    else ImageText(engines, upload.content, lang)
  }

  /** The file name affects the extracted text only through the `.pdf`
      test: two uploads with the same content and the same dispatch get the
      same text, and a PDF upload's text is never empty. */
  lemma ExtractedByDispatch<Image>(engines: Engines<Image>, u1: Upload, u2: Upload, lang: string)
    requires u1.content == u2.content && IsPdfName(u1.filename) == IsPdfName(u2.filename)
    ensures Extracted(engines, u1, lang) == Extracted(engines, u2, lang)
    ensures IsPdfName(u1.filename) ==> Extracted(engines, u1, lang) != []
  {
  }

  /** `extract_text`: the missing-file check first, then the empty-content
      check, then dispatch on the file name, speech and a 200 reply. */
  function ExtractText<Image>(engines: Engines<Image>, req: Request): (resp: Response)
    ensures resp.status == 200 || resp.status == 400
    ensures resp.status == 400 <==> req.file.None? || req.file.value.content == []
    ensures req.file.None? ==> resp.payload == ErrorPayload(NoFileUploaded)
    ensures req.file.Some? && req.file.value.content == [] ==> resp.payload == ErrorPayload(EmptyFileUploaded)
    ensures resp.status == 400 ==> resp.payload.ErrorPayload? && resp.speech.None?
    ensures resp.status == 200 ==>
              && resp.payload.TextPayload?
              && resp.payload.language == Language.OcrLanguage(req.language)
              && resp.payload.extractedText == Extracted(engines, req.file.value, resp.payload.language)
              && resp.speech == Some(Speech.Speak(resp.payload.extractedText, resp.payload.language))
  {
    match req.file
    case None => Response(400, ErrorPayload(NoFileUploaded), None)
    case Some(upload) =>
      var lang := Language.OcrLanguage(req.language);
      if upload.content == [] then Response(400, ErrorPayload(EmptyFileUploaded), None)
      else
        var text := Extracted(engines, upload, lang);
        Response(200, TextPayload(lang, text), Some(Speech.Speak(text, lang)))
  }

  /** A request without a file is refused the same way whatever its language
      field says and whatever the libraries would do. */
  lemma MissingFileFirst<Image>(e1: Engines<Image>, e2: Engines<Image>, l1: Option<string>, l2: Option<string>)
    ensures ExtractText(e1, Request(None, l1)) == ExtractText(e2, Request(None, l2))
  {
  }

  /** An empty file is refused before its name or any library is looked at. */
  lemma EmptyFileBeforeDispatch<Image>(e1: Engines<Image>, e2: Engines<Image>,
                                      n1: string, n2: string, l1: Option<string>, l2: Option<string>)
    ensures ExtractText(e1, Request(Some(Upload(n1, [])), l1)) ==
            ExtractText(e2, Request(Some(Upload(n2, [])), l2))
  {
  }

  /** A successful reply names one of the three engine languages, and the
      speech engine is asked for one of "en", "hin" and "mar". */
  lemma ReplyLanguages<Image>(engines: Engines<Image>, req: Request)
    requires ExtractText(engines, req).status == 200
    ensures var resp := ExtractText(engines, req);
            && resp.payload.language in {"eng", "hin", "mar"}
            && resp.speech.value.lang in {"en", "hin", "mar"}
  {
    Speech.SpeechLanguageCodomain(req.language);
  }

  /** A PDF upload never gets an empty `extracted_text` (an image upload
      can: see Extract.BlankPageDiffers). */
  lemma PdfTextNeverEmpty<Image>(engines: Engines<Image>, req: Request)
    requires ExtractText(engines, req).status == 200
    requires IsPdfName(req.file.value.filename)
    ensures ExtractText(engines, req).payload.extractedText != []
  {
  }

  /** The speech engine is asked to speak exactly the text the client
      receives, and only on a 200 reply; whether it succeeds is not modelled. */
  lemma SpeechMatchesReply<Image>(engines: Engines<Image>, req: Request)
    ensures var resp := ExtractText(engines, req);
            resp.speech.Some? <==> resp.status == 200
    ensures var resp := ExtractText(engines, req);
            resp.speech.Some? ==> resp.speech.value.text == resp.payload.extractedText
  {
  }
}
