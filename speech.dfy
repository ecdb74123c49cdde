/** What the endpoint hands to the speech engine. Synthesis, the temporary
    audio file and playback on a detached thread are not part of this model;
    only the language rewrite at the start of `speak_text` is. */
module Speech {
  import Language
  import opened Outcomes

  /** A request to speak `text` in the speech engine's language `lang`. */
  datatype Utterance = Utterance(text: string, lang: string)

  /** The speech engine names English "en" where the OCR engine says "eng";
      every other code is passed through untouched. */
  function TtsLanguage(code: string): (lang: string)
    ensures code == "eng" ==> lang == "en"
    ensures code != "eng" ==> lang == code
  {
    if code == "eng" then "en" else code
  }

  /** What `speak_text(text, lang)` asks the speech engine to synthesise. */
  function Speak(text: string, code: string): (u: Utterance)
    ensures u.text == text && u.lang == TtsLanguage(code)
  {
    Utterance(text, TtsLanguage(code))
  }

  /** After OCR mapping and the speech rewrite, the speech engine is always
      asked for one of three codes. */
  lemma SpeechLanguageCodomain(requested: Option<string>)
    ensures var lang := TtsLanguage(Language.OcrLanguage(requested));
            lang == "en" || lang == "hin" || lang == "mar"
  {
  }

  /** Only English makes the round trip client code, OCR code, speech code
      back to the client's own code: Hindi and Marathi reach the speech engine
      under their OCR-engine names "hin" and "mar". */
  lemma SpeechLanguageRoundTrip(c: string)
    ensures TtsLanguage(Language.OcrLanguage(Some(c))) == c <==> c == "en"
  {
  }
}
