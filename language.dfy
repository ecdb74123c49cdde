/** The language mapper: the client's short language code is looked up in a
    fixed table of OCR-engine language identifiers, falling back to English. */
module Language {
  import opened Outcomes

  /** Client code to OCR-engine code. */
  const SupportedLanguages: map<string, string> := map["en" := "eng", "hi" := "hin", "mr" := "mar"]

  /** The OCR-engine code used for any code the table does not know. */
  const DefaultLanguage: string := "eng"

  /** The value the `language` form field takes when the client leaves it out. */
  const DefaultRequest: string := "en"

  /** The engine code the endpoint uses for the `language` form field, which
      may be absent: `SUPPORTED_LANGUAGES.get(form.get("language", "en"), "eng")`. */
  function OcrLanguage(requested: Option<string>): (code: string)
    ensures code == "eng" || code == "hin" || code == "mar"
    ensures code == "hin" <==> requested == Some("hi")
    ensures code == "mar" <==> requested == Some("mr")
  {
    var key := requested.GetOr(DefaultRequest);
    if key in SupportedLanguages then SupportedLanguages[key] else DefaultLanguage
  }

  /** The mapper agrees with the table on every code the table knows, gives
      the default for every other code, and treats a missing field as "en". */
  lemma OcrLanguageFollowsTable(requested: Option<string>)
    ensures requested.Some? && requested.value in SupportedLanguages ==>
              OcrLanguage(requested) == SupportedLanguages[requested.value]
    ensures requested.Some? && requested.value !in SupportedLanguages ==>
              OcrLanguage(requested) == DefaultLanguage
    ensures requested.None? ==> OcrLanguage(requested) == OcrLanguage(Some(DefaultRequest)) == "eng"
  {
  }

  /** The table gives each of its three client codes its own engine code. */
  lemma OcrLanguageInjectiveOnTable(a: string, b: string)
    requires a in SupportedLanguages && b in SupportedLanguages
    requires OcrLanguage(Some(a)) == OcrLanguage(Some(b))
    ensures a == b
  {
  }
}
