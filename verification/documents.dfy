/**
 * The records the download and reorder scripts pass around: languages,
 * extracted articles, the JSON documents written to each language's log,
 * and the md5 content fingerprint `hash_doc`.
 */
module Documents {
  import opened Wrappers
  import opened Text

  /** The collection languages, `CHINESE`, `RUSSIAN` and `PERSIAN`. */
  datatype Lang = Zho | Rus | Fas

  /** `LANGUAGES`: the order in which languages are visited everywhere in the download script. */
  const Languages: seq<Lang> := [Zho, Rus, Fas]

  /** The three-letter code used as command-line flag and as storage sub-directory. */
  function Code(l: Lang): string {
    match l
    case Zho => "zho"
    case Rus => "rus"
    case Fas => "fas"
  }

  /** What article extraction returns for one archive record: publish time (or null), title, text and target URI. */
  datatype Article = Article(time: Option<string>, title: string, text: string, url: Option<string>)

  /** One line of a language's `hc4_docs.jsonl`. */
  datatype Doc = Doc(id: string, ccFile: string, time: Option<string>, title: string, text: string, url: Option<string>)

  /** The document built for record `rid` of archive `ccFile`: the id and archive name followed by the extracted fields. */
  function MakeDoc(rid: string, ccFile: string, a: Article): Doc {
    Doc(rid, ccFile, a.time, a.title, a.text, a.url)
  }

  /**
   * `hash_doc`: the md5 hex digest of the stripped title followed by the
   * stripped text. The digest itself is the parameter `md5`.
   */
  function HashDoc(md5: string -> string, d: Doc): string {
    md5(Strip(d.title) + Strip(d.text))
  }

  /** Leading or trailing whitespace on the title or on the text never changes a document's fingerprint. */
  lemma HashDocIgnoresPadding(md5: string -> string, d: Doc, a: string, b: string, c: string, e: string)
    requires AllSpace(a) && AllSpace(b) && AllSpace(c) && AllSpace(e)
    ensures HashDoc(md5, d.(title := a + d.title + b, text := c + d.text + e)) == HashDoc(md5, d)
  {
    StripPadded(a, d.title, b);
    StripPadded(c, d.text, e);
  }
}
