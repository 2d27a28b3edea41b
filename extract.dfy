/**
 * `extraerTexto(buffer, nombreArchivo)`: the text of an uploaded or stored
 * document, chosen by the extension of its file name.
 *
 * The three decoders (`mammoth.extractRawText` for Word documents,
 * `pdfParse` for PDF and `Buffer.toString('utf8')`) are libraries outside
 * the model; they are parameters. The Word and PDF decoders may fail; the
 * UTF-8 decoder never does (it replaces bytes it cannot read).
 */
module Extract {
  import opened Results
  import FileName
  import RtfScrub

  newtype byte = x: int | 0 <= x < 256
  type Bytes = seq<byte>

  /** How a file is read, by the lower-cased text after its last dot. */
  datatype Format = Docx | Pdf | Rtf | Plain

  /** The `if` / `else if` chain on the extension, in the order the source tests it. */
  function FormatOf(ext: string): (f: Format)
    ensures f == Docx <==> ext == "docx"
    ensures f == Pdf <==> ext == "pdf"
    ensures f == Rtf <==> ext == "rtf"
  {
    if ext == "docx" then Docx
    else if ext == "pdf" then Pdf
    else if ext == "rtf" then Rtf
    else Plain
  }

  /** The libraries that turn bytes into text. */
  datatype Decoders = Decoders(
    docx: Bytes -> Result<string>, // `mammoth.extractRawText({ buffer })`, its `value`
    pdf: Bytes -> Result<string>,  // `pdfParse(buffer)`, its `text`
    utf8: Bytes -> string)         // `buffer.toString('utf8')`

  /** The body of the `try`: the decoder the format selects; RTF text is scrubbed of control words. */
  function Decode(d: Decoders, f: Format, b: Bytes): Result<string>
  {
    match f
    case Docx => d.docx(b)
    case Pdf => d.pdf(b)
    case Rtf => Ok(RtfScrub.Scrub(d.utf8(b)))
    case Plain => Ok(d.utf8(b))
  }

  /** The text a decoder gives, or the empty text when it fails. */
  function OrEmpty(r: Result<string>): string
  {
    if r.Ok? then r.value else ""
  }

  /**
   * The message of the `TypeError` that `nombreArchivo.split` raises when the
   * name is `undefined`. The split is outside the `try`, so this error is the
   * caller's.
   */
  const NameMissingMessage := "Cannot read properties of undefined (reading 'split')"

  /**
   * `extraerTexto`. `name` is `None` when the caller passes no name. Any
   * failure of a decoder is caught and gives the empty text.
   */
  function ExtractText(d: Decoders, b: Bytes, name: Option<string>): (r: Result<string>)
    ensures r.Err? <==> name.None?
    ensures r.Err? ==> r.message == NameMissingMessage
  {
    if name.None? then Err(NameMissingMessage)
    else
      Ok(OrEmpty(Decode(d, FormatOf(FileName.Extension(name.value)), b)))
  }

  /** A name ending in `.docx`, in any case, goes to the Word decoder. */
  lemma ExtractWord(d: Decoders, b: Bytes, stem: string, ext: string)
    requires '.' !in ext && FileName.ToLower(ext) == "docx"
    ensures ExtractText(d, b, Some(stem + "." + ext)) == Ok(OrEmpty(d.docx(b)))
  {
    FileName.ExtensionAfterLastDot(stem, ext);
  }

  /** A name ending in `.pdf`, in any case, goes to the PDF decoder. */
  lemma ExtractPdf(d: Decoders, b: Bytes, stem: string, ext: string)
    requires '.' !in ext && FileName.ToLower(ext) == "pdf"
    ensures ExtractText(d, b, Some(stem + "." + ext)) == Ok(OrEmpty(d.pdf(b)))
  {
    FileName.ExtensionAfterLastDot(stem, ext);
  }

  /**
   * A name ending in `.rtf` gives the UTF-8 text with the control words
   * replaced; it is never longer than that text and never the empty
   * fallback of a failure.
   */
  lemma ExtractRtf(d: Decoders, b: Bytes, stem: string, ext: string)
    requires '.' !in ext && FileName.ToLower(ext) == "rtf"
    ensures ExtractText(d, b, Some(stem + "." + ext)) == Ok(RtfScrub.Scrub(d.utf8(b)))
    ensures |RtfScrub.Scrub(d.utf8(b))| <= |d.utf8(b)|
  {
    FileName.ExtensionAfterLastDot(stem, ext);
    RtfScrub.ScrubLength(d.utf8(b));
  }

  /** Any other name gives the bytes read as UTF-8, unchanged. */
  lemma ExtractPlain(d: Decoders, b: Bytes, name: string)
    requires FileName.Extension(name) !in {"docx", "pdf", "rtf"}
    ensures ExtractText(d, b, Some(name)) == Ok(d.utf8(b))
  {
  }

  /** The result depends on the name only through its lower-cased extension. */
  lemma ExtractIgnoresCase(d: Decoders, b: Bytes, n1: string, n2: string)
    requires FileName.ToLower(n1) == FileName.ToLower(n2)
    ensures ExtractText(d, b, Some(n1)) == ExtractText(d, b, Some(n2))
  {
    FileName.ExtensionIgnoresCase(n1, n2);
  }

  /** Only the decoder the extension selects is consulted: decoders that agree on it give the same text. */
  lemma ExtractUsesSelectedDecoder(d1: Decoders, d2: Decoders, b: Bytes, name: string)
    requires var f := FormatOf(FileName.Extension(name));
      (f == Docx ==> d1.docx(b) == d2.docx(b)) &&
      (f == Pdf ==> d1.pdf(b) == d2.pdf(b)) &&
      (f in {Rtf, Plain} ==> d1.utf8(b) == d2.utf8(b))
    ensures ExtractText(d1, b, Some(name)) == ExtractText(d2, b, Some(name))
  {
  }

  /**
   * A failing decoder is contained: the result is the empty text, and the
   * empty text comes only from a failure or from a decoder that read nothing.
   */
  lemma ExtractEmptyText(d: Decoders, b: Bytes, name: string)
    ensures var f := FormatOf(FileName.Extension(name));
      ExtractText(d, b, Some(name)) == Ok("") <==>
        Decode(d, f, b).Err? || Decode(d, f, b) == Ok("")
  {
  }

  /** An uploaded `ppo.docx` is read by the Word decoder. */
  lemma ExtractUploadedWord(d: Decoders, b: Bytes)
    ensures ExtractText(d, b, Some("ppo.docx")) == Ok(OrEmpty(d.docx(b)))
  {
    FileName.ExtensionOfDocxName();
  }

  /** `informe.final.PDF`: the last dot counts, and upper case does not matter. */
  lemma ExtractSeveralDots(d: Decoders, b: Bytes)
    ensures ExtractText(d, b, Some("informe.final.PDF")) == Ok(OrEmpty(d.pdf(b)))
  {
    FileName.ExtensionOfSeveralDots();
  }

  /** A name without a dot is its own extension: a file called `rtf` is read as RTF. */
  lemma ExtractNameWithoutDot(d: Decoders, b: Bytes)
    ensures ExtractText(d, b, Some("rtf")) == Ok(RtfScrub.Scrub(d.utf8(b)))
  {
    FileName.ExtensionOfNameWithoutDot();
  }

  /** Without a name the call fails with the `TypeError`, whatever the bytes. */
  lemma ExtractWithoutName(d: Decoders, b: Bytes)
    ensures ExtractText(d, b, None) == Err(NameMissingMessage)
  {
  }
}
