/**
 * `leerArchivoFijo(nombre)`: the text of one of the reference documents
 * stored in the `data` directory of the deployment.
 *
 * The file system is a parameter: whether a file of that name exists in the
 * directory (`fs.existsSync`) and what reading it gives (`fs.readFileSync`,
 * which may fail, for instance on a directory).
 */
module Loader {
  import opened Results
  import FileName
  import RtfScrub
  import opened Extract

  /** The `data` directory, keyed by file name. */
  datatype FileSystem = FileSystem(present: string -> bool, read: string -> Result<Bytes>)

  /**
   * `leerArchivoFijo`: a missing file or a failed read gives the empty text;
   * otherwise the file's text by its extension. The call never fails.
   */
  function LoadFixed(fs: FileSystem, d: Decoders, name: string): string
  {
    if !fs.present(name) then ""
    else if fs.read(name).Err? then ""
    else ExtractText(d, fs.read(name).value, Some(name)).value
  }

  /** The reference documents, in the order the handler loads them. */
  const ReferenceNames: seq<string> :=
    ["instructivo.docx", "planilla.pdf", "plantilla.docx", "resolucion.docx", "proyecto.rtf"]

  /** A missing file gives the empty text, whatever reading would have given. */
  lemma LoadMissing(fs: FileSystem, d: Decoders, name: string)
    requires !fs.present(name)
    ensures forall read :: LoadFixed(FileSystem(fs.present, read), d, name) == ""
  {
  }

  /** A file that cannot be read gives the empty text. */
  lemma LoadUnreadable(fs: FileSystem, d: Decoders, name: string)
    requires fs.present(name) && fs.read(name).Err?
    ensures LoadFixed(fs, d, name) == ""
  {
  }

  /** A file that is read gives exactly what `extraerTexto` gives for its bytes and name. */
  lemma LoadPresent(fs: FileSystem, d: Decoders, name: string)
    requires fs.present(name) && fs.read(name).Ok?
    ensures Ok(LoadFixed(fs, d, name)) == ExtractText(d, fs.read(name).value, Some(name))
  {
  }

  /**
   * The empty text means one of: the file is missing, it cannot be read, its
   * decoder failed, or its decoder read no text.
   */
  lemma LoadEmpty(fs: FileSystem, d: Decoders, name: string)
    ensures LoadFixed(fs, d, name) == "" <==>
      || !fs.present(name)
      || fs.read(name).Err?
      || (var f := FormatOf(FileName.Extension(name));
          var r := Decode(d, f, fs.read(name).value);
          r.Err? || r == Ok(""))
  {
    if fs.present(name) && fs.read(name).Ok? {
      ExtractEmptyText(d, fs.read(name).value, name);
    }
  }

  /** A lower-case extension after the last dot selects its own format. */
  lemma FormatAfterDot(stem: string, ext: string)
    requires ext in {"docx", "pdf", "rtf"}
    ensures FormatOf(FileName.Extension(stem + "." + ext)) == FormatOf(ext)
  {
    FileName.ExtensionAfterLastDot(stem, ext);
    assert FileName.ToLower(ext) == ext;
  }

  /** The formats of the five reference documents: Word, PDF, Word, Word and RTF. */
  lemma ReferenceFormats()
    ensures FormatOf(FileName.Extension(ReferenceNames[0])) == Docx
    ensures FormatOf(FileName.Extension(ReferenceNames[1])) == Pdf
    ensures FormatOf(FileName.Extension(ReferenceNames[2])) == Docx
    ensures FormatOf(FileName.Extension(ReferenceNames[3])) == Docx
    ensures FormatOf(FileName.Extension(ReferenceNames[4])) == Rtf
  {
    InstructivoIsWord();
    PlanillaIsPdf();
    PlantillaIsWord();
    ResolucionIsWord();
    FrameworkIsRtf();
  }

  lemma InstructivoIsWord()
    ensures FormatOf(FileName.Extension(ReferenceNames[0])) == Docx
  {
    assert ReferenceNames[0] == "instructivo" + "." + "docx";
    FormatAfterDot("instructivo", "docx");
  }

  lemma PlanillaIsPdf()
    ensures FormatOf(FileName.Extension(ReferenceNames[1])) == Pdf
  {
    assert ReferenceNames[1] == "planilla" + "." + "pdf";
    FormatAfterDot("planilla", "pdf");
  }

  lemma PlantillaIsWord()
    ensures FormatOf(FileName.Extension(ReferenceNames[2])) == Docx
  {
    assert ReferenceNames[2] == "plantilla" + "." + "docx";
    FormatAfterDot("plantilla", "docx");
  }

  lemma ResolucionIsWord()
    ensures FormatOf(FileName.Extension(ReferenceNames[3])) == Docx
  {
    assert ReferenceNames[3] == "resolucion" + "." + "docx";
    FormatAfterDot("resolucion", "docx");
  }

  lemma FrameworkIsRtf()
    ensures FormatOf(FileName.Extension(ReferenceNames[4])) == Rtf
  {
    assert ReferenceNames[4] == "proyecto" + "." + "rtf";
    FormatAfterDot("proyecto", "rtf");
  }

  /** The pedagogical framework, `proyecto.rtf`, is its UTF-8 text with the RTF control words replaced. */
  lemma LoadFramework(fs: FileSystem, d: Decoders)
    requires fs.present("proyecto.rtf") && fs.read("proyecto.rtf").Ok?
    ensures LoadFixed(fs, d, "proyecto.rtf") == RtfScrub.Scrub(d.utf8(fs.read("proyecto.rtf").value))
  {
    ReferenceFormats();
  }

  /** The evaluation sheet, `planilla.pdf`, is what the PDF decoder reads, or empty if it fails. */
  lemma LoadEvaluationSheet(fs: FileSystem, d: Decoders)
    requires fs.present("planilla.pdf") && fs.read("planilla.pdf").Ok?
    ensures LoadFixed(fs, d, "planilla.pdf") == OrEmpty(d.pdf(fs.read("planilla.pdf").value))
  {
    ReferenceFormats();
  }
}
