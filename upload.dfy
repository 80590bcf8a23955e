/** The upload validator of `POST /process`: which form field carries the file
    and whether its name has an accepted extension. */
module Upload {
  import opened Http
  import opened Text

  /** A multipart file part: the file name the client declared, if any, and
      the bytes `await f.read()` returns. */
  datatype UploadFile = UploadFile(filename: Option<string>, content: Bytes)

  /** The two form fields the endpoint accepts: `test_kmz` (current front end)
      and `file` (older clients). */
  datatype Form = Form(testKmz: Option<UploadFile>, file: Option<UploadFile>)

  datatype Kind = Kmz | Kml

  /** An accepted upload. It keeps the kind of document and its bytes; the
      client's file name goes no further than the validator. */
  datatype Document = Document(kind: Kind, content: Bytes)

  const MissingFileDetail := "Esperaba archivo en 'test_kmz' o 'file'."
  const BadExtensionDetail := "Sube un archivo .kmz o .kml válido."

  /** The alias choice: an `UploadFile` is always truthy in Python, so
      `test_kmz` wins whenever it is present, and `file` is used otherwise. */
  function SelectUpload(form: Form): (r: Option<UploadFile>)
    ensures r.None? <==> form.testKmz.None? && form.file.None?
    ensures r.Some? ==> r == form.testKmz || r == form.file
    ensures form.testKmz.Some? ==> r == form.testKmz
  {
    if form.testKmz.Some? then form.testKmz else form.file
  }

  /** The declared file name; a missing name reads as "". */
  function RawName(f: UploadFile): string {
    if f.filename.Some? then f.filename.value else ""
  }

  /** The declared file name, lower-cased. */
  function LoweredName(f: UploadFile): (r: string)
    ensures |r| == |RawName(f)| && NoUpper(r)
  {
    Lower(RawName(f))
  }

  /** The extension check on the chosen file. */
  function CheckExtension(f: UploadFile): (r: Result<Document>)
    ensures r.Err? ==> r.error == HttpError(400, BadExtensionDetail)
    ensures r.Ok? ==> r.value.content == f.content
  {
    var name := LoweredName(f);
    if !(EndsWith(name, ".kmz") || EndsWith(name, ".kml")) then
      Err(HttpError(400, BadExtensionDetail))
    else
      Ok(Document(if EndsWith(name, ".kmz") then Kmz else Kml, f.content))
  }

  /** The whole validator: a missing file and a bad extension are both 400s,
      and an accepted file keeps its bytes. */
  function Validate(form: Form): (r: Result<Document>)
    ensures SelectUpload(form).None? <==> r == Err(HttpError(400, MissingFileDetail))
    ensures r.Err? ==> r.error.status == 400
    ensures r.Ok? ==> r.value.content == SelectUpload(form).value.content
  {
    match SelectUpload(form)
    case None => Err(HttpError(400, MissingFileDetail))
    case Some(f) => CheckExtension(f)
  }

  /** The accepted names, stated on the raw characters the client sent: a dot,
      then K (either case, or KELVIN SIGN), M, and Z or L, at the very end. */
  predicate AllowedName(n: string) {
    |n| >= 4 && n[|n| - 4] == '.' && n[|n| - 3] in "kK\U{212A}" && n[|n| - 2] in "mM"
    && n[|n| - 1] in "zZlL"
  }

  lemma LastFourLowered(n: string)
    requires |n| >= 4
    ensures Lower(n)[|n| - 4..] == [LowerChar(n[|n| - 4]), LowerChar(n[|n| - 3]), LowerChar(n[|n| - 2]), LowerChar(n[|n| - 1])]
  {
  }

  /** Which raw characters lower-case to the characters of ".kmz" and ".kml". */
  lemma LowerCharCases(c: char)
    ensures LowerChar(c) == '.' <==> c == '.'
    ensures LowerChar(c) == 'k' <==> c in "kK\U{212A}"
    ensures LowerChar(c) == 'm' <==> c in "mM"
    ensures LowerChar(c) == 'z' <==> c in "zZ"
    ensures LowerChar(c) == 'l' <==> c in "lL"
  {
  }

  /** An upload passes the extension check exactly when its name (a missing
      name counting as "") is allowed, and it is staged as KMZ exactly when the
      name ends in Z or z. */
  lemma CheckExtensionIff(f: UploadFile)
    ensures var n := RawName(f);
      && (CheckExtension(f).Ok? <==> AllowedName(n))
      && (CheckExtension(f).Ok? ==> (CheckExtension(f).value.kind == Kmz <==> n[|n| - 1] in "zZ"))
  {
    var n := RawName(f);
    var name := LoweredName(f);
    if |n| >= 4 {
      LastFourLowered(n);
      LowerCharCases(n[|n| - 4]);
      LowerCharCases(n[|n| - 3]);
      LowerCharCases(n[|n| - 2]);
      LowerCharCases(n[|n| - 1]);
      assert EndsWith(name, ".kmz") <==> name[|n| - 4..] == ".kmz";
      assert EndsWith(name, ".kml") <==> name[|n| - 4..] == ".kml";
    } else {
      assert !EndsWith(name, ".kmz") && !EndsWith(name, ".kml");
    }
  }

  /** Once a file is present, the validator accepts it exactly when its raw
      name is allowed. */
  lemma ValidateIff(form: Form)
    requires SelectUpload(form).Some?
    ensures Validate(form).Ok? <==> AllowedName(RawName(SelectUpload(form).value))
  {
    CheckExtensionIff(SelectUpload(form).value);
  }

  /** The legacy field is only looked at when `test_kmz` is absent, and then it
      is treated exactly as `test_kmz` would be. */
  lemma AliasPriority(a: UploadFile, b: Option<UploadFile>)
    ensures Validate(Form(Some(a), b)) == Validate(Form(Some(a), None))
    ensures Validate(Form(None, Some(a))) == Validate(Form(Some(a), None))
  {
  }
}
