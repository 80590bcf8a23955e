/** What the handler makes of the transform's run: an execution error, a
    missing output, or the file response with a fresh download name. */
module Outcome {
  import opened Http
  import opened Text
  import opened Workspace

  /** The finished run of the transform script, started with `/tmp` as its
      working directory and both output streams captured as text: its return
      code, the two streams, and `/tmp` as the script left it. */
  datatype Completed = Completed(returnCode: int, stdout: string, stderr: string, tmp: Dir)

  /** The `FileResponse` returned on success. */
  datatype Download = Download(path: string, mediaType: string, filename: string)

  const ErrorPrefix := "Error al procesar:\n"
  const NoOutputDetail := "No se generó Exportado.kmz"
  const OutputPath := "/tmp/Exportado.kmz"
  const KmzMediaType := "application/vnd.google-earth.kmz"
  const DownloadPrefix := "Exportado_"
  const DownloadSuffix := ".kmz"

  /** The diagnostic of a failed run: stderr if it is non-empty, otherwise
      stdout, then stripped. The choice is made before stripping, so a stderr
      of whitespace alone hides stdout. */
  function Diagnostics(stdout: string, stderr: string): (r: string)
    ensures IsTrimmed(r)
    ensures stderr != "" ==> exists i :: StrippedAt(stderr, i, r)
    ensures stderr == "" ==> exists i :: StrippedAt(stdout, i, r)
  {
    Strip(if stderr != "" then stderr else stdout)
  }

  predicate IsLowerHex(c: char) {
    '0' <= c <= '9' || 'a' <= c <= 'f'
  }

  /** The shape of `uuid.uuid4().hex`: 32 lower-case hexadecimal digits. */
  ghost predicate IsUuidHex(h: string) {
    |h| == 32 && forall k :: 0 <= k < |h| ==> IsLowerHex(h[k])
  }

  /** The six random characters of a download name, if it has the right frame. */
  function DownloadToken(name: string): Option<string> {
    if |name| == 20 && name[..10] == DownloadPrefix && name[16..] == DownloadSuffix then
      Some(name[10..16])
    else
      None
  }

  /** The download name: `Exportado_`, the first six digits of the hex string,
      `.kmz`. The token can be read back from it. */
  function DownloadName(hex: string): (name: string)
    requires |hex| >= 6
    ensures DownloadToken(name) == Some(hex[..6])
  {
    var name := DownloadPrefix + hex[..6] + DownloadSuffix;
    assert name[..10] == DownloadPrefix && name[16..] == DownloadSuffix;
    assert name[10..16] == hex[..6];
    name
  }

  /** The file name as `Exportado_[0-9a-f]{6}\.kmz` describes it. */
  ghost predicate MatchesDownloadPattern(name: string) {
    && |name| == 20
    && name[..10] == DownloadPrefix
    && name[16..] == DownloadSuffix
    && forall k :: 10 <= k < 16 ==> IsLowerHex(name[k])
  }

  /** Every download name built from a uuid hex string has the advertised shape. */
  lemma DownloadNameMatchesPattern(hex: string)
    requires IsUuidHex(hex)
    ensures MatchesDownloadPattern(DownloadName(hex))
  {
    var name := DownloadName(hex);
    assert name[..10] == DownloadPrefix && name[16..] == DownloadSuffix;
    forall k | 10 <= k < 16
      ensures IsLowerHex(name[k])
    {
      assert name[k] == hex[k - 10];
    }
  }

  /** Two download names are equal exactly when the first six hex digits are. */
  lemma DownloadNameInjective(h1: string, h2: string)
    requires |h1| >= 6 && |h2| >= 6
    ensures DownloadName(h1) == DownloadName(h2) <==> h1[..6] == h2[..6]
  {
  }

  /** The steps after the run: `check=True` turns a non-zero return code into
      an execution error, then the output must exist, then the response is
      built. */
  function Classify(run: Completed, hex: string): (r: Result<Download>)
    requires |hex| >= 6
    ensures r.Ok? <==> run.returnCode == 0 && OutputName in run.tmp
    ensures r.Err? ==> r.error.status == 500
    ensures r.Ok? ==> r.value.path == OutputPath && r.value.mediaType == KmzMediaType
    ensures r.Ok? ==> DownloadToken(r.value.filename) == Some(hex[..6])
    ensures run.returnCode == 0 && OutputName !in run.tmp ==> r == Err(HttpError(500, NoOutputDetail))
  {
    if run.returnCode != 0 then
      Err(HttpError(500, ErrorPrefix + Diagnostics(run.stdout, run.stderr)))
    else if OutputName !in run.tmp then
      Err(HttpError(500, NoOutputDetail))
    else
      Ok(Download(OutputPath, KmzMediaType, DownloadName(hex)))
  }

  /** A failing script's message `m` reaches the caller verbatim whatever
      whitespace surrounds it in the stream: stderr when it is non-empty,
      stdout when stderr is empty. A stderr of whitespace alone yields an empty
      diagnostic, even when stdout has text. */
  lemma ExecutionErrorReportsStreams(run: Completed, hex: string, i: int, m: string)
    requires |hex| >= 6 && run.returnCode != 0
    ensures run.stderr != [] && StrippedAt(run.stderr, i, m) && IsTrimmed(m) ==>
      Classify(run, hex) == Err(HttpError(500, ErrorPrefix + m))
    ensures run.stderr == [] && StrippedAt(run.stdout, i, m) && IsTrimmed(m) ==>
      Classify(run, hex) == Err(HttpError(500, ErrorPrefix + m))
    ensures run.stderr != [] && AllSpace(run.stderr) ==>
      Classify(run, hex) == Err(HttpError(500, ErrorPrefix))
  {
    var e := run.stderr;
    if e != [] && StrippedAt(e, i, m) && IsTrimmed(m) {
      StripUnique(e, i, m);
    }
    if e == [] && StrippedAt(run.stdout, i, m) && IsTrimmed(m) {
      StripUnique(run.stdout, i, m);
    }
    if e != [] && AllSpace(e) {
      StripOfBlank(e);
    }
  }

  /** A script that fails with a message and a trailing newline on stderr: the
      newline is dropped and stdout is ignored. */
  lemma TrailingNewlineDropped(hex: string)
    requires |hex| >= 6
    ensures Classify(Completed(1, "partial output", "invalid geometry\n", map[]), hex)
      == Err(HttpError(500, ErrorPrefix + "invalid geometry"))
  {
    var e := "invalid geometry\n";
    assert e[..0] == [] && e[0..16] == "invalid geometry" && e[16..] == "\n";
    StripUnique(e, 0, "invalid geometry");
  }

  /** Whatever the script printed after its real message (a trailing newline,
      say) is dropped, and the message itself still appears in the detail. */
  lemma ExecutionErrorContainsDiagnostics(run: Completed, hex: string)
    requires |hex| >= 6 && run.returnCode != 0
    ensures Classify(run, hex).Err?
    ensures Contains(Classify(run, hex).error.detail, Diagnostics(run.stdout, run.stderr))
  {
    var d := Diagnostics(run.stdout, run.stderr);
    assert OccursAt(d, d, 0);
    ContainsInContext(ErrorPrefix, d, "", d);
    assert ErrorPrefix + d + "" == Classify(run, hex).error.detail;
  }
}
