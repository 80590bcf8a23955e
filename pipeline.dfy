/** `POST /process`: validate the upload, clean and stage `/tmp`, run the
    transform there, and classify what it did. */
module Pipeline {
  import opened Http
  import opened Upload
  import opened Workspace
  import opened Outcome

  /** `/tmp` as the script finds it: the cleaned directory with the upload,
      the reference dataset and the script written in that order. */
  function Staged(tmp: Dir, undeletable: set<string>, doc: Document, base: Bytes, script: Bytes): Dir {
    Cleaned(tmp, undeletable)[InputName(doc.kind) := doc.content][BaseName := base][ScriptName := script]
  }

  /** The request handler. `tmp` and `app` are the two directories when the
      request arrives, `listing` is the order `os.listdir(app)` reports,
      `undeletable` the stale names whose removal fails, `transform` what the
      script does to the `/tmp` it is started in, and `hex` the value of
      `uuid.uuid4().hex`. Each failure ends the request at once, with `/tmp`
      as the steps before it left it. */
  method Process(form: Form, tmp: Dir, app: Dir, listing: seq<string>, undeletable: set<string>,
                 transform: Dir -> Completed, hex: string)
    returns (r: Result<Download>, tmp': Dir)
    requires IsListingOf(listing, app)
    requires IsUuidHex(hex)
    // a rejected upload never reaches /tmp
    ensures Validate(form).Err? ==> r == Err(Validate(form).error) && tmp' == tmp
    // no reference dataset: the upload has already been written
    ensures Validate(form).Ok? && FirstPresent(Candidates, app).None? ==>
      var doc := Validate(form).value;
      && r == Err(HttpError(500, BaseMissingDetail(listing)))
      && tmp' == Cleaned(tmp, undeletable)[InputName(doc.kind) := doc.content]
    // no script: the upload and the reference dataset have already been written
    ensures Validate(form).Ok? && FirstPresent(Candidates, app).Some? && ScriptName !in app ==>
      var doc := Validate(form).value;
      var base := app[Candidates[FirstPresent(Candidates, app).value]];
      && r == Err(HttpError(500, ScriptMissingDetail))
      && tmp' == Cleaned(tmp, undeletable)[InputName(doc.kind) := doc.content][BaseName := base]
    // everything staged: the script runs in /tmp and its run decides the answer
    ensures Validate(form).Ok? && FirstPresent(Candidates, app).Some? && ScriptName in app ==>
      var doc := Validate(form).value;
      var base := app[Candidates[FirstPresent(Candidates, app).value]];
      var run := transform(Staged(tmp, undeletable, doc, base, app[ScriptName]));
      && r == Classify(run, hex)
      && tmp' == run.tmp
    ensures r.Ok? ==> MatchesDownloadPattern(r.value.filename)
  {
    DownloadNameMatchesPattern(hex);
    var v := Validate(form);
    if v.Err? {
      return Err(v.error), tmp;
    }
    var doc := v.value;
    var t := Cleanup(tmp, undeletable);
    t := t[InputName(doc.kind) := doc.content];
    var base := FindBaseKmz(app, listing);
    if base.Err? {
      return Err(base.error), t;
    }
    t := t[BaseName := app[base.value]];
    if ScriptName !in app {
      return Err(HttpError(500, ScriptMissingDetail)), t;
    }
    t := t[ScriptName := app[ScriptName]];
    var run := transform(t);
    r, tmp' := Classify(run, hex), run.tmp;
  }

  /** The directory the script starts in holds the upload under its canonical
      name, the chosen dataset, the script, and otherwise exactly what cleanup
      kept. When the other TEST file and `Exportado.kmz` could be removed, they
      are absent, so a leftover from an earlier request cannot be mistaken for
      this one's. */
  lemma StagedLayout(tmp: Dir, undeletable: set<string>, doc: Document, base: Bytes, script: Bytes)
    ensures var s := Staged(tmp, undeletable, doc, base, script);
      && s[InputName(doc.kind)] == doc.content
      && s[BaseName] == base
      && s[ScriptName] == script
      && (forall n :: n !in StaleNames ==> (n in s <==> n in tmp))
      && (forall n :: n in s && n !in StaleNames ==> s[n] == tmp[n])
      && (OutputName !in undeletable ==> OutputName !in s)
      && (var other := if doc.kind == Kmz then TestKmlName else TestKmzName;
          other !in undeletable ==> other !in s)
  {
  }

  /** With every stale name removable, a script that exits with status zero
      without writing anything is reported as a missing output, never served
      from an old `Exportado.kmz`. */
  lemma SilentScriptFails(tmp: Dir, undeletable: set<string>, doc: Document, base: Bytes, script: Bytes,
                          hex: string)
    requires OutputName !in undeletable && |hex| >= 6
    ensures var s := Staged(tmp, undeletable, doc, base, script);
      Classify(Completed(0, "", "", s), hex) == Err(HttpError(500, NoOutputDetail))
  {
    StagedLayout(tmp, undeletable, doc, base, script);
  }
}
