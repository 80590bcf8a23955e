# KMZ Processor: the `POST /process` handler

A Dafny model of the request pipeline in `main.py` of the KMZ Processor
service. A client uploads a KMZ or KML document. The handler checks the upload
and removes stale files from the shared `/tmp` directory. It writes the upload
there under a canonical name and copies in the reference dataset and the
transform script. Then it runs the script in `/tmp` and returns
`Exportado.kmz` under a randomised download name, or raises an HTTP error.

The model works on values. Both directories are maps from file name to bytes
(`Http.Dir`). `Pipeline.Process` is a method that threads `/tmp` through the
steps in source order and returns the response together with the final
`/tmp`. Everything the handler gets from outside comes in as a parameter:

- `listing` is the order in which `os.listdir` reports the application
  directory. `Workspace.IsListingOf` requires it to name each entry of that
  directory exactly once.
- `undeletable` holds the stale names whose `os.remove` raises. The handler
  swallows that error.
- `transform` is the run of the opaque script, as a function of the `/tmp` it
  starts in. It gives the return code, stdout, stderr and `/tmp` afterwards.
- `hex` is the value of `uuid.uuid4().hex`: 32 lower-case hex digits.

Modules:
- `Text`: Python's `lower`, `endswith`, `strip`, `join`, `sorted` and list
  `repr`, with their properties.
- `Http`: directories, errors and results.
- `Upload`: the validator.
- `Workspace`: the cleanup loop, `_find_base_kmz` and the staging names.
- `Outcome`: classifying the finished run, and the download name.
- `Pipeline`: the handler.

Facts about `main.py` that shape the model:
- The handler uses one shared `/tmp` with fixed file names.
- It deletes a fixed list of names before staging. Nothing is deleted after
  the request.
- The script runs with no timeout.
- When both form fields are present, `test_kmz` wins and `file` is ignored.
- The user-facing details are Spanish strings.
- The failure diagnostic picks a stream first (stderr if non-empty, else
  stdout) and strips it afterwards. A stderr of whitespace alone therefore
  gives an empty diagnostic, even when stdout has text.

## Model

| member | source | states |
|---|---|---|
| `Upload.SelectUpload` | main.py:52 | The chosen file is one of the two fields, and there is none only when both are absent. `test_kmz` is chosen whenever it is present. |
| `Upload.LoweredName` | main.py:56 | The lower-cased name has the raw name's length (a missing name counts as ""), and no letter in it is left to fold. CheckExtensionIff states what the check makes of it. |
| `Upload.Validate` | main.py:52-58 | No file in either field yields exactly the 400 "Esperaba archivo en 'test_kmz' o 'file'.". Every rejection is a 400. An accepted upload keeps the bytes of the chosen file. |
| `Upload.ValidateIff` | main.py:52-58 | When a file is present, the validator accepts it exactly when its raw name is allowed. |
| `Upload.AliasPriority` | main.py:52 | When `test_kmz` is present, `file` is ignored. When only `file` is present, it is treated exactly like `test_kmz`. |
| `Upload.CheckExtension` | main.py:56-58 | A rejection is the 400 with "Sube un archivo .kmz o .kml válido.". An accepted document carries the uploaded bytes. |
| `Upload.LowerCharCases` | main.py:56 | A character lower-cases to '.', 'k', 'm', 'z' or 'l' exactly when it is that character, or its upper-case form, or (for 'k') KELVIN SIGN. |
| `Upload.CheckExtensionIff` | main.py:56-58 | The extension check passes exactly when the raw name (missing counts as "") ends in '.', K/k/KELVIN SIGN, M/m, then Z/z or L/l. The upload is staged as KMZ exactly when the last character is Z or z. |
| `Workspace.InputName` | main.py:70 | The staged name depends only on the kind: `TEST.kmz` exactly for KMZ, `TEST.kml` exactly for KML. Both are among the names cleanup removes. |
| `Workspace.Cleanup` | main.py:60-67 | The loop result is `/tmp` minus the removable stale names. Each of the five names is gone unless its removal fails. A failed removal leaves that entry as it was and does not stop the request. No other entry is added, removed or changed. |
| `Workspace.FirstPresent` | main.py:35-39 | Returns the position of a name the directory holds when one exists. Every earlier name is absent. None means that no name is present. |
| `Workspace.FindBaseKmz` | main.py:30-45 | Succeeds exactly when a candidate exists, and returns the first existing one of DATABASE.kmz, Database.kmz, Transmission Network.kmz. Otherwise it fails with a 500 carrying the candidate repr and the sorted, comma-joined listing. |
| `Workspace.BaseLookupPriority` | main.py:35-39 | If any candidate exists, one is found and it is no later than that candidate. If DATABASE.kmz exists, it is chosen. |
| `Workspace.BaseMissingDetail` | main.py:41-44 | The missing-dataset detail. Its properties are stated by BaseMissingDetailNamesAll and BaseMissingDetailIgnoresListingOrder. |
| `Workspace.BaseMissingDetailNamesAll` | main.py:41-44 | The missing-dataset detail contains every candidate name and every file of the application directory. |
| `Workspace.BaseMissingDetailIgnoresListingOrder` | main.py:41 | Because of `sorted`, the detail is the same whatever order `os.listdir` returns. |
| `Outcome.Diagnostics` | main.py:94 | The diagnostic neither starts nor ends with whitespace. It sits inside stderr framed by whitespace when stderr is non-empty, and inside stdout otherwise. |
| `Outcome.Classify` | main.py:93-106 | The answer is a success exactly when the return code is 0 and `Exportado.kmz` exists. Every failure is a 500. A zero exit without the output is exactly the 500 "No se generó Exportado.kmz". A success serves `/tmp/Exportado.kmz` as application/vnd.google-earth.kmz, and its download name carries `hex[:6]`. |
| `Outcome.ExecutionErrorReportsStreams` | main.py:93-95 | For a non-zero exit, whatever whitespace surrounds a message `m` in the stream, the detail is "Error al procesar:\n" followed by exactly `m`. The stream is stderr when it is non-empty and stdout when stderr is empty. A stderr of whitespace alone leaves only the prefix. |
| `Outcome.TrailingNewlineDropped` | main.py:93-95 | A run exiting 1 with "invalid geometry\n" on stderr and text on stdout gets exactly the detail "Error al procesar:\ninvalid geometry". |
| `Outcome.ExecutionErrorContainsDiagnostics` | main.py:93-95 | A non-zero exit is an error whose detail contains the stripped diagnostic text. |
| `Outcome.DownloadName` | main.py:101 | The six-character token can be read back from the download name. |
| `Outcome.DownloadNameMatchesPattern` | main.py:101 | Built from a uuid hex string, the download name matches `Exportado_[0-9a-f]{6}\.kmz`. |
| `Outcome.DownloadNameInjective` | main.py:101 | Two download names are equal exactly when the first six hex digits agree. |
| `Pipeline.Staged` | main.py:69-82 | The directory the script starts in. StagedLayout states what it holds. |
| `Pipeline.Process` | main.py:47-106 | A rejected upload leaves `/tmp` untouched. A missing dataset fails after the cleanup and the TEST write. A missing script fails after the dataset copy. Otherwise the script runs in the fully staged `/tmp`, and its run alone decides the answer and the final `/tmp`. Every success has a well-formed download name. |
| `Pipeline.StagedLayout` | main.py:61-82 | The directory the script starts in holds: the uploaded bytes under the canonical name, the chosen dataset's bytes under `Transmission Network.kmz`, the script, and every non-stale entry unchanged. The other TEST file and a stale `Exportado.kmz` are absent whenever their removal succeeds. |
| `Pipeline.SilentScriptFails` | main.py:61-67 | When `Exportado.kmz` can be removed, a script that exits 0 and writes nothing gets the 500 "No se generó Exportado.kmz". An old output is never served. |
| `Text.Lower` | main.py:56 | `lower` keeps the length, leaves no letter to fold, and keeps every character that is not an upper-case letter. |
| `Text.LowerIdempotent` | main.py:56 | Lower-casing twice is lower-casing once. |
| `Text.EndsWith` | main.py:57 | `endswith`. CheckExtensionIff states what it decides on the lowered name. |
| `Text.Strip` | main.py:94 | The result sits inside the input at some offset. Only whitespace (Python's `isspace`) surrounds it. It neither starts nor ends with whitespace. |
| `Text.FramedUnique` | main.py:94 | At most one stretch of a string is trimmed and framed by whitespace. |
| `Text.StripUnique` | main.py:94 | Whitespace, then a trimmed `m`, then whitespace strips to exactly `m`. |
| `Text.StripOfTrimmed` | main.py:94 | A string without surrounding whitespace strips to itself. |
| `Text.StripOfBlank` | main.py:94 | A string of whitespace strips to the empty string. |
| `Text.Sort` | main.py:41 | `sorted` yields a sequence ordered by code-point comparison that is a permutation of its input. |
| `Text.SortIgnoresOrder` | main.py:41 | Two permutations of one list sort to the same sequence. |
| `Text.Join` | main.py:41 | `", ".join`. JoinContains states its property. |
| `Text.JoinContains` | main.py:41 | Every element appears inside its `", ".join`. |
| `Text.ListRepr` | main.py:44 | The list `repr` of the candidates in the f-string. ListReprContains states its property. |
| `Text.ListReprContains` | main.py:44 | Every element appears inside the list's `repr`. |

## Left out

- The FastAPI application, the CORS middleware, `GET /health` and the
  `OPTIONS /process` handler (main.py:10-28). They are framework wiring with
  constant responses.
- Real file-system calls. Directories are maps of regular files.
  `os.path.exists` on a sub-directory is not modelled, because such entries do
  not exist in the model. Errors of `open`, `write` and `shutil.copyfile` are
  not modelled either. The only I/O failure the model has is a failed
  `os.remove`, through `undeletable`.
- The subprocess and what the script computes. The model takes its effect as
  the parameter `transform`. A missing `python3` and any other exception that
  the handler does not catch are not modelled.
- `Pipeline.Process`: `transform: Dir -> Completed` describes only runs that
  finish. The code sets no timeout (main.py:86-92), so a script that hangs
  hangs the request, and the model cannot express that.
- The randomness of `uuid.uuid4()`. The hex string is a parameter, so the model
  cannot state that download names are unique across requests.
- Concurrency. Two requests share `/tmp` in the code. The model handles one
  request at a time and says nothing about interleavings.
- Streaming of the `FileResponse` body. Also the fact that `/tmp` is never
  released after the request: the model simply returns the final `/tmp`.
- `Text.LowerChar`: lower-cases only A-Z and KELVIN SIGN. These are the
  mappings that can turn a name into one ending in ".kmz" or ".kml". Other
  Unicode case mappings are left unchanged, including ones that change a
  string's length.
- `Text.ListRepr`: gives Python's list `repr` only for strings without quotes,
  backslashes or unprintable characters. The three dataset candidates are such
  strings.
- Path joining with `APP_DIR` and `TMP_DIR`. The model uses bare file names
  inside each directory. Behaviour on case-insensitive file systems is not
  modelled.
