# pdf-backend: the `/compress` decision procedure in Dafny

The service accepts one uploaded PDF and returns a smaller copy made by
Ghostscript with one of three `-dPDFSETTINGS` presets (`/screen`, `/ebook`,
`/printer`). This project models the `POST /compress` handler of `server.js`
and the pure helpers around it:

- `Ghostscript` (ghostscript.dfy): the command name, the fixed eight-element
  argument vector of one run, and its inverse reading. Ghostscript itself is
  an oracle `gs: Argv -> Bytes`. It maps the argument vector of a run to the
  bytes of the output file read back afterwards.
- `Modes` (modes.dfy): the `mode` form field and its default. The preset of
  the single-attempt modes. The choice between the `/ebook` and `/screen`
  results of the `max-1mb` mode, whose target is 1 048 576 bytes.
- `Naming` (naming.dfy): the `-out.pdf` and `-alt.pdf` temporary outputs, the
  clean-up list, and the download name `<base>_compressed_by_myworkspace.pdf`.
- `Server` (server.dfy): the handler as an imperative method. It takes the
  request, the result of the `-v` availability probe and the compressor
  oracle. It returns the response together with the argument vectors of the
  compressor runs and the paths it unlinked.

Clean-up follows the code. A request without a file unlinks nothing. A wrong
media type or a failed probe unlinks only the upload. A successful request
unlinks the upload and both output paths, whether or not the `/screen` output
was ever written.

## Model

| member | source | states |
|---|---|---|
| Ghostscript.GsCommand | server.js:29-32 | a non-empty `GS_BIN` override is the command; otherwise `gswin64c` on Windows and `gs` elsewhere; never empty |
| Ghostscript.BuildArgs | server.js:34-45 | exactly 8 arguments: the preset flag at index 2, the output flag at index 6, the input path last, and the five other flags constant |
| Ghostscript.ParseBuildArgs | server.js:34-45 | the preset, output path and input path can be read back from the argument vector unchanged |
| Ghostscript.BuildParsedArgs | server.js:34-45 | every vector of that shape is the one built from what is read back from it |
| Ghostscript.BuildArgsInjective | server.js:34-45 | different (input, output, preset) triples never give the same argument vector |
| Server.CompressWithSetting | server.js:47-52 | one run of Ghostscript; its vector reads back as exactly the given input, output and preset; the result is what the compressor produced for that vector |
| Modes.ResolveMode | server.js:78 | a missing or empty `mode` field resolves to `quality-ebook`; any other value is kept as given |
| Modes.SettingFor | server.js:23-27 | `/screen` exactly for `quality-screen`, `/printer` exactly for `quality-printer`, `/ebook` for every other mode; always one of the three presets |
| Modes.UnknownModeIsEbook | server.js:114 | a mode outside the table gets the same preset as `quality-ebook` |
| Modes.SettingAsWritten | server.js:114 | the plain-object lookup as written: its result is a preset exactly when the mode is not a name inherited from Object.prototype; it agrees with the table on the table's own modes |
| Modes.AsWrittenAgreesOffPrototype | server.js:114 | away from the inherited names, the lookup as written and `SettingFor` coincide |
| Modes.ConstructorModeEscapesFallback | server.js:114 | the mode `constructor` should fall back to `/ebook`, but as written Ghostscript gets `-dPDFSETTINGS=function Object() { [native code] }` |
| Modes.ChooseResult | server.js:103-106 | the choice is one of the two results: the screen result whenever it meets the target or is strictly smaller, the ebook result otherwise |
| Modes.ChoiceIsSmaller | server.js:101-108 | once the ebook result is over the target, the chosen size is the minimum of the two sizes, never above the ebook size; a tie keeps the ebook result; the choice misses the target exactly when the screen result does |
| Naming.TempPathsDistinct | server.js:79-80 | the `-out.pdf` and `-alt.pdf` paths differ from the upload path and from each other; different uploads get different outputs |
| Naming.CleanupList | server.js:131 | the upload path and both output paths, three distinct paths |
| Naming.StripPdfSuffix | server.js:121 | the name changes exactly when it ends in `.pdf` in any letter case, and then loses exactly those four characters |
| Naming.StripAppendedExtension | server.js:121 | stripping a name built as stem plus `.pdf` (any case) gives back the stem, so only one extension is removed |
| Naming.DownloadBase | server.js:120-121 | never empty; `document` when the original name is missing or nothing is left after stripping; otherwise the stripped name |
| Naming.DownloadName | server.js:120-122 | the base followed by `_compressed_by_myworkspace.pdf`; it always ends in `.pdf` |
| Naming.DownloadNameOfPdf | server.js:120-122 | `stem.pdf` is offered as `stem_compressed_by_myworkspace.pdf`; `.pdf` alone or a missing name becomes `document_compressed_by_myworkspace.pdf` |
| Server.CompressForMode | server.js:92-117 | one or two runs; a single-attempt mode runs once with `SettingFor`'s preset into `-out.pdf` with no note; `max-1mb` runs `/ebook` into `-out.pdf`, and only over the target `/screen` into `-alt.pdf`, keeping the smaller result (the ebook one on a tie) and setting the note exactly when the retry still misses |
| Server.Max1mbNoteIffOverTarget | server.js:96-112 | in `max-1mb` mode the note is present exactly when the returned size is over 1 048 576 bytes, and the returned size never exceeds the `/ebook` result's |
| Server.DispositionAcceptedIffBase | server.js:124 | Node accepts the Content-Disposition value exactly when the base of the download name uses only tab, 0x20-0x7E and 0x80-0xFF, since the fixed text around it is ASCII |
| Server.NonLatin1NameIsRefused | server.js:124 | an upload named `文.pdf` (as decoded from an RFC 5987 `filename*` parameter) makes `setHeader` throw; `report.pdf` does not |
| Server.HandleCompress | server.js:71-132 | see the list below |

`Server.HandleCompress` states the following:

- The validations run in order, and each ends the request before any
  compressor run:
  - no file: 400, nothing unlinked, no probe;
  - a media type other than exactly `application/pdf`: 400, the upload unlinked;
  - a failed probe: 500 carrying the probe's diagnostic, the upload unlinked.
- Compressor runs happen exactly when all three pass. There are never more
  than two runs.
- After the runs, the download name goes into the Content-Disposition header:
  - if Node accepts that value, a PDF response is sent. X-Compressed-Size
    equals the body's length, X-Original-Size is the upload's size, the
    download name is `DownloadName`, and the clean-up unlinks exactly
    `CleanupList`, in order;
  - otherwise `setHeader` throws: the outcome is `Aborted`, with the body and
    note that were computed but not sent, and nothing is unlinked.
- In the single-attempt modes there is one run, with `SettingFor`'s preset,
  writing to `-out.pdf`. The body is its result and no note is set.
- In `max-1mb` mode the first run uses `/ebook` and writes to `-out.pdf`:
  - at or under the target: one run, the ebook result unchanged, no note;
  - over the target: a second run with `/screen` writing to `-alt.pdf`; the
    body is the smaller result, the ebook result on a tie;
  - the note is set exactly when two runs happened and the body is still over
    the target.

## Findings

| source | as written | input that shows it | evidently intended | confidence | as-written member | corrected member |
|---|---|---|---|---|---|---|
| server.js:114 | the preset is looked up on a plain object literal, so the names it inherits from Object.prototype are found too, and the `/ebook` fallback is skipped | `mode=constructor` (likewise `toString`, `valueOf`, `__proto__`, ...) | every mode outside the table falls back to `/ebook` | high (JavaScript property lookup semantics); not executed | Modes.SettingAsWritten | Modes.SettingFor |

The handler model uses the corrected lookup `SettingFor`.

## Left out

- Express routing, multipart parsing by multer and its 25 MiB upload limit, CORS, request logging and `app.listen`. This is framework plumbing.
- `GET /healthz`. It is one probe call wrapped in a JSON response, with no logic of its own.
- Running Ghostscript and reading its output file. These are the oracle `gs`, which is total: each run returns the bytes of its output file.
- The `-v` probe. It is the parameter `probeFailure`, and the model does not see how the probe itself is run.
- A compressor run that throws, from a non-zero exit or an unreadable output. The handler has no error handling around the runs, so no response or clean-up is defined there. Such a run is not modelled.
- Deleting files. The model records which paths are unlinked and in what order. It does not model the deletion itself, its ignored failures, or the clean-up running after the response is sent without being awaited.
- The response header strings and the Indonesian message texts. The model keeps the status codes, the failure kind, the probe's diagnostic, the sizes, whether the note is present, and the Content-Disposition value, the only header whose content can make `setHeader` throw.
- Server.HandleCompress: after `setHeader` throws on a refused download name, the model stops at `Aborted`. What the framework then does with the rejected promise is not modelled. The handler itself sends no response and runs no clean-up.
- The content of the uploaded bytes. The server trusts the client's media type and never inspects the bytes.
