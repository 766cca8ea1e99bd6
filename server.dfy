/**
 * The `POST /compress` handler: validation of the upload, the Ghostscript
 * runs the mode asks for, the response and the clean-up of the temporary
 * files. Ghostscript is the compressor oracle `gs`; the `-v` availability
 * probe is the parameter `probeFailure` (None when the probe succeeds, the
 * diagnostic message when it fails). The file system is recorded, not run:
 * the outcome lists the paths the request unlinks.
 */
module Server {

  import opened Wrappers
  import opened Ghostscript
  import opened Modes
  import opened Naming

  const PdfMimeType := "application/pdf"

  /** The upload as the multipart parser stored it. */
  datatype UploadedFile = UploadedFile(path: string, mimeType: string, originalName: Option<string>, size: nat)

  /** The `pdf` file field (absent when nothing was uploaded) and the `mode` text field. */
  datatype CompressRequest = CompressRequest(file: Option<UploadedFile>, modeField: Option<string>)

  datatype Failure = MissingFile | InvalidFileType | ToolUnavailable

  datatype Response =
    | ErrorResponse(status: nat, failure: Failure, detail: Option<string>)
      /** A 200 response: the body, the download name, X-Original-Size,
          X-Compressed-Size and whether X-Note is set. */
    | PdfResponse(body: Bytes, fileName: string, originalSize: nat, compressedSize: nat, hasNote: bool)
      /** Setting the Content-Disposition header threw: the chosen body and
          note were computed but nothing is sent. */
    | Aborted(body: Bytes, hasNote: bool)

  /**
   * What one request did: its response, whether it ran the `-v` probe, the
   * argument vectors of its compressor runs in order, and the paths it
   * unlinked in order.
   */
  datatype Outcome = Outcome(response: Response, probed: bool, invocations: seq<Argv>, unlinked: seq<string>)

  /**
   * A character Node accepts in a header value: tab, the printable ASCII
   * range and 0x80-0xFF. Any other character makes `setHeader` throw.
   */
  predicate IsHeaderChar(c: char)
  {
    c == '\t' || 0x20 <= c as int <= 0x7E || 0x80 <= c as int <= 0xFF
  }

  predicate IsHeaderValue(s: string)
  {
    forall i :: 0 <= i < |s| ==> IsHeaderChar(s[i])
  }

  const DispositionPrefix := "attachment; filename=\""

  /** The Content-Disposition value offering `fileName` as an attachment. */
  function ContentDisposition(fileName: string): string
  {
    DispositionPrefix + fileName + "\""
  }

  lemma FixedTextIsHeaderValue()
    ensures IsHeaderValue(DispositionPrefix) && IsHeaderValue(DownloadSuffix) && IsHeaderValue("\"")
  {
  }

  /** A concatenation is a header value exactly when both parts are. */
  lemma HeaderValueConcat(a: string, b: string)
    ensures IsHeaderValue(a + b) <==> IsHeaderValue(a) && IsHeaderValue(b)
  {
    if IsHeaderValue(a + b) {
      forall i | 0 <= i < |a| ensures IsHeaderChar(a[i]) {
        assert a[i] == (a + b)[i];
      }
      forall i | 0 <= i < |b| ensures IsHeaderChar(b[i]) {
        assert b[i] == (a + b)[|a| + i];
      }
    }
  }

  /**
   * The Content-Disposition header is accepted exactly when the base of the
   * download name is: the fixed text around it is plain ASCII.
   */
  lemma DispositionAcceptedIffBase(originalName: Option<string>)
    ensures IsHeaderValue(ContentDisposition(DownloadName(originalName)))
            <==> IsHeaderValue(DownloadBase(originalName))
  {
    var base := DownloadBase(originalName);
    var name := DownloadName(originalName);
    assert name == base + DownloadSuffix;
    FixedTextIsHeaderValue();
    HeaderValueConcat(base, DownloadSuffix);
    HeaderValueConcat(DispositionPrefix, name);
    HeaderValueConcat(DispositionPrefix + name, "\"");
  }

  /**
   * A name outside Latin-1, such as one decoded from an RFC 5987
   * `filename*=UTF-8''...` parameter, makes the header throw; a plain ASCII
   * name does not.
   */
  lemma NonLatin1NameIsRefused()
    ensures !IsHeaderValue(ContentDisposition(DownloadName(Some("\U{6587}.pdf"))))
    ensures IsHeaderValue(ContentDisposition(DownloadName(Some("report.pdf"))))
  {
    var refused := Some("\U{6587}.pdf");
    assert DownloadBase(refused) == "\U{6587}" by {
      StripAppendedExtension("\U{6587}", ".pdf");
    }
    assert !IsHeaderChar(DownloadBase(refused)[0]);
    DispositionAcceptedIffBase(refused);
    var accepted := Some("report.pdf");
    assert DownloadBase(accepted) == "report" by {
      StripAppendedExtension("report", ".pdf");
    }
    DispositionAcceptedIffBase(accepted);
  }

  /** A request that passed the three validations. */
  predicate Validated(req: CompressRequest, probeFailure: Option<string>)
  {
    req.file.Some? && req.file.value.mimeType == PdfMimeType && probeFailure.None?
  }

  /** One compressor run: Ghostscript with the vector BuildArgs makes, then the output read back. */
  method CompressWithSetting(gs: Compressor, inputPath: string, outputPath: string, setting: string)
    returns (buffer: Bytes, argv: Argv)
    ensures ParseArgs(argv) == Some(Invocation(inputPath, outputPath, setting))
    ensures buffer == gs(argv)
  {
    argv := BuildArgs(inputPath, outputPath, setting);
    ParseBuildArgs(inputPath, outputPath, setting);
    buffer := gs(argv);
  }

  /** A single-attempt mode's run: one run with `setting` into the `-out.pdf` file, no note. */
  predicate SingleAttemptRun(gs: Compressor, path: string, setting: string,
                             body: Bytes, hasNote: bool, invocations: seq<Argv>)
  {
    && invocations == [BuildArgs(path, TempOutput(path), setting)]
    && body == gs(invocations[0])
    && !hasNote
  }

  /**
   * A `max-1mb` run: `/ebook` into the `-out.pdf` file; only when that is over
   * the target, `/screen` into the `-alt.pdf` file and the smaller result kept
   * (the ebook one on a tie); the note exactly when the retry still misses.
   */
  predicate Max1mbRun(gs: Compressor, path: string, body: Bytes, hasNote: bool, invocations: seq<Argv>)
  {
    && 1 <= |invocations| <= 2
    && invocations[0] == BuildArgs(path, TempOutput(path), Ebook)
    && var ebook := gs(invocations[0]);
    && (|ebook| <= MaxTargetBytes ==> |invocations| == 1 && body == ebook)
    && (|ebook| > MaxTargetBytes ==>
          && |invocations| == 2
          && invocations[1] == BuildArgs(path, AltOutput(path), Screen)
          && var screen := gs(invocations[1]);
          && (body == ebook || body == screen)
          && |body| == Min(|ebook|, |screen|)
          && (|screen| >= |ebook| ==> body == ebook))
    && (hasNote <==> |invocations| == 2 && |body| > MaxTargetBytes)
  }

  /**
   * In the `max-1mb` mode the note is set exactly when the response is over
   * the target, and the response is never larger than the `/ebook` result.
   */
  lemma Max1mbNoteIffOverTarget(gs: Compressor, path: string, body: Bytes, hasNote: bool, invocations: seq<Argv>)
    requires Max1mbRun(gs, path, body, hasNote, invocations)
    ensures hasNote <==> |body| > MaxTargetBytes
    ensures |body| <= |gs(invocations[0])|
  {
  }

  /** The compressor runs of a request that passed validation, for its mode. */
  method CompressForMode(gs: Compressor, path: string, mode: string)
    returns (finalBuffer: Bytes, note: bool, invocations: seq<Argv>)
    ensures 1 <= |invocations| <= 2
    ensures mode != Max1mbMode ==> SingleAttemptRun(gs, path, SettingFor(mode), finalBuffer, note, invocations)
    ensures mode == Max1mbMode ==> Max1mbRun(gs, path, finalBuffer, note, invocations)
  {
    var tmpOutput := TempOutput(path);
    var altOutput := AltOutput(path);
    var argv: Argv;
    invocations := [];
    note := false;

    if mode == Max1mbMode {
      var ebookBuffer;
      ebookBuffer, argv := CompressWithSetting(gs, path, tmpOutput, Ebook);
      BuildParsedArgs(argv);
      invocations := invocations + [argv];
      var compressedSize := |ebookBuffer|;
      finalBuffer := ebookBuffer;

      if compressedSize > MaxTargetBytes {
        var screenBuffer;
        screenBuffer, argv := CompressWithSetting(gs, path, altOutput, Screen);
        BuildParsedArgs(argv);
        invocations := invocations + [argv];
        var chosen := ChooseResult(ebookBuffer, screenBuffer);
        ChoiceIsSmaller(ebookBuffer, screenBuffer);
        finalBuffer := chosen;
        compressedSize := |chosen|;
        if compressedSize > MaxTargetBytes {
          note := true;
        }
      }
    } else {
      var setting := SettingFor(mode);
      finalBuffer, argv := CompressWithSetting(gs, path, tmpOutput, setting);
      BuildParsedArgs(argv);
      invocations := invocations + [argv];
    }
  }

  method HandleCompress(req: CompressRequest, probeFailure: Option<string>, gs: Compressor)
    returns (out: Outcome)
    // The three validations, in order; none of them compresses anything.
    ensures req.file.None? ==>
              out == Outcome(ErrorResponse(400, MissingFile, None), false, [], [])
    ensures req.file.Some? && req.file.value.mimeType != PdfMimeType ==>
              out == Outcome(ErrorResponse(400, InvalidFileType, None), false, [], [req.file.value.path])
    ensures req.file.Some? && req.file.value.mimeType == PdfMimeType && probeFailure.Some? ==>
              out == Outcome(ErrorResponse(500, ToolUnavailable, probeFailure), true, [], [req.file.value.path])
    // Past them, one or two compressor runs, then the response.
    ensures out.response.ErrorResponse? <==> !Validated(req, probeFailure)
    ensures out.invocations != [] <==> Validated(req, probeFailure)
    ensures |out.invocations| <= 2
    ensures Validated(req, probeFailure) ==>
              var path, r, mode := req.file.value.path, out.response, ResolveMode(req.modeField);
              && out.probed
              && (mode != Max1mbMode ==>
                    SingleAttemptRun(gs, path, SettingFor(mode), r.body, r.hasNote, out.invocations))
              && (mode == Max1mbMode ==> Max1mbRun(gs, path, r.body, r.hasNote, out.invocations))
    // The download name reaches a header: if Node refuses it, nothing is sent or removed.
    ensures Validated(req, probeFailure) ==>
              var file, r := req.file.value, out.response;
              if IsHeaderValue(ContentDisposition(DownloadName(file.originalName))) then
                && r.PdfResponse?
                && r.fileName == DownloadName(file.originalName)
                && r.originalSize == file.size
                && r.compressedSize == |r.body|
                && out.unlinked == CleanupList(file.path)
              else
                r.Aborted? && out.unlinked == []
  {
    if req.file.None? {
      return Outcome(ErrorResponse(400, MissingFile, None), false, [], []);
    }
    var file := req.file.value;
    if file.mimeType != PdfMimeType {
      return Outcome(ErrorResponse(400, InvalidFileType, None), false, [], [file.path]);
    }

    var mode := ResolveMode(req.modeField);

    if probeFailure.Some? {
      return Outcome(ErrorResponse(500, ToolUnavailable, probeFailure), true, [], [file.path]);
    }

    var finalBuffer, note, invocations := CompressForMode(gs, file.path, mode);
    var compressedSize := |finalBuffer|;
    var fileName := DownloadName(file.originalName);
    if !IsHeaderValue(ContentDisposition(fileName)) {
      // setHeader throws ERR_INVALID_CHAR: no response, and the clean-up is never reached.
      return Outcome(Aborted(finalBuffer, note), true, invocations, []);
    }
    var response := PdfResponse(finalBuffer, fileName, file.size, compressedSize, note);

    // Best-effort clean-up: one unlink per path, whose failure is ignored.
    var paths := CleanupList(file.path);
    var unlinked: seq<string> := [];
    for i := 0 to |paths|
      invariant unlinked == paths[..i]
    {
      unlinked := unlinked + [paths[i]];
    }
    out := Outcome(response, true, invocations, unlinked);
  }
}
