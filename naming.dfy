/**
 * The names one request works with: the two temporary output files derived
 * from the upload's path, the paths removed after a successful response, and
 * the file name the client is offered for the download.
 */
module Naming {

  import opened Wrappers

  const DownloadSuffix := "_compressed_by_myworkspace.pdf"
  const DefaultBaseName := "document"

  /** The output file of the first (or only) Ghostscript run. */
  function TempOutput(uploadPath: string): string
  {
    uploadPath + "-out.pdf"
  }

  /** The output file of the `/screen` retry in the `max-1mb` mode. */
  function AltOutput(uploadPath: string): string
  {
    uploadPath + "-alt.pdf"
  }

  /**
   * The two outputs never overwrite the upload or each other, and uploads
   * at different paths never share an output file.
   */
  lemma TempPathsDistinct(uploadPath: string, otherUpload: string)
    ensures TempOutput(uploadPath) != uploadPath && AltOutput(uploadPath) != uploadPath
    ensures TempOutput(uploadPath) != AltOutput(uploadPath)
    ensures TempOutput(uploadPath) == TempOutput(otherUpload) ==> uploadPath == otherUpload
    ensures AltOutput(uploadPath) == AltOutput(otherUpload) ==> uploadPath == otherUpload
  {
    assert TempOutput(uploadPath)[|uploadPath| + 1] == 'o';
    assert AltOutput(uploadPath)[|uploadPath| + 1] == 'a';
    if TempOutput(uploadPath) == TempOutput(otherUpload) {
      assert uploadPath == TempOutput(uploadPath)[..|uploadPath|];
      assert otherUpload == TempOutput(otherUpload)[..|otherUpload|];
    }
    if AltOutput(uploadPath) == AltOutput(otherUpload) {
      assert uploadPath == AltOutput(uploadPath)[..|uploadPath|];
      assert otherUpload == AltOutput(otherUpload)[..|otherUpload|];
    }
  }

  /** The files a successful request deletes: the upload and both outputs, each once. */
  function CleanupList(uploadPath: string): (paths: seq<string>)
    ensures |paths| == 3
    ensures uploadPath in paths && TempOutput(uploadPath) in paths && AltOutput(uploadPath) in paths
    ensures forall i, j :: 0 <= i < j < |paths| ==> paths[i] != paths[j]
  {
    TempPathsDistinct(uploadPath, uploadPath);
    [uploadPath, TempOutput(uploadPath), AltOutput(uploadPath)]
  }

  /** A four-character `.pdf` extension in any letter case. */
  predicate IsPdfExtension(ext: string)
  {
    |ext| == 4 && ext[0] == '.' && ext[1] in "pP" && ext[2] in "dD" && ext[3] in "fF"
  }

  predicate EndsInPdf(name: string)
  {
    |name| >= 4 && IsPdfExtension(name[|name| - 4..])
  }

  /** The name with one trailing `.pdf`, in any letter case, removed. */
  function StripPdfSuffix(name: string): (stem: string)
    ensures stem != name <==> EndsInPdf(name)
    ensures stem != name ==> |stem| == |name| - 4 && name == stem + name[|stem|..]
                              && IsPdfExtension(name[|stem|..])
  {
    if EndsInPdf(name) then name[..|name| - 4] else name
  }

  /** Appending a `.pdf` extension and stripping it again gives back the stem. */
  lemma StripAppendedExtension(stem: string, ext: string)
    requires IsPdfExtension(ext)
    ensures StripPdfSuffix(stem + ext) == stem
  {
    assert (stem + ext)[|stem + ext| - 4..] == ext;
    assert (stem + ext)[..|stem + ext| - 4] == stem;
  }

  /**
   * The base of the download name: the original name without its `.pdf`
   * extension, or `document` when there is no original name or nothing is
   * left of it.
   */
  function DownloadBase(originalName: Option<string>): (base: string)
    ensures base != ""
    ensures base == DefaultBaseName || (originalName.Some? && base == StripPdfSuffix(originalName.value))
    ensures originalName.Some? && StripPdfSuffix(originalName.value) != "" ==>
              base == StripPdfSuffix(originalName.value)
  {
    if originalName.None? || originalName.value == "" then DefaultBaseName
    else
      var stem := StripPdfSuffix(originalName.value);
      if stem == "" then DefaultBaseName else stem
  }

  /** The file name offered in the Content-Disposition header. */
  function DownloadName(originalName: Option<string>): (fileName: string)
    ensures |fileName| > |DownloadSuffix|
    ensures fileName[|fileName| - |DownloadSuffix|..] == DownloadSuffix
    ensures fileName[..|fileName| - |DownloadSuffix|] == DownloadBase(originalName)
    ensures EndsInPdf(fileName)
  {
    var base := DownloadBase(originalName);
    assert (base + DownloadSuffix)[..|base|] == base;
    base + DownloadSuffix
  }

  /**
   * A name made of a non-empty stem and a `.pdf` extension is offered as the
   * stem followed by the fixed suffix; a name that is only the extension, or
   * no name at all, is offered as `document` followed by it.
   */
  lemma DownloadNameOfPdf(stem: string, ext: string)
    requires IsPdfExtension(ext)
    ensures stem != "" ==> DownloadName(Some(stem + ext)) == stem + DownloadSuffix
    ensures stem == "" ==> DownloadName(Some(stem + ext)) == DefaultBaseName + DownloadSuffix
    ensures DownloadName(None) == DefaultBaseName + DownloadSuffix
  {
    StripAppendedExtension(stem, ext);
  }
}
