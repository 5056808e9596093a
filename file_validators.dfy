/**
  The checks an uploaded policy file goes through before it is read: its size, its extension and
  its MIME type, against the upload constraints (at most 10 MiB; `.txt`, `.md`, `.pdf`, `.docx`;
  the four matching MIME types).
*/
module FileValidators {
  import opened Wrappers
  import opened Text

  /** `FILE_CONSTRAINTS.MAX_SIZE`: 10 MiB. */
  const MaxSize: int := 10 * 1024 * 1024

  /** `FILE_CONSTRAINTS.ALLOWED_EXTENSIONS`. */
  const AllowedExtensions: seq<string> := [".txt", ".md", ".pdf", ".docx"]

  /** `FILE_CONSTRAINTS.ALLOWED_MIME_TYPES`, in the order of the extensions they belong to. */
  const AllowedMimeTypes: seq<string> := [
    "text/plain",
    "text/markdown",
    "application/pdf",
    "application/vnd.openxmlformats-officedocument.wordprocessingml.document"]

  /** The MIME type a file whose extension is not in the table gets. */
  const OctetStream: string := "application/octet-stream"

  /** The parts of a browser `File` the checks read; `size` is in bytes. */
  datatype FileInfo = FileInfo(name: string, size: int, mimeType: string)

  /** `ValidationResult`. */
  datatype ValidationResult = ValidationResult(valid: bool, error: Option<string>)

  /**
    `getFileExtension`: empty when the name has no dot; otherwise the suffix from the last dot
    on, lower-cased, so that it holds no other dot.
  */
  function FileExtension(filename: string): (r: string)
    ensures r == [] <==> '.' !in filename
    ensures r != [] ==> && |r| <= |filename|
                        && r == ToLower(filename[|filename| - |r|..])
                        && r[0] == '.'
                        && '.' !in r[1..]
  {
    var lastDot := LastIndexOf(filename, '.');
    if lastDot == -1 then []
    else
      var r := ToLower(filename[lastDot..]);
      assert forall i :: 1 <= i < |r| ==> r[i] != '.' by {
        forall i | 1 <= i < |r| ensures r[i] != '.' {
          assert filename[lastDot + i] != '.';
        }
      }
      r
  }

  /** "A.tar.GZ" has the extension ".gz"; "notes" has none. */
  lemma FileExtensionExamples()
    ensures FileExtension("A.tar.GZ") == ".gz"
    ensures FileExtension("notes") == ""
  {
    LastDotAt("A.tar.GZ", 5);
    assert "A.tar.GZ"[5..] == ".GZ";
    assert LastIndexOf("notes", '.') == -1;
  }

  /** A dot with no dot after it is the last one. */
  lemma LastDotAt(s: string, i: nat)
    requires i < |s| && s[i] == '.' && forall j :: i < j < |s| ==> s[j] != '.'
    ensures LastIndexOf(s, '.') == i
  {
  }

  /** `isAllowedExtension`. */
  predicate IsAllowedExtension(filename: string) {
    FileExtension(filename) in AllowedExtensions
  }

  /** `ToLower` maps a character to a dot exactly when it is one. */
  lemma LowerDot(s: string)
    ensures forall i :: 0 <= i < |s| ==> (ToLower(s)[i] == '.' <==> s[i] == '.')
  {
  }

  /** Lower-casing an already lower-cased text changes nothing. */
  lemma ToLowerIdempotent(s: string)
    ensures ToLower(ToLower(s)) == ToLower(s)
  {
  }

  /** The extension does not depend on the letter case of the name. */
  lemma FileExtensionCaseInsensitive(filename: string)
    ensures FileExtension(ToLower(filename)) == FileExtension(filename)
  {
    var low := ToLower(filename);
    LowerDot(filename);
    var d := LastIndexOf(filename, '.');
    var e := LastIndexOf(low, '.');
    assert d == e;
    if d != -1 {
      assert low[d..] == ToLower(filename[d..]);
      ToLowerIdempotent(filename[d..]);
    }
  }

  /** The extension check ignores letter case: "REPORT.DOCX" passes and "notes" does not. */
  lemma AllowedExtensionExamples()
    ensures IsAllowedExtension("REPORT.DOCX")
    ensures !IsAllowedExtension("notes")
  {
    LastDotAt("REPORT.DOCX", 6);
    assert "REPORT.DOCX"[6..] == ".DOCX";
    var t := ToLower(".DOCX");
    assert t[0] == '.' && t[1] == 'd' && t[2] == 'o' && t[3] == 'c' && t[4] == 'x';
    assert t == ".docx";
    FileExtensionExamples();
  }

  /** `isSupportedMimeType`. */
  predicate IsSupportedMimeType(mimeType: string) {
    mimeType in AllowedMimeTypes
  }

  /** `isFileSizeValid`: more than nothing and at most 10 MiB. */
  predicate IsFileSizeValid(size: int) {
    size > 0 && size <= MaxSize
  }

  /**
    `getMimeTypeFromExtension`: the MIME type that goes with an allowed extension, and
    "application/octet-stream" for every other name, so the fallback is supported exactly when the
    extension is allowed.
  */
  function MimeTypeFromExtension(filename: string): (r: string)
    ensures forall i :: 0 <= i < |AllowedExtensions| && FileExtension(filename) == AllowedExtensions[i] ==>
      r == AllowedMimeTypes[i]
    ensures !IsAllowedExtension(filename) ==> r == OctetStream
    ensures IsSupportedMimeType(r) <==> IsAllowedExtension(filename)
  {
    var ext := FileExtension(filename);
    if ext == ".txt" then "text/plain"
    else if ext == ".md" then "text/markdown"
    else if ext == ".pdf" then "application/pdf"
    else if ext == ".docx" then "application/vnd.openxmlformats-officedocument.wordprocessingml.document"
    else OctetStream
  }

  /** `file.type || getMimeTypeFromExtension(file.name)`: an empty type falls back on the name. */
  function EffectiveMimeType(file: FileInfo): string {
    if file.mimeType != [] then file.mimeType else MimeTypeFromExtension(file.name)
  }

  const EmptyError: string := "File is empty"

  const SizeError: string := "File size exceeds maximum limit of " + NatToString(MaxSize / (1024 * 1024)) + "MB"

  const ExtensionError: string := "Invalid file type. Allowed types: " + Join(AllowedExtensions, ", ")

  function MimeError(mimeType: string): string {
    "Unsupported file type: " + mimeType
  }

  /**
    `validateFile`: the size first, then the extension, then the MIME type. The file is valid
    exactly when all three pass, and then no error is given; otherwise the error is the one of the
    first check that fails, so an empty file is reported as such whatever its name and type.
  */
  function ValidateFile(file: FileInfo): (r: ValidationResult)
    ensures r.valid <==> && IsFileSizeValid(file.size)
                         && IsAllowedExtension(file.name)
                         && IsSupportedMimeType(EffectiveMimeType(file))
    ensures r.valid <==> r.error.None?
    ensures file.size == 0 ==> r.error == Some(EmptyError)
    ensures file.size != 0 && !IsFileSizeValid(file.size) ==> r.error == Some(SizeError)
    ensures IsFileSizeValid(file.size) && !IsAllowedExtension(file.name) ==> r.error == Some(ExtensionError)
    ensures IsFileSizeValid(file.size) && IsAllowedExtension(file.name) && !IsSupportedMimeType(EffectiveMimeType(file)) ==>
      r.error == Some(MimeError(EffectiveMimeType(file)))
  {
    if !IsFileSizeValid(file.size) then
      if file.size == 0 then ValidationResult(false, Some(EmptyError))
      else ValidationResult(false, Some(SizeError))
    else if !IsAllowedExtension(file.name) then
      ValidationResult(false, Some(ExtensionError))
    else
      var mimeType := EffectiveMimeType(file);
      if !IsSupportedMimeType(mimeType) then ValidationResult(false, Some(MimeError(mimeType)))
      else ValidationResult(true, None)
  }

  /** A file of valid size with an allowed extension and no MIME type of its own is accepted. */
  lemma UntypedFileAccepted(file: FileInfo)
    requires IsFileSizeValid(file.size) && IsAllowedExtension(file.name) && file.mimeType == []
    ensures ValidateFile(file).valid
  {
  }

  /** The size message names the limit in MiB: "File size exceeds maximum limit of 10MB". */
  lemma SizeErrorText()
    ensures SizeError == "File size exceeds maximum limit of 10MB"
  {
    assert MaxSize / (1024 * 1024) == 10;
    assert NatToString(10) == "10";
  }
}
