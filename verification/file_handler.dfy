/** utils/file_handler.py: the upload validators and `get_file_info`, with
    `os.path.splitext` modelled on POSIX paths.  The upload limits of
    backend/config.py are a parameter (UploadConfig); DefaultConfig holds
    the values the configuration falls back to. */
module FileHandler {
  import opened Basics
  import opened PythonStr

  // ---------------------------------------------------------------------
  // os.path.splitext

  /** Whether some character of p[lo..hi] is not a dot: the loop in
      `genericpath._splitext` that skips the leading dots of a name. */
  function HasNonDot(p: string, lo: nat, hi: nat): (b: bool)
    requires hi <= |p|
    ensures b <==> exists k :: lo <= k < hi && p[k] != '.'
    decreases hi - lo
  {
    if lo >= hi then false
    else if p[lo] != '.' then true
    else HasNonDot(p, lo + 1, hi)
  }

  /** `os.path.splitext(p)`: split at the last dot when it lies in the
      final path component and is preceded there by a non-dot
      character; otherwise the extension is empty. */
  function SplitExt(p: string): (r: (string, string))
    ensures r.0 + r.1 == p
    ensures r.1 == "" || r.1[0] == '.'
  {
    var sepIndex := RFind(p, '/');
    var dotIndex := RFind(p, '.');
    if dotIndex > sepIndex && HasNonDot(p, sepIndex + 1, dotIndex) then
      assert p[..dotIndex] + p[dotIndex..] == p;
      (p[..dotIndex], p[dotIndex..])
    else (p, "")
  }

  /** An independent description of a splitext extension: p[d..] starts
      with a dot, holds no further dot and no '/', and the final path
      component has a non-dot character before position d. */
  ghost predicate ExtensionAt(p: string, d: int)
  {
    && 0 <= d < |p| && p[d] == '.'
    && (forall j :: d < j < |p| ==> p[j] != '.' && p[j] != '/')
    && exists k :: 0 <= k < d && p[k] != '.' && p[k] != '/' && NoSlashBetween(p, k, d)
  }

  predicate NoSlashBetween(p: string, k: int, d: int)
    requires 0 <= k <= d <= |p|
  {
    forall j :: k < j < d ==> p[j] != '/'
  }

  /** splitext finds an extension exactly when one is described by
      ExtensionAt, and then splits exactly there. */
  lemma SplitExtSpec(p: string)
    ensures SplitExt(p).1 != "" <==> exists d :: ExtensionAt(p, d)
    ensures forall d :: ExtensionAt(p, d) ==> SplitExt(p) == (p[..d], p[d..])
  {
    var s := RFind(p, '/');
    var t := RFind(p, '.');
    forall d | ExtensionAt(p, d)
      ensures t == d && s < d && HasNonDot(p, s + 1, d)
    {
      var k :| 0 <= k < d && p[k] != '.' && p[k] != '/' && NoSlashBetween(p, k, d);
      assert s < k;
    }
    if SplitExt(p).1 != "" {
      var k :| s + 1 <= k < t && p[k] != '.';
      assert NoSlashBetween(p, k, t);
      assert ExtensionAt(p, t);
    }
  }

  lemma SplitExtKeepsCase()
    ensures SplitExt("resume.PDF") == ("resume", ".PDF")
  {
    SplitExtSpec("resume.PDF");
    assert ExtensionAt("resume.PDF", 6) by {
      assert "resume.PDF"[0] != '.';
      assert NoSlashBetween("resume.PDF", 0, 6);
    }
    assert "resume.PDF"[..6] == "resume" && "resume.PDF"[6..] == ".PDF";
  }

  /** Only the last dot splits. */
  lemma SplitExtLastDot()
    ensures SplitExt("archive.tar.gz") == ("archive.tar", ".gz")
  {
    SplitExtSpec("archive.tar.gz");
    assert ExtensionAt("archive.tar.gz", 11) by {
      assert "archive.tar.gz"[0] != '.';
      assert NoSlashBetween("archive.tar.gz", 0, 11);
    }
    assert "archive.tar.gz"[..11] == "archive.tar" && "archive.tar.gz"[11..] == ".gz";
  }

  /** Leading dots of a name never start an extension. */
  lemma SplitExtLeadingDot()
    ensures SplitExt(".bashrc") == (".bashrc", "")
  {
    SplitExtSpec(".bashrc");
    forall d ensures !ExtensionAt(".bashrc", d) {
      if 0 <= d < 7 && ".bashrc"[d] == '.' {
        assert d == 0;
      }
    }
  }

  lemma SplitExtLeadingDots()
    ensures SplitExt("..docx") == ("..docx", "")
  {
    SplitExtSpec("..docx");
    forall d ensures !ExtensionAt("..docx", d) {
      if 0 <= d < 6 && "..docx"[d] == '.' {
        assert d <= 1;
      }
    }
  }

  /** A dot in a directory name is not an extension. */
  lemma SplitExtDirectoryDot()
    ensures SplitExt("dir.d/notes") == ("dir.d/notes", "")
  {
    SplitExtSpec("dir.d/notes");
    forall d ensures !ExtensionAt("dir.d/notes", d) {
      NotExtensionInDirectory(d);
    }
  }

  lemma NotExtensionInDirectory(d: int)
    ensures !ExtensionAt("dir.d/notes", d)
  {
    var p := "dir.d/notes";
    if 0 <= d < |p| && p[d] == '.' {
      assert d == 3;
      assert p[5] == '/';
    }
  }

  // ---------------------------------------------------------------------
  // Upload configuration and validate_file

  /** The limit is an `int`: `int(os.getenv(...))` may be negative, and
      then every file, the empty one included, is refused as too large. */
  datatype UploadConfig = UploadConfig(maxFileSize: int, allowedExtensions: set<string>)

  /** `MAX_FILE_SIZE` (10 MiB unless the environment says otherwise) and
      `ALLOWED_EXTENSIONS`. */
  const DefaultConfig := UploadConfig(10 * 1024 * 1024, {".pdf", ".docx"})

  /** Why `validate_file` refused a file. */
  datatype FileError =
    | TypeNotAllowed(extension: string)
    | TooLarge(size: nat)
    | EmptyFile

  datatype Verdict<E> = Valid | Invalid(error: E)

  /** The lower-cased splitext extension that both the validator and
      `get_file_info` compare. */
  function ExtensionOf(filename: string): (ext: string)
    ensures ext == "" || ext[0] == '.'
    ensures |ext| <= |filename|
  {
    Lower(SplitExt(filename).1)
  }

  /** `validate_file`: extension first, then the upper size bound, then
      emptiness. */
  function ValidateFile(filename: string, content: seq<bv8>, cfg: UploadConfig): (v: Verdict<FileError>)
    ensures v == Invalid(TypeNotAllowed(ExtensionOf(filename)))
            <==> ExtensionOf(filename) !in cfg.allowedExtensions
    ensures v == Invalid(TooLarge(|content|))
            <==> ExtensionOf(filename) in cfg.allowedExtensions && |content| > cfg.maxFileSize
    ensures v == Invalid(EmptyFile)
            <==> ExtensionOf(filename) in cfg.allowedExtensions && |content| == 0 <= cfg.maxFileSize
    ensures v == Valid
            <==> ExtensionOf(filename) in cfg.allowedExtensions && 0 < |content| <= cfg.maxFileSize
  {
    var fileExt := ExtensionOf(filename);
    if fileExt !in cfg.allowedExtensions then Invalid(TypeNotAllowed(fileExt))
    else
      var fileSize := |content|;
      if fileSize > cfg.maxFileSize then Invalid(TooLarge(fileSize))
      else if fileSize == 0 then Invalid(EmptyFile)
      else Valid
  }

  /** An extension outside the allowed set is refused whatever the
      content, so the type check takes precedence over both size checks. */
  lemma TypeCheckFirst(filename: string, c1: seq<bv8>, c2: seq<bv8>, cfg: UploadConfig)
    requires ValidateFile(filename, c1, cfg).Invalid? && ValidateFile(filename, c1, cfg).error.TypeNotAllowed?
    ensures ValidateFile(filename, c2, cfg) == ValidateFile(filename, c1, cfg)
  {
  }

  // ---------------------------------------------------------------------
  // validate_job_description

  datatype DescriptionError = EmptyDescription | TooShort | TooLong
  {
    function Message(): string
    {
      match this
      case EmptyDescription => "Job description cannot be empty"
      case TooShort => "Job description too short (minimum 50 characters)"
      case TooLong => "Job description too long (maximum 100,000 characters)"
    }
  }

  const MinDescriptionLength := 50
  const MaxDescriptionLength := 100000

  /** `validate_job_description`: blankness first, then the length
      bounds, measured on the text as given (not stripped). */
  function ValidateJobDescription(text: string): (v: Verdict<DescriptionError>)
    ensures v == Invalid(EmptyDescription) <==> IsBlank(text)
    ensures v == Invalid(TooShort) <==> !IsBlank(text) && |text| < MinDescriptionLength
    ensures v == Invalid(TooLong) <==> !IsBlank(text) && |text| > MaxDescriptionLength
    ensures v == Valid <==> !IsBlank(text) && MinDescriptionLength <= |text| <= MaxDescriptionLength
  {
    if text == "" || Strip(text) == "" then Invalid(EmptyDescription)
    else if |text| < MinDescriptionLength then Invalid(TooShort)
    else if |text| > MaxDescriptionLength then Invalid(TooLong)
    else Valid
  }

  /** Surrounding whitespace counts towards the minimum length: a short
      description padded with spaces passes. */
  lemma PaddingCountsTowardsLength(word: string, pad: nat)
    requires !IsBlank(word) && |word| + pad >= MinDescriptionLength && |word| + pad <= MaxDescriptionLength
    ensures ValidateJobDescription(word + seq(pad, _ => ' ')) == Valid
  {
    var text := word + seq(pad, _ => ' ');
    var i :| 0 <= i < |word| && !IsSpace(word[i]);
    assert text[i] == word[i];
  }

  // ---------------------------------------------------------------------
  // get_file_info

  datatype FileInfo = FileInfo(filename: string, name: string, extension: string, isPdf: bool, isDocx: bool)

  /** `get_file_info`. */
  function GetFileInfo(filename: string): (info: FileInfo)
    ensures info.filename == filename
    ensures info.name + SplitExt(filename).1 == filename
    ensures info.extension == ExtensionOf(filename)
    ensures info.isPdf <==> info.extension == ".pdf"
    ensures info.isDocx <==> info.extension == ".docx"
    ensures !(info.isPdf && info.isDocx)
  {
    var (name, ext) := SplitExt(filename);
    var lowered := Lower(ext);
    FileInfo(filename, name, lowered, lowered == ".pdf", lowered == ".docx")
  }

  /** Under the default configuration, `validate_file` accepts the type
      of exactly the files `get_file_info` flags as PDF or DOCX. */
  lemma ValidateAgreesWithFileInfo(filename: string, content: seq<bv8>)
    ensures ValidateFile(filename, content, DefaultConfig) != Invalid(TypeNotAllowed(ExtensionOf(filename)))
            <==> GetFileInfo(filename).isPdf || GetFileInfo(filename).isDocx
  {
  }

  lemma SplitExtJaneDoe()
    ensures SplitExt("Jane.Doe.DOCX") == ("Jane.Doe", ".DOCX")
  {
    SplitExtSpec("Jane.Doe.DOCX");
    assert ExtensionAt("Jane.Doe.DOCX", 8) by {
      assert "Jane.Doe.DOCX"[0] != '.';
      assert NoSlashBetween("Jane.Doe.DOCX", 0, 8);
    }
    assert "Jane.Doe.DOCX"[..8] == "Jane.Doe" && "Jane.Doe.DOCX"[8..] == ".DOCX";
  }

  lemma LowerDocx()
    ensures Lower(".DOCX") == ".docx"
  {
  }

  /** Only the last dot splits, and the flags compare the lower-cased
      extension. */
  lemma GetFileInfoExample()
    ensures GetFileInfo("Jane.Doe.DOCX") == FileInfo("Jane.Doe.DOCX", "Jane.Doe", ".docx", false, true)
  {
    SplitExtJaneDoe();
    LowerDocx();
  }
}
