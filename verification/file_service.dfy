/** The pure part of the file service: the upload validator and the
    extension and content-type classifiers. */
module FileService {
  import opened Wrappers
  import opened Text
  import opened PathModel

  newtype byte = x: int | 0 <= x < 256

  /** An uploaded form file. `length` is the size the request reports; the
      bytes actually copied out are `content`. The two are separate because
      the service only ever consults `length` before copying. */
  datatype FormFile = FormFile(fileName: string, length: nat, content: seq<byte>)

  /** The default size ceiling of `IsValidFile`: 10 MiB. */
  const DefaultMaxSizeBytes: int := 10485760

  /** The extension of `fileName`, lower-cased. */
  function GetFileExtension(fileName: string): (ext: string)
    ensures IsLowerCase(ext)
    ensures ext == "" || (ext[0] == '.' && |ext| >= 2)
    ensures ext == "" <==> GetExtension(fileName) == ""
    ensures |ext| == |GetExtension(fileName)| && EndsWith(ToLowerInvariant(fileName), ext)
  {
    var e := GetExtension(fileName);
    LowerSuffix(fileName, |fileName| - |e|);
    ToLowerInvariant(e)
  }

  /** `IsValidFile`: null or empty files fail, then files longer than the
      ceiling, then (when an allow-list is given and non-empty) files whose
      lower-cased extension is not literally one of its entries. */
  function IsValidFile(file: Option<FormFile>, allowedExtensions: Option<seq<string>>, maxSizeBytes: int): (ok: bool)
    ensures file.None? ==> !ok
    ensures file.Some? && file.value.length == 0 ==> !ok
    ensures file.Some? && file.value.length > maxSizeBytes ==> !ok
    ensures ok ==> file.Some? && 0 < file.value.length <= maxSizeBytes
    ensures ok && allowedExtensions.Some? && |allowedExtensions.value| > 0 ==>
      GetFileExtension(file.value.fileName) in allowedExtensions.value
    ensures (file.Some? && 0 < file.value.length <= maxSizeBytes
             && (allowedExtensions.None? || |allowedExtensions.value| == 0)) ==> ok
  {
    if file.None? || file.value.length == 0 then false
    else if file.value.length > maxSizeBytes then false
    else if allowedExtensions.Some? && |allowedExtensions.value| > 0 then
      var fileExtension := ToLowerInvariant(GetExtension(file.value.fileName));
      fileExtension in allowedExtensions.value
    else true
  }

  /** Once a non-empty file is under the ceiling, membership of its
      lower-cased extension in a non-empty allow-list decides validity. */
  lemma AllowListDecides(file: FormFile, allowed: seq<string>, maxSizeBytes: int)
    requires 0 < file.length <= maxSizeBytes && |allowed| > 0
    ensures IsValidFile(Some(file), Some(allowed), maxSizeBytes) <==> GetFileExtension(file.fileName) in allowed
  {
  }

  /** Allow-list entries are compared as given: an entry containing an
      upper-case letter can never match, so a list of only such entries
      rejects every file. */
  lemma UnnormalisedEntriesNeverMatch(file: Option<FormFile>, allowed: seq<string>, maxSizeBytes: int)
    requires |allowed| > 0
    requires forall j :: 0 <= j < |allowed| ==> !IsLowerCase(allowed[j])
    ensures !IsValidFile(file, Some(allowed), maxSizeBytes)
  {
  }

  /** The size check is strict: a file exactly at the default ceiling
      passes, one byte over fails, and so does a 20 MB file. */
  lemma DefaultCeilingBoundary(name: string)
    ensures IsValidFile(Some(FormFile(name, 10485760, [])), None, DefaultMaxSizeBytes)
    ensures !IsValidFile(Some(FormFile(name, 10485761, [])), None, DefaultMaxSizeBytes)
    ensures !IsValidFile(Some(FormFile(name, 20000000, [])), None, DefaultMaxSizeBytes)
  {
  }

  /** The MIME types the service recognises, keyed by lower-case extension. */
  const ContentTypes: map<string, string> := map[
    ".pdf" := "application/pdf",
    ".doc" := "application/msword",
    ".docx" := "application/vnd.openxmlformats-officedocument.wordprocessingml.document",
    ".xls" := "application/vnd.ms-excel",
    ".xlsx" := "application/vnd.openxmlformats-officedocument.spreadsheetml.sheet",
    ".ppt" := "application/vnd.ms-powerpoint",
    ".pptx" := "application/vnd.openxmlformats-officedocument.presentationml.presentation",
    ".txt" := "text/plain",
    ".csv" := "text/csv",
    ".json" := "application/json",
    ".xml" := "application/xml",
    ".zip" := "application/zip",
    ".rar" := "application/x-rar-compressed",
    ".7z" := "application/x-7z-compressed",
    ".jpg" := "image/jpeg",
    ".jpeg" := "image/jpeg",
    ".png" := "image/png",
    ".gif" := "image/gif",
    ".bmp" := "image/bmp",
    ".svg" := "image/svg+xml",
    ".webp" := "image/webp",
    ".mp3" := "audio/mpeg",
    ".wav" := "audio/wav",
    ".mp4" := "video/mp4",
    ".avi" := "video/x-msvideo",
    ".mov" := "video/quicktime"
  ]

  const OctetStream: string := "application/octet-stream"

  /** `GetContentType`: the table entry for the lower-cased extension, the
      generic binary type for anything else (including no extension). */
  function GetContentType(fileName: string): (contentType: string)
    ensures GetFileExtension(fileName) in ContentTypes ==> contentType == ContentTypes[GetFileExtension(fileName)]
    ensures GetFileExtension(fileName) !in ContentTypes ==> contentType == OctetStream
    ensures GetExtension(fileName) == "" ==> contentType == OctetStream
  {
    var extension := GetFileExtension(fileName);
    if extension in ContentTypes then ContentTypes[extension] else OctetStream
  }

  /** Separators and dots are not letters, so lower-casing a name moves no
      stop character: the extension of the lower-cased name is the
      lower-cased extension. */
  lemma {:induction false} ExtensionOfLowered(name: string)
    ensures GetExtension(ToLowerInvariant(name)) == ToLowerInvariant(GetExtension(name))
  {
    var lowered := ToLowerInvariant(name);
    forall k | 0 <= k < |name|
      ensures IsStop(lowered[k]) <==> IsStop(name[k])
    {
    }
    var e := GetExtension(name);
    if e == "" {
      forall i | 0 <= i < |lowered|
        ensures !ExtensionAt(lowered, i)
      {
        if ExtensionAt(lowered, i) {
          assert ExtensionAt(name, i);
          HasExtensionIff(name);
          assert false;
        }
      }
      HasExtensionIff(lowered);
    } else {
      var i := |name| - |e|;
      assert ExtensionAt(name, i);
      assert ExtensionAt(lowered, i);
      LowerSuffix(name, i);
    }
  }

  /** Names equal up to case have the same extension. */
  lemma FileExtensionCaseInsensitive(a: string, b: string)
    requires ToLowerInvariant(a) == ToLowerInvariant(b)
    ensures GetFileExtension(a) == GetFileExtension(b)
  {
    ExtensionOfLowered(a);
    ExtensionOfLowered(b);
  }

  /** The content type depends on the name only through its extension, and
      so is insensitive to case. */
  lemma ContentTypeByExtension(a: string, b: string)
    requires GetFileExtension(a) == GetFileExtension(b) || ToLowerInvariant(a) == ToLowerInvariant(b)
    ensures GetContentType(a) == GetContentType(b)
  {
    if ToLowerInvariant(a) == ToLowerInvariant(b) {
      FileExtensionCaseInsensitive(a, b);
    }
  }

  /** A lower-case '.'-led suffix with no further '.' or separator: the
      shape of everything `GetFileExtension` can return apart from "". */
  predicate IsExtensionText(e: string) {
    && |e| >= 2 && e[0] == '.' && IsLowerCase(e)
    && forall k :: 0 < k < |e| ==> !IsStop(e[k])
  }

  /** A '.'-led suffix with no further '.' or separator is the raw extension
      of any name it ends, whatever dots or directories come before it. */
  lemma {:induction false} ExtensionOfSuffix(stem: string, ext: string)
    requires |ext| >= 2 && ext[0] == '.'
    requires forall k :: 0 < k < |ext| ==> !IsStop(ext[k])
    ensures GetExtension(stem + ext) == ext
  {
    var name := stem + ext;
    assert ExtensionAt(name, |stem|) by {
      forall k | |stem| < k < |name|
        ensures !IsStop(name[k])
      {
        assert name[k] == ext[k - |stem|];
      }
    }
    assert name[|stem|..] == ext;
  }

  predicate IsLowerAlnum(c: char) {
    'a' <= c <= 'z' || '0' <= c <= '9'
  }

  /** A '.' followed by lower-case letters and digits is an extension text. */
  lemma AlnumIsExtension(e: string)
    requires |e| >= 2 && e[0] == '.' && forall k :: 0 < k < |e| ==> IsLowerAlnum(e[k])
    ensures IsExtensionText(e)
  {
  }

  /** Every key of the table is a '.' followed by lower-case letters and digits. */
  lemma TableKeysAreExtensions()
    ensures forall e :: e in ContentTypes ==> IsExtensionText(e)
  {
    AlnumIsExtension(".pdf");
    AlnumIsExtension(".doc");
    AlnumIsExtension(".docx");
    AlnumIsExtension(".xls");
    AlnumIsExtension(".xlsx");
    AlnumIsExtension(".ppt");
    AlnumIsExtension(".pptx");
    AlnumIsExtension(".txt");
    AlnumIsExtension(".csv");
    AlnumIsExtension(".json");
    AlnumIsExtension(".xml");
    AlnumIsExtension(".zip");
    AlnumIsExtension(".rar");
    AlnumIsExtension(".7z");
    AlnumIsExtension(".jpg");
    AlnumIsExtension(".jpeg");
    AlnumIsExtension(".png");
    AlnumIsExtension(".gif");
    AlnumIsExtension(".bmp");
    AlnumIsExtension(".svg");
    AlnumIsExtension(".webp");
    AlnumIsExtension(".mp3");
    AlnumIsExtension(".wav");
    AlnumIsExtension(".mp4");
    AlnumIsExtension(".avi");
    AlnumIsExtension(".mov");
  }

  /** Every table entry is reachable: a name ending in one of the listed
      extensions is classified by that entry, whatever dots or directories
      come before it. */
  lemma {:induction false} EveryTableEntryReachable(stem: string, ext: string)
    requires ext in ContentTypes
    ensures GetFileExtension(stem + ext) == ext
    ensures GetContentType(stem + ext) == ContentTypes[ext]
  {
    TableKeysAreExtensions();
    ExtensionOfSuffix(stem, ext);
    LowerOfLowerCase(ext);
  }

  /** Upper-case extensions are folded: "test.TXT" has extension ".txt". */
  lemma FileExtensionExample()
    ensures GetFileExtension("test.TXT") == ".txt"
  {
    ExtensionOfSuffix("test", ".TXT");
    assert "test" + ".TXT" == "test.TXT";
    var lowered := ToLowerInvariant(".TXT");
    assert lowered[1] == 't' && lowered[2] == 'x' && lowered[3] == 't';
    assert lowered == ".txt";
  }

  /** A name whose file extension is a table key gets that key's entry. */
  lemma ClassifiedByEntry(name: string, ext: string, contentType: string)
    requires GetFileExtension(name) == ext
    requires ext in ContentTypes && ContentTypes[ext] == contentType
    ensures GetContentType(name) == contentType
  {
  }

  lemma PdfExtension()
    ensures GetFileExtension("report.PDF") == ".pdf"
  {
    ExtensionOfSuffix("report", ".PDF");
    assert "report" + ".PDF" == "report.PDF";
    var lowered := ToLowerInvariant(".PDF");
    assert lowered[1] == 'p' && lowered[2] == 'd' && lowered[3] == 'f';
    assert lowered == ".pdf";
  }

  lemma PdfEntry()
    ensures ".pdf" in ContentTypes && ContentTypes[".pdf"] == "application/pdf"
  {
  }

  /** "report.PDF" is classified as PDF despite the upper-case extension. */
  lemma ContentTypeUpperCaseExample()
    ensures GetContentType("report.PDF") == "application/pdf"
  {
    PdfExtension();
    PdfEntry();
    ClassifiedByEntry("report.PDF", ".pdf", "application/pdf");
  }

  lemma JpgEntry()
    ensures ".jpg" in ContentTypes && ContentTypes[".jpg"] == "image/jpeg"
  {
  }

  lemma JpegEntry()
    ensures ".jpeg" in ContentTypes && ContentTypes[".jpeg"] == "image/jpeg"
  {
  }

  /** ".jpg" is image/jpeg. */
  lemma ContentTypeJpgExample()
    ensures GetContentType("photo.jpg") == "image/jpeg"
  {
    JpgEntry();
    EveryTableEntryReachable("photo", ".jpg");
    assert "photo" + ".jpg" == "photo.jpg";
  }

  lemma JpegExtension()
    ensures GetFileExtension("photo.JPEG") == ".jpeg"
  {
    ExtensionOfSuffix("photo", ".JPEG");
    assert "photo" + ".JPEG" == "photo.JPEG";
    var lowered := ToLowerInvariant(".JPEG");
    assert lowered[1] == 'j' && lowered[2] == 'p' && lowered[3] == 'e' && lowered[4] == 'g';
    assert lowered == ".jpeg";
  }

  /** ".JPEG", the second spelling in upper case, is image/jpeg too. */
  lemma ContentTypeJpegExample()
    ensures GetContentType("photo.JPEG") == "image/jpeg"
  {
    JpegExtension();
    JpegEntry();
    ClassifiedByEntry("photo.JPEG", ".jpeg", "image/jpeg");
  }

  lemma UnknownExtension()
    ensures GetFileExtension("test.unknown") == ".unknown"
  {
    ExtensionOfSuffix("test", ".unknown");
    assert "test" + ".unknown" == "test.unknown";
    LowerOfLowerCase(".unknown");
  }

  lemma UnknownNotListed()
    ensures ".unknown" !in ContentTypes
  {
  }

  /** An unknown extension falls back to octet-stream. */
  lemma ContentTypeUnknownExample()
    ensures GetContentType("test.unknown") == OctetStream
  {
    UnknownExtension();
    UnknownNotListed();
  }

  lemma TxtEntry()
    ensures ".txt" in ContentTypes && ContentTypes[".txt"] == "text/plain"
  {
  }

  /** A plain-text name is classified by its table entry. */
  lemma ContentTypeTextExample()
    ensures GetContentType("test.txt") == "text/plain"
  {
    TxtEntry();
    EveryTableEntryReachable("test", ".txt");
    assert "test" + ".txt" == "test.txt";
  }

  /** A PDF name is classified by its table entry. */
  lemma ContentTypePdfExample()
    ensures GetContentType("test.pdf") == "application/pdf"
  {
    PdfEntry();
    EveryTableEntryReachable("test", ".pdf");
    assert "test" + ".pdf" == "test.pdf";
  }

  /** A name without extension falls back to octet-stream. */
  lemma ContentTypeNoExtensionExample()
    ensures GetContentType("README") == OctetStream
  {
    assert forall k :: 0 <= k < |"README"| ==> !IsStop("README"[k]);
  }
}
