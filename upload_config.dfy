/**
 * The multer upload configurations: MIME-type filters, size limits and the
 * file names given to stored uploads, with Node's `path.extname` (POSIX).
 */
module UploadConfig {
  import opened Common

  const MiB: nat := 1024 * 1024
  const ImageSizeLimit: nat := 20 * MiB
  const ExcelSizeLimit: nat := 100 * MiB
  const ResumeSizeLimit: nat := 5 * MiB
  const ProfilePicSizeLimit: nat := 5 * MiB
  const LogoSizeLimit: nat := 5 * MiB

  const XlsxMime := "application/vnd.openxmlformats-officedocument.spreadsheetml.sheet"
  const XlsMime := "application/vnd.ms-excel"
  const PdfMime := "application/pdf"
  const DocMime := "application/msword"
  const DocxMime := "application/vnd.openxmlformats-officedocument.wordprocessingml.document"

  /** The filter shared by the image, profile-picture and logo uploads. */
  predicate ImageFilter(mimeType: string)
  {
    StartsWith(mimeType, "image/")
  }

  predicate ExcelFilter(mimeType: string)
  {
    mimeType == XlsxMime || mimeType == XlsMime
  }

  predicate ResumeFilter(mimeType: string)
  {
    mimeType == PdfMime || mimeType == DocMime || mimeType == DocxMime
  }

  /** The five upload configurations. */
  datatype UploadKind = ImageUpload | ExcelUpload | ResumeUpload | ProfilePicUpload | LogoUpload

  function SizeLimit(kind: UploadKind): nat
  {
    match kind
    case ImageUpload => ImageSizeLimit
    case ExcelUpload => ExcelSizeLimit
    case ResumeUpload => ResumeSizeLimit
    case ProfilePicUpload => ProfilePicSizeLimit
    case LogoUpload => LogoSizeLimit
  }

  /** multer lets a file through when its filter accepts the MIME type and it is within the size limit. */
  predicate Admits(kind: UploadKind, file: UploadedFile)
  {
    && file.size <= SizeLimit(kind)
    && match kind
       case ImageUpload => ImageFilter(file.mimeType)
       case ExcelUpload => ExcelFilter(file.mimeType)
       case ResumeUpload => ResumeFilter(file.mimeType)
       case ProfilePicUpload => ImageFilter(file.mimeType)
       case LogoUpload => ImageFilter(file.mimeType)
  }

  /** Admission, stated per configuration as the source writes its filters and limits. */
  lemma AdmitsByKind(file: UploadedFile)
    ensures Admits(ImageUpload, file) <==> StartsWith(file.mimeType, "image/") && file.size <= 20 * 1024 * 1024
    ensures Admits(ProfilePicUpload, file) <==> StartsWith(file.mimeType, "image/") && file.size <= 5 * 1024 * 1024
    ensures Admits(LogoUpload, file) <==> StartsWith(file.mimeType, "image/") && file.size <= 5 * 1024 * 1024
    ensures Admits(ExcelUpload, file) <==>
              (file.size <= 100 * 1024 * 1024
               && (file.mimeType == "application/vnd.openxmlformats-officedocument.spreadsheetml.sheet"
                   || file.mimeType == "application/vnd.ms-excel"))
    ensures Admits(ResumeUpload, file) <==>
              (file.size <= 5 * 1024 * 1024
               && (file.mimeType == "application/pdf" || file.mimeType == "application/msword"
                   || file.mimeType == "application/vnd.openxmlformats-officedocument.wordprocessingml.document"))
  {
  }

  /** Index of the last occurrence of c in s, or -1. */
  function LastIndexOf(s: string, c: char): (k: int)
    ensures -1 <= k < |s|
    ensures k >= 0 ==> s[k] == c
    ensures forall j :: k < j < |s| ==> s[j] != c
  {
    if s == [] then -1
    else if s[|s| - 1] == c then |s| - 1
    else LastIndexOf(s[..|s| - 1], c)
  }

  /** The path without its trailing slashes. */
  function StripTrailingSlashes(p: string): (r: string)
    ensures |r| <= |p| && r == p[..|r|]
    ensures r == [] || r[|r| - 1] != '/'
    ensures (p == [] || p[|p| - 1] != '/') ==> r == p
  {
    if p != [] && p[|p| - 1] == '/' then StripTrailingSlashes(p[..|p| - 1]) else p
  }

  /** The last path segment. */
  function Basename(p: string): (b: string)
    ensures forall i :: 0 <= i < |b| ==> b[i] != '/'
    ensures |b| <= |p| && b == p[|p| - |b|..]
  {
    p[LastIndexOf(p, '/') + 1..]
  }

  /**
   * The extension of one path segment: from its last '.' to its end, or "" when
   * it has no '.', when that '.' is its first character (".bashrc") or when the
   * segment is "..".
   */
  function SegmentExt(base: string): (e: string)
    requires forall i :: 0 <= i < |base| ==> base[i] != '/'
    ensures e == [] || e[0] == '.'
    ensures forall i :: 1 <= i < |e| ==> e[i] != '.' && e[i] != '/'
    ensures |e| <= |base|
  {
    var k := LastIndexOf(base, '.');
    if k <= 0 || base == ".." then "" else base[k..]
  }

  /** `path.extname`: the extension of the last segment once trailing slashes are dropped. */
  function ExtName(path: string): (e: string)
    ensures e == [] || e[0] == '.'
    ensures forall i :: 1 <= i < |e| ==> e[i] != '.' && e[i] != '/'
  {
    SegmentExt(Basename(StripTrailingSlashes(path)))
  }

  /** The unique prefix `Date.now() + "-" + Math.round(Math.random() * 1e9)`. */
  function UniquePrefix(now: nat, random: real): (p: string)
    requires 0.0 <= random < 1.0
    ensures |p| >= 3
    ensures forall i :: 0 <= i < |p| ==> IsDigit(p[i]) || p[i] == '-'
    ensures IsDigit(p[0]) && IsDigit(p[|p| - 1])
  {
    var rounded := (random * 1000000000.0 + 0.5).Floor;
    assert rounded >= 0;
    Decimal(now) + "-" + Decimal(rounded)
  }

  /** The stored name of a resume, profile picture or logo: the unique prefix plus the original extension. */
  function GeneratedName(now: nat, random: real, originalName: string): string
    requires 0.0 <= random < 1.0
  {
    UniquePrefix(now, random) + ExtName(originalName)
  }

  /** A name without '/' is its own last segment. */
  lemma SegmentExtName(p: string)
    requires forall i :: 0 <= i < |p| ==> p[i] != '/'
    ensures ExtName(p) == SegmentExt(p)
  {
    assert StripTrailingSlashes(p) == p;
    assert LastIndexOf(p, '/') == -1;
    assert Basename(p) == p;
  }

  /** A '.'-free and '/'-free stem followed by an extension has exactly that extension. */
  lemma ExtNameOfStemAndExt(stem: string, e: string)
    requires |stem| >= 1
    requires forall i :: 0 <= i < |stem| ==> stem[i] != '.' && stem[i] != '/'
    requires e == [] || e[0] == '.'
    requires forall i :: 1 <= i < |e| ==> e[i] != '.' && e[i] != '/'
    ensures ExtName(stem + e) == e
  {
    var p := stem + e;
    StemAndExtCharacters(stem, e);
    SegmentExtName(p);
    if e == [] {
      assert p == stem;
      assert LastIndexOf(p, '.') == -1;
    } else {
      assert LastIndexOf(p, '.') == |stem|;
      assert p[|stem|..] == e;
      assert p[0] != '.';
    }
  }

  /** In `stem + e` there is no '/', and the only '.' is the first character of e. */
  lemma StemAndExtCharacters(stem: string, e: string)
    requires forall i :: 0 <= i < |stem| ==> stem[i] != '.' && stem[i] != '/'
    requires e == [] || e[0] == '.'
    requires forall i :: 1 <= i < |e| ==> e[i] != '.' && e[i] != '/'
    ensures forall i :: 0 <= i < |stem + e| ==> (stem + e)[i] != '/'
    ensures forall i :: 0 <= i < |stem + e| && (stem + e)[i] == '.' ==> i == |stem|
    ensures e != [] ==> (stem + e)[|stem|] == '.'
  {
    var p := stem + e;
    forall i | 0 <= i < |p| ensures p[i] != '/' && (p[i] == '.' ==> i == |stem|) {
      if i < |stem| { assert p[i] == stem[i]; } else { assert p[i] == e[i - |stem|]; }
    }
  }

  /** A generated name is one path segment: it holds no '/'. */
  lemma GeneratedNameIsSegment(now: nat, random: real, originalName: string)
    requires 0.0 <= random < 1.0
    ensures |GeneratedName(now, random, originalName)| >= 3
    ensures forall i :: 0 <= i < |GeneratedName(now, random, originalName)| ==> GeneratedName(now, random, originalName)[i] != '/'
  {
    var stem, e := UniquePrefix(now, random), ExtName(originalName);
    var g := stem + e;
    forall i | 0 <= i < |g| ensures g[i] != '/' {
      if i < |stem| {
        assert g[i] == stem[i];
      } else {
        assert g[i] == e[i - |stem|];
      }
    }
  }

  /** Generated upload names keep the extension of the client's original file name. */
  lemma GeneratedNameKeepsExtension(now: nat, random: real, originalName: string)
    requires 0.0 <= random < 1.0
    ensures ExtName(GeneratedName(now, random, originalName)) == ExtName(originalName)
    ensures StartsWith(GeneratedName(now, random, originalName), UniquePrefix(now, random))
  {
    var stem := UniquePrefix(now, random);
    ExtNameOfStemAndExt(stem, ExtName(originalName));
    var g := GeneratedName(now, random, originalName);
    assert g[..|stem|] == stem;
  }
}
