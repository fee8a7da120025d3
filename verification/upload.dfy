/** The upload checks of `ReportHandler` (backend/internal/handlers/report.go):
    `validateFile` and `generateUniqueFilename`, and what they guarantee
    about the file the pipeline later reads. */
module Upload {
  import opened Wrappers
  import opened Strings
  import opened AppErrors
  import AiService

  const AllowedExtensions: seq<string> := [".pdf", ".txt", ".docx", ".doc"]
  const AllowedContentTypes: seq<string> :=
    ["application/pdf", "text/plain", AiService.DocxContentType, "application/msword"]

  const SizeLimitMessage := "File size exceeds maximum limit of 20MB"
  const FileTypeMessage := "File type not supported. " + "Please upload PDF, TXT, or DOCX files only"
  const ContentTypeMessage := "Invalid file content type"

  /** The lower-cased name ends in one of the allowed extensions. */
  predicate HasAllowedExtension(lowerName: string) {
    exists e :: e in AllowedExtensions && HasSuffix(lowerName, e)
  }

  /** The declared content type contains one of the allowed types anywhere. */
  predicate HasAllowedContentType(contentType: string) {
    exists t :: t in AllowedContentTypes && Contains(contentType, t)
  }

  /** The check ladder of `validateFile`, as a definition: size, then
      extension, then content type.  A file exactly at the limit passes. */
  function FileProblem(size: int, filename: string, contentType: string, maxFileSize: int): (r: Option<AppError>)
    ensures r.Some? ==> r.value.code == StatusBadRequest && r.value.errorType == InvalidInput.errorType
    ensures r.None? <==>
      size <= maxFileSize && HasAllowedExtension(ToLower(filename)) && HasAllowedContentType(contentType)
  {
    if size > maxFileSize then Some(NewValidationError(SizeLimitMessage))
    else if !HasAllowedExtension(ToLower(filename)) then Some(NewValidationError(FileTypeMessage))
    else if !HasAllowedContentType(contentType) then Some(NewValidationError(ContentTypeMessage))
    else None
  }

  /** An oversized file is refused for its size, whatever its name and type. */
  lemma SizeCheckedFirst(size: int, maxFileSize: int, n1: string, t1: string, n2: string, t2: string)
    requires size > maxFileSize
    ensures FileProblem(size, n1, t1, maxFileSize) == FileProblem(size, n2, t2, maxFileSize)
            == Some(NewValidationError(SizeLimitMessage))
  {}

  /** `validateFile`, scanning the two lists with early exit as the source
      does. */
  method ValidateFile(size: int, filename: string, contentType: string, maxFileSize: int)
    returns (err: Option<AppError>)
    ensures err == FileProblem(size, filename, contentType, maxFileSize)
  {
    if size > maxFileSize {
      return Some(NewValidationError(SizeLimitMessage));
    }
    var name := ToLower(filename);
    var isAllowed := false;
    var i := 0;
    while i < |AllowedExtensions|
      invariant 0 <= i <= |AllowedExtensions|
      invariant !isAllowed
      invariant forall j :: 0 <= j < i ==> !HasSuffix(name, AllowedExtensions[j])
    {
      if HasSuffix(name, AllowedExtensions[i]) {
        isAllowed := true;
        break;
      }
      i := i + 1;
    }
    if !isAllowed {
      return Some(NewValidationError(FileTypeMessage));
    }
    var isValidContentType := false;
    var k := 0;
    while k < |AllowedContentTypes|
      invariant 0 <= k <= |AllowedContentTypes|
      invariant !isValidContentType
      invariant forall j :: 0 <= j < k ==> !Contains(contentType, AllowedContentTypes[j])
    {
      if Contains(contentType, AllowedContentTypes[k]) {
        isValidContentType := true;
        break;
      }
      k := k + 1;
    }
    if !isValidContentType {
      return Some(NewValidationError(ContentTypeMessage));
    }
    return None;
  }

  // ---------------------------------------------------------------------------
  // Stored file names
  // ---------------------------------------------------------------------------

  /** The characters the sanitiser keeps. */
  predicate SafeChar(c: char) {
    ('a' <= c <= 'z') || ('A' <= c <= 'Z') || ('0' <= c <= '9') || c == '_' || c == '-'
  }

  /** `strings.Map` with the sanitiser: drops every unsafe character and
      keeps the rest in order. */
  function Sanitize(s: string): (r: string)
    ensures |r| <= |s|
    ensures forall i :: 0 <= i < |r| ==> SafeChar(r[i])
    ensures (forall i :: 0 <= i < |s| ==> SafeChar(s[i])) ==> r == s
    ensures |s| == 1 ==> r == (if SafeChar(s[0]) then s else "")
  {
    if s == [] then []
    else (if SafeChar(s[0]) then [s[0]] else []) + Sanitize(s[1..])
  }

  /** The sanitiser works character by character: sanitising a text in two
      pieces gives the same as sanitising it whole.  With the one-character
      case this fixes the result of every input. */
  lemma {:induction false} SanitizeAppend(a: string, b: string)
    ensures Sanitize(a + b) == Sanitize(a) + Sanitize(b)
  {
    if a == [] {
      assert a + b == b;
    } else {
      var h := if SafeChar(a[0]) then [a[0]] else [];
      assert (a + b)[0] == a[0] && (a + b)[1..] == a[1..] + b;
      SanitizeAppend(a[1..], b);
      calc {
        Sanitize(a + b);
        h + Sanitize(a[1..] + b);
        h + (Sanitize(a[1..]) + Sanitize(b));
        (h + Sanitize(a[1..])) + Sanitize(b);
      }
    }
  }

  /** The stem with every space turned into an underscore, character by
      character. */
  function Underscored(stem: string): (r: string)
    ensures |r| == |stem|
    ensures forall i :: 0 <= i < |stem| ==> r[i] == (if stem[i] == ' ' then '_' else stem[i])
  {
    seq(|stem|, i requires 0 <= i < |stem| => if stem[i] == ' ' then '_' else stem[i])
  }

  /** Replacing the one-character text " " everywhere is the per-character
      map `Underscored`. */
  lemma {:induction false} ReplaceSpaces(s: string)
    ensures ReplaceAll(s, " ", "_") == Underscored(s)
    decreases |s|
  {
    if |s| >= 1 {
      ReplaceSpaces(s[1..]);
      var u := Underscored(s);
      assert u == [u[0]] + Underscored(s[1..]);
      if s[..1] == " " {
        assert s[0] == ' ';
      } else {
        assert s[0] != ' ';
      }
    }
  }

  /** `generateUniqueFilename` with the Unix time as a parameter: the
      decimal time, an underscore, the sanitised stem with spaces turned to
      underscores, then the original extension. */
  function UniqueFilename(original: string, timestamp: int): (r: string)
    ensures HasPrefix(r, Itoa(timestamp) + "_")
    ensures HasSuffix(r, Ext(original))
    ensures forall i :: |Itoa(timestamp)| + 1 <= i < |r| - |Ext(original)| ==> SafeChar(r[i])
    ensures r == Itoa(timestamp) + "_" + Sanitize(ReplaceAll(TrimSuffix(original, Ext(original)), " ", "_")) + Ext(original)
  {
    var ext := Ext(original);
    var stem := TrimSuffix(original, ext);
    var safe := Sanitize(ReplaceAll(stem, " ", "_"));
    var r := Itoa(timestamp) + "_" + safe + ext;
    assert r[|Itoa(timestamp)| + 1..|r| - |ext|] == safe;
    r
  }

  /** A stem made of safe characters and spaces survives whole, each space
      turned into an underscore. */
  lemma SpacesBecomeUnderscores(original: string, timestamp: int)
    requires var stem := TrimSuffix(original, Ext(original));
      forall i :: 0 <= i < |stem| ==> SafeChar(stem[i]) || stem[i] == ' '
    ensures UniqueFilename(original, timestamp)
         == Itoa(timestamp) + "_" + Underscored(TrimSuffix(original, Ext(original))) + Ext(original)
  {
    var stem := TrimSuffix(original, Ext(original));
    ReplaceSpaces(stem);
    var u := Underscored(stem);
    forall i | 0 <= i < |u| ensures SafeChar(u[i]) {
      assert u[i] == (if stem[i] == ' ' then '_' else stem[i]);
      assert SafeChar(stem[i]) || stem[i] == ' ';
    }
  }

  /** The time is read back from the name: the text before its first
      underscore is the decimal time. */
  lemma TimestampRecoverable(original: string, timestamp: int)
    requires MinInt64 <= timestamp <= MaxInt64
    ensures var r := UniqueFilename(original, timestamp);
      var p := IndexByte(r, '_');
      p == |Itoa(timestamp)| && Atoi(r[..p]) == Some(timestamp)
  {
    var r := UniqueFilename(original, timestamp);
    var t := Itoa(timestamp);
    NoUnderscoreInDecimal(timestamp);
    assert HasPrefix(r, t + "_");
    FirstUnderscoreAfter(t, r);
    assert IndexByte(r, '_') == |t| && r[..|t|] == t;
    AtoiItoa(timestamp);
    assert Atoi(t) == Some(timestamp);
  }

  /** A decimal number has no underscore. */
  lemma NoUnderscoreInDecimal(n: int)
    ensures '_' !in Itoa(n)
  {
    var t := Itoa(n);
    assert forall i :: 0 <= i < |t| ==> t[i] == '-' || IsDigit(t[i]);
  }

  /** The first underscore of a text that starts with `t + "_"`, where `t`
      has none, ends `t`. */
  lemma FirstUnderscoreAfter(t: string, r: string)
    requires '_' !in t && HasPrefix(r, t + "_")
    ensures IndexByte(r, '_') == |t| && r[..|t|] == t
  {
    assert forall i :: 0 <= i < |t| ==> r[i] == t[i];
    assert r[|t|] == (t + "_")[|t|];
  }

  /** A name with no dot has no extension. */
  lemma NoDotNoExt(p: string)
    requires '.' !in p
    ensures Ext(p) == ""
  {
    var e := Ext(p);
    assert forall k :: |p| - |e| <= k < |p| ==> p[k] == e[k - (|p| - |e|)];
  }

  /** The stored name keeps the original extension exactly. */
  lemma ExtensionKept(original: string, timestamp: int)
    ensures Ext(UniqueFilename(original, timestamp)) == Ext(original)
  {
    var r := UniqueFilename(original, timestamp);
    var e := Ext(original);
    if e == [] {
      var t := Itoa(timestamp);
      forall i | 0 <= i < |r| ensures r[i] != '.' {
        if i < |t| {
          assert r[i] == t[i];
          assert i == 0 || IsDigit(t[i]);
        } else if i > |t| {
          assert SafeChar(r[i]);
        }
      }
      NoDotNoExt(r);
    } else {
      assert r == r[..|r| - |e|] + e;
      ExtOfSuffix(r[..|r| - |e|], e);
    }
  }

  /** Where `UploadReportHandler` saves the file, joining the directory and
      the stored name with a slash. */
  function SavedPath(dir: string, original: string, timestamp: int): (p: string)
    ensures Ext(p) == Ext(original)
  {
    var name := UniqueFilename(original, timestamp);
    ExtensionKept(original, timestamp);
    JoinedExt(dir, name);
    dir + "/" + name
  }

  /** Putting a directory in front of a name does not change its extension. */
  lemma JoinedExt(dir: string, name: string)
    ensures Ext(dir + "/" + name) == Ext(name)
  {
    var e := Ext(name);
    if e != [] {
      assert name == name[..|name| - |e|] + e;
      assert dir + "/" + name == (dir + "/" + name[..|name| - |e|]) + e;
      ExtOfSuffix(dir + "/" + name[..|name| - |e|], e);
    } else {
      NoExtAfterSlash(dir, name);
    }
  }

  /** Text after the last slash without a dot leaves a path with no extension. */
  lemma NoExtAfterSlash(dir: string, name: string)
    requires Ext(name) == ""
    ensures Ext(dir + "/" + name) == ""
  {
    var p := dir + "/" + name;
    var last := LastIndexByte(p, '/');
    assert p[|dir|] == '/';
    assert last >= |dir|;
    forall i | 0 <= i < |p| && p[i] == '.' ensures i < last {
      if i > |dir| {
        var j := i - |dir| - 1;
        assert name[j] == '.';
        var m := LastIndexByte(name, '/');
        assert j < m;
        assert p[|dir| + 1 + m] == '/';
      }
    }
  }

  /** A lower-cased name that ends in `e` comes from a name whose last |e|
      characters lower-case to `e`; those are a dot and letters when `e`
      is an allowed extension. */
  lemma AllowedTail(original: string, e: string)
    requires e in AllowedExtensions && HasSuffix(ToLower(original), e)
    ensures var f := original[|original| - |e|..];
      ToLower(f) == e && f[0] == '.' && '.' !in f[1..] && '/' !in f
  {
    var f := original[|original| - |e|..];
    forall i | 0 <= i < |f| ensures LowerChar(f[i]) == e[i] {
      assert ToLower(original)[|original| - |e| + i] == LowerChar(original[|original| - |e| + i]);
    }
    ExtensionShape(e);
    LowerPreimage(f, e);
  }

  /** Every allowed extension is a dot followed by lower-case letters. */
  lemma ExtensionShape(e: string)
    requires e in AllowedExtensions
    ensures |e| >= 2 && e[0] == '.' && forall i :: 1 <= i < |e| ==> 'a' <= e[i] <= 'z'
  {
    assert e == ".pdf" || e == ".txt" || e == ".docx" || e == ".doc";
  }

  /** Characters that lower-case to a dot and letters are a dot and letters. */
  lemma LowerPreimage(f: string, e: string)
    requires |f| == |e| && |e| >= 1 && e[0] == '.'
    requires forall i :: 1 <= i < |e| ==> 'a' <= e[i] <= 'z'
    requires forall i :: 0 <= i < |f| ==> LowerChar(f[i]) == e[i]
    ensures ToLower(f) == e && f[0] == '.' && '.' !in f[1..] && '/' !in f
  {
    assert forall i :: 0 <= i < |f| ==> ToLower(f)[i] == e[i];
    assert forall i :: 1 <= i < |f| ==> f[1..][i - 1] == f[i];
  }

  /** A name that passes the extension check has, up to case, one of the
      allowed extensions as its extension. */
  lemma AllowedExtensionOf(original: string)
    requires HasAllowedExtension(ToLower(original))
    ensures ToLower(Ext(original)) in AllowedExtensions
  {
    var e :| e in AllowedExtensions && HasSuffix(ToLower(original), e);
    AllowedTail(original, e);
    var f := original[|original| - |e|..];
    assert original == original[..|original| - |e|] + f;
    ExtOfSuffix(original[..|original| - |e|], f);
  }

  /** A file that passes the extension check is saved under a path whose
      extension the extractor handles: an accepted upload never fails
      extraction for its type. */
  lemma AcceptedUploadIsExtractable(dir: string, original: string, timestamp: int)
    requires HasAllowedExtension(ToLower(original))
    ensures !AiService.ExtractorFor(SavedPath(dir, original, timestamp)).Unsupported?
  {
    AllowedExtensionOf(original);
    var path := SavedPath(dir, original, timestamp);
    var x := ToLower(Ext(path));
    assert x in AllowedExtensions;
    HandledExtension(path);
  }

  lemma HandledExtension(path: string)
    requires ToLower(Ext(path)) in AllowedExtensions
    ensures !AiService.ExtractorFor(path).Unsupported?
  {
    var x := ToLower(Ext(path));
    assert x == ".pdf" || x == ".txt" || x == ".docx" || x == ".doc";
  }

  /** The content type the extractor gives a file it can read is one the
      upload check accepts, and a file it cannot read gets none of them. */
  lemma ContentTypeAgreesWithUpload(filename: string)
    ensures !AiService.ExtractorFor(filename).Unsupported? <==>
      AiService.ContentTypeFromExtension(filename) in AllowedContentTypes
    ensures !AiService.ExtractorFor(filename).Unsupported? ==>
      HasAllowedContentType(AiService.ContentTypeFromExtension(filename))
  {
    var t := AiService.ContentTypeFromExtension(filename);
    if !AiService.ExtractorFor(filename).Unsupported? {
      assert OccursAt(t, t, 0);
    }
  }
}
