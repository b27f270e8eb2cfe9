/**
 The validation and classification front half of the `POST /upload` handler:
 from the request's `openAiApiKey` and `fileUrl` fields to either the
 rejection the handler answers with, or the accepted file (its decoded name,
 its extension, its category and the content type it is forwarded with).
 The download and re-upload that follow an accepted request are not part of
 this model.
 */
module Upload {
  import opened Wrappers
  import FileName
  import UriComponent
  import PathExt

  /**
   A field of the parsed JSON request body; Absent when the body lacks the
   key. What an array or object holds does not matter to the handler.
   */
  datatype JsonValue = Absent | Null | Bool(b: bool) | Number(x: real) | Str(s: string) | Array | Object

  /** JavaScript truthiness: `!v` is false. */
  predicate IsTruthy(v: JsonValue) {
    match v
    case Absent => false
    case Null => false
    case Bool(b) => b
    case Number(x) => x != 0.0
    case Str(s) => s != ""
    case Array => true
    case Object => true
  }

  const ValidExtensions: seq<string> := ["txt", "jpeg", "jpg", "png", "gif", "webp", "doc", "docx", "pdf"]
  const ImageExtensions: seq<string> := ["jpeg", "jpg", "png", "gif", "webp"]
  const DocumentExtensions: seq<string> := ["txt", "doc", "docx", "pdf"]

  datatype Category = Image | Document | Unknown

  /** Why a request is turned down, with the HTTP status and error text it is answered with. */
  datatype Rejection =
    | MissingParameter
    | InvalidUrlFormat
    | UnsupportedExtension(extension: string)
    | UploadFailed
  {
    function Status(): int {
      if UploadFailed? then 500 else 400
    }

    function Message(): string {
      match this
      case MissingParameter => "API Key and File URL are required."
      case InvalidUrlFormat => "Invalid file URL format."
      case UnsupportedExtension(ext) => UnsupportedMessage(ext)
      case UploadFailed => "Error uploading file to OpenAI"
    }
  }

  datatype Outcome =
    | Rejected(reason: Rejection)
    | Accepted(fileName: string, extension: string, category: Category, contentType: string)

  /** `Array.prototype.join`. */
  function Join(xs: seq<string>, sep: string): string {
    if |xs| == 0 then "" else if |xs| == 1 then xs[0] else xs[0] + sep + Join(xs[1..], sep)
  }

  function UnsupportedMessage(ext: string): string {
    "Unsupported file extension: " + ext + ". Supported extensions are: " + Join(ValidExtensions, ", ")
  }

  /** `toLowerCase` on one character, for the ASCII letters. */
  function LowerChar(c: char): char {
    if 'A' <= c <= 'Z' then (c as int - 'A' as int + 'a' as int) as char else c
  }

  function Lower(s: string): string {
    seq(|s|, k requires 0 <= k < |s| => LowerChar(s[k]))
  }

  /** Lower-casing keeps the length and the `.` and `/` characters where they are. */
  lemma LowerKeepsSeparators(s: string)
    ensures |Lower(s)| == |s|
    ensures '.' in Lower(s) <==> '.' in s
    ensures '/' in Lower(s) <==> '/' in s
    ensures forall k :: 0 <= k < |s| ==>
      (Lower(s)[k] == '.' <==> s[k] == '.') && (Lower(s)[k] == '/' <==> s[k] == '/')
  {
    forall k | 0 <= k < |s|
      ensures (Lower(s)[k] == '.' <==> s[k] == '.') && (Lower(s)[k] == '/' <==> s[k] == '/')
    {
    }
  }

  /** `substring(1)`: all but the first character, and the empty string stays empty. */
  function Substring1(s: string): string {
    if s == [] then [] else s[1..]
  }

  /** `path.extname(fileName).substring(1).toLowerCase()`. */
  function FileExtension(name: string): string {
    Lower(Substring1(PathExt.ExtName(name)))
  }

  /**
   The extension is the text after the last dot of the last path segment,
   lower-cased. It is empty exactly when that segment has no dot, has only a
   leading dot, or ends with a dot.
   */
  lemma FileExtensionSpec(name: string)
    ensures var ext := FileExtension(name); '.' !in ext && '/' !in ext
    ensures var ext, seg := FileExtension(name), PathExt.LastSegment(name);
      ext == [] <==> ('.' !in seg || PathExt.HasOnlyLeadingDot(seg) || seg[|seg| - 1] == '.')
    ensures var ext, seg := FileExtension(name), PathExt.LastSegment(name);
      ext != [] ==> |ext| < |seg| && seg[|seg| - |ext| - 1] == '.' && ext == Lower(seg[|seg| - |ext|..])
  {
    var seg := PathExt.LastSegment(name);
    var e := PathExt.SegmentExtName(seg);
    PathExt.SegmentExtNameWithoutText(seg);
    LowerKeepsSeparators(Substring1(e));
  }

  /** The category: `isImage ? 'image' : isDocument ? 'document' : 'unknown'`. */
  function Classify(ext: string): Category {
    if ext in ImageExtensions then Image
    else if ext in DocumentExtensions then Document
    else Unknown
  }

  /** The content type the file is forwarded with. */
  function ContentType(ext: string): string {
    "application/" + ext
  }

  /**
   The handler up to the download: the checks in their order (parameters, URL
   shape, extension), each deciding the answer when it fails.
   */
  function HandleUpload(apiKey: JsonValue, fileUrl: JsonValue): Outcome {
    if !IsTruthy(apiKey) || !IsTruthy(fileUrl) then Rejected(MissingParameter)
    // any other value than a string has no `match` method: the TypeError is
    // caught and answered like any other failure
    else if !fileUrl.Str? then Rejected(UploadFailed)
    else match FileName.Extract(fileUrl.s)
      case None => Rejected(InvalidUrlFormat)
      case Some(group) =>
        if group == "" then Rejected(InvalidUrlFormat)
        else match UriComponent.Decode(group)
          // decodeURIComponent throws a URIError, caught like any other failure
          case None => Rejected(UploadFailed)
          case Some(name) => CheckFileName(name)
  }

  /**
   The checks on the decoded file name: the allow-list decides, and an
   accepted file gets its category and content type.
   */
  function CheckFileName(name: string): (r: Outcome)
    ensures r.Accepted? <==> FileExtension(name) in ValidExtensions
    ensures r.Accepted? ==>
      && r.fileName == name
      && r.extension == FileExtension(name)
      && r.category != Unknown
      && r.contentType == "application/" + r.extension
    ensures r.Rejected? ==> r.reason == UnsupportedExtension(FileExtension(name))
  {
    var ext := FileExtension(name);
    if ext !in ValidExtensions then Rejected(UnsupportedExtension(ext))
    else
      CategoryOfValidExtension(ext);
      Accepted(name, ext, Classify(ext), ContentType(ext))
  }

  /**
   What every answer of the handler satisfies: the missing-parameter error
   comes exactly from a missing or empty parameter, an accepted file has an
   allowed extension, a category other than `unknown` and the content type
   `application/<extension>`, and a refused extension is off the allow-list.
   */
  lemma HandleUploadSpec(apiKey: JsonValue, fileUrl: JsonValue)
    ensures var r := HandleUpload(apiKey, fileUrl);
      r == Rejected(MissingParameter) <==> !IsTruthy(apiKey) || !IsTruthy(fileUrl)
    ensures var r := HandleUpload(apiKey, fileUrl);
      r.Accepted? ==>
        && r.extension == FileExtension(r.fileName)
        && r.extension in ValidExtensions
        && r.category != Unknown
        && r.contentType == "application/" + r.extension
    ensures var r := HandleUpload(apiKey, fileUrl);
      r.Rejected? && r.reason.UnsupportedExtension? ==> r.reason.extension !in ValidExtensions
  {
  }

  /**
   The two category lists split the allow-list: they are disjoint and
   together hold exactly its nine entries.
   */
  lemma CategoriesPartitionAllowList(ext: string)
    ensures ext in ValidExtensions <==> ext in ImageExtensions || ext in DocumentExtensions
    ensures !(ext in ImageExtensions && ext in DocumentExtensions)
  {
  }

  /** Every allowed extension gets `image` or `document`; `unknown` is reachable only off the allow-list. */
  lemma CategoryOfValidExtension(ext: string)
    ensures Classify(ext) == Unknown <==> ext !in ValidExtensions
    ensures Classify(ext) == Image <==> ext in ImageExtensions
    ensures Classify(ext) == Document <==> ext in DocumentExtensions
  {
    CategoriesPartitionAllowList(ext);
  }

  /** A truthy value other than a string gets the 500 answer, not a 400. */
  lemma NonStringUrlIsServerError(apiKey: JsonValue, fileUrl: JsonValue)
    requires IsTruthy(apiKey) && IsTruthy(fileUrl) && !fileUrl.Str?
    ensures HandleUpload(apiKey, fileUrl) == Rejected(UploadFailed)
  {
  }

  /**
   With both parameters present, the URL is refused as malformed exactly when
   the pattern does not match or its leftmost match captures nothing.
   */
  lemma InvalidUrlFormatIff(apiKey: JsonValue, url: string)
    requires IsTruthy(apiKey) && url != ""
    ensures HandleUpload(apiKey, Str(url)) == Rejected(InvalidUrlFormat) <==>
      || (forall i, j :: !FileName.MatchesAt(url, i, j))
      || (exists i, j :: FileName.IsLeftmostMatch(url, i, j) && j == i + |FileName.Marker|)
  {
    var r := FileName.Extract(url);
    if r.Some? {
      var i, j :| FileName.IsLeftmostMatch(url, i, j);
      assert r.value == url[i + |FileName.Marker|..j];
    }
  }

  /** The handler once the parameters are there and the URL captured a name. */
  lemma HandleUploadOfGroup(apiKey: JsonValue, url: string, group: string)
    requires IsTruthy(apiKey) && FileName.Extract(url) == Some(group) && group != ""
    ensures HandleUpload(apiKey, Str(url)) ==
      match UriComponent.Decode(group)
      case None => Rejected(UploadFailed)
      case Some(name) => CheckFileName(name)
  {
    assert url != "";
  }

  /**
   When the captured name holds a malformed escape, decoding throws and the
   answer is the 500 error, although the URL passed the format check.
   */
  lemma DecodeFailureIsServerError(apiKey: JsonValue, url: string, i: int, j: int)
    requires IsTruthy(apiKey)
    requires FileName.IsLeftmostMatch(url, i, j) && j > i + |FileName.Marker|
    requires UriComponent.Decode(url[i + |FileName.Marker|..j]).None?
    ensures HandleUpload(apiKey, Str(url)) == Rejected(UploadFailed)
    ensures HandleUpload(apiKey, Str(url)).reason.Status() == 500
  {
    assert FileName.Extract(url) == Some(url[i + |FileName.Marker|..j]);
  }

  /**
   Once the name is captured and decoded, its extension alone decides: the
   request is accepted exactly when the extension is on the allow-list, and
   otherwise it is refused naming that extension.
   */
  lemma ExtensionDecides(apiKey: JsonValue, url: string, i: int, j: int, name: string)
    requires IsTruthy(apiKey)
    requires FileName.IsLeftmostMatch(url, i, j) && j > i + |FileName.Marker|
    requires UriComponent.Decode(url[i + |FileName.Marker|..j]) == Some(name)
    ensures var r, ext := HandleUpload(apiKey, Str(url)), FileExtension(name);
      && (r.Accepted? <==> ext in ValidExtensions)
      && (r.Accepted? ==> r == Accepted(name, ext, Classify(ext), "application/" + ext))
      && (!r.Accepted? ==> r == Rejected(UnsupportedExtension(ext)))
  {
    var group := url[i + |FileName.Marker|..j];
    assert IsTruthy(Str(url));
    assert FileName.Extract(url) == Some(group);
    assert |group| > 0;
    assert HandleUpload(apiKey, Str(url)) == CheckFileName(name);
  }

  /** Joining two non-empty lists puts the separator between their joins. */
  lemma {:induction false} JoinAppend(xs: seq<string>, ys: seq<string>, sep: string)
    requires |xs| >= 1 && |ys| >= 1
    ensures Join(xs + ys, sep) == Join(xs, sep) + sep + Join(ys, sep)
  {
    if |xs| > 1 {
      assert (xs + ys)[1..] == xs[1..] + ys;
      JoinAppend(xs[1..], ys, sep);
    }
  }

  lemma ImageListText()
    ensures Join(ImageExtensions, ", ") == "jpeg, jpg, png, gif, webp"
  {
  }

  lemma OtherDocumentsText()
    ensures Join(["doc", "docx", "pdf"], ", ") == "doc, docx, pdf"
  {
  }

  /** The allow-list is `txt`, the image list, then the other document types. */
  lemma AllowListParts()
    ensures ValidExtensions == ["txt"] + ImageExtensions + ["doc", "docx", "pdf"]
  {
    var parts: seq<string> := ["txt"] + ImageExtensions + ["doc", "docx", "pdf"];
    assert |parts| == 9;
    forall k | 0 <= k < 9
      ensures ValidExtensions[k] == parts[k]
    {
    }
  }

  /**
   The allow-list as the rejection text spells it: `txt`, then the five
   image types, then the other three document types.
   */
  lemma AllowListText()
    ensures Join(ValidExtensions, ", ") ==
      "txt" + ", " + "jpeg, jpg, png, gif, webp" + ", " + "doc, docx, pdf"
  {
    var texts: seq<string>, documents: seq<string> := ["txt"], ["doc", "docx", "pdf"];
    AllowListParts();
    JoinAppend(texts + ImageExtensions, documents, ", ");
    JoinAppend(texts, ImageExtensions, ", ");
    ImageListText();
    OtherDocumentsText();
  }

  /** The rejection names the extension and then lists the nine allowed ones in order. */
  lemma UnsupportedMessageText(ext: string)
    ensures UnsupportedExtension(ext).Message() ==
      "Unsupported file extension: " + ext + ". Supported extensions are: "
      + ("txt" + ", " + "jpeg, jpg, png, gif, webp" + ", " + "doc, docx, pdf")
  {
    AllowListText();
  }

  lemma LowerSlice(s: string, a: int, b: int)
    requires 0 <= a <= b <= |s|
    ensures Lower(s)[a..b] == Lower(s[a..b])
  {
    assert |Lower(s)[a..b]| == |Lower(s[a..b])|;
    forall k | 0 <= k < b - a
      ensures Lower(s)[a..b][k] == Lower(s[a..b])[k]
    {
      assert Lower(s)[a..b][k] == LowerChar(s[a + k]);
    }
  }

  lemma LowerIdempotent(s: string)
    ensures Lower(Lower(s)) == Lower(s)
  {
  }

  lemma {:induction false} TrimTrailingSlashesLower(p: string)
    ensures PathExt.TrimTrailingSlashes(Lower(p)) == Lower(PathExt.TrimTrailingSlashes(p))
    decreases |p|
  {
    var q := Lower(p);
    assert |q| == |p|;
    if p != [] && p[|p| - 1] == '/' {
      assert q[|q| - 1] == '/';
      LowerSlice(p, 0, |p| - 1);
      TrimTrailingSlashesLower(p[..|p| - 1]);
    } else {
      assert q == [] || q[|q| - 1] != '/';
    }
  }

  lemma {:induction false} LastIndexOfLower(s: string, c: char)
    requires c == '/' || c == '.'
    ensures PathExt.LastIndexOf(Lower(s), c) == PathExt.LastIndexOf(s, c)
    decreases |s|
  {
    if s != [] {
      LowerSlice(s, 0, |s| - 1);
      LastIndexOfLower(s[..|s| - 1], c);
    }
  }

  lemma LastSegmentLower(p: string)
    ensures PathExt.LastSegment(Lower(p)) == Lower(PathExt.LastSegment(p))
  {
    var t := PathExt.TrimTrailingSlashes(p);
    TrimTrailingSlashesLower(p);
    LastIndexOfLower(t, '/');
    match PathExt.LastIndexOf(t, '/')
    case None =>
    case Some(k) => LowerSlice(t, k + 1, |t|);
  }

  lemma SegmentExtNameLower(seg: string)
    ensures PathExt.SegmentExtName(Lower(seg)) == Lower(PathExt.SegmentExtName(seg))
  {
    LastIndexOfLower(seg, '.');
    match PathExt.LastIndexOf(seg, '.')
    case None =>
    case Some(d) =>
      LowerSlice(seg, d, |seg|);
      assert Lower(seg) == ".." <==> seg == ".." by {
        if |seg| == 2 {
          assert Lower(seg)[0] == '.' <==> seg[0] == '.';
          assert Lower(seg)[1] == '.' <==> seg[1] == '.';
        }
      }
  }

  /** Lower-casing a path does not move its extension: `path.extname` commutes with it. */
  lemma ExtNameLower(p: string)
    ensures PathExt.ExtName(Lower(p)) == Lower(PathExt.ExtName(p))
  {
    LastSegmentLower(p);
    SegmentExtNameLower(PathExt.LastSegment(p));
  }

  /**
   The extension does not depend on the case of the name: `report.PDF` and
   `report.pdf` are treated alike.
   */
  lemma FileExtensionIgnoresCase(name: string)
    ensures FileExtension(Lower(name)) == FileExtension(name)
  {
    ExtNameLower(name);
    LowerSubstring1(PathExt.ExtName(name));
  }

  lemma LowerSubstring1(e: string)
    ensures Lower(Substring1(Lower(e))) == Lower(Substring1(e))
  {
    if e != [] {
      LowerSlice(e, 1, |e|);
      LowerIdempotent(e[1..]);
    }
  }

  /** Names that differ only in the case of their letters get the same verdict and extension. */
  lemma CheckFileNameIgnoresCase(name1: string, name2: string)
    requires Lower(name1) == Lower(name2)
    ensures FileExtension(name1) == FileExtension(name2)
    ensures CheckFileName(name1).Accepted? <==> CheckFileName(name2).Accepted?
  {
    FileExtensionIgnoresCase(name1);
    FileExtensionIgnoresCase(name2);
  }

  /** A name `base.ext` without separators and with no other dot has the extension ext, lower-cased. */
  lemma FileExtensionOfPlainName(base: string, ext: string)
    requires base != [] && '.' !in base && '/' !in base
    requires '.' !in ext && '/' !in ext
    ensures FileExtension(base + "." + ext) == Lower(ext)
  {
    PathExt.ExtNameOfBaseAndExt(base, ext);
    assert Substring1("." + ext) == ext;
  }

  /** Text that the URL can carry as it is: no escape, no `?`, no line terminator, no separator. */
  predicate IsPlainText(s: string) {
    forall c :: c in s ==> c !in "%?./" && !FileName.IsLineTerminator(c)
  }

  /**
   A storage URL that carries `base.ext` after the marker, with nothing to
   decode: the verdict is the allow-list's verdict on the lower-cased ext,
   whatever precedes the marker (without a `%`) and whatever query follows.
   */
  lemma PlainNameVerdict(apiKey: JsonValue, prefix: string, base: string, ext: string, name: string, query: string)
    requires IsTruthy(apiKey) && '%' !in prefix
    requires base != [] && IsPlainText(base) && IsPlainText(ext) && name == base + "." + ext
    ensures
      HandleUpload(apiKey, Str(prefix + FileName.Marker + name + "?" + query)) ==
        if Lower(ext) in ValidExtensions
        then Accepted(name, Lower(ext), Classify(Lower(ext)), "application/" + Lower(ext))
        else Rejected(UnsupportedExtension(Lower(ext)))
  {
    var url := prefix + FileName.Marker + name + "?" + query;
    assert forall c :: c in name ==> c in base || c == '.' || c in ext;
    FileName.ExtractComposed(prefix, name, query);
    HandleUploadOfGroup(apiKey, url, name);
    UriComponent.DecodeWithoutEscapes(name);
    FileExtensionOfPlainName(base, ext);
  }

  lemma ReportPdfFacts()
    ensures "report" + "." + "pdf" == "report.pdf"
    ensures IsPlainText("report") && IsPlainText("pdf") && Lower("pdf") == "pdf"
    ensures "pdf" in ValidExtensions && Classify("pdf") == Document
    ensures "application/" + "pdf" == "application/pdf"
  {
  }

  /** `.../public%2Freport.pdf?...` is accepted as a document. */
  lemma AcceptsReportPdf(apiKey: JsonValue, prefix: string, query: string)
    requires IsTruthy(apiKey) && '%' !in prefix
    ensures HandleUpload(apiKey, Str(prefix + FileName.Marker + "report.pdf" + "?" + query))
      == Accepted("report.pdf", "pdf", Document, "application/pdf")
  {
    ReportPdfFacts();
    PlainNameVerdict(apiKey, prefix, "report", "pdf", "report.pdf", query);
  }

  lemma PhotoPngFacts()
    ensures "photo" + "." + "png" == "photo.png"
    ensures IsPlainText("photo") && IsPlainText("png") && Lower("png") == "png"
    ensures "png" in ValidExtensions && Classify("png") == Image
    ensures "application/" + "png" == "application/png"
  {
  }

  /** `.../public%2Fphoto.png?...` is accepted as an image. */
  lemma AcceptsPhotoPng(apiKey: JsonValue, prefix: string, query: string)
    requires IsTruthy(apiKey) && '%' !in prefix
    ensures HandleUpload(apiKey, Str(prefix + FileName.Marker + "photo.png" + "?" + query))
      == Accepted("photo.png", "png", Image, "application/png")
  {
    PhotoPngFacts();
    PlainNameVerdict(apiKey, prefix, "photo", "png", "photo.png", query);
  }

  lemma ArchiveZipFacts()
    ensures "archive" + "." + "zip" == "archive.zip"
    ensures IsPlainText("archive") && IsPlainText("zip") && Lower("zip") == "zip"
    ensures "zip" !in ValidExtensions
  {
  }

  /**
   `.../public%2Farchive.zip?...` is refused with a 400 whose text names
   `zip` and the nine allowed extensions.
   */
  lemma RefusesArchiveZip(apiKey: JsonValue, prefix: string, query: string)
    requires IsTruthy(apiKey) && '%' !in prefix
    ensures HandleUpload(apiKey, Str(prefix + FileName.Marker + "archive.zip" + "?" + query))
      == Rejected(UnsupportedExtension("zip"))
    ensures UnsupportedExtension("zip").Status() == 400
    ensures UnsupportedExtension("zip").Message() ==
      "Unsupported file extension: " + "zip" + ". Supported extensions are: "
      + ("txt" + ", " + "jpeg, jpg, png, gif, webp" + ", " + "doc, docx, pdf")
  {
    ArchiveZipFacts();
    PlainNameVerdict(apiKey, prefix, "archive", "zip", "archive.zip", query);
    UnsupportedMessageText("zip");
  }

  lemma UpperCasePdfFacts()
    ensures "report" + "." + "PDF" == "report.PDF"
    ensures IsPlainText("report") && IsPlainText("PDF") && Lower("PDF") == "pdf"
    ensures "pdf" in ValidExtensions && Classify("pdf") == Document
    ensures "application/" + "pdf" == "application/pdf"
  {
  }

  /** `report.PDF` is accepted like `report.pdf`, with the extension lower-cased. */
  lemma AcceptsUpperCaseExtension(apiKey: JsonValue, prefix: string, query: string)
    requires IsTruthy(apiKey) && '%' !in prefix
    ensures HandleUpload(apiKey, Str(prefix + FileName.Marker + "report.PDF" + "?" + query))
      == Accepted("report.PDF", "pdf", Document, "application/pdf")
  {
    UpperCasePdfFacts();
    PlainNameVerdict(apiKey, prefix, "report", "PDF", "report.PDF", query);
  }

  /** `public%2F?` captures nothing: the URL is refused as malformed. */
  lemma RefusesEmptyName(apiKey: JsonValue, prefix: string, query: string)
    requires IsTruthy(apiKey) && '%' !in prefix
    ensures HandleUpload(apiKey, Str(prefix + FileName.Marker + "" + "?" + query))
      == Rejected(InvalidUrlFormat)
  {
    FileName.ExtractComposed(prefix, "", query);
  }

  /**
   `public%2F100%.pdf?` passes the format check, but `%.p` is no escape, so
   decoding throws and the answer is the 500 error, not a 400.
   */
  lemma MalformedEscapeIsServerError(apiKey: JsonValue, prefix: string, query: string)
    requires IsTruthy(apiKey) && '%' !in prefix
    ensures HandleUpload(apiKey, Str(prefix + FileName.Marker + "100%.pdf" + "?" + query))
      == Rejected(UploadFailed)
  {
    var name := "100%.pdf";
    assert name[3] == '%' && name[4] == '.';
    assert forall c :: c in name ==> c != '?' && !FileName.IsLineTerminator(c);
    FileName.ExtractComposed(prefix, name, query);
    UriComponent.DecodeRejectsMalformedEscape(name, 3);
    HandleUploadOfGroup(apiKey, prefix + FileName.Marker + name + "?" + query, name);
  }

  /** What `encodeURIComponent` writes ends neither the lazy group nor the line. */
  lemma EncodedCharIsPlain(c: char)
    requires UriComponent.IsUnreserved(c) || c == '%' || UriComponent.IsHexDigit(c)
    ensures c != '?' && !FileName.IsLineTerminator(c)
  {
  }

  /** The handler on a URL whose captured group decodes to name. */
  lemma HandleUploadOfDecodedGroup(apiKey: JsonValue, prefix: string, group: string, name: string, query: string)
    requires IsTruthy(apiKey) && '%' !in prefix && group != []
    requires '?' !in group && forall c :: c in group ==> !FileName.IsLineTerminator(c)
    requires UriComponent.Decode(group) == Some(name)
    ensures HandleUpload(apiKey, Str(prefix + FileName.Marker + group + "?" + query)) == CheckFileName(name)
  {
    FileName.ExtractComposed(prefix, group, query);
    HandleUploadOfGroup(apiKey, prefix + FileName.Marker + group + "?" + query, group);
  }

  /**
   A URL that carries a file name the way `encodeURIComponent` writes it
   gets that very name back: the handler's verdict is the verdict on the
   original name, for every non-empty name.
   */
  lemma EncodedNameRoundTrip(apiKey: JsonValue, prefix: string, name: string, query: string)
    requires IsTruthy(apiKey) && '%' !in prefix && name != []
    ensures HandleUpload(apiKey, Str(prefix + FileName.Marker + UriComponent.Encode(name) + "?" + query))
      == CheckFileName(name)
  {
    var group := UriComponent.Encode(name);
    UriComponent.EncodeAlphabet(name);
    forall c | c in group
      ensures c != '?' && !FileName.IsLineTerminator(c)
    {
      EncodedCharIsPlain(c);
    }
    UriComponent.DecodeEncode(name);
    HandleUploadOfDecodedGroup(apiKey, prefix, group, name, query);
  }
}
