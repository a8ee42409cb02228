/**
 * `Http::Util` (src/http/util.cpp): request classification and the MIME
 * lookup by extension. The declarations of `Http::Method`,
 * `Http::ContentType` and `Http::Request` are not part of this model: the
 * method list holds the cases the switches name and the remaining
 * standard methods, the request is its method (`verb`), its header map and its
 * body, and `std::atoi` is a parameter.
 */
module HttpUtil {
  import opened Base

  datatype Method = Get | Post | Put | Delete | Head | Options | Connect | Trace | Patch

  datatype ContentType =
    | ImagePng | ImageJpeg | MovieMp4 | TextHtml | ApplicationJson | TextJavaScript | TextCss | TextPlain

  datatype Request = Request(verb: Method, fields: map<string, string>, body: seq<Byte>)

  const ContentLengthName: string := "Content-Length"

  /** `std::size_t` holds values modulo 2^64, and `std::string::npos` is its largest value. */
  const SizeModulus: int := 0x1_0000_0000_0000_0000
  const Npos: int := SizeModulus - 1

  // ----- classification -----

  /** `IsPassable`: the methods the server lets through to routing. */
  predicate IsPassable(m: Method) {
    match m
    case Get => true
    case Post => true
    case Put => true
    case Delete => true
    case Head => true
    case _ => false
  }

  /** `CanHaveBody`: the methods whose request may carry a body. */
  predicate CanHaveBody(m: Method) {
    match m
    case Put => true
    case Post => true
    case Options => true
    case _ => false
  }

  /**
   * The two classifications overlap exactly at Post and Put: Options may
   * carry a body but is never passed on, and Get, Delete and Head are
   * passed on but never wait for one.
   */
  lemma PassableWithBody(m: Method)
    ensures IsPassable(m) && CanHaveBody(m) <==> m == Post || m == Put
    ensures CanHaveBody(m) && !IsPassable(m) <==> m == Options
    ensures IsPassable(m) && !CanHaveBody(m) <==> m in {Get, Delete, Head}
  {
  }

  /**
   * `IsComplete`: a request is complete unless its method can have a body,
   * it has a Content-Length field, and its body is shorter than that
   * field's `atoi` value converted to `std::size_t`.
   */
  predicate IsComplete(req: Request, atoi: string -> int) {
    if CanHaveBody(req.verb) then
      if ContentLengthName in req.fields then
        var contentLength := atoi(req.fields[ContentLengthName]) % SizeModulus;
        !(|req.body| < contentLength)
      else true
    else true
  }

  /**
   * Without a possible body or without a Content-Length field a request is
   * complete; with a length that fits in `std::size_t` it is complete
   * exactly when the body has at least that many bytes.
   */
  lemma IsCompleteCases(req: Request, atoi: string -> int)
    ensures !CanHaveBody(req.verb) || ContentLengthName !in req.fields ==> IsComplete(req, atoi)
    ensures CanHaveBody(req.verb) && ContentLengthName in req.fields
            && 0 <= atoi(req.fields[ContentLengthName]) < SizeModulus ==>
              (IsComplete(req, atoi) <==> |req.body| >= atoi(req.fields[ContentLengthName]))
  {
  }

  /** A complete request stays complete as more body arrives. */
  lemma IsCompleteMonotone(req: Request, more: seq<Byte>, atoi: string -> int)
    requires IsComplete(req, atoi)
    ensures IsComplete(req.(body := req.body + more), atoi)
  {
  }

  /**
   * A negative Content-Length wraps to a huge `std::size_t`, so a request
   * that can have a body and declares one is never complete for a body
   * of any size below 2^63.
   */
  lemma NegativeLengthNeverCompletes(req: Request, atoi: string -> int)
    requires CanHaveBody(req.verb) && ContentLengthName in req.fields
    requires -0x8000_0000_0000_0000 <= atoi(req.fields[ContentLengthName]) < 0
    requires |req.body| < 0x8000_0000_0000_0000
    ensures !IsComplete(req, atoi)
  {
  }

  // ----- MIME lookup -----

  /**
   * `find_last_of(c)`: the index of the last `c` in `s`, or `npos` when
   * there is none. A `std::string` is always shorter than `npos`.
   */
  function FindLastOf(s: string, c: char): (r: int)
    requires |s| < Npos
    ensures r == Npos || (0 <= r < |s| && s[r] == c)
    ensures r == Npos ==> forall j :: 0 <= j < |s| ==> s[j] != c
    ensures r != Npos ==> forall j :: r < j < |s| ==> s[j] != c
  {
    if s == [] then Npos
    else if s[|s| - 1] == c then |s| - 1
    else FindLastOf(s[..|s| - 1], c)
  }

  /** The fixed table from extension to content type; the comparison is case-sensitive. */
  function MimeOf(ext: string): ContentType {
    if ext == "png" then ImagePng
    else if ext == "jpg" then ImageJpeg
    else if ext == "mp4" then MovieMp4
    else if ext == "html" || ext == "htm" then TextHtml
    else if ext == "json" then ApplicationJson
    else if ext == "js" then TextJavaScript
    else if ext == "css" then TextCss
    else TextPlain
  }

  /**
   * `GetMimeType`: the extension starts one past the last '.', the index
   * computed in `std::size_t`, so without any '.' `npos + 1` wraps to 0
   * and the whole url is taken as the extension.
   */
  function GetMimeType(url: string): ContentType
    requires |url| < Npos
  {
    var dot := FindLastOf(url, '.');
    var start := (dot + 1) % SizeModulus;
    MimeOf(url[start..])
  }

  /** The extension is exactly the text after the last '.'. */
  lemma MimeAfterLastDot(prefix: string, ext: string)
    requires |prefix| + 1 + |ext| < Npos
    requires forall j :: 0 <= j < |ext| ==> ext[j] != '.'
    ensures GetMimeType(prefix + "." + ext) == MimeOf(ext)
  {
    var url := prefix + "." + ext;
    var dot := FindLastOf(url, '.');
    assert url[|prefix|] == '.';
    forall j | |prefix| < j < |url|
      ensures url[j] != '.'
    {
      assert url[j] == ext[j - |prefix| - 1];
    }
    assert url[|prefix| + 1..] == ext;
  }

  /** With no '.' anywhere the whole url is looked up. */
  lemma MimeWithoutDot(url: string)
    requires |url| < Npos
    requires forall j :: 0 <= j < |url| ==> url[j] != '.'
    ensures GetMimeType(url) == MimeOf(url)
  {
    assert url[0..] == url;
  }

  /** Matching is case-sensitive. */
  lemma MimeCaseSensitive()
    ensures GetMimeType("index.html") == TextHtml
    ensures GetMimeType("photo.PNG") == TextPlain
  {
    MimeAfterLastDot("index", "html");
    assert "index" + "." + "html" == "index.html";
    MimeAfterLastDot("photo", "PNG");
    assert "photo" + "." + "PNG" == "photo.PNG";
  }

  /** Only the last extension counts, and a name without a dot is an extension. */
  lemma MimeLastExtension()
    ensures GetMimeType("archive.tar.json") == ApplicationJson
    ensures GetMimeType("css") == TextCss
  {
    MimeAfterLastDot("archive.tar", "json");
    assert "archive.tar" + "." + "json" == "archive.tar.json";
    MimeWithoutDot("css");
  }

  // ----- allowed extensions -----

  /** The alternatives of the `ExtensionAllowed` pattern. */
  const AllowedExtensions: seq<string> := ["jpg", "jpeg", "png", "gif", "zip", "pdf", "mp4", "html", "json", "mkv", "js"]

  /** Case folding of `std::regex::icase` in the C locale: ASCII letters only. */
  function LowerChar(c: char): char {
    if 'A' <= c <= 'Z' then (c as int - 'A' as int + 'a' as int) as char else c
  }

  function Lower(s: string): (r: string)
    ensures |r| == |s| && forall i :: 0 <= i < |s| ==> r[i] == LowerChar(s[i])
  {
    seq(|s|, i requires 0 <= i < |s| => LowerChar(s[i]))
  }

  /** ECMAScript `.` matches any character but a line terminator ('\n' and '\r' among chars). */
  predicate NoLineBreak(s: string) {
    forall i :: 0 <= i < |s| ==> s[i] != '\n' && s[i] != '\r'
  }

  /** `url` ends in '.' and then `ext` ignoring case, and nothing before that dot breaks the line. */
  predicate EndsWithExtension(url: string, ext: string) {
    && |url| > |ext|
    && url[|url| - |ext| - 1] == '.'
    && Lower(url[|url| - |ext|..]) == ext
    && NoLineBreak(url[..|url| - |ext| - 1])
  }

  /**
   * `ExtensionAllowed`: `regex_match` of `.*\.(jpg|jpeg|...|js)$` with
   * `icase`, which must consume the whole url: some alternative is a
   * case-insensitive suffix right after a '.', and `.*` covers the rest.
   */
  predicate ExtensionAllowed(url: string) {
    exists k :: 0 <= k < |AllowedExtensions| && EndsWithExtension(url, AllowedExtensions[k])
  }

  /** The pattern read as a split: `url` is some line `prefix`, a '.', and an allowed extension in any case. */
  predicate SplitsAtAllowedExtension(url: string) {
    exists i :: 0 <= i < |url| && url[i] == '.' && NoLineBreak(url[..i]) && Lower(url[i + 1..]) in AllowedExtensions
  }

  lemma ExtensionAllowedIsSplit(url: string)
    ensures ExtensionAllowed(url) <==> SplitsAtAllowedExtension(url)
  {
    if ExtensionAllowed(url) {
      var k :| 0 <= k < |AllowedExtensions| && EndsWithExtension(url, AllowedExtensions[k]);
      EndsWithExtensionSplits(url, AllowedExtensions[k]);
    }
    if SplitsAtAllowedExtension(url) {
      var i :| 0 <= i < |url| && url[i] == '.' && NoLineBreak(url[..i]) && Lower(url[i + 1..]) in AllowedExtensions;
      var k :| 0 <= k < |AllowedExtensions| && AllowedExtensions[k] == Lower(url[i + 1..]);
      SplitEndsWithExtension(url, i, AllowedExtensions[k]);
    }
  }

  lemma EndsWithExtensionSplits(url: string, ext: string)
    requires EndsWithExtension(url, ext)
    ensures var i := |url| - |ext| - 1;
            0 <= i < |url| && url[i] == '.' && NoLineBreak(url[..i]) && Lower(url[i + 1..]) == ext
  {
    var i := |url| - |ext| - 1;
    assert url[i + 1..] == url[|url| - |ext|..];
  }

  lemma SplitEndsWithExtension(url: string, i: nat, ext: string)
    requires i < |url| && url[i] == '.' && NoLineBreak(url[..i]) && Lower(url[i + 1..]) == ext
    ensures EndsWithExtension(url, ext)
  {
    assert |ext| == |url| - i - 1;
    assert url[|url| - |ext|..] == url[i + 1..];
  }

  /** Case does not matter, the dot does, and so does a line break before it. */
  lemma ExtensionAllowedExamples()
    ensures ExtensionAllowed("photo.JPG")
    ensures !ExtensionAllowed("photojpg")
    ensures !ExtensionAllowed("a\nb.png")
  {
    var u := "photo.JPG";
    assert EndsWithExtension(u, AllowedExtensions[0]) by {
      assert u[6..] == "JPG";
      assert Lower("JPG") == "jpg";
    }
    var v := "photojpg";
    forall k | 0 <= k < |AllowedExtensions|
      ensures !EndsWithExtension(v, AllowedExtensions[k])
    {
    }
    var w := "a\nb.png";
    forall k | 0 <= k < |AllowedExtensions|
      ensures !EndsWithExtension(w, AllowedExtensions[k])
    {
      if |w| > |AllowedExtensions[k]| && w[|w| - |AllowedExtensions[k]| - 1] == '.' {
        assert w[..|w| - |AllowedExtensions[k]| - 1][1] == '\n';
      }
    }
  }
}
