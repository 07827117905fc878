/**
 * App/Controllers/Assets.php: the controller that serves public, private
 * and uploaded files. The file system is the set of paths that exist, the
 * session check arrives as sessionValidator's return value, and headers,
 * status codes and the file body are returned as Effect values.
 */
module Assets {
  import opened Php
  import opened Helpers
  import SessionGate

  /** $path_public and $path_private, with DIRECTORY_SEPARATOR = "/". */
  const PublicDir := "/Public/"
  const PrivateDir := "/App/Assets/"

  /** The one password that opens private images without a session. */
  const FilePass := "afd1094"

  /** $file_types, in source order; "xml" appears twice. */
  const FileTypes: seq<string> := [
    "path", "img", "png", "jpg", "jpeg", "pdf", "js", "jsx", "json", "css",
    "xml", "eot", "ttf", "woff", "woff2", "svg", "dotm", "doc", "docx", "docm",
    "xlsx", "xlsm", "xls", "xml", "ppt", "pptx", "csv", "zip", "font"]

  /** The duplicate "xml" entry admits nothing the first one does not. */
  lemma DuplicateXmlIsRedundant()
    ensures FileTypes[10] == FileTypes[23] == "xml"
    ensures forall t :: t in FileTypes <==> t in FileTypes[..23] + FileTypes[24..]
  {
    forall t | t in FileTypes
      ensures t in FileTypes[..23] + FileTypes[24..]
    {
      var i :| 0 <= i < |FileTypes| && FileTypes[i] == t;
      if i < 23 {
        assert (FileTypes[..23] + FileTypes[24..])[i] == t;
      } else if i == 23 {
        assert (FileTypes[..23] + FileTypes[24..])[10] == t;
      } else {
        assert (FileTypes[..23] + FileTypes[24..])[i - 1] == t;
      }
    }
  }

  /** fileValidate($type): a strict (===, case-sensitive) search of $file_types that stops at the first hit. */
  method FileValidate(t: string) returns (vigilant: bool)
    ensures vigilant <==> t in FileTypes
  {
    vigilant := false;
    var i := 0;
    while i < |FileTypes|
      invariant 0 <= i <= |FileTypes|
      invariant !vigilant
      invariant t !in FileTypes[..i]
    {
      if FileTypes[i] == t {
        vigilant := true;
        break;
      }
      i := i + 1;
    }
  }

  // ---------------------------------------------------------------------------
  // renderFile($file, $type)

  /** The types renderFile shows inline, with the media type each one gets. */
  const InlineTypes: map<string, string> := map[
    "img" := "image/jpeg",
    "pdf" := "application/pdf",
    "js" := "application/javascript",
    "json" := "application/json",
    "css" := "text/css",
    "eot" := "application/vnd.ms-fontobject",
    "ttf" := "font/x-font-ttf",
    "woff" := "font/font-woff",
    "woff2" := "font/font-woff2",
    "svg" := "image/svg+xml"]

  /** The inline types whose header is spelled "Content-Type"; the rest use "Content-type". */
  const CapitalisedHeader: set<string> := {"img", "js", "json"}

  /** The download types with a media type of their own. */
  const DownloadTypes: map<string, string> := map[
    "zip" := "application/zip",
    "docx" := "application/vnd.openxmlformats-officedocument.wordprocessingml.document",
    "doc" := "application/msword",
    "csv" := "application/vnd.ms-excel",
    "xls" := "application/vnd.ms-excel",
    "xlsx" := "application/vnd.ms-excel",
    "ppt" := "application/vnd.ms-powerpoint",
    "pptx" := "application/vnd.openxmlformats-officedocument.presentationml.presentation"]

  const ForceDownload := "application/force-download"

  /** A header line naming the Content-Type, in either of the spellings renderFile uses. */
  predicate IsContentTypeLine(line: string) {
    "Content-Type: " <= line || "Content-type: " <= line
  }

  /** The exact header line of an inline type. */
  function InlineLine(t: string): (line: string)
    requires t in InlineTypes
    ensures IsContentTypeLine(line)
  {
    (if t in CapitalisedHeader then "Content-Type: " else "Content-type: ") + InlineTypes[t]
  }

  /**
   * Each case of renderFile's switch, type by type: the header line is the
   * header name, spelled as that case spells it, followed by the case's
   * media type.
   */
  lemma InlineLineLiterals()
    ensures InlineLine("img") == "Content-Type: " + "image/jpeg"
    ensures InlineLine("pdf") == "Content-type: " + "application/pdf"
    ensures InlineLine("js") == "Content-Type: " + "application/javascript"
    ensures InlineLine("json") == "Content-Type: " + "application/json"
    ensures InlineLine("css") == "Content-type: " + "text/css"
    ensures InlineLine("eot") == "Content-type: " + "application/vnd.ms-fontobject"
    ensures InlineLine("ttf") == "Content-type: " + "font/x-font-ttf"
    ensures InlineLine("woff") == "Content-type: " + "font/font-woff"
    ensures InlineLine("woff2") == "Content-type: " + "font/font-woff2"
    ensures InlineLine("svg") == "Content-type: " + "image/svg+xml"
  {
    assert InlineTypes["img"] == "image/jpeg" && "img" in CapitalisedHeader;
    assert InlineTypes["pdf"] == "application/pdf" && "pdf" !in CapitalisedHeader;
    assert InlineTypes["js"] == "application/javascript" && "js" in CapitalisedHeader;
    assert InlineTypes["json"] == "application/json" && "json" in CapitalisedHeader;
    assert InlineTypes["css"] == "text/css" && "css" !in CapitalisedHeader;
    assert InlineTypes["eot"] == "application/vnd.ms-fontobject" && "eot" !in CapitalisedHeader;
    assert InlineTypes["ttf"] == "font/x-font-ttf" && "ttf" !in CapitalisedHeader;
    assert InlineTypes["woff"] == "font/font-woff" && "woff" !in CapitalisedHeader;
    assert InlineTypes["woff2"] == "font/font-woff2" && "woff2" !in CapitalisedHeader;
    assert InlineTypes["svg"] == "image/svg+xml" && "svg" !in CapitalisedHeader;
  }

  /** The media type of a download: the table entry, or force-download for anything else. */
  function DownloadType(t: string): (r: string)
    ensures r == ForceDownload <==> t !in DownloadTypes
    ensures t in DownloadTypes ==> r == DownloadTypes[t]
  {
    if t in DownloadTypes then DownloadTypes[t] else ForceDownload
  }

  /** The attachment header for a download saved under `name`. */
  function DispositionLine(name: string): string {
    "Content-Disposition: attachment; filename=\"" + name + "\""
  }

  lemma DispositionIsNotContentType(name: string)
    ensures !IsContentTypeLine(DispositionLine(name))
  {
    assert DispositionLine(name)[8] == 'D';
    assert "Content-Type: "[8] == 'T' && "Content-type: "[8] == 't';
  }

  /** A response of one Content-Type header and then the file. */
  lemma InlineShape(line: string, file: string)
    requires IsContentTypeLine(line)
    ensures var r := [Header(line), ReadFile(file)];
      && r[|r| - 1] == ReadFile(file) && r[0].Header? && IsContentTypeLine(r[0].line)
      && (forall i :: 1 <= i < |r| ==> !(r[i].Header? && IsContentTypeLine(r[i].line)))
      && (forall e :: e in r ==> !e.ResponseCode? && !e.Exit?)
  {
  }

  /** A response of a Content-Type header, one other header and then the file. */
  lemma DownloadShape(line: string, other: string, file: string)
    requires IsContentTypeLine(line) && !IsContentTypeLine(other)
    ensures var r := [Header(line), Header(other), ReadFile(file)];
      && r[|r| - 1] == ReadFile(file) && r[0].Header? && IsContentTypeLine(r[0].line)
      && (forall i :: 1 <= i < |r| ==> !(r[i].Header? && IsContentTypeLine(r[i].line)))
      && (forall e :: e in r ==> !e.ResponseCode? && !e.Exit?)
  {
  }

  /**
   * renderFile($file, $type): inline types get their one header; every other
   * type gets its media type (force-download by default) and an attachment
   * disposition named after the file. The file is read last, and renderFile
   * never sets a status code.
   */
  function RenderFile(file: string, t: string): (r: seq<Effect>)
    ensures |r| >= 2 && r[|r| - 1] == ReadFile(file)
    ensures r[0].Header? && IsContentTypeLine(r[0].line)
    ensures forall i :: 1 <= i < |r| ==> !(r[i].Header? && IsContentTypeLine(r[i].line))
    ensures |r| == 2 <==> t in InlineTypes
    ensures t in InlineTypes ==> r == [Header(InlineLine(t)), ReadFile(file)]
    ensures t !in InlineTypes ==>
      r == [Header("Content-type: " + DownloadType(t)), Header(DispositionLine(Basename(file))), ReadFile(file)]
    ensures forall e :: e in r ==> !e.ResponseCode? && !e.Exit?
  {
    if t in InlineTypes then
      var line := InlineLine(t);
      InlineShape(line, file);
      [Header(line), ReadFile(file)]
    else
      var line := "Content-type: " + DownloadType(t);
      var disposition := DispositionLine(Basename(file));
      DispositionIsNotContentType(Basename(file));
      assert "Content-type: " <= line;
      DownloadShape(line, disposition, file);
      [Header(line), Header(disposition), ReadFile(file)]
  }

  /** Every type renderFile names explicitly is an allowed type. */
  lemma RenderTableTypesAreAllowed()
    ensures forall t :: t in InlineTypes ==> t in FileTypes
    ensures forall t :: t in DownloadTypes ==> t in FileTypes
  {
  }

  // ---------------------------------------------------------------------------
  // The three endpoints

  /** What an endpoint produced: a response, or the ErrorException Core's handler throws for an undefined key. */
  datatype Served = Sent(effects: seq<Effect>) | Raised(message: string)

  const UndefinedFileKey := "Undefined array key \"file\""

  /** The test every endpoint makes before serving: the file exists and the type is set, non-empty and allowed. */
  predicate Servable(path: string, existing: set<string>, query: map<string, string>) {
    && path in existing
    && "type" in query
    && !Empty(Str(query["type"]))
    && query["type"] in FileTypes
  }

  /** The shared `file_exists && isset && !empty && fileValidate ? renderFile : 404` step. */
  method Serve(path: string, existing: set<string>, query: map<string, string>) returns (r: seq<Effect>)
    ensures Servable(path, existing, query) ==> r == RenderFile(path, query["type"])
    ensures !Servable(path, existing, query) ==> r == [ResponseCode(404)]
    ensures ReadFile(path) in r <==> Servable(path, existing, query)
  {
    var allowed := false;
    if path in existing && "type" in query && !Empty(Str(query["type"])) {
      allowed := FileValidate(query["type"]);
    }
    if allowed {
      r := RenderFile(path, query["type"]);
    } else {
      r := [ResponseCode(404)];
    }
  }

  /**
   * Public($file): with ?file and ?type it serves Public/<file> and never
   * sets 202; otherwise $file is split on "=>" and, when that gives at least
   * two pieces, the pieces joined by "/" are served after a 202; with fewer
   * pieces nothing at all is sent.
   */
  method Public(file: string, query: map<string, string>, existing: set<string>, root: string)
    returns (r: seq<Effect>)
    ensures "file" in query && "type" in query ==>
      && ResponseCode(202) !in r
      && (ReadFile(root + PublicDir + query["file"]) in r
          <==> Servable(root + PublicDir + query["file"], existing, query))
      && (Servable(root + PublicDir + query["file"], existing, query)
          ==> r == RenderFile(root + PublicDir + query["file"], query["type"]))
      && (!Servable(root + PublicDir + query["file"], existing, query) ==> r == [ResponseCode(404)])
    ensures !("file" in query && "type" in query) && !Contains(file, "=>") ==> r == []
    ensures !("file" in query && "type" in query) && Contains(file, "=>") ==>
      var path := root + PublicDir + Implode("/", Explode(file, "=>"));
      && (Servable(path, existing, query) ==> r == [ResponseCode(202)] + RenderFile(path, query["type"]))
      && (!Servable(path, existing, query) ==> r == [ResponseCode(404)])
  {
    if "file" in query && "type" in query {
      r := Serve(root + PublicDir + query["file"], existing, query);
    } else {
      var pieces := if file != "" then Explode(file, "=>") else [];
      ExplodeSplitsIff(file, "=>");
      if |pieces| > 1 {
        var path := root + PublicDir + Implode("/", pieces);
        var body := Serve(path, existing, query);
        if body == [ResponseCode(404)] {
          r := body;
        } else {
          r := [ResponseCode(202)] + body;
        }
      } else {
        r := [];
      }
    }
  }

  /** A path argument without "=>" splits into one piece, so the path form does nothing. */
  lemma PathFormNeedsArrow(file: string)
    requires !Contains(file, "=>")
    ensures file == "" || Explode(file, "=>") == [file]
  {
    if file != "" {
      ExplodeWithoutSeparator(file, "=>");
    }
  }

  /** Private()'s gate: a truthy sessionValidator([], true), or the image password with type img. */
  predicate PrivateAuthorised(validated: Value, query: map<string, string>) {
    || !Empty(validated)
    || ("file_pass" in query && query["file_pass"] == FilePass && "type" in query && query["type"] == "img")
  }

  /**
   * Private(): 401 unless authorised; an authorised request serves
   * App/Assets/<file> under the exists/allowed rule, or raises when ?file is
   * missing.
   */
  method Private(validated: Value, query: map<string, string>, existing: set<string>, root: string)
    returns (r: Served)
    ensures r == Sent([ResponseCode(401)]) <==> !PrivateAuthorised(validated, query)
    ensures PrivateAuthorised(validated, query) && "file" !in query ==> r == Raised(UndefinedFileKey)
    ensures PrivateAuthorised(validated, query) && "file" in query ==>
      && r.Sent?
      && (ReadFile(root + PrivateDir + query["file"]) in r.effects
          <==> Servable(root + PrivateDir + query["file"], existing, query))
      && (Servable(root + PrivateDir + query["file"], existing, query)
          ==> r.effects == RenderFile(root + PrivateDir + query["file"], query["type"]))
      && (!Servable(root + PrivateDir + query["file"], existing, query) ==> r.effects == [ResponseCode(404)])
  {
    if PrivateAuthorised(validated, query) {
      if "file" in query {
        var body := Serve(root + PrivateDir + query["file"], existing, query);
        r := Sent(body);
      } else {
        r := Raised(UndefinedFileKey);
      }
    } else {
      r := Sent([ResponseCode(401)]);
    }
  }

  /** UploadFiles(): the exists/allowed rule under the upload directory, with no authentication at all. */
  method UploadFiles(query: map<string, string>, existing: set<string>, uploadDir: string) returns (r: Served)
    ensures "file" !in query ==> r == Raised(UndefinedFileKey)
    ensures "file" in query ==>
      && r.Sent?
      && ResponseCode(401) !in r.effects
      && (ReadFile(uploadDir + query["file"]) in r.effects <==> Servable(uploadDir + query["file"], existing, query))
      && (Servable(uploadDir + query["file"], existing, query)
          ==> r.effects == RenderFile(uploadDir + query["file"], query["type"]))
      && (!Servable(uploadDir + query["file"], existing, query) ==> r.effects == [ResponseCode(404)])
  {
    if "file" in query {
      var body := Serve(uploadDir + query["file"], existing, query);
      r := Sent(body);
    } else {
      r := Raised(UndefinedFileKey);
    }
  }

  /** The second ?url segment contains "cron": sessionValidator then answers null. */
  predicate CronSegment(query: map<string, string>) {
    SessionGate.SecondSegment(query).Some? && Contains(SessionGate.SecondSegment(query).value, "cron")
  }

  /**
   * Private() with its session check: a logged-in client is let in unless the
   * second ?url segment contains "cron" (the validator then returns null), and
   * the image password lets anyone in for type img.
   */
  method PrivateWithSession(
    s: SessionGate.Session, query: map<string, string>, requestMethod: string, appUrl: string, https: bool,
    existing: set<string>, root: string) returns (r: Served)
    modifies s
    ensures s.store == old(s.Loaded())
    ensures s.active && s.saved == old(s.saved) && s.idRegenerated == old(s.idRegenerated)
    ensures s.cookieParams == if old(s.active) then old(s.cookieParams) else Some(SessionGate.SessionCookie(https))
    ensures r == Sent([ResponseCode(401)]) <==>
      && !(|s.store| > 0 && !CronSegment(query))
      && !("file_pass" in query && query["file_pass"] == FilePass && "type" in query && query["type"] == "img")
    ensures PrivateAuthorised(SessionGate.Validate(SessionGate.SecondSegment(query), [], true, |s.store| == 0, requestMethod, appUrl).value, query)
      ==> if "file" !in query then r == Raised(UndefinedFileKey)
        else if Servable(root + PrivateDir + query["file"], existing, query)
        then r == Sent(RenderFile(root + PrivateDir + query["file"], query["type"]))
        else r == Sent([ResponseCode(404)])
  {
    var reply := s.SessionValidator([], true, query, requestMethod, appUrl, https);
    r := Private(reply.value, query, existing, root);
  }
}
