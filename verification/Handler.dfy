/** The response to one request: method and target checks, the file behind the
    target, and the headers of each kind of response. */
module Handler {
  import opened Messages
  import opened Functions
  import opened Sequences

  datatype Settings = Settings(documentRoot: string, serviceVersion: string)

  /** What opening the file behind a target gave. */
  datatype FileOutcome = Missing | Failure(message: string) | Opened(size: nat)

  /** A request together with what the file system answers for its path. */
  datatype Arrival = Arrival(req: Request, file: FileOutcome)

  predicate DotDotAt(s: string, i: int)
    requires 0 <= i < |s| - 1
  {
    s[i] == '.' && s[i + 1] == '.'
  }

  predicate HasDotDot(s: string)
  {
    exists i :: 0 <= i < |s| - 1 && DotDotAt(s, i)
  }

  lemma DotDotByCharacter(s: string)
    ensures !HasDotDot(s) <==> forall i :: 0 <= i < |s| - 1 && s[i] == '.' ==> s[i + 1] != '.'
  {
    if HasDotDot(s) {
    } else {
      forall i | 0 <= i < |s| - 1 && s[i] == '.' ensures s[i + 1] != '.' {
        assert !DotDotAt(s, i);
      }
    }
  }

  /** A target is absolute and holds no two dots in a row. */
  predicate Accepted(target: string): (ok: bool)
    ensures ok <==> "/" <= target && forall i :: 0 <= i < |target| - 1 && target[i] == '.' ==> target[i + 1] != '.'
  {
    DotDotByCharacter(target);
    target != "" && target[0] == '/' && !HasDotDot(target)
  }

  function WithIndex(target: string): (r: string)
    requires target != ""
  {
    if target[|target| - 1] == '/' then target + "index.html" else target
  }

  /** The file a target stands for. */
  function FilePath(root: string, target: string): (r: string)
    requires target != ""
  {
    Trimmed(root) + WithIndex(target)
  }

  /** The file for a target: a separator at the end of the root does not count, and
      one at the end of the target stands for the index below it. */
  lemma FilePathCases(root: string, target: string)
    requires target != "" && (root == "" || root[|root| - 1] != '/')
    ensures target[|target| - 1] != '/' ==> FilePath(root, target) == FilePath(root + "/", target) == root + target
    ensures target[|target| - 1] == '/' ==>
              FilePath(root, target) == FilePath(root + "/", target) == root + target + "index.html"
  {
    assert (root + "/")[..|root|] == root;
    Associate(root, target, "index.html");
  }

  predicate Served(req: Request)
  {
    (req.verb.Get? || req.verb.Head?) && Accepted(req.target)
  }

  function StatusOf(a: Arrival): (n: nat)
  {
    if !Served(a.req) then 400
    else match a.file
      case Missing => 404
      case Failure(_) => 500
      case Opened(_) => 200
  }

  function ErrorText(a: Arrival): (r: string)
  {
    if !Served(a.req) then
      if a.req.verb.OtherVerb? then "Unknown HTTP-method" else "Illegal request-target"
    else match a.file
      case Missing => "The resource '" + a.req.target + "' was not found."
      case Failure(what) => "An error occurred: '" + what + "'"
      case Opened(_) => ""
  }

  function BodyOf(s: Settings, a: Arrival): (body: Body)
  {
    if StatusOf(a) != 200 then Text(ErrorText(a))
    else if a.req.verb.Head? then NoBody
    else File(FilePath(s.documentRoot, a.req.target), a.file.size)
  }

  /** The response to `a`. Its end is always marked by a length, so the
      connection has to close after it exactly if the request asked for that. */
  function Respond(s: Settings, a: Arrival): (m: Response)
    ensures NeedEof(m) <==> !Persistent(a.req)
    ensures KeepAlive(m.version, m.connection) <==> Persistent(a.req)
    ensures m.body.Text? ==> m.contentLength == Some(|m.body.content|)
    ensures m.body.File? ==> m.contentLength == Some(m.body.size)
    ensures m.status == 200 <==> Served(a.req) && a.file.Opened?
    ensures m.status == 400 <==> !Served(a.req)
    // what every response carries
    ensures m.version == a.req.version && m.server == s.serviceVersion
    ensures a.req.version < 11 ==>
              m.connection == if KeepAliveToken in a.req.connection then {KeepAliveToken} else {}
    ensures a.req.version >= 11 ==>
              m.connection == if CloseToken in a.req.connection then {CloseToken} else {}
    // refusals, in the order of the checks
    ensures a.req.verb.OtherVerb? ==> m.status == 400 && m.body == Text("Unknown HTTP-method")
    ensures !a.req.verb.OtherVerb? && !Accepted(a.req.target) ==>
              m.status == 400 && m.body == Text("Illegal request-target")
    // the file
    ensures !a.req.verb.OtherVerb? && Accepted(a.req.target) && a.file.Missing? ==>
              m.status == 404 && m.body == Text("The resource '" + a.req.target + "' was not found.")
    ensures !a.req.verb.OtherVerb? && Accepted(a.req.target) && a.file.Failure? ==>
              m.status == 500 && m.body == Text("An error occurred: '" + a.file.message + "'")
    ensures !a.req.verb.OtherVerb? && Accepted(a.req.target) && a.file.Opened? ==>
              var path := FilePath(s.documentRoot, a.req.target);
              && m.status == 200 && m.contentType == MimeType(path) && m.contentLength == Some(a.file.size)
              && m.body == if a.req.verb.Head? then NoBody else File(path, a.file.size)
    ensures m.status != 200 ==> m.contentType == "text/html"
  {
    Response(
      StatusOf(a), a.req.version, s.serviceVersion,
      if StatusOf(a) == 200 then MimeType(FilePath(s.documentRoot, a.req.target)) else "text/html",
      SetKeepAlive(a.req.version, {}, Persistent(a.req)),
      Some(if StatusOf(a) == 200 then a.file.size else |ErrorText(a)|),
      BodyOf(s, a))
  }

  /** A HEAD request gets the headers GET would get: section 9.3.2 of RFC 9110. When
      the file opens there is no body; an error keeps the body GET would get. */
  lemma HeadMirrorsGet(s: Settings, a: Arrival)
    requires a.req.verb.Get?
    ensures var head := Respond(s, a.(req := a.req.(verb := Head)));
            var get := Respond(s, a);
            && head.(body := get.body) == get
            && (get.status == 200 ==> head.body == NoBody)
            && (get.status != 200 ==> head == get)
  {
    var h := a.(req := a.req.(verb := Head));
    assert Served(h.req) <==> Served(a.req);
  }

  // ------------------------------------------------------------ content type

  /** For an accepted target the content type does not depend on the document root. */
  lemma ContentTypeIgnoresRoot(root1: string, root2: string, target: string)
    requires Accepted(target)
    ensures MimeType(FilePath(root1, target)) == MimeType(FilePath(root2, target))
  {
    assert WithIndex(target)[0] == '/';
    MimeTypeIgnoresRoot(Trimmed(root1), Trimmed(root2), WithIndex(target));
  }

  /** A target ending in a separator is always served as HTML. */
  lemma DirectoryIsHtml(root: string, target: string)
    requires target != "" && target[|target| - 1] == '/'
    ensures MimeType(FilePath(root, target)) == "text/html"
  {
    var path := FilePath(root, target);
    assert path[|path| - 5..] == ".html";
    assert MIME_TABLE[1] == (".html", "text/html");
    assert EndsWith(path, MIME_TABLE[1].0);
    MimeTypeOfRow(path, 1);
  }

  /** The document root shows in a response only as the place of the file. */
  lemma ResponseIgnoresRoot(s: Settings, root: string, a: Arrival)
    ensures var m, n := Respond(s, a), Respond(s.(documentRoot := root), a);
            && m.(body := NoBody) == n.(body := NoBody)
            && (m.body == n.body || (m.body.File? && n.body.File? && m.body.size == n.body.size))
  {
    if StatusOf(a) == 200 {
      ContentTypeIgnoresRoot(s.documentRoot, root, a.req.target);
    }
  }
}
