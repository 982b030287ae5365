/** Content type by file extension, and document root plus target to file path. */
module Functions {

  // ---------------------------------------------------------------- content type

  const DEFAULT_TYPE := "application/text"

  /** The rows in the order in which they are compared. */
  const MIME_TABLE: seq<(string, string)> := [
    (".htm", "text/html"), (".html", "text/html"), (".php", "text/html"),
    (".css", "text/css"), (".txt", "text/plain"), (".js", "application/javascript"),
    (".json", "application/json"), (".xml", "application/xml"),
    (".swf", "application/x-shockwave-flash"), (".flv", "video/x-flv"),
    (".png", "image/png"), (".jpe", "image/jpeg"), (".jpeg", "image/jpeg"),
    (".jpg", "image/jpeg"), (".gif", "image/gif"), (".bmp", "image/bmp"),
    (".ico", "image/vnd.microsoft.icon"), (".tiff", "image/tiff"), (".tif", "image/tiff"),
    (".svg", "image/svg+xml"), (".svgz", "image/svg+xml")
  ]

  function Lower(c: char): (d: char)
  {
    if 'A' <= c <= 'Z' then (c as int + 32) as char else c
  }

  predicate IEquals(a: string, b: string)
  {
    |a| == |b| && forall i :: 0 <= i < |a| ==> Lower(a[i]) == Lower(b[i])
  }

  /** Index of the last dot, or -1. */
  function LastDot(path: string): (k: int)
    ensures -1 <= k < |path|
    ensures k >= 0 ==> path[k] == '.'
    ensures forall i :: k < i < |path| ==> path[i] != '.'
  {
    if path == "" then -1
    else if path[|path| - 1] == '.' then |path| - 1
    else LastDot(path[..|path| - 1])
  }

  function Extension(path: string): (r: string)
  {
    if LastDot(path) < 0 then "" else path[LastDot(path)..]
  }

  function Lookup(table: seq<(string, string)>, ext: string): (r: string)
  {
    if table == [] then DEFAULT_TYPE
    else if IEquals(ext, table[0].0) then table[0].1
    else Lookup(table[1..], ext)
  }

  function MimeType(path: string): (r: string)
  {
    Lookup(MIME_TABLE, Extension(path))
  }

  /** `path` ends with `e`, ignoring the case of ASCII letters. */
  predicate EndsWith(path: string, e: string)
  {
    |e| <= |path| && IEquals(path[|path| - |e|..], e)
  }

  /** Row `i` of the table is a row for `path`, and gives it type `t`. */
  predicate RowGives(path: string, i: nat, t: string)
  {
    i < |MIME_TABLE| && EndsWith(path, MIME_TABLE[i].0) && MIME_TABLE[i].1 == t
  }

  /** What the proofs need of a table row: lower case, a dot first, then
      neither dots nor slashes. */
  predicate GoodExtension(e: string)
  {
    && e != ""
    && e[0] == '.'
    && (forall i :: 1 <= i < |e| ==> e[i] != '.')
    && (forall i :: 0 <= i < |e| ==> e[i] != '/' && Lower(e[i]) == e[i])
  }

  lemma RowIsGood(i: nat)
    requires i < |MIME_TABLE|
    ensures GoodExtension(MIME_TABLE[i].0) && MIME_TABLE[i].1 != DEFAULT_TYPE
  {
  }

  lemma RowsDiffer(i: nat, j: nat)
    requires i < j < |MIME_TABLE|
    ensures !IEquals(MIME_TABLE[i].0, MIME_TABLE[j].0)
  {
    RowIsGood(i);
    RowIsGood(j);
    assert MIME_TABLE[i].0 != MIME_TABLE[j].0;
  }

  lemma IEqualsJoin(a: string, b: string, c: string)
    ensures IEquals(a, b) && IEquals(a, c) ==> IEquals(b, c)
  {
  }

  /** The extension is what stands from the last dot on, and a table
      extension can only match all of it. */
  lemma ExtensionMatches(path: string, e: string)
    requires GoodExtension(e)
    ensures IEquals(Extension(path), e) <==> EndsWith(path, e)
  {
    var k := LastDot(path);
    if EndsWith(path, e) {
      var tail := path[|path| - |e|..];
      assert forall i :: 0 <= i < |e| ==> Lower(tail[i]) == Lower(e[i]);
      assert tail[0] == path[|path| - |e|] == '.';
      forall i | |path| - |e| < i < |path| ensures path[i] != '.' {
        assert tail[i - (|path| - |e|)] == path[i];
      }
      assert k == |path| - |e|;
    }
  }

  lemma {:induction false} LookupFinds(table: seq<(string, string)>, ext: string, i: nat)
    requires i < |table| && IEquals(ext, table[i].0)
    requires forall j :: 0 <= j < i ==> !IEquals(ext, table[j].0)
    ensures Lookup(table, ext) == table[i].1
  {
    if i == 0 {
    } else {
      assert !IEquals(ext, table[0].0);
      LookupFinds(table[1..], ext, i - 1);
    }
  }

  lemma {:induction false} LookupMisses(table: seq<(string, string)>, ext: string)
    requires forall j :: 0 <= j < |table| ==> !IEquals(ext, table[j].0)
    ensures Lookup(table, ext) == DEFAULT_TYPE
  {
    if table == [] {
    } else {
      assert !IEquals(ext, table[0].0);
      LookupMisses(table[1..], ext);
    }
  }

  /** A path gets the type of the one row whose extension it ends with. */
  lemma MimeTypeOfRow(path: string, i: nat)
    requires i < |MIME_TABLE| && EndsWith(path, MIME_TABLE[i].0)
    ensures MimeType(path) == MIME_TABLE[i].1
  {
    var ext := Extension(path);
    RowIsGood(i);
    ExtensionMatches(path, MIME_TABLE[i].0);
    forall j | 0 <= j < i ensures !IEquals(ext, MIME_TABLE[j].0) {
      IEqualsJoin(ext, MIME_TABLE[j].0, MIME_TABLE[i].0);
      RowsDiffer(j, i);
    }
    LookupFinds(MIME_TABLE, ext, i);
  }

  /** The content type depends only on which extension the path ends with: it
      is `t` exactly if some row gives `t`, and the default exactly if no row applies. */
  lemma MimeTypeIff(path: string, t: string)
    ensures t != DEFAULT_TYPE ==> (MimeType(path) == t <==> exists i: nat :: RowGives(path, i, t))
    ensures MimeType(path) == DEFAULT_TYPE
       <==> forall i :: 0 <= i < |MIME_TABLE| ==> !EndsWith(path, MIME_TABLE[i].0)
  {
    if i :| 0 <= i < |MIME_TABLE| && EndsWith(path, MIME_TABLE[i].0) {
      MimeTypeOfRow(path, i);
      RowIsGood(i);
      assert RowGives(path, i, MimeType(path));
      forall j: nat | RowGives(path, j, t) ensures MimeType(path) == t {
        MimeTypeOfRow(path, j);
      }
    } else {
      forall j | 0 <= j < |MIME_TABLE| ensures !IEquals(Extension(path), MIME_TABLE[j].0) {
        RowIsGood(j);
        ExtensionMatches(path, MIME_TABLE[j].0);
      }
      LookupMisses(MIME_TABLE, Extension(path));
    }
  }

  /** Letters of either case, and only letters, are taken for one another. */
  lemma LowerByLetter(i: nat, c: char)
    requires i < 26
    ensures Lower("ABCDEFGHIJKLMNOPQRSTUVWXYZ"[i]) == "abcdefghijklmnopqrstuvwxyz"[i]
    ensures c < 'A' || 'Z' < c ==> Lower(c) == c
  {
    assert "ABCDEFGHIJKLMNOPQRSTUVWXYZ"[i] as int == 65 + i;
    assert "abcdefghijklmnopqrstuvwxyz"[i] as int == 97 + i;
  }

  lemma RowType(stem: string, i: nat)
    requires i < |MIME_TABLE|
    ensures MimeType(stem + MIME_TABLE[i].0) == MIME_TABLE[i].1
  {
    var e := MIME_TABLE[i].0;
    assert (stem + e)[|stem|..] == e;
    MimeTypeOfRow(stem + e, i);
  }

  /** The listed extensions and their types, by name. */
  lemma TypesByName(stem: string)
    ensures MimeType(stem + ".htm") == MimeType(stem + ".html") == MimeType(stem + ".php") == "text/html"
    ensures MimeType(stem + ".css") == "text/css"
    ensures MimeType(stem + ".txt") == "text/plain"
    ensures MimeType(stem + ".js") == "application/javascript"
    ensures MimeType(stem + ".json") == "application/json"
    ensures MimeType(stem + ".xml") == "application/xml"
    ensures MimeType(stem + ".swf") == "application/x-shockwave-flash"
    ensures MimeType(stem + ".flv") == "video/x-flv"
    ensures MimeType(stem + ".png") == "image/png"
    ensures MimeType(stem + ".jpe") == MimeType(stem + ".jpeg") == MimeType(stem + ".jpg") == "image/jpeg"
    ensures MimeType(stem + ".gif") == "image/gif"
    ensures MimeType(stem + ".bmp") == "image/bmp"
    ensures MimeType(stem + ".ico") == "image/vnd.microsoft.icon"
    ensures MimeType(stem + ".tiff") == MimeType(stem + ".tif") == "image/tiff"
    ensures MimeType(stem + ".svg") == MimeType(stem + ".svgz") == "image/svg+xml"
  {
    RowType(stem, 0); RowType(stem, 1); RowType(stem, 2); RowType(stem, 3); RowType(stem, 4);
    RowType(stem, 5); RowType(stem, 6); RowType(stem, 7); RowType(stem, 8); RowType(stem, 9);
    RowType(stem, 10); RowType(stem, 11); RowType(stem, 12); RowType(stem, 13); RowType(stem, 14);
    RowType(stem, 15); RowType(stem, 16); RowType(stem, 17); RowType(stem, 18); RowType(stem, 19);
    RowType(stem, 20);
  }

  lemma SlashIsNoExtension(ext: string, k: nat, e: string)
    requires GoodExtension(e) && k < |ext| && ext[k] == '/'
    ensures !IEquals(ext, e)
  {
    if |e| == |ext| {
      assert Lower(e[k]) != Lower('/');
    }
  }

  /** Without a dot, nothing is listed. */
  lemma NoDotType(path: string)
    requires LastDot(path) < 0
    ensures MimeType(path) == "application/text"
  {
    forall i | 0 <= i < |MIME_TABLE| ensures !IEquals(Extension(path), MIME_TABLE[i].0) {
      RowIsGood(i);
    }
    LookupMisses(MIME_TABLE, Extension(path));
  }

  /** Neither is anything with a separator after the last dot. */
  lemma DotInDirectoryType(path: string, k: nat)
    requires 0 <= LastDot(path) < k < |path| && path[k] == '/'
    ensures MimeType(path) == "application/text"
  {
    var ext := Extension(path);
    assert ext[k - LastDot(path)] == '/';
    forall i | 0 <= i < |MIME_TABLE| ensures !IEquals(ext, MIME_TABLE[i].0) {
      RowIsGood(i);
      SlashIsNoExtension(ext, k - LastDot(path), MIME_TABLE[i].0);
    }
    LookupMisses(MIME_TABLE, ext);
  }

  // ------------------------------------------------------------------- file path

  /** The directory part: `base` without one final separator. */
  function Trimmed(base: string): (r: string)
  {
    if base != "" && base[|base| - 1] == '/' then base[..|base| - 1] else base
  }

  method PathCat(base: string, path: string) returns (result: string)
    ensures result == Trimmed(base) + path
  {
    if base == "" {
      return path;
    }
    result := base;
    if result[|result| - 1] == '/' {
      result := result[..|result| - 1];
    }
    result := result + path;
  }

  /** An extension that reaches across the first character of the target does not
      match: that character is a separator. */
  lemma LongExtensionMisses(root: string, target: string, e: string)
    requires target != "" && target[0] == '/' && GoodExtension(e) && |target| < |e|
    ensures !EndsWith(root + target, e)
  {
    var p, k := root + target, |e| - |target|;
    if |e| <= |p| {
      assert p[|p| - |e|..][k] == '/';
      assert Lower(e[k]) != Lower('/');
    }
  }

  lemma EndsWithIgnoresRoot(root1: string, root2: string, target: string, e: string)
    requires target != "" && target[0] == '/' && GoodExtension(e)
    ensures EndsWith(root1 + target, e) <==> EndsWith(root2 + target, e)
  {
    var p1, p2 := root1 + target, root2 + target;
    if |target| < |e| {
      LongExtensionMisses(root1, target, e);
      LongExtensionMisses(root2, target, e);
    } else {
      assert p1[|p1| - |e|..] == target[|target| - |e|..] == p2[|p2| - |e|..];
    }
  }

  lemma MimeTypeIgnoresRoot(root1: string, root2: string, target: string)
    requires target != "" && target[0] == '/'
    ensures MimeType(root1 + target) == MimeType(root2 + target)
  {
    MimeTypeIff(root1 + target, MimeType(root1 + target));
    MimeTypeIff(root2 + target, MimeType(root1 + target));
    forall i | 0 <= i < |MIME_TABLE|
      ensures EndsWith(root1 + target, MIME_TABLE[i].0) <==> EndsWith(root2 + target, MIME_TABLE[i].0)
    {
      RowIsGood(i);
      EndsWithIgnoresRoot(root1, root2, target, MIME_TABLE[i].0);
    }
    if i: nat :| RowGives(root1 + target, i, MimeType(root1 + target)) {
      assert RowGives(root2 + target, i, MimeType(root1 + target));
    }
  }
}
