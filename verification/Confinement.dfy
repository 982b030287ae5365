/** Lexical confinement: resolving the dot segments of the path built for an
    accepted target never leaves the document root. */
module Confinement {
  import opened Messages
  import opened Functions
  import opened Handler
  import opened Sequences

  /** The segments of a path: what stands between its separators. */
  function Split(p: string): (segments: seq<string>)
    ensures segments != [] && segments[0] <= p
  {
    if p == "" then [""]
    else if p[0] == '/' then [""] + Split(p[1..])
    else
      var rest := Split(p[1..]);
      [[p[0]] + rest[0]] + rest[1..]
  }

  /** One step of a stack-based resolver. In an absolute path ".." at the top
      stays there; in a relative one it is kept, since it leads above the start. */
  function Enter(absolute: bool, stack: seq<string>, segment: string): (names: seq<string>)
  {
    if segment == "" || segment == "." then stack
    else if segment == ".." then
      if stack != [] && stack[|stack| - 1] != ".." then stack[..|stack| - 1]
      else if absolute then stack
      else stack + [".."]
    else stack + [segment]
  }

  function Walk(absolute: bool, stack: seq<string>, segments: seq<string>): (names: seq<string>)
    decreases segments
  {
    if segments == [] then stack
    else Walk(absolute, Enter(absolute, stack, segments[0]), segments[1..])
  }

  predicate Absolute(p: string)
  {
    p != "" && p[0] == '/'
  }

  function Resolve(p: string): (names: seq<string>)
  {
    Walk(Absolute(p), [], Split(p))
  }

  /** The rules of section 5.2.4 of RFC 3986: a single dot, or nothing, stays in place;
      two dots take back the name before them, or at the top of an absolute path nothing. */
  lemma DotSegmentsVanish(absolute: bool, stack: seq<string>, name: string, rest: seq<string>)
    ensures Walk(absolute, stack, ["."] + rest) == Walk(absolute, stack, [""] + rest) == Walk(absolute, stack, rest)
    ensures Walk(true, [], [".."] + rest) == Walk(true, [], rest)
    ensures name !in ["", ".", ".."] ==> Walk(absolute, stack, [name] + ([".."] + rest)) == Walk(absolute, stack, rest)
  {
    StepsInto(absolute, stack, ".", rest);
    StepsInto(absolute, stack, "", rest);
    StepsInto(true, [], "..", rest);
    StepsInto(absolute, stack, name, [".."] + rest);
    StepsInto(absolute, stack + [name], "..", rest);
    assert (stack + [name])[..|stack|] == stack;
  }

  lemma StepsInto(absolute: bool, stack: seq<string>, segment: string, rest: seq<string>)
    ensures Walk(absolute, stack, [segment] + rest) == Walk(absolute, Enter(absolute, stack, segment), rest)
  {
    assert ([segment] + rest)[1..] == rest;
  }

  /** `path` resolves to `root` or to something below it. */
  predicate Confined(root: string, path: string)
  {
    Absolute(root) == Absolute(path) && Resolve(root) <= Resolve(path)
  }

  /** The segments that name something. */
  function Names(segments: seq<string>): (names: seq<string>)
  {
    if segments == [] then []
    else (if segments[0] == "" || segments[0] == "." then [] else [segments[0]]) + Names(segments[1..])
  }

  lemma {:induction false} SplitJoin(a: string, b: string)
    ensures Split(a + "/" + b) == Split(a) + Split(b)
  {
    var p := a + "/" + b;
    if a == "" {
      assert p[1..] == b;
    } else {
      assert p[1..] == a[1..] + "/" + b;
      SplitJoin(a[1..], b);
    }
  }

  lemma {:induction false} WalkJoin(absolute: bool, stack: seq<string>, a: seq<string>, b: seq<string>)
    ensures Walk(absolute, stack, a + b) == Walk(absolute, Walk(absolute, stack, a), b)
    decreases a
  {
    if a == [] {
      assert a + b == b;
    } else {
      assert (a + b)[1..] == a[1..] + b;
      WalkJoin(absolute, Enter(absolute, stack, a[0]), a[1..], b);
    }
  }

  lemma EnterName(absolute: bool, stack: seq<string>, segment: string, names: seq<string>)
    requires segment != ".."
    ensures Enter(absolute, stack, segment) + names
         == stack + (if segment == "" || segment == "." then names else [segment] + names)
  {
    Associate(stack, [segment], names);
  }

  lemma NamesCons(segment: string, rest: seq<string>)
    ensures Names([segment] + rest)
         == if segment == "" || segment == "." then Names(rest) else [segment] + Names(rest)
  {
    assert ([segment] + rest)[1..] == rest;
  }

  lemma WalkForwardStep(absolute: bool, stack: seq<string>, segment: string, rest: seq<string>)
    requires segment != ".."
    requires var next := Enter(absolute, stack, segment); Walk(absolute, next, rest) == next + Names(rest)
    ensures Walk(absolute, stack, [segment] + rest) == stack + Names([segment] + rest)
  {
    StepsInto(absolute, stack, segment, rest);
    NamesCons(segment, rest);
    EnterName(absolute, stack, segment, Names(rest));
  }

  lemma {:induction false} WalkForward(absolute: bool, stack: seq<string>, segments: seq<string>)
    requires ".." !in segments
    ensures Walk(absolute, stack, segments) == stack + Names(segments)
    decreases segments
  {
    if segments == [] {
    } else {
      var segment, rest := segments[0], segments[1..];
      WalkForward(absolute, Enter(absolute, stack, segment), rest);
      WalkForwardStep(absolute, stack, segment, rest);
      assert segments == [segment] + rest;
    }
  }

  lemma {:induction false} NoDotDotSegment(p: string)
    requires !HasDotDot(p)
    ensures ".." !in Split(p)
  {
    if p == "" {
    } else {
      forall i | 0 <= i < |p[1..]| - 1 ensures !DotDotAt(p[1..], i) {
        assert !DotDotAt(p, i + 1);
      }
      NoDotDotSegment(p[1..]);
      if Split(p)[0] == ".." {
        assert p[0] == ".."[0] && p[1] == ".."[1];
        assert DotDotAt(p, 0);
      }
    }
  }

  lemma IndexAddsNoDotDot(target: string)
    requires Accepted(target)
    ensures !HasDotDot(WithIndex(target)[1..])
  {
    var t := WithIndex(target);
    forall i | 0 <= i < |t[1..]| - 1 ensures !DotDotAt(t[1..], i) {
      if i + 2 < |target| {
        assert !DotDotAt(target, i + 1);
      }
    }
  }

  /** Removing the final separator of the root changes nothing below it. */
  lemma TrimKeepsWalk(absolute: bool, root: string)
    ensures Walk(absolute, [], Split(Trimmed(root))) == Walk(absolute, [], Split(root))
  {
    if Trimmed(root) != root {
      assert root == Trimmed(root) + "/" + "";
      SplitJoin(Trimmed(root), "");
      WalkJoin(absolute, [], Split(Trimmed(root)), [""]);
    }
  }

  /** The path is the trimmed root, a separator and the rest of the target. */
  lemma PathSplit(root: string, target: string)
    requires Accepted(target)
    ensures Split(FilePath(root, target)) == Split(Trimmed(root)) + Split(WithIndex(target)[1..])
    ensures Split(WithIndex(target)) == [""] + Split(WithIndex(target)[1..])
    ensures root != "" ==> Absolute(FilePath(root, target)) == Absolute(root)
  {
    var rest := WithIndex(target)[1..];
    assert WithIndex(target) == "" + "/" + rest;
    assert FilePath(root, target) == Trimmed(root) + "/" + rest;
    SplitJoin("", rest);
    SplitJoin(Trimmed(root), rest);
  }

  lemma WalkBelow(absolute: bool, root: string, rest: string)
    requires !HasDotDot(rest)
    ensures Walk(absolute, [], Split(Trimmed(root)) + Split(rest))
         == Walk(absolute, [], Split(root)) + Names(Split(rest))
  {
    WalkJoin(absolute, [], Split(Trimmed(root)), Split(rest));
    TrimKeepsWalk(absolute, root);
    NoDotDotSegment(rest);
    WalkForward(absolute, Walk(absolute, [], Split(root)), Split(rest));
  }

  /** The exact place a target leads to: the names in the target, below the root. */
  lemma PathBelowRoot(root: string, target: string)
    requires Accepted(target) && root != ""
    ensures Absolute(FilePath(root, target)) == Absolute(root)
    ensures Resolve(FilePath(root, target)) == Resolve(root) + Names(Split(WithIndex(target)))
  {
    var rest := WithIndex(target)[1..];
    PathSplit(root, target);
    IndexAddsNoDotDot(target);
    WalkBelow(Absolute(root), root, rest);
    NamesCons("", Split(rest));
  }

  /** Accepted targets stay below the document root, whatever the root is, as
      long as one is set. With an empty root the path is the target itself. */
  lemma ConfinedIff(root: string, target: string)
    requires Accepted(target)
    ensures Confined(root, FilePath(root, target)) <==> root != ""
    ensures root == "" ==> FilePath(root, target) == WithIndex(target)
  {
    if root != "" {
      PathBelowRoot(root, target);
    }
  }

  /** Every file in a response lies below the document root, given there is one. */
  lemma ServedFilesConfined(s: Settings, a: Arrival)
    requires Respond(s, a).body.File?
    ensures Confined(s.documentRoot, Respond(s, a).body.path) <==> s.documentRoot != ""
    ensures Respond(s, a).body.path == FilePath(s.documentRoot, a.req.target)
  {
    ConfinedIff(s.documentRoot, a.req.target);
  }
}
