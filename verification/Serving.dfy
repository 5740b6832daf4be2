/** What the daemon opens for a request, for every request: not only those whose address
    it built itself. */
module Serving {
  import opened Options
  import opened Text
  import opened Links
  import opened AbsolutePaths

  // ------------------------------------------------------ inside a directory

  lemma PrefixOfJoined(a: seq<string>, b: seq<string>)
    requires AreNames(a) && AreNames(b) && a != []
    requires HasPrefix(Join(b, '/'), Join(a, '/') + "/")
    ensures a <= b
  {
    var rest := Join(b, '/')[|Join(a, '/')| + 1..];
    assert Join(b, '/') == Join(a, '/') + ['/'] + rest;
    SplitConcat(Join(a, '/'), rest, '/');
    JoinOfNames(b);
    SplitJoin(a, '/');
    SplitJoin(b, '/');
  }

  lemma JoinedPrefix(a: seq<string>, b: seq<string>)
    requires AreNames(a) && AreNames(b) && a != [] && a < b
    ensures HasPrefix(Join(b, '/'), Join(a, '/') + "/")
  {
    var rest := b[|a|..];
    assert b == a + rest;
    JoinConcat(a, rest, '/');
  }

  lemma PrefixAfterSlash(s: string, prefix: string)
    ensures HasPrefix("/" + s, "/" + prefix) <==> HasPrefix(s, prefix)
  {
    if |prefix| <= |s| {
      assert ("/" + s)[..|"/" + prefix|] == "/" + s[..|prefix|];
      assert ("/" + prefix)[1..] == prefix && ("/" + s[..|prefix|])[1..] == s[..|prefix|];
    }
  }

  /** The prefix test on paths says which directory's segments come first. */
  lemma InsideIsBelow(a: seq<string>, b: seq<string>)
    requires AreNames(a) && AreNames(b) && a != []
    ensures Inside("/" + Join(b, '/'), "/" + Join(a, '/')) <==> a <= b
  {
    JoinInjective(a, b);
    assert ("/" + Join(a, '/'))[1..] == Join(a, '/') && ("/" + Join(b, '/'))[1..] == Join(b, '/');
    PrefixAfterSlash(Join(b, '/'), Join(a, '/') + "/");
    Regroup("/", Join(a, '/'), "/");
    if a <= b && a != b {
      JoinedPrefix(a, b);
    }
    if HasPrefix(Join(b, '/'), Join(a, '/') + "/") {
      PrefixOfJoined(a, b);
    }
  }

  // --------------------------------------------------------- resolving a path

  /** The place a relative path names below the root. */
  function Target(root: string, rel: string): string {
    "/" + Join(RootSegments(root) + Walk(true, [], Split(rel, '/')), '/')
  }

  lemma TargetIs(root: string, rel: string)
    requires Rooted(root) && Clean(root) != "/"
    ensures var cleaned := TrimPrefix(Clean("/" + rel), "/");
      cleaned != "." && Clean(JoinPath(Clean(root), cleaned)) == Target(root, rel)
  {
    var kept := Walk(true, [], Split(rel, '/'));
    WalkKeeps(true, Split(rel, '/'));
    CleanUnderSlash(rel);
    assert ("/" + Join(kept, '/'))[1..] == Join(kept, '/');
    JoinOfNames(kept);
    CleanOfRoot(root);
    if kept == [] {
      RootWithSlash(RootSegments(root));
      assert RootSegments(root) + kept == RootSegments(root);
    } else {
      CleanBelowRoot(root, kept);
    }
  }

  lemma RootWithSlash(base: seq<string>)
    requires AreNames(base) && base != []
    ensures Clean(JoinPath("/" + Join(base, '/'), "")) == "/" + Join(base, '/')
  {
    CleanAbove(base);
    var root := "/" + Join(base, '/');
    assert root + "/" + "" == root + "/";
    CleanRooted(base);
  }

  /** Which path is opened for every relative path: the root for none; for one with a `..`
      in it, nothing; otherwise the place it names, unless a symlink leads out of the root. */
  lemma ResolvesExactly(root: string, rel: string, follow: string -> RealPath)
    requires Rooted(root) && Clean(root) != "/"
    ensures ResolveScopedPath(root, rel, follow) ==
      if rel == "" then Opens(Clean(root))
      else if ".." !in Split(rel, '/') && NoLinkLeaves(root, Target(root, rel), follow) then Opens(Target(root, rel))
      else Refused
    ensures Inside(Target(root, rel), Clean(root))
  {
    TargetIs(root, rel);
    CleanOfRoot(root);
    var base, kept := RootSegments(root), Walk(true, [], Split(rel, '/'));
    WalkKeeps(true, Split(rel, '/'));
    InsideIsBelow(base, base + kept);
  }

  /** Whatever is asked for, what is opened lies in the shared directory, by its segments,
      and so does what following its symlinks gives, when that gives anything. */
  lemma OpensOnlyInside(root: string, rel: string, follow: string -> RealPath, path: string)
    requires Rooted(root) && Clean(root) != "/" && ResolveScopedPath(root, rel, follow) == Opens(path)
    ensures exists below :: AreNames(below) && path == "/" + Join(RootSegments(root) + below, '/')
    ensures rel != "" ==>
      match follow(path)
      case Real(q) => Inside(q, match follow(Clean(root)) case Real(top) => top case _ => Clean(root))
      case Missing => true
      case Unresolvable => false
  {
    ResolvesExactly(root, rel, follow);
    CleanOfRoot(root);
    WalkKeeps(true, Split(rel, '/'));
    if rel == "" {
      assert RootSegments(root) + [] == RootSegments(root);
      assert AreNames([]);
    }
  }

  // ------------------------------------------------------------- reading a request

  /** A path after the prefix, with or without one more slash, starts with this segment. */
  predicate StartsWith(slash: string, segment: string, rest: string) {
    && (slash == "/" || (slash == "" && segment != ""))
    && '/' !in segment && (rest == "" || rest[0] == '/')
  }

  lemma AfterSlash(slash: string, segment: string, rest: string)
    requires StartsWith(slash, segment, rest)
    ensures TrimPrefix(slash + (segment + rest), "/") == segment + rest
  {
    var tail, all := segment + rest, slash + (segment + rest);
    if slash == "/" {
      assert all[1..] == tail && all[..1] == "/";
    } else {
      assert all == tail && tail[0] == segment[0] && segment[0] in segment;
    }
  }

  lemma AfterPrefix(prefix: string, all: string)
    ensures HasPrefix(prefix + all, prefix) && TrimPrefix(prefix + all, prefix) == all
  {
  }

  lemma SplitExactly(prefix: string, slash: string, segment: string, rest: string)
    requires StartsWith(slash, segment, rest)
    ensures SplitSharePath(prefix + (slash + (segment + rest)), prefix) ==
      if TrimSpace(segment) == "" then None
      else Some((TrimSpace(segment), if rest == "" then "" else TrimPrefix(rest[1..], "/")))
  {
    CutAt(segment, '/', rest);
    AfterPrefix(prefix, slash + (segment + rest));
    AfterSlash(slash, segment, rest);
    if segment + rest == "" {
      assert TrimSpace(segment) == "";
    }
  }

  function RoutePrefix(route: Route): string {
    match route case Preview => ['/', 's', '/'] case Raw => ['/', 'r', '/']
  }

  lemma PrefixIs(route: Route)
    ensures route.Prefix() == RoutePrefix(route)
  {
  }

  /** A decoded path with this share's prefix: its next segment, without white space, must
      be the share's id, and the rest, without the slashes before it, is resolved. */
  lemma RequestExactly(
    route: Route, id: string, encoded: string, query: string, slash: string, segment: string, rest: string,
    root: string, follow: string -> RealPath)
    requires '?' !in encoded && (query == "" || query[0] == '?') && id != ""
    requires Unescape(encoded).Some? && Unescape(encoded).value == RoutePrefix(route) + (slash + (segment + rest))
    requires StartsWith(slash, segment, rest)
    ensures Request(route, id, encoded + query, root, follow) ==
      if TrimSpace(segment) == id
      then ResolveScopedPath(root, if rest == "" then "" else TrimPrefix(rest[1..], "/"), follow)
      else Refused
  {
    CutAt(encoded, '?', query);
    PrefixIs(route);
    SplitExactly(route.Prefix(), slash, segment, rest);
  }

  /** Anything else is refused: what does not decode, and what has another prefix. */
  lemma OtherwiseRefused(
    route: Route, id: string, encoded: string, query: string, root: string, follow: string -> RealPath)
    requires '?' !in encoded && (query == "" || query[0] == '?')
    requires Unescape(encoded).Some? ==> !HasPrefix(Unescape(encoded).value, RoutePrefix(route))
    ensures Request(route, id, encoded + query, root, follow) == Refused
  {
    CutAt(encoded, '?', query);
    PrefixIs(route);
  }

  // ----------------------------------------------------- where a document's links start

  /** The links of a document are read from its own directory. */
  lemma DocumentDirIs(dir: string, name: string)
    requires '/' !in name && dir != "" && !Rooted(dir)
    ensures CurrentDir(dir + "/" + name) == Join(Walk(false, [], Split(dir, '/')), '/')
    ensures CurrentDir(name) == ""
  {
    TopLevelDir(name);
    DirPartEndsAtSlash(dir, name);
    var s := dir + ['/'] + "";
    assert s == dir + "/";
    SplitConcat(dir, "", '/');
    WalkAppend(false, [], Split(dir, '/'), [""]);
    assert [""][..0] == [];
    WalkKeeps(false, Split(dir, '/'));
    var kept := Walk(false, [], Split(dir, '/'));
    if kept != [] {
      assert kept[0] != "" && kept[0] != ".";
      if |kept| > 1 {
        assert Join(kept, '/')[|kept[0]|] == '/';
      }
    }
  }
}
