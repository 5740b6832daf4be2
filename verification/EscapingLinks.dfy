/** Links that lead out of their share: the daemon does not open what they name, even when
    the trimming of the path comes in between. */
module EscapingLinks {
  import opened Options
  import opened Text
  import opened Links
  import opened AbsolutePaths

  // Neither trimming nor cleaning a path without parent steps takes visible characters.

  /** A visible ASCII character that is no dot and no slash. */
  predicate IsVisible(c: char) {
    '!' <= c <= '~' && c != '.' && c != '/'
  }

  function Visible(s: string): nat {
    if s == "" then 0 else (if IsVisible(s[0]) then 1 else 0) + Visible(s[1..])
  }

  lemma {:induction false} VisibleConcat(a: string, b: string)
    ensures Visible(a + b) == Visible(a) + Visible(b)
  {
    if a == "" {
      assert a + b == b;
    } else {
      assert (a + b)[1..] == a[1..] + b;
      VisibleConcat(a[1..], b);
    }
  }

  lemma {:induction false} NoneVisible(s: string)
    requires forall i :: 0 <= i < |s| ==> !IsVisible(s[i])
    ensures Visible(s) == 0
  {
    if s != "" {
      NoneVisible(s[1..]);
    }
  }

  lemma VisibleParts(s: string, i: nat)
    requires i <= |s|
    ensures Visible(s) == Visible(s[..i]) + Visible(s[i..])
  {
    assert s == s[..i] + s[i..];
    VisibleConcat(s[..i], s[i..]);
  }

  lemma {:induction false} VisibleTrimLeft(s: string)
    ensures Visible(TrimLeft(s)) == Visible(s)
    decreases |s|
  {
    var n := SpaceAtStart(s);
    if n > 0 {
      VisibleTrimLeft(s[n..]);
      VisibleParts(s, n);
      NoneVisible(s[..n]);
    }
  }

  lemma {:induction false} VisibleTrimRight(s: string)
    ensures Visible(TrimRight(s)) == Visible(s)
    decreases |s|
  {
    var n := SpaceAtEnd(s);
    if n > 0 {
      VisibleTrimRight(s[..|s| - n]);
      VisibleParts(s, |s| - n);
      NoneVisible(s[|s| - n..]);
    }
  }

  lemma {:induction false} VisibleTrimSlashes(s: string)
    ensures Visible(TrimChar(s, '/')) == Visible(s)
    decreases |s|
  {
    if s != "" && s[0] == '/' {
      VisibleTrimSlashes(s[1..]);
    } else if s != "" && s[|s| - 1] == '/' {
      var last := |s| - 1;
      VisibleTrimSlashes(s[..last]);
      VisibleParts(s, last);
      NoneVisible(s[last..]);
    }
  }

  function VisibleAll(parts: seq<string>): nat {
    if parts == [] then 0 else VisibleAll(parts[..|parts| - 1]) + Visible(parts[|parts| - 1])
  }

  lemma {:induction false} VisibleAllConcat(a: seq<string>, b: seq<string>)
    ensures VisibleAll(a + b) == VisibleAll(a) + VisibleAll(b)
    decreases |b|
  {
    if b == [] {
      assert a + b == a;
    } else {
      assert (a + b)[..|a + b| - 1] == a + b[..|b| - 1];
      VisibleAllConcat(a, b[..|b| - 1]);
    }
  }

  lemma {:induction false} VisibleJoin(parts: seq<string>)
    ensures Visible(Join(parts, '/')) == VisibleAll(parts)
    decreases |parts|
  {
    if parts != [] {
      VisibleJoin(parts[1..]);
      VisibleAllConcat([parts[0]], parts[1..]);
      HeadTail(parts);
      assert [parts[0]][..0] == [];
      if |parts| > 1 {
        VisibleConcat(parts[0], ['/']);
        VisibleConcat(parts[0] + ['/'], Join(parts[1..], '/'));
        NoneVisible(['/']);
      }
    }
  }

  lemma {:induction false} VisibleWalk(segments: seq<string>)
    requires ".." !in segments
    ensures VisibleAll(Walk(true, [], segments)) == VisibleAll(segments)
    decreases |segments|
  {
    if segments != [] {
      var last := |segments| - 1;
      VisibleWalk(segments[..last]);
      assert segments[last] != "..";
      NoneVisible(".");
      var before := Walk(true, [], segments[..last]);
      assert (before + [segments[last]])[..|before|] == before;
    }
  }

  /** The path served for rel shows as much as rel does. */
  lemma VisibleServed(rel: string)
    requires ".." !in Split(TrimChar(TrimSpace(rel), '/'), '/')
    ensures VisibleAll(Walk(true, [], Split(TrimChar(TrimSpace(rel), '/'), '/'))) == Visible(rel)
  {
    var trimmed := TrimChar(TrimSpace(rel), '/');
    VisibleTrimLeft(rel);
    VisibleTrimRight(TrimLeft(rel));
    VisibleTrimSlashes(TrimSpace(rel));
    VisibleWalk(Split(trimmed, '/'));
    VisibleJoin(Split(trimmed, '/'));
    JoinSplit(trimmed, '/');
  }

  // ------------------------------------------------------------------ what is opened

  lemma TargetBelow(root: string, kept: seq<string>)
    requires Rooted(root) && Clean(root) != "/" && AreNames(kept)
    ensures Clean(JoinPath(Clean(root), Join(kept, '/'))) == "/" + Join(RootSegments(root) + kept, '/')
  {
    CleanOfRoot(root);
    var base := RootSegments(root);
    if kept == [] {
      CleanAbove(base);
      CleanRooted(base);
      assert base + kept == base && Clean(root) + "/" + "" == Above(base) + "/";
    } else {
      CleanBelowRoot(root, kept);
    }
  }

  /** The path below the root as it is resolved. */
  lemma CleanedRel(rel: string)
    ensures var cleaned := TrimPrefix(Clean("/" + rel), "/");
      (if cleaned == "." then "" else cleaned) == Join(Walk(true, [], Split(rel, '/')), '/')
    ensures AreNames(Walk(true, [], Split(rel, '/')))
  {
    var kept := Walk(true, [], Split(rel, '/'));
    WalkKeeps(true, Split(rel, '/'));
    CleanUnderSlash(rel);
    JoinOfNames(kept);
    assert ("/" + Join(kept, '/'))[1..] == Join(kept, '/');
  }

  lemma ResolveAny(root: string, rel: string, follow: string -> RealPath)
    requires Rooted(root) && Clean(root) != "/"
    ensures rel != "" && ".." in Split(rel, '/') ==> ResolveScopedPath(root, rel, follow) == Refused
    ensures var kept := Walk(true, [], Split(rel, '/'));
      || ResolveScopedPath(root, rel, follow) == Refused
      || ResolveScopedPath(root, rel, follow) == Opens("/" + Join(RootSegments(root) + kept, '/'))
  {
    CleanedRel(rel);
    TargetBelow(root, Walk(true, [], Split(rel, '/')));
    if rel == "" {
      CleanOfRoot(root);
      assert [""][..0] == [] && RootSegments(root) + [] == RootSegments(root);
    }
  }

  /** What is left of the root after some of its directories were taken shows less. */
  lemma LeftShowsLess(base: seq<string>, left: seq<string>)
    requires left < base && Visible(base[|base| - 1]) > 0
    ensures VisibleAll(left) < VisibleAll(base)
  {
    var last := |base| - 1;
    assert base[..last] == left + base[|left|..last];
    VisibleAllConcat(left, base[|left|..last]);
  }

  /** The shared directory is not named by white space and dots alone. */
  predicate IsNamedVisibly(root: string) {
    RootSegments(root) != [] && Visible(RootSegments(root)[|RootSegments(root)| - 1]) > 0
  }

  /** No path below the root that shows as much as kept does is kept below what is left. */
  lemma VisiblyElsewhere(base: seq<string>, left: seq<string>, served: seq<string>, kept: seq<string>)
    requires left < base && Visible(base[|base| - 1]) > 0 && VisibleAll(served) == VisibleAll(kept)
    ensures base + served != left + kept
  {
    VisibleAllConcat(base, served);
    VisibleAllConcat(left, kept);
    LeftShowsLess(base, left);
  }

  lemma EscapingMisses(root: string, dir: string, p: string, follow: string -> RealPath)
    requires Rooted(root) && Clean(root) != "/" && IsNamedVisibly(root)
    requires IsBytes(dir) && IsBytes(p) && p != "" && !Rooted(p) && !Rooted(dir) && Escapes(dir, p)
    ensures
      ResolveScopedPath(root, TrimChar(TrimSpace(CleanMarkdownPath(dir, p)), '/'), follow) != Opens(Named(root, dir, p))
  {
    LinkPaths(root, dir, p);
    var kept := Walk(true, [], LinkSegments(dir, p));
    var rel := Join(kept, '/');
    if ".." !in Split(TrimChar(TrimSpace(rel), '/'), '/') {
      VisibleServed(rel);
    }
    VisibleJoin(kept);
    ResolvedElsewhere(root, NamedRoot(root, dir, p), kept, TrimChar(TrimSpace(rel), '/'), follow);
  }

  lemma ResolvedElsewhere(root: string, left: seq<string>, kept: seq<string>, rel: string, follow: string -> RealPath)
    requires Rooted(root) && Clean(root) != "/" && IsNamedVisibly(root)
    requires left < RootSegments(root) && AreNames(kept)
    requires ".." in Split(rel, '/') || VisibleAll(Walk(true, [], Split(rel, '/'))) == VisibleAll(kept)
    ensures ResolveScopedPath(root, rel, follow) != Opens("/" + Join(left + kept, '/'))
  {
    if ".." !in Split(rel, '/') {
      SegmentsDiffer(root, left, kept, rel);
    }
    NeverOpens(root, rel, "/" + Join(left + kept, '/'), follow);
  }

  lemma NeverOpens(root: string, rel: string, other: string, follow: string -> RealPath)
    requires Rooted(root) && Clean(root) != "/"
    requires ".." in Split(rel, '/') || other != "/" + Join(RootSegments(root) + Walk(true, [], Split(rel, '/')), '/')
    ensures ResolveScopedPath(root, rel, follow) != Opens(other)
  {
    ResolveAny(root, rel, follow);
  }

  lemma SegmentsDiffer(root: string, left: seq<string>, kept: seq<string>, rel: string)
    requires IsNamedVisibly(root) && left < RootSegments(root) && AreNames(kept)
    requires VisibleAll(Walk(true, [], Split(rel, '/'))) == VisibleAll(kept)
    ensures "/" + Join(RootSegments(root) + Walk(true, [], Split(rel, '/')), '/') != "/" + Join(left + kept, '/')
  {
    WalkKeeps(true, Split(rel, '/'));
    WalkKeeps(true, Split(root, '/'));
    PathsDiffer(RootSegments(root), left, Walk(true, [], Split(rel, '/')), kept);
  }

  lemma PathsDiffer(base: seq<string>, left: seq<string>, served: seq<string>, kept: seq<string>)
    requires AreNames(base) && AreNames(served) && AreNames(kept)
    requires left < base && Visible(base[|base| - 1]) > 0 && VisibleAll(served) == VisibleAll(kept)
    ensures "/" + Join(base + served, '/') != "/" + Join(left + kept, '/')
  {
    VisiblyElsewhere(base, left, served, kept);
    SplitJoinInjective(base + served, left + kept);
  }

  /** For a visibly named directory the condition is complete: following any local link,
      however it is written, opens exactly the file it names if and only if the link stays
      in the share, its cleaned path needs no trimming, and no symlink leads out. */
  lemma EveryLinkReachesItsFile(
    route: Route, id: string, query: string, root: string, docRel: string, target: string, p: string,
    follow: string -> RealPath)
    requires OpaqueId(id) && Rooted(root) && Clean(root) != "/" && IsNamedVisibly(root)
    requires IsBytes(docRel) && !Rooted(docRel) && IsBytes(target)
    requires LocalPath(target) == Some(p)
    ensures IsBytes(CleanMarkdownPath(CurrentDir(docRel), p))
    ensures var dir := CurrentDir(docRel);
      var rel := CleanMarkdownPath(dir, p);
      Served(route, id, query, root, docRel, p, follow) == Opens(Named(root, dir, p)) <==>
        !Escapes(dir, p) && TrimSpace(rel) == rel && Allowed(root, rel, Named(root, dir, p), follow)
  {
    var dir := CurrentDir(docRel);
    LinkReachesItsFile(route, id, query, root, docRel, target, p, follow);
    if Escapes(dir, p) {
      DocumentDir(docRel);
      LocalPathBytes(target);
      RequestReaches(route, id, CleanMarkdownPath(dir, p), query, root, follow);
      EscapingMisses(root, dir, p, follow);
    }
  }

  // Why the name matters: from a share of `/u/ `, the link `../ /a` leaves the share for the
  // directory named by one space, which is the share, and trimming hides that.

  predicate IsBlankRoot(root: string) {
    root == ['/', 'u', '/', ' ']
  }

  predicate IsBlankLink(p: string) {
    p == ['.', '.', '/', ' ', '/', 'a']
  }

  lemma BlankRoot(root: string)
    requires IsBlankRoot(root)
    ensures Rooted(root) && RootSegments(root) == [['u'], [' ']] && Clean(root) != "/"
  {
    var names := [['u'], [' ']];
    assert names[1..] == [[' ']];
    assert Join(names, '/') == ['u', '/', ' '];
    CleanRooted(names);
    assert root == "/" + Join(names, '/');
    assert root[1..] == Join(names, '/');
    SplitJoin(names, '/');
    WalkAppend(true, [], [""], names);
    WalkNames(true, [], names);
    assert [""][..0] == [] && [] + names == names;
  }

  lemma UpThenNames(names: seq<string>)
    requires AreNames(names)
    ensures Walk(true, [], [".."] + names) == names
    ensures Walk(false, [], [".."] + names) == [".."] + names
  {
    var up := [".."];
    assert up[..0] == [] && up[0] == "..";
    assert Walk(true, [], up) == Push(true, [], "..") == [];
    assert Walk(false, [], up) == Push(false, [], "..") == [] + up == up;
    WalkAppend(true, [], up, names);
    WalkAppend(false, [], up, names);
    WalkNames(true, [], names);
    WalkNames(false, up, names);
    assert [] + names == names;
  }

  lemma BlankSplit(p: string)
    requires IsBlankLink(p)
    ensures Split(p, '/') == [".."] + [[' '], ['a']] && IsBytes(p) && p != "" && !Rooted(p)
  {
    var kept := [[' '], ['a']];
    var parts := [".."] + kept;
    assert parts[1..] == kept && kept[1..] == [['a']];
    assert Join(kept, '/') == [' ', '/', 'a'] && Join(parts, '/') == p;
    SplitJoin(parts, '/');
  }

  lemma BlankWalks(p: string)
    requires IsBlankLink(p)
    ensures IsBytes(p) && p != "" && !Rooted(p)
    ensures Walk(true, [], LinkSegments("", p)) == [[' '], ['a']]
    ensures Ups(Walk(false, [], LinkSegments("", p))) == 1
  {
    BlankSplit(p);
    UpThenNames([[' '], ['a']]);
    var up := [".."] + [[' '], ['a']];
    assert up[1] == [' '];
    UpsIs(up, 1);
  }

  lemma BlankGoes(s: string, rest: string)
    requires s == [' '] + rest && rest != "" && '!' <= rest[0] <= '~' && '!' <= rest[|rest| - 1] <= '~'
    ensures TrimSpace(s) == rest
  {
    VisibleEndsStay(rest);
    TrimSpaceFixed(rest);
    assert SpaceAtStart(s) == 1 && s[1..] == rest;
  }

  lemma SlashGoes(s: string, rest: string)
    requires s == ['/'] + rest && rest != "" && rest[0] != '/' && rest[|rest| - 1] != '/'
    ensures TrimChar(s, '/') == rest
  {
    assert s[1..] == rest;
  }

  lemma BlankTrims()
    ensures TrimChar(TrimSpace(Join([[' '], ['a']], '/')), '/') == ['a']
  {
    var kept, rest := [[' '], ['a']], ['/', 'a'];
    assert kept[1..] == [['a']] && Join(kept, '/') == [' '] + rest;
    BlankGoes([' '] + rest, rest);
    SlashGoes(rest, ['a']);
  }

  /** A link that climbs one directory of its root and comes back into it. */
  lemma ClimbsAndReturns(root: string, p: string, above: seq<string>, name: string, last: string)
    requires Rooted(root) && Clean(root) != "/" && RootSegments(root) == above + [name]
    requires IsBytes(p) && p != "" && !Rooted(p)
    requires Walk(true, [], LinkSegments("", p)) == [name, last] && Ups(Walk(false, [], LinkSegments("", p))) == 1
    ensures Escapes("", p) && AreNames([name, last])
    ensures CleanMarkdownPath("", p) == Join([name, last], '/')
    ensures Named(root, "", p) == "/" + Join(above + [name] + [last], '/')
  {
    EscapesIsUps("", p);
    LinkPaths(root, "", p);
    LastTaken(above, name, last);
  }

  lemma LastTaken(above: seq<string>, name: string, last: string)
    ensures (above + [name])[..|above|] == above
    ensures above + [name, last] == above + [name] + [last]
  {
  }

  lemma OpensBelow(root: string, base: seq<string>, last: string, follow: string -> RealPath)
    requires Rooted(root) && Clean(root) != "/" && RootSegments(root) == base && IsName(last)
    requires NoLinkLeaves(root, "/" + Join(base + [last], '/'), follow)
    ensures ResolveScopedPath(root, last, follow) == Opens("/" + Join(base + [last], '/'))
  {
    ResolveClean(root, [last], follow);
    assert Join([last], '/') == last;
  }

  /** Such a link is served when trimming takes the directory's name from its path, and so
      leaves what lies below it. */
  lemma BlankDirectoryIsReentered(
    root: string, p: string, above: seq<string>, name: string, last: string, follow: string -> RealPath)
    requires Rooted(root) && Clean(root) != "/" && RootSegments(root) == above + [name]
    requires IsBytes(p) && p != "" && !Rooted(p)
    requires Walk(true, [], LinkSegments("", p)) == [name, last] && Ups(Walk(false, [], LinkSegments("", p))) == 1
    requires TrimChar(TrimSpace(Join([name, last], '/')), '/') == last
    requires NoLinkLeaves(root, Named(root, "", p), follow)
    ensures Escapes("", p)
    ensures
      ResolveScopedPath(root, TrimChar(TrimSpace(CleanMarkdownPath("", p)), '/'), follow) == Opens(Named(root, "", p))
  {
    ClimbsAndReturns(root, p, above, name, last);
    assert IsName([name, last][1]);
    OpensBelow(root, above + [name], last, follow);
  }

  /** The root and the link above are such. */
  lemma BlankExample(root: string, p: string)
    requires IsBlankRoot(root) && IsBlankLink(p)
    ensures Rooted(root) && Clean(root) != "/" && RootSegments(root) == [['u']] + [[' ']]
    ensures IsBytes(p) && p != "" && !Rooted(p)
    ensures Walk(true, [], LinkSegments("", p)) == [[' '], ['a']] && Ups(Walk(false, [], LinkSegments("", p))) == 1
    ensures TrimChar(TrimSpace(Join([[' '], ['a']], '/')), '/') == ['a']
  {
    BlankRoot(root);
    BlankWalks(p);
    BlankTrims();
  }
}
