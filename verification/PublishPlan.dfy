/** What a publish shares: the path it was asked for, or, for a Markdown file that links
    to files beside it, the directory that file lies in. */
module PublishPlan {
  import opened Options
  import opened Text
  import opened Links
  import opened Targets
  import opened AbsolutePaths

  // ----------------------------------------------------------------- the plan

  /** What comes of reading a document and rendering it: the targets of its links and
      images, or an error. */
  datatype Document = Unreadable | Unrenderable | Rendered(targets: seq<string>)

  /** What is found at the path, or that looking failed. For a file: whether its name is
      that of a Markdown document, and then the document. */
  datatype OnDisk = Absent | StatFails | Directory | Other(markdown: bool, document: Document)

  datatype Plan = Plan(requestedPath: string, sharePath: string, entryRel: string, isDir: bool)

  datatype Planned = Ok(plan: Plan) | NotFound | EscapingTargets | Failed

  /** A link to something beside its document: its path, walked on from there, is left
      with a segment. */
  predicate IsLocal(target: string) {
    LocalPath(target).Some? && Walk(false, [], Split(LocalPath(target).value, '/')) != []
  }

  /** Such a link that leads out of the document's directory. */
  predicate IsEscaping(target: string) {
    LocalPath(target).Some? && Escapes("", LocalPath(target).value)
  }

  lemma AnalysisIs(target: string)
    ensures Analyze(target) == (IsLocal(target), IsEscaping(target))
    ensures IsEscaping(target) ==> IsLocal(target)
  {
    AnalyzedExactlyWhen(target);
    if LocalPath(target).Some? {
      EscapesIsUps("", LocalPath(target).value);
    }
  }

  predicate NeedsDirectory(targets: seq<string>) {
    exists t :: t in targets && IsLocal(t)
  }

  predicate HasEscaping(targets: seq<string>) {
    exists t :: t in targets && IsEscaping(t)
  }

  lemma OneMoreTarget(targets: seq<string>, i: nat)
    requires i < |targets|
    ensures NeedsDirectory(targets[..i + 1]) <==> NeedsDirectory(targets[..i]) || IsLocal(targets[i])
    ensures HasEscaping(targets[..i + 1]) <==> HasEscaping(targets[..i]) || IsEscaping(targets[i])
  {
    assert targets[..i + 1] == targets[..i] + [targets[i]];
  }

  method AnalyzeDocument(targets: seq<string>) returns (needs: bool, escapes: bool)
    ensures needs <==> NeedsDirectory(targets)
    ensures escapes <==> HasEscaping(targets)
  {
    needs, escapes := false, false;
    for i := 0 to |targets|
      invariant needs <==> NeedsDirectory(targets[..i])
      invariant escapes <==> HasEscaping(targets[..i])
    {
      OneMoreTarget(targets, i);
      AnalysisIs(targets[i]);
      var (isLocal, leaves) := Analyze(targets[i]);
      if !isLocal {
        continue;
      }
      needs := true;
      if leaves {
        escapes := true;
      }
    }
    assert targets[..|targets|] == targets;
  }

  /** A document with a local link. */
  predicate NeedsBundle(disk: OnDisk) {
    disk.Other? && disk.markdown && disk.document.Rendered? && NeedsDirectory(disk.document.targets)
  }

  predicate CannotTell(disk: OnDisk) {
    disk.StatFails? || (disk.Other? && disk.markdown && !disk.document.Rendered?)
  }

  method ResolvePublishPlan(absPath: string, disk: OnDisk) returns (r: Planned)
    ensures r == NotFound <==> disk == Absent
    ensures r == Failed <==> CannotTell(disk)
    ensures r == EscapingTargets <==> NeedsBundle(disk) && HasEscaping(disk.document.targets)
    ensures r.Ok? && NeedsBundle(disk) ==> r.plan == Plan(absPath, Dir(absPath), Base(absPath), true)
    ensures r.Ok? && !NeedsBundle(disk) ==> r.plan == Plan(absPath, absPath, "", disk == Directory)
  {
    if disk == Absent {
      return NotFound;
    }
    if disk == StatFails {
      return Failed;
    }
    var plan := Plan(absPath, absPath, "", disk == Directory);
    if disk == Directory || !disk.markdown {
      return Ok(plan);
    }
    if !disk.document.Rendered? {
      return Failed;
    }
    var needs, escapes := AnalyzeDocument(disk.document.targets);
    if !needs {
      return Ok(plan);
    }
    if escapes {
      return EscapingTargets;
    }
    return Ok(plan.(sharePath := Dir(absPath), entryRel := Base(absPath), isDir := true));
  }

  lemma NamedIsJoined(root: string, p: string)
    requires Rooted(root)
    ensures Named(root, "", p) == JoinPath(root, p)
  {
    NamedIsWalk(root, "", p);
    assert root + "/" + p == root + ['/'] + p;
    SplitConcat(root, p, '/');
    WalkAppend(true, [], Split(root, '/'), Split(p, '/'));
  }

  /** A root that lost white space at its ends serves nothing from where it was. */
  lemma TrimmedRootMisses(root: string, p: string, follow: string -> RealPath)
    requires Rooted(root) && Clean(root) == root && root != "/" && StoredPath(root) != root
    requires IsBytes(p) && p != "" && !Rooted(p) && !Escapes("", p)
    ensures var rel := CleanMarkdownPath("", p);
      ResolveScopedPath(StoredPath(root), TrimChar(TrimSpace(rel), '/'), follow) != Opens(Named(root, "", p))
  {
    var rel, stored := CleanMarkdownPath("", p), StoredPath(root);
    StoredAsAsked(root);
    TrimSpaceFixed(root);
    TrimKeepsRoot(root);
    CleanNotLonger(TrimSpace(root));
    CleanOfRoot(TrimSpace(root));
    CleanNotLonger(stored);
    ResolvedNotLonger(stored, TrimChar(TrimSpace(rel), '/'), follow);
    LinkPaths(root, "", p);
    var kept := Walk(true, [], LinkSegments("", p));
    ResolveClean(root, kept, follow);
    JoinOfNames(kept);
  }

  /** A planned bundle is enough: the document lies at the top of the share, and every
      local link of it, followed through the daemon, which stores the directory without
      white space at its ends, opens the file it names beside the document. This is so
      exactly when neither the directory nor the cleaned link has such white space and no
      symlink leads out of the directory. */
  lemma BundleServesEveryLink(
    absPath: string, targets: seq<string>, i: nat, route: Route, id: string, query: string, follow: string -> RealPath)
    requires Rooted(absPath) && Clean(absPath) == absPath && absPath != "/" && Dir(absPath) != "/"
    requires IsBytes(Base(absPath)) && OpaqueId(id)
    requires i < |targets| && IsBytes(targets[i]) && IsLocal(targets[i]) && !HasEscaping(targets)
    ensures JoinPath(Dir(absPath), Base(absPath)) == absPath
    ensures var p := LocalPath(targets[i]).value;
      var dir, rel := Dir(absPath), CleanMarkdownPath(CurrentDir(Base(absPath)), p);
      && IsBytes(rel)
      && (Served(route, id, query, StoredPath(dir), Base(absPath), p, follow) == Opens(JoinPath(dir, p)) <==>
          StoredPath(dir) == dir && TrimSpace(rel) == rel && Allowed(dir, rel, JoinPath(dir, p), follow))
  {
    var p, dir := LocalPath(targets[i]).value, Dir(absPath);
    DirAndBase(absPath);
    NamedIsJoined(dir, p);
    assert targets[i] in targets && !IsEscaping(targets[i]);
    AnalysisIs(targets[i]);
    BundledLinkReachesItsFile(route, id, query, dir, Base(absPath), targets[i], follow);
    if StoredPath(dir) != dir {
      LocalPathBytes(targets[i]);
      RequestReaches(route, id, CleanMarkdownPath("", p), query, StoredPath(dir), follow);
      TrimmedRootMisses(dir, p, follow);
    }
  }
}
