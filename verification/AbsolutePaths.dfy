/** Absolute paths: directory and base name, the path the daemon stores, and where the
    snapshots lie. */
module AbsolutePaths {
  import opened Text
  import opened Links

  // ------------------------------------------------------ directory and base name

  lemma {:induction false} DirPartEndsAtSlash(a: string, b: string)
    requires '/' !in b
    ensures DirPart(a + "/" + b) == a + "/"
    decreases |b|
  {
    var s := a + "/" + b;
    if b != "" {
      assert b[|b| - 1] in b;
      assert s[..|s| - 1] == a + "/" + b[..|b| - 1];
      DirPartEndsAtSlash(a, b[..|b| - 1]);
    }
  }

  lemma WalkOfJoined(names: seq<string>)
    requires AreNames(names)
    ensures Walk(true, [], Split(Join(names, '/'), '/')) == names
  {
    if names == [] {
      assert [""][..0] == [];
    } else {
      SplitJoin(names, '/');
      WalkNames(true, [], names);
      assert [] + names == names;
    }
  }

  lemma CleanOfJoined(names: seq<string>, segment: string)
    requires AreNames(names) && '/' !in segment
    ensures Clean("/" + (Join(names, '/') + "/" + segment)) == "/" + Join(Push(true, names, segment), '/')
  {
    var s := Join(names, '/') + ['/'] + segment;
    CleanUnderSlash(s);
    SplitConcat(Join(names, '/'), segment, '/');
    SplitOne(segment, '/');
    WalkOfJoined(names);
    WalkAppend(true, [], Split(Join(names, '/'), '/'), [segment]);
    assert [segment][..0] == [];
  }

  /** The path of these segments, without a slash of its own for none. */
  function Above(names: seq<string>): string {
    if names == [] then "" else "/" + Join(names, '/')
  }

  lemma DirAndBaseOf(above: string, base: string)
    requires IsName(base)
    ensures Dir(above + "/" + base) == Clean(above + "/") && Base(above + "/" + base) == base
  {
    var path := above + "/" + base;
    DirPartEndsAtSlash(above, base);
    assert path[|above + "/"|..] == base;
    assert path[|path| - 1] == base[|base| - 1] && base[|base| - 1] in base;
  }

  lemma CleanAbove(init: seq<string>)
    requires AreNames(init)
    ensures Clean(Above(init) + "/") == "/" + Join(init, '/')
  {
    CleanOfJoined(init, "");
    if init == [] {
      CleanUnderSlash("");
      WalkOfJoined([]);
      assert "" + "/" == "/" + "" == "/";
    } else {
      assert "/" + Join(init, '/') + "/" == "/" + (Join(init, '/') + "/" + "");
    }
  }

  lemma SplitLast(init: seq<string>, base: string)
    requires AreNames(init) && IsName(base)
    ensures "/" + Join(init + [base], '/') == Above(init) + "/" + base
  {
    if init != [] {
      JoinConcat(init, [base], '/');
      Regroup("/", Join(init, '/'), ['/']);
      Regroup("/", Join(init, '/') + ['/'], base);
    }
  }

  lemma JoinLast(init: seq<string>, base: string)
    requires AreNames(init) && IsName(base)
    ensures JoinPath("/" + Join(init, '/'), base) == "/" + Join(init + [base], '/')
  {
    CleanOfJoined(init, base);
    Regroup("/", Join(init, '/'), "/");
    Regroup("/", Join(init, '/') + "/", base);
  }

  /** A clean absolute path other than `/` is its directory joined with its base name. */
  lemma DirAndBase(path: string)
    requires Rooted(path) && Clean(path) == path && path != "/"
    ensures IsName(Base(path)) && Rooted(Dir(path)) && Clean(Dir(path)) == Dir(path)
    ensures JoinPath(Dir(path), Base(path)) == path
  {
    CleanOfRoot(path);
    var names := RootSegments(path);
    assert names != [];
    var init, base := names[..|names| - 1], names[|names| - 1];
    assert names == init + [base] && IsName(base);
    SplitLast(init, base);
    JoinLast(init, base);
    DirAndBaseOf(Above(init), base);
    CleanAbove(init);
    CleanRooted(init);
  }

  // ------------------------------------------------------------ the path of a share

  /** filepath.Abs, given the working directory. */
  function AbsPath(cwd: string, path: string): string {
    if Rooted(path) then Clean(path) else JoinPath(cwd, path)
  }

  /** A relative path is walked on from the working directory's own segments: each `..` it
      is left with takes one of them away, and what is left of it follows. */
  lemma RelativeIsWalkedOn(cwd: string, path: string)
    requires Rooted(cwd) && !Rooted(path)
    ensures AbsPath(cwd, path) == "/" + Join(From(RootSegments(cwd), Walk(false, [], Split(path, '/'))), '/')
  {
    assert cwd + "/" + path == cwd + ['/'] + path;
    SplitConcat(cwd, path, '/');
    WalkAppend(true, [], Split(cwd, '/'), Split(path, '/'));
    CleanOfRoot(cwd);
    WalkFrom(RootSegments(cwd), Split(path, '/'));
  }

  /** The path the daemon stores for the path it is asked to share. */
  function StoredPath(path: string): string {
    AbsPath("", TrimSpace(path))
  }

  /** A clean absolute path is stored as it is exactly when its ends are not white space. */
  lemma StoredAsAsked(path: string)
    requires Rooted(path) && Clean(path) == path
    ensures StoredPath(path) == path <==> TrimSpace(path) == path
  {
    TrimSpaceFixed(path);
    TrimKeepsRoot(path);
    if TrimSpace(path) != path {
      CleanNotLonger(TrimSpace(path));
    }
  }

  lemma TrimKeepsRoot(path: string)
    requires Rooted(path)
    ensures Rooted(TrimSpace(path))
  {
    assert TrimLeft(path) == path;
    RootSurvives(path);
  }

  lemma {:induction false} RootSurvives(path: string)
    requires Rooted(path)
    ensures Rooted(TrimRight(path))
    decreases |path|
  {
    var n := SpaceAtEnd(path);
    if n > 0 {
      assert n < |path|;
      RootSurvives(path[..|path| - n]);
    }
  }

  // -------------------------------------------------------------------- snapshots

  /** Where a share's snapshot is put; `name` is the base name of a shared file. */
  function SnapshotRoot(snapshotsDir: string, id: string, isDir: bool, name: string): string {
    var own := JoinPath(snapshotsDir, id);
    if isDir then JoinPath(own, "root") else JoinPath(own, "file/" + name)
  }

  /** What is removed to clean up a snapshot. */
  function CleanupTarget(snapshotRoot: string): string {
    Dir(Dir(snapshotRoot))
  }

  lemma DirOfJoined(init: seq<string>, base: string)
    requires AreNames(init) && IsName(base)
    ensures Dir("/" + Join(init + [base], '/')) == "/" + Join(init, '/')
  {
    SplitLast(init, base);
    DirAndBaseOf(Above(init), base);
    CleanAbove(init);
  }

  /** Cleaning up the snapshot of a directory removes the directory of all snapshots;
      that of a file, the share's own. */
  lemma CleanupRemoves(snapshotsDir: string, id: string, name: string)
    requires Rooted(snapshotsDir) && Clean(snapshotsDir) == snapshotsDir && IsName(id) && IsName(name)
    ensures CleanupTarget(SnapshotRoot(snapshotsDir, id, true, name)) == snapshotsDir
    ensures CleanupTarget(SnapshotRoot(snapshotsDir, id, false, name)) == JoinPath(snapshotsDir, id)
    ensures Dir(JoinPath(snapshotsDir, id)) == snapshotsDir != JoinPath(snapshotsDir, id)
  {
    CleanOfRoot(snapshotsDir);
    var above := RootSegments(snapshotsDir);
    var own := above + [id];
    JoinLast(above, id);
    DirOfJoined(above, id);
    SplitLast(above, id);
    JoinLast(own, "root");
    DirOfJoined(own, "root");
    FileBelow(own, name);
    DirOfJoined(own, "file");
    DirOfJoined(own + ["file"], name);
    SplitJoinInjective(above, own);
  }

  lemma FileBelow(own: seq<string>, name: string)
    requires AreNames(own) && own != [] && IsName(name)
    ensures JoinPath("/" + Join(own, '/'), "file/" + name) == "/" + Join(own + ["file"] + [name], '/')
  {
    JoinLast(own + ["file"], name);
    JoinConcat(own, ["file"], '/');
    var s := "/" + Join(own, '/');
    Regroup("/", Join(own, '/') + ['/'], "file");
    Regroup("/", Join(own, '/'), ['/']);
    Regroup(s + "/", "file/", name);
    Regroup(s + "/", "file", "/");
    assert "file" + "/" == "file/";
  }

  lemma SplitJoinInjective(a: seq<string>, b: seq<string>)
    requires AreNames(a) && AreNames(b) && a != b
    ensures "/" + Join(a, '/') != "/" + Join(b, '/')
  {
    JoinInjective(a, b);
    assert ("/" + Join(a, '/'))[1..] == Join(a, '/') && ("/" + Join(b, '/'))[1..] == Join(b, '/');
  }
}
