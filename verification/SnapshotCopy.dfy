/** Taking a snapshot of a file or directory: a walk that measures, a walk that
    copies within a byte budget, and the removal of a snapshot that failed. */
module SnapshotCopy {
  import opened Int64

  const DEFAULT_SNAPSHOT_MAX_BYTES: int64 := 0x4000_0000

  type Content = seq<bv8>

  /** What a walk finds at a path. A file may refuse to be opened and a directory to
      be listed; `Special` is a device, pipe or socket with what reading it yields. */
  datatype Node =
    | File(content: Content, openable: bool)
    | Special(content: Content, openable: bool)
    | Symlink
    | Dir(entries: seq<Entry>, listable: bool)

  datatype Entry = Entry(name: string, node: Node)

  type Path = seq<string>

  datatype Out = OutDir(path: Path) | OutFile(path: Path, content: Content)

  // ------------------------------------------------- sizes and images of trees

  /** Bytes of the regular files alone: what the measuring walk adds up. */
  function RegularSize(node: Node): nat
    decreases node
  {
    match node
    case File(content, _) => |content|
    case Dir(entries, _) => RegularSizes(entries)
    case _ => 0
  }

  function RegularSizes(entries: seq<Entry>): nat
    decreases entries
  {
    if entries == [] then 0 else RegularSize(entries[0].node) + RegularSizes(entries[1..])
  }

  /** Bytes the copying walk meets: everything but symlinks. */
  function CopySize(node: Node): nat
    decreases node
  {
    match node
    case File(content, _) => |content|
    case Special(content, _) => |content|
    case Symlink => 0
    case Dir(entries, _) => CopySizes(entries)
  }

  function CopySizes(entries: seq<Entry>): nat
    decreases entries
  {
    if entries == [] then 0 else CopySize(entries[0].node) + CopySizes(entries[1..])
  }

  predicate Listable(node: Node)
    decreases node
  {
    node.Dir? ==> node.listable && AllListable(node.entries)
  }

  predicate AllListable(entries: seq<Entry>)
    decreases entries
  {
    entries == [] || (Listable(entries[0].node) && AllListable(entries[1..]))
  }

  predicate Openable(node: Node)
    decreases node
  {
    match node
    case File(_, openable) => openable
    case Special(_, openable) => openable
    case Symlink => true
    case Dir(entries, _) => AllOpenable(entries)
  }

  predicate AllOpenable(entries: seq<Entry>)
    decreases entries
  {
    entries == [] || (Openable(entries[0].node) && AllOpenable(entries[1..]))
  }

  /** The tree below `path` with its symlinks pruned, in walk order. */
  function Image(node: Node, path: Path): seq<Out>
    decreases node
  {
    match node
    case File(content, _) => [OutFile(path, content)]
    case Special(content, _) => [OutFile(path, content)]
    case Symlink => []
    case Dir(entries, _) => [OutDir(path)] + Images(entries, path)
  }

  function Images(entries: seq<Entry>, path: Path): seq<Out>
    decreases entries
  {
    if entries == [] then []
    else Image(entries[0].node, path + [entries[0].name]) + Images(entries[1..], path)
  }

  function BytesIn(outs: seq<Out>): nat {
    if outs == [] then 0
    else
      var last := |outs| - 1;
      BytesIn(outs[..last]) + if outs[last].OutFile? then |outs[last].content| else 0
  }

  lemma BytesInAppend(outs: seq<Out>, o: Out)
    ensures BytesIn(outs + [o]) == BytesIn(outs) + if o.OutFile? then |o.content| else 0
  {
    assert (outs + [o])[..|outs|] == outs;
  }

  // --------------------------------------------------------- the measuring walk

  datatype Walked = Continue | SkipAll | WalkError

  class Measure {
    const maxBytes: int64
    var total: int64

    constructor (maxBytes: int64)
      ensures this.maxBytes == maxBytes && total == 0
    {
      this.maxBytes, total := maxBytes, 0;
    }

    method Visit(node: Node) returns (w: Walked)
      requires 0 <= total <= maxBytes && maxBytes as int < MAX_INT64
      modifies this
      ensures w == Continue <==> Listable(node) && old(total) as int + RegularSize(node) <= maxBytes as int
      ensures w == Continue ==> total as int == old(total) as int + RegularSize(node)
      ensures w == SkipAll ==> total == maxBytes + 1 && old(total) as int + RegularSize(node) > maxBytes as int
      ensures w == WalkError ==> !Listable(node)
      decreases node
    {
      match node
      case File(content, _) =>
        if |content| > (maxBytes - total) as int {
          total := maxBytes + 1;
          return SkipAll;
        }
        total := total + |content| as int64;
        return Continue;
      case Dir(entries, listable) =>
        if !listable {
          return WalkError;
        }
        w := VisitAll(entries);
      case _ =>
        return Continue;
    }

    method VisitAll(entries: seq<Entry>) returns (w: Walked)
      requires 0 <= total <= maxBytes && maxBytes as int < MAX_INT64
      modifies this
      ensures w == Continue <==> AllListable(entries) && old(total) as int + RegularSizes(entries) <= maxBytes as int
      ensures w == Continue ==> total as int == old(total) as int + RegularSizes(entries)
      ensures w == SkipAll ==> total == maxBytes + 1 && old(total) as int + RegularSizes(entries) > maxBytes as int
      ensures w == WalkError ==> !AllListable(entries)
      decreases entries
    {
      if entries == [] {
        return Continue;
      }
      w := Visit(entries[0].node);
      if w != Continue {
        return;
      }
      w := VisitAll(entries[1..]);
    }
  }

  /** What is found at a share's source path when links are followed. A directory may be
      named through a symlink: to the walk it is then a link, and the walk ends there. */
  datatype Source =
    | SourceFile(content: Content, openable: bool)
    | SourceSpecial(content: Content, openable: bool)
    | SourceDir(entries: seq<Entry>, listable: bool, viaLink: bool)
    | SourceAbsent

  /** The tree the walk sees below the root. */
  function Walkable(source: Source): seq<Entry>
    requires source.SourceDir?
  {
    if source.viaLink then [] else source.entries
  }

  predicate RootListable(source: Source)
    requires source.SourceDir?
  {
    source.viaLink || source.listable
  }

  /** The source is a directory and every directory below it can be listed. */
  predicate DirWalks(source: Source) {
    source.SourceDir? && RootListable(source) && AllListable(Walkable(source))
  }

  predicate MeasureSucceeds(source: Source, isDir: bool) {
    if isDir then DirWalks(source) else source.SourceFile?
  }

  function Measured(source: Source): nat {
    match source
    case SourceFile(content, _) => |content|
    case SourceDir(_, _, _) => RegularSizes(Walkable(source))
    case _ => 0
  }

  predicate CopySucceeds(source: Source, isDir: bool) {
    if isDir then DirWalks(source) && AllOpenable(Walkable(source))
    else (source.SourceFile? || source.SourceSpecial?) && source.openable
  }

  function Copied(source: Source): nat {
    match source
    case SourceFile(content, _) => |content|
    case SourceSpecial(content, _) => |content|
    case SourceDir(_, _, _) => CopySizes(Walkable(source))
    case SourceAbsent => 0
  }

  /** A file's size is an int64. */
  predicate SizeFits(source: Source) {
    source.SourceFile? ==> |source.content| <= MAX_INT64
  }

  method SnapshotSize(source: Source, isDir: bool, maxBytes: int64) returns (size: int64, failed: bool)
    requires 0 <= maxBytes && maxBytes as int < MAX_INT64 && SizeFits(source)
    ensures !failed && size <= maxBytes <==> MeasureSucceeds(source, isDir) && Measured(source) <= maxBytes as int
    ensures !failed && size <= maxBytes ==> size as int == Measured(source)
    ensures failed ==> !MeasureSucceeds(source, isDir)
    ensures !failed && size > maxBytes ==> Measured(source) > maxBytes as int
    ensures !isDir ==> (failed <==> !source.SourceFile?) && (!failed ==> size as int == |source.content|)
    ensures isDir ==> (!failed && size <= maxBytes <==> MeasuresWithin(source, maxBytes as int))
  {
    MeasuresExactlyWhen(source, maxBytes as int);
    if !isDir {
      if !source.SourceFile? {
        return 0, true;
      }
      return |source.content| as int64, false;
    }
    if !source.SourceDir? || !RootListable(source) {
      return 0, true;
    }
    var measure := new Measure(maxBytes);
    var w := measure.VisitAll(Walkable(source));
    if w == WalkError {
      return 0, true;
    }
    return measure.total, false;
  }

  /** What a complete snapshot of the source holds. */
  function SnapshotOf(source: Source, name: string): seq<Out> {
    match source
    case SourceFile(content, _) => [OutFile(["file", name], content)]
    case SourceSpecial(content, _) => [OutFile(["file", name], content)]
    case SourceDir(_, _, _) => [OutDir(["root"])] + Images(Walkable(source), ["root"])
    case SourceAbsent => []
  }

  // ----------------------------------------------------------- the copying walk

  /** remaining + 1 in 64-bit arithmetic: the limit a file is read up to. */
  function ReadLimit(remaining: int64): int64 {
    Wrap64(remaining as int + 1) as int64
  }

  /** What a limited reader yields of a file: nothing when the limit is not positive. */
  function Limited(content: Content, limit: int64): Content {
    if limit <= 0 then [] else if |content| <= limit as int then content else content[..limit]
  }

  datatype CopyResult = CopyOk | OverLimit | CopyError

  class Copier {
    var remaining: int64
    var written: seq<Out>

    constructor (maxBytes: int64)
      ensures remaining == maxBytes && written == []
    {
      remaining, written := maxBytes, [];
    }

    method CopyFile(content: Content, openable: bool, path: Path) returns (r: CopyResult)
      requires 0 <= remaining && remaining as int < MAX_INT64
      modifies this
      ensures 0 <= remaining <= old(remaining)
      ensures r == CopyOk <==> openable && |content| <= old(remaining) as int
      ensures r == CopyError ==> !openable
      ensures r == OverLimit ==> |content| > old(remaining) as int
      ensures r == CopyOk ==> written == old(written) + [OutFile(path, content)]
      ensures r == CopyOk ==> remaining as int == old(remaining) as int - |content|
      ensures r == CopyOk ==> BytesIn(written) + remaining as int == BytesIn(old(written)) + old(remaining) as int
      ensures old(written) <= written
      ensures BytesIn(written) <= BytesIn(old(written)) + old(remaining) as int + 1
    {
      if !openable {
        return CopyError;
      }
      var copied := Limited(content, ReadLimit(remaining));
      BytesInAppend(written, OutFile(path, copied));
      written := written + [OutFile(path, copied)];
      if |copied| > remaining as int {
        return OverLimit;
      }
      remaining := remaining - |copied| as int64;
      return CopyOk;
    }

    method Copy(node: Node, path: Path) returns (r: CopyResult)
      requires 0 <= remaining && remaining as int < MAX_INT64
      modifies this
      ensures 0 <= remaining <= old(remaining)
      ensures r == CopyOk <==> Listable(node) && Openable(node) && CopySize(node) <= old(remaining) as int
      ensures r == CopyError ==> !(Listable(node) && Openable(node))
      ensures r == OverLimit ==> CopySize(node) > old(remaining) as int
      ensures r == CopyOk ==> written == old(written) + Image(node, path)
      ensures r == CopyOk ==> remaining as int == old(remaining) as int - CopySize(node)
      ensures r == CopyOk ==> BytesIn(written) + remaining as int == BytesIn(old(written)) + old(remaining) as int
      ensures old(written) <= written
      ensures BytesIn(written) <= BytesIn(old(written)) + old(remaining) as int + 1
      decreases node
    {
      match node
      case File(content, openable) =>
        r := CopyFile(content, openable, path);
      case Special(content, openable) =>
        r := CopyFile(content, openable, path);
      case Symlink =>
        return CopyOk;
      case Dir(entries, listable) =>
        BytesInAppend(written, OutDir(path));
        written := written + [OutDir(path)];
        if !listable {
          return CopyError;
        }
        r := CopyAll(entries, path);
    }

    method CopyAll(entries: seq<Entry>, path: Path) returns (r: CopyResult)
      requires 0 <= remaining && remaining as int < MAX_INT64
      modifies this
      ensures 0 <= remaining <= old(remaining)
      ensures r == CopyOk <==>
        AllListable(entries) && AllOpenable(entries) && CopySizes(entries) <= old(remaining) as int
      ensures r == CopyError ==> !(AllListable(entries) && AllOpenable(entries))
      ensures r == OverLimit ==> CopySizes(entries) > old(remaining) as int
      ensures r == CopyOk ==> written == old(written) + Images(entries, path)
      ensures r == CopyOk ==> remaining as int == old(remaining) as int - CopySizes(entries)
      ensures r == CopyOk ==> BytesIn(written) + remaining as int == BytesIn(old(written)) + old(remaining) as int
      ensures old(written) <= written
      ensures BytesIn(written) <= BytesIn(old(written)) + old(remaining) as int + 1
      decreases entries
    {
      if entries == [] {
        return CopyOk;
      }
      ghost var first, rest := Image(entries[0].node, path + [entries[0].name]), Images(entries[1..], path);
      r := Copy(entries[0].node, path + [entries[0].name]);
      if r != CopyOk {
        return;
      }
      assert written == old(written) + first;
      r := CopyAll(entries[1..], path);
      assert old(written) + first + rest == old(written) + (first + rest);
    }

    /** Copies the source as the directory or file it was taken for. */
    method CopySource(source: Source, isDir: bool, name: string) returns (r: CopyResult)
      requires 0 <= remaining && remaining as int < MAX_INT64 && written == []
      modifies this
      ensures 0 <= remaining
      ensures r == CopyOk <==> CopySucceeds(source, isDir) && Copied(source) <= old(remaining) as int
      ensures r == CopyError ==> !CopySucceeds(source, isDir)
      ensures r == OverLimit ==> Copied(source) > old(remaining) as int
      ensures !isDir ==> (r == CopyOk <==> OpensWithin(source, old(remaining) as int))
      ensures isDir ==> (r == CopyOk <==> CopiesWithin(source, old(remaining) as int))
      ensures r == CopyOk ==> written == SnapshotOf(source, name)
      ensures r == CopyOk ==> BytesIn(written) + remaining as int == old(remaining) as int
      ensures BytesIn(written) <= old(remaining) as int + 1
    {
      CopiesExactlyWhen(source, remaining as int);
      if isDir {
        r := CopyTree(source);
        assert r == CopyOk ==> written == SnapshotOf(source, name);
      } else {
        r := CopyOneFile(source, ["file", name]);
      }
    }

    method CopyTree(source: Source) returns (r: CopyResult)
      requires 0 <= remaining && remaining as int < MAX_INT64 && written == []
      modifies this
      ensures 0 <= remaining
      ensures r == CopyOk <==> CopySucceeds(source, true) && Copied(source) <= old(remaining) as int
      ensures r == CopyError ==> !CopySucceeds(source, true)
      ensures r == OverLimit ==> Copied(source) > old(remaining) as int
      ensures r == CopyOk ==> written == [OutDir(["root"])] + Images(Walkable(source), ["root"])
      ensures r == CopyOk ==> BytesIn(written) + remaining as int == old(remaining) as int
      ensures BytesIn(written) <= old(remaining) as int + 1
    {
      if !source.SourceDir? {
        return CopyError;
      }
      BytesInAppend([], OutDir(["root"]));
      written := written + [OutDir(["root"])];
      if !RootListable(source) {
        return CopyError;
      }
      r := CopyAll(Walkable(source), ["root"]);
    }

    /** A directory opens as a file does, and then cannot be read. */
    method CopyOneFile(source: Source, path: Path) returns (r: CopyResult)
      requires 0 <= remaining && remaining as int < MAX_INT64 && written == []
      modifies this
      ensures 0 <= remaining
      ensures r == CopyOk <==> CopySucceeds(source, false) && Copied(source) <= old(remaining) as int
      ensures r == CopyError ==> !CopySucceeds(source, false)
      ensures r == OverLimit ==> Copied(source) > old(remaining) as int
      ensures r == CopyOk ==> written == [OutFile(path, source.content)]
      ensures r == CopyOk ==> BytesIn(written) + remaining as int == old(remaining) as int
      ensures BytesIn(written) <= old(remaining) as int + 1
    {
      if source.SourceAbsent? {
        return CopyError;
      }
      if source.SourceDir? {
        BytesInAppend(written, OutFile(path, []));
        written := written + [OutFile(path, [])];
        return CopyError;
      }
      r := CopyFile(source.content, source.openable, path);
    }
  }

  // ------------------------------------------- what a snapshot asks of its source

  /** The node is met in the tree: it is its top, or met in the tree of an entry. */
  ghost predicate Within(node: Node, n: Node)
    decreases node
  {
    node == n || (node.Dir? && Met(node.entries, n))
  }

  ghost predicate Met(entries: seq<Entry>, n: Node)
    decreases entries
  {
    exists i :: 0 <= i < |entries| && Within(entries[i].node, n)
  }

  lemma MetFirstOrRest(entries: seq<Entry>, n: Node)
    requires entries != []
    ensures Met(entries, n) <==> Within(entries[0].node, n) || Met(entries[1..], n)
  {
    assert forall i :: 0 <= i < |entries[1..]| ==> entries[1..][i] == entries[i + 1];
    assert forall i :: 0 < i < |entries| ==> entries[i] == entries[1..][i - 1];
  }

  lemma {:induction false} ListableExactlyWhen(node: Node)
    ensures Listable(node) <==> forall n :: Within(node, n) && n.Dir? ==> n.listable
    decreases node
  {
    if node.Dir? {
      AllListableExactlyWhen(node.entries);
      assert Within(node, node);
    }
  }

  lemma {:induction false} AllListableExactlyWhen(entries: seq<Entry>)
    ensures AllListable(entries) <==> forall n :: Met(entries, n) && n.Dir? ==> n.listable
    decreases entries
  {
    if entries != [] {
      ListableExactlyWhen(entries[0].node);
      AllListableExactlyWhen(entries[1..]);
      forall n ensures Met(entries, n) <==> Within(entries[0].node, n) || Met(entries[1..], n) {
        MetFirstOrRest(entries, n);
      }
    }
  }

  lemma {:induction false} OpenableExactlyWhen(node: Node)
    ensures Openable(node) <==> forall n :: Within(node, n) && (n.File? || n.Special?) ==> n.openable
    decreases node
  {
    if node.Dir? {
      AllOpenableExactlyWhen(node.entries);
    } else {
      assert Within(node, node);
    }
  }

  lemma {:induction false} AllOpenableExactlyWhen(entries: seq<Entry>)
    ensures AllOpenable(entries) <==> forall n :: Met(entries, n) && (n.File? || n.Special?) ==> n.openable
    decreases entries
  {
    if entries != [] {
      OpenableExactlyWhen(entries[0].node);
      AllOpenableExactlyWhen(entries[1..]);
      forall n ensures Met(entries, n) <==> Within(entries[0].node, n) || Met(entries[1..], n) {
        MetFirstOrRest(entries, n);
      }
    }
  }

  lemma {:induction false} BytesInConcat(a: seq<Out>, b: seq<Out>)
    ensures BytesIn(a + b) == BytesIn(a) + BytesIn(b)
    decreases |b|
  {
    if b == [] {
      assert a + b == a;
    } else {
      var last := |b| - 1;
      assert (a + b)[..|a + b| - 1] == a + b[..last];
      BytesInConcat(a, b[..last]);
    }
  }

  /** What the copy meets is what its image holds. */
  lemma {:induction false} CopySizeIsBytes(node: Node, path: Path)
    ensures CopySize(node) == BytesIn(Image(node, path))
    decreases node
  {
    match node
    case Dir(entries, _) =>
      CopySizesAreBytes(entries, path);
      BytesInConcat([OutDir(path)], Images(entries, path));
      BytesInAppend([], OutDir(path));
      assert [] + [OutDir(path)] == [OutDir(path)];
    case Symlink =>
    case _ =>
      BytesInAppend([], OutFile(path, node.content));
      assert [] + [OutFile(path, node.content)] == [OutFile(path, node.content)];
  }

  lemma {:induction false} CopySizesAreBytes(entries: seq<Entry>, path: Path)
    ensures CopySizes(entries) == BytesIn(Images(entries, path))
    decreases entries
  {
    if entries != [] {
      var first := entries[0];
      CopySizeIsBytes(first.node, path + [first.name]);
      CopySizesAreBytes(entries[1..], path);
      BytesInConcat(Image(first.node, path + [first.name]), Images(entries[1..], path));
    }
  }

  /** A source taken for a file is measured: a regular file of at most so many bytes. */
  predicate IsFileWithin(source: Source, limit: int) {
    source.SourceFile? && |source.content| <= limit
  }

  /** And it is copied: a file, special or not, that opens and yields no more than that. */
  predicate OpensWithin(source: Source, limit: int) {
    (source.SourceFile? || source.SourceSpecial?) && source.openable && |source.content| <= limit
  }

  /** A source taken for a directory is measured: it is one, and unless it is named through
      a link, it and every directory in it can be listed and its regular files hold at most
      so many bytes. */
  ghost predicate MeasuresWithin(source: Source, limit: int) {
    source.SourceDir? && (
      source.viaLink || (
        && source.listable && (forall n :: Met(source.entries, n) && n.Dir? ==> n.listable)
        && RegularSizes(source.entries) <= limit))
  }

  /** And it is copied: all files in it open as well, and with the special ones they yield
      no more than that. */
  ghost predicate CopiesWithin(source: Source, limit: int) {
    source.SourceDir? && (
      source.viaLink || (
        && source.listable && (forall n :: Met(source.entries, n) && n.Dir? ==> n.listable)
        && (forall n :: Met(source.entries, n) && (n.File? || n.Special?) ==> n.openable)
        && BytesIn(Images(source.entries, ["root"])) <= limit))
  }

  lemma MeasuresExactlyWhen(source: Source, limit: int)
    requires limit >= 0
    ensures MeasureSucceeds(source, true) && Measured(source) <= limit <==> MeasuresWithin(source, limit)
    ensures MeasureSucceeds(source, false) && Measured(source) <= limit <==> IsFileWithin(source, limit)
  {
    if source.SourceDir? {
      AllListableExactlyWhen(source.entries);
    }
  }

  lemma CopiesExactlyWhen(source: Source, limit: int)
    requires limit >= 0
    ensures CopySucceeds(source, true) && Copied(source) <= limit <==> CopiesWithin(source, limit)
    ensures CopySucceeds(source, false) && Copied(source) <= limit <==> OpensWithin(source, limit)
  {
    if source.SourceDir? {
      AllListableExactlyWhen(source.entries);
      AllOpenableExactlyWhen(source.entries);
      CopySizesAreBytes(source.entries, ["root"]);
    }
  }

  /** When a snapshot succeeds, said of the source and the limit alone. */
  lemma SuccessExactlyWhen(before: Source, after: Source, isDir: bool, configured: int64)
    ensures var limit := if configured > 0 then configured as int else 0x4000_0000;
      SnapshotSucceeds(before, after, isDir, configured) <==>
        if isDir then MeasuresWithin(before, limit) && CopiesWithin(after, limit)
        else IsFileWithin(before, limit) && OpensWithin(after, limit)
  {
    var limit := if configured > 0 then configured as int else 0x4000_0000;
    MeasuresExactlyWhen(before, limit);
    CopiesExactlyWhen(after, limit);
  }

  // ------------------------------------------------------------- CreateSnapshot

  datatype SnapshotResult = Created | LimitExceeded | Failed

  function Limit(configured: int64): int64 {
    if configured > 0 then configured else DEFAULT_SNAPSHOT_MAX_BYTES
  }

  /** The source, measured as `before` and copied as `after`, becomes a snapshot. */
  predicate SnapshotSucceeds(before: Source, after: Source, isDir: bool, configured: int64) {
    && MeasureSucceeds(before, isDir) && Measured(before) <= Limit(configured) as int
    && CopySucceeds(after, isDir) && Copied(after) <= Limit(configured) as int
  }

  /** One share's directory under the snapshots directory. */
  class SnapshotDir {
    var present: bool
    var content: seq<Out>

    constructor ()
      ensures !present
    {
      present, content := false, [];
    }

    /** The source is taken for a directory or a file beforehand, measured as `before` and
        copied as `after`: anything may change in between, so the three are unrelated. */
    method CreateSnapshot(before: Source, after: Source, isDir: bool, name: string, configured: int64)
      returns (result: SnapshotResult, maxBytes: int64, ghost peak: nat, remaining: int64)
      requires configured as int < MAX_INT64 && SizeFits(before)
      modifies this
      ensures maxBytes == if configured > 0 then configured else 0x4000_0000
      ensures result == Created <==> SnapshotSucceeds(before, after, isDir, configured)
      ensures !isDir ==> (result == Created <==>
        IsFileWithin(before, maxBytes as int) && OpensWithin(after, maxBytes as int))
      ensures isDir ==> (result == Created <==>
        MeasuresWithin(before, maxBytes as int) && CopiesWithin(after, maxBytes as int))
      ensures result == LimitExceeded ==> Measured(before) > maxBytes as int || Copied(after) > maxBytes as int
      ensures result == Failed ==> !MeasureSucceeds(before, isDir) || !CopySucceeds(after, isDir)
      ensures result == Created ==> present && content == SnapshotOf(after, name)
      ensures result == Created ==> BytesIn(content) + remaining as int == maxBytes as int && remaining >= 0
      ensures result != Created ==> present ==> old(present) && unchanged(this)
      // `peak` is the most the directory held at any moment: writing only adds to it
      ensures peak <= maxBytes as int + 1
      ensures result == Created ==> peak == BytesIn(content)
    {
      maxBytes := Limit(configured);
      SuccessExactlyWhen(before, after, isDir, configured);
      peak, remaining := 0, 0;
      var size, failed := SnapshotSize(before, isDir, maxBytes);
      if failed {
        return Failed, maxBytes, peak, remaining;
      }
      if size > maxBytes {
        return LimitExceeded, maxBytes, peak, remaining;
      }
      present, content := false, [];
      var copier := new Copier(maxBytes);
      var r := copier.CopySource(after, isDir, name);
      peak, remaining := BytesIn(copier.written), copier.remaining;
      present, content := true, copier.written;
      if r != CopyOk {
        present, content := false, [];
        return if r == OverLimit then LimitExceeded else Failed, maxBytes, peak, remaining;
      }
      return Created, maxBytes, peak, remaining;
    }
  }

  // ------------------------------------------------------------------- theorems

  /** A file with this content lies at path p below the node, reached through
      directories only, never through a symlink. */
  ghost predicate FileAt(node: Node, p: Path, content: Content)
    decreases node
  {
    match node
    case Symlink => false
    case Dir(entries, _) =>
      p != [] && exists i :: 0 <= i < |entries| && entries[i].name == p[0] && FileAt(entries[i].node, p[1..], content)
    case _ => p == [] && node.content == content
  }

  ghost predicate DirAt(node: Node, p: Path)
    decreases node
  {
    node.Dir? &&
    (p == [] ||
     exists i :: 0 <= i < |node.entries| && node.entries[i].name == p[0] && DirAt(node.entries[i].node, p[1..]))
  }

  ghost predicate Under(path: Path, q: Path) {
    |path| <= |q| && q[..|path|] == path
  }

  /** The snapshot keeps every file of the source and nothing else, with its content
      and at its own path; the directories likewise; symlinks leave no trace. */
  lemma {:induction false} ImageIsPrunedTree(node: Node, path: Path, q: Path, content: Content)
    ensures OutFile(q, content) in Image(node, path) <==> Under(path, q) && FileAt(node, q[|path|..], content)
    ensures OutDir(q) in Image(node, path) <==> Under(path, q) && DirAt(node, q[|path|..])
    decreases node
  {
    if node.Dir? {
      ImagesArePrunedTrees(node.entries, path, q, content);
      if Under(path, q) && q[|path|..] == [] {
        assert q == path;
      }
    } else if Under(path, q) && q[|path|..] == [] {
      assert q == path;
    }
  }

  ghost predicate Below(path: Path, q: Path) {
    |path| < |q| && q[..|path|] == path
  }

  lemma AtFirstOrRest(entries: seq<Entry>, p: Path, content: Content)
    requires entries != [] && p != []
    ensures FileAt(Dir(entries, true), p, content) <==>
      || (entries[0].name == p[0] && FileAt(entries[0].node, p[1..], content))
      || FileAt(Dir(entries[1..], true), p, content)
    ensures DirAt(Dir(entries, true), p) <==>
      (entries[0].name == p[0] && DirAt(entries[0].node, p[1..])) || DirAt(Dir(entries[1..], true), p)
  {
    assert forall i :: 0 <= i < |entries[1..]| ==> entries[1..][i] == entries[i + 1];
    assert forall i :: 0 < i < |entries| ==> entries[i] == entries[1..][i - 1];
  }

  lemma {:induction false} ImagesArePrunedTrees(entries: seq<Entry>, path: Path, q: Path, content: Content)
    ensures OutFile(q, content) in Images(entries, path) <==>
      Below(path, q) && FileAt(Dir(entries, true), q[|path|..], content)
    ensures OutDir(q) in Images(entries, path) <==>
      Below(path, q) && DirAt(Dir(entries, true), q[|path|..])
    decreases entries
  {
    if entries != [] {
      var first, rest := entries[0], entries[1..];
      ImageIsPrunedTree(first.node, path + [first.name], q, content);
      ImagesArePrunedTrees(rest, path, q, content);
      assert Under(path + [first.name], q) <==> Below(path, q) && q[|path|] == first.name;
      if Below(path, q) {
        assert q[|path|..][1..] == q[|path| + 1..];
        AtFirstOrRest(entries, q[|path|..], content);
      }
    }
  }

  predicate SpecialsEmpty(node: Node)
    decreases node
  {
    match node
    case Special(content, _) => content == []
    case Dir(entries, _) => AllSpecialsEmpty(entries)
    case _ => true
  }

  predicate AllSpecialsEmpty(entries: seq<Entry>)
    decreases entries
  {
    entries == [] || (SpecialsEmpty(entries[0].node) && AllSpecialsEmpty(entries[1..]))
  }

  lemma {:induction false} CopySizeAtLeastRegular(node: Node)
    ensures CopySize(node) >= RegularSize(node)
    ensures CopySize(node) == RegularSize(node) <==> SpecialsEmpty(node)
    decreases node
  {
    if node.Dir? {
      CopySizesAtLeastRegular(node.entries);
    }
  }

  lemma {:induction false} CopySizesAtLeastRegular(entries: seq<Entry>)
    ensures CopySizes(entries) >= RegularSizes(entries)
    ensures CopySizes(entries) == RegularSizes(entries) <==> AllSpecialsEmpty(entries)
    decreases entries
  {
    if entries != [] {
      CopySizeAtLeastRegular(entries[0].node);
      CopySizesAtLeastRegular(entries[1..]);
    }
  }

  /** The measuring walk accepts the source under a limit. */
  predicate MeasureAccepts(source: Source, isDir: bool, limit: int) {
    MeasureSucceeds(source, isDir) && Measured(source) <= limit
  }

  /** The copying walk, given that limit as its budget, completes. */
  predicate CopyCompletes(source: Source, isDir: bool, limit: int) {
    CopySucceeds(source, isDir) && Copied(source) <= limit
  }

  ghost predicate WalksAgree(source: Source, isDir: bool) {
    forall limit :: 0 <= limit < MAX_INT64 ==>
      (MeasureAccepts(source, isDir, limit) <==> CopyCompletes(source, isDir, limit))
  }

  /** On an unchanging source the two walks agree under every limit exactly when each file
      opens and no special file yields bytes, or neither walk succeeds under any limit. */
  lemma MeasureAgreesWithCopy(source: Source, isDir: bool)
    requires Measured(source) < MAX_INT64
    ensures WalksAgree(source, isDir) <==>
        if MeasureSucceeds(source, isDir)
        then CopySucceeds(source, isDir) && (isDir ==> AllSpecialsEmpty(Walkable(source)))
        else !CopySucceeds(source, isDir) || Copied(source) >= MAX_INT64
  {
    if source.SourceDir? {
      CopySizesAtLeastRegular(Walkable(source));
    }
    var measured, copied := Measured(source), Copied(source);
    assert MeasureAccepts(source, isDir, measured) <==> MeasureSucceeds(source, isDir);
    assert CopyCompletes(source, isDir, measured) <==> CopySucceeds(source, isDir) && copied <= measured;
    assert CopyCompletes(source, isDir, copied) <==> CopySucceeds(source, isDir);
  }

  /** A directory shared through a symlink to it gives an empty snapshot: the same as
      the directory itself gives only when everything in the directory is a symlink. */
  lemma LinkedRootSnapshotIsEmpty(entries: seq<Entry>, name: string)
    ensures SnapshotOf(SourceDir(entries, true, true), name) == [OutDir(["root"])]
    ensures SnapshotOf(SourceDir(entries, true, true), name) == SnapshotOf(SourceDir(entries, true, false), name)
      <==> forall i :: 0 <= i < |entries| ==> entries[i].node.Symlink?
  {
    OnlySymlinksHaveNoImage(entries, ["root"]);
  }

  lemma {:induction false} OnlySymlinksHaveNoImage(entries: seq<Entry>, path: Path)
    ensures Images(entries, path) == [] <==> forall i :: 0 <= i < |entries| ==> entries[i].node.Symlink?
  {
    if entries != [] {
      OnlySymlinksHaveNoImage(entries[1..], path);
      assert forall i :: 0 < i < |entries| ==> entries[i] == entries[1..][i - 1];
      assert forall i :: 0 <= i < |entries| - 1 ==> entries[1..][i] == entries[i + 1];
    }
  }

  /** A budget of the largest int64 wraps the read limit round: files come out empty.
      Below it, what is read is the file or one byte more than the budget. */
  lemma ReadLimitBoundary(content: Content, remaining: int64)
    requires remaining >= 0
    ensures Limited(content, ReadLimit(remaining)) ==
            (if |content| <= remaining as int then content else content[..remaining as int + 1])
      <==> remaining as int < MAX_INT64 || content == []
  {
    if remaining as int == MAX_INT64 {
      assert |content| > remaining as int ==> |content[..remaining as int + 1]| > 0;
    } else if |content| == remaining as int + 1 {
      assert content[..remaining as int + 1] == content;
    }
  }

  // ---------------------------------------------------------------- formatBytes

  function Pow1024(n: nat): nat {
    if n == 0 then 1 else 1024 * Pow1024(n - 1)
  }

  const UNITS := "KMGTPE"

  /** The divisor and unit letter for a size; None means plain bytes. */
  method FormatUnit(value: int64) returns (small: bool, div: int64, exp: nat, letter: char)
    ensures small <==> value < 1024
    ensures !small ==> exp < |UNITS| && letter == UNITS[exp]
    ensures !small ==> div as int == Pow1024(exp + 1)
    ensures !small ==> div <= value && value as int < 1024 * div as int
  {
    if value < 1024 {
      return true, 1, 0, 'B';
    }
    div, exp := 1024, 0;
    var n := value / 1024;
    while n >= 1024
      invariant exp <= 5 && div == Divisor(exp) && n == value / div && n >= 1
      decreases n
    {
      NextUnit(value, exp);
      div := div * 1024;
      exp := exp + 1;
      n := n / 1024;
    }
    DivisorIsPower(exp);
    small, letter := false, UNITS[exp];
  }

  function Divisor(exp: nat): int64
    requires exp <= 5
  {
    [0x400, 0x10_0000, 0x4000_0000, 0x100_0000_0000, 0x4_0000_0000_0000, 0x1000_0000_0000_0000][exp]
  }

  lemma NextUnit(value: int64, exp: nat)
    requires exp <= 5 && value / Divisor(exp) >= 1024
    ensures exp < 5
    ensures Divisor(exp + 1) as int == Divisor(exp) as int * 1024
    ensures value / Divisor(exp) / 1024 == value / Divisor(exp + 1)
  {
    assert exp == 0 || exp == 1 || exp == 2 || exp == 3 || exp == 4 || exp == 5;
  }

  lemma DivisorIsPower(exp: nat)
    requires exp <= 5
    ensures Divisor(exp) as int == Pow1024(exp + 1)
  {
    if exp > 0 {
      DivisorIsPower(exp - 1);
      assert Divisor(exp) as int == 1024 * Divisor(exp - 1) as int;
    } else {
      assert Pow1024(1) == 1024 * Pow1024(0);
    }
  }
}
