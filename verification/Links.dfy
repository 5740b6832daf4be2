/** A relative link in a shared Markdown file: from its text, through the address the
    page is given for it, to the path the daemon opens when that address is asked for. */
module Links {
  import opened Options
  import opened Text

  // ------------------------------------------- percent-encoding (RFC 3986, 2.1)

  predicate IsBytes(s: string) {
    forall i :: 0 <= i < |s| ==> s[i] as int < 256
  }

  predicate AllBytes(parts: seq<string>) {
    forall p :: p in parts ==> IsBytes(p)
  }

  predicate IsLetter(c: char) {
    'a' <= c <= 'z' || 'A' <= c <= 'Z'
  }

  predicate IsDigit(c: char) {
    '0' <= c <= '9'
  }

  /** What url.PathEscape leaves alone: unreserved characters and some reserved ones. */
  predicate KeptInSegment(c: char) {
    IsLetter(c) || IsDigit(c) || c in "-_.~$&+:=@"
  }

  const HEX := "0123456789ABCDEF"

  function HexValue(c: char): Option<nat> {
    if '0' <= c <= '9' then Some(c as int - '0' as int)
    else if 'a' <= c <= 'f' then Some(c as int - 'a' as int + 10)
    else if 'A' <= c <= 'F' then Some(c as int - 'A' as int + 10)
    else None
  }

  function EscapeByte(c: char): string
    requires c as int < 256
  {
    if KeptInSegment(c) then [c] else ['%', HEX[c as int / 16], HEX[c as int % 16]]
  }

  function PathEscape(s: string): string
    requires IsBytes(s)
  {
    if s == "" then "" else EscapeByte(s[0]) + PathEscape(s[1..])
  }

  function Prepend(s: string, rest: Option<string>): Option<string> {
    match rest case None => None case Some(t) => Some(s + t)
  }

  function Unescape(s: string): Option<string> {
    if s == "" then Some("")
    else if s[0] != '%' then Prepend([s[0]], Unescape(s[1..]))
    else if |s| < 3 || HexValue(s[1]).None? || HexValue(s[2]).None? then None
    else Prepend([(16 * HexValue(s[1]).value + HexValue(s[2]).value) as char], Unescape(s[3..]))
  }

  lemma PrependNothing(s: string, rest: Option<string>)
    ensures Prepend("", rest) == rest
    ensures Prepend(s, Some("")) == Some(s)
  {
    assert s + "" == s;
    if rest.Some? {
      assert "" + rest.value == rest.value;
    }
  }

  lemma PrependTwice(a: string, b: string, rest: Option<string>)
    ensures Prepend(a, Prepend(b, rest)) == Prepend(a + b, rest)
  {
    if rest.Some? {
      assert a + (b + rest.value) == a + b + rest.value;
    }
  }

  lemma HexRoundTrip(n: nat)
    requires n < 16
    ensures HexValue(HEX[n]) == Some(n) && HEX[n] != '/' && HEX[n] != '?' && HEX[n] != '%'
  {
    var digits := HEX;
    assert digits[0] == '0' && digits[1] == '1' && digits[2] == '2' && digits[3] == '3';
    assert digits[4] == '4' && digits[5] == '5' && digits[6] == '6' && digits[7] == '7';
    assert digits[8] == '8' && digits[9] == '9' && digits[10] == 'A' && digits[11] == 'B';
    assert digits[12] == 'C' && digits[13] == 'D' && digits[14] == 'E' && digits[15] == 'F';
  }

  lemma EscapeByteRoundTrip(c: char, rest: string)
    requires c as int < 256
    ensures Unescape(EscapeByte(c) + rest) == Prepend([c], Unescape(rest))
    ensures forall i :: 0 <= i < |EscapeByte(c)| ==> EscapeByte(c)[i] != '/' && EscapeByte(c)[i] != '?'
  {
    HexRoundTrip(c as int / 16);
    HexRoundTrip(c as int % 16);
    var whole := EscapeByte(c) + rest;
    assert whole[|EscapeByte(c)|..] == rest;
  }

  lemma {:induction false} EscapeRoundTrip(s: string, tail: string)
    requires IsBytes(s)
    ensures Unescape(PathEscape(s) + tail) == Prepend(s, Unescape(tail))
    ensures '/' !in PathEscape(s) && '?' !in PathEscape(s)
  {
    if s == "" {
      assert PathEscape(s) + tail == tail;
      PrependNothing("", Unescape(tail));
    } else {
      var first, rest := s[0], s[1..];
      EscapeRoundTrip(rest, tail);
      EscapeByteRoundTrip(first, PathEscape(rest) + tail);
      Regroup(EscapeByte(first), PathEscape(rest), tail);
      PrependTwice([first], rest, Unescape(tail));
      HeadTail(s);
    }
  }

  lemma {:induction false} PlainUnescape(s: string, tail: string)
    requires '%' !in s
    ensures Unescape(s + tail) == Prepend(s, Unescape(tail))
  {
    if s == "" {
      assert s + tail == tail;
      PrependNothing("", Unescape(tail));
    } else {
      assert (s + tail)[0] == s[0] && (s + tail)[1..] == s[1..] + tail;
      PlainUnescape(s[1..], tail);
      PrependTwice([s[0]], s[1..], Unescape(tail));
      assert [s[0]] + s[1..] == s;
    }
  }

  function EscapeAll(parts: seq<string>): (escaped: seq<string>)
    requires AllBytes(parts)
    ensures |escaped| == |parts|
    ensures forall i :: 0 <= i < |parts| ==> escaped[i] == PathEscape(parts[i])
  {
    seq(|parts|, i requires 0 <= i < |parts| => PathEscape(parts[i]))
  }

  lemma {:induction false} EscapedPathRoundTrip(parts: seq<string>)
    requires AllBytes(parts)
    ensures Unescape(Join(EscapeAll(parts), '/')) == Some(Join(parts, '/'))
    ensures '?' !in Join(EscapeAll(parts), '/')
    decreases |parts|
  {
    if |parts| == 1 {
      EscapeRoundTrip(parts[0], "");
      assert PathEscape(parts[0]) + "" == PathEscape(parts[0]);
      PrependNothing(parts[0], Some(""));
    } else if parts != [] {
      EscapedPathRoundTrip(parts[1..]);
      var escaped := EscapeAll(parts);
      assert escaped[1..] == EscapeAll(parts[1..]) && escaped[0] == PathEscape(parts[0]);
      assert Join(escaped, '/') == escaped[0] + ['/'] + Join(escaped[1..], '/');
      EscapedStep(parts[0], Join(EscapeAll(parts[1..]), '/'), Join(parts[1..], '/'));
    }
  }

  lemma EscapedStep(part: string, tail: string, decoded: string)
    requires IsBytes(part) && Unescape(tail) == Some(decoded) && '?' !in tail
    ensures Unescape(PathEscape(part) + ['/'] + tail) == Some(part + ['/'] + decoded)
    ensures '?' !in PathEscape(part) + ['/'] + tail
  {
    EscapeRoundTrip(part, ['/'] + tail);
    PlainUnescape(['/'], tail);
    Regroup(PathEscape(part), ['/'], tail);
    Regroup(part, ['/'], decoded);
  }

  lemma {:induction false} UnescapeGivesBytes(s: string)
    requires IsBytes(s) && Unescape(s).Some?
    ensures IsBytes(Unescape(s).value)
  {
    if s != "" {
      UnescapeGivesBytes(if s[0] != '%' then s[1..] else s[3..]);
    }
  }

  // --------------------------------------------------- reading a link's target

  /** The string up to the first c, or all of it. */
  function Before(s: string, c: char): (b: string)
    ensures |b| <= |s| && b == s[..|b|] && c !in b
    ensures |b| < |s| ==> s[|b|] == c
  {
    if s == "" || s[0] == c then "" else [s[0]] + Before(s[1..], c)
  }

  function After(s: string, c: char): string {
    var n := |Before(s, c)|;
    if n < |s| then s[n + 1..] else ""
  }

  predicate HasControl(s: string) {
    exists c :: c in s && (c < ' ' || c == '\U{7F}')
  }

  datatype Scheme = NoScheme | HasScheme | BadScheme

  function SchemeOf(s: string, i: nat): Scheme
    requires i <= |s|
    decreases |s| - i
  {
    if i == |s| then NoScheme
    else if IsLetter(s[i]) then SchemeOf(s, i + 1)
    else if IsDigit(s[i]) || s[i] in "+-." then if i == 0 then NoScheme else SchemeOf(s, i + 1)
    else if s[i] == ':' then if i == 0 then BadScheme else HasScheme
    else NoScheme
  }

  /** The decoded path of a reference without scheme; None for anything else, parse
      errors included. */
  function ReferencePath(reference: string): Option<string> {
    var u, fragment := Before(reference, '#'), After(reference, '#');
    var rest := Before(u, '?');
    if HasControl(u) || SchemeOf(u, 0) != NoScheme then None
    else if !HasPrefix(rest, "/") && ':' in Before(rest, '/') then None
    else if fragment != "" && Unescape(fragment).None? then None
    else Unescape(rest)
  }

  /** The path of a link that names something next to its document. */
  function LocalPath(target: string): Option<string> {
    var trimmed := TrimSpace(target);
    if trimmed == "" || HasPrefix(trimmed, "#") || HasPrefix(trimmed, "//") then None
    else
      match ReferencePath(trimmed)
      case None => None
      case Some(p) => if p == "" || p[0] == '/' then None else Some(p)
  }

  predicate LeavesRoot(cleaned: string) {
    cleaned == ".." || HasPrefix(cleaned, "../")
  }

  /** analyzeMarkdownStandaloneTarget: whether a link needs the document's directory,
      and whether it leads out of it. */
  function Analyze(target: string): (bool, bool) {
    match LocalPath(target)
    case None => (false, false)
    case Some(p) =>
      var cleaned := Clean(p);
      if cleaned == "." || cleaned == "" then (false, false)
      else (true, LeavesRoot(cleaned))
  }

  // ------------------------------------------------------ the address of a file

  function CleanMarkdownPath(currentDir: string, target: string): string {
    var joined := if currentDir != "" then JoinPath(currentDir, target) else target;
    var cleaned := TrimPrefix(Clean("/" + joined), "/");
    if cleaned == "." then "" else cleaned
  }

  function EscapeRel(rel: string): string
    requires IsBytes(rel)
  {
    var trimmed := TrimChar(TrimSpace(rel), '/');
    TrimmedBytes(rel);
    if trimmed == "" then "" else
      SplitBytes(trimmed);
      Join(EscapeAll(Split(trimmed, '/')), '/')
  }

  datatype Route = Preview | Raw {
    function Prefix(): string {
      if Preview? then "/s/" else "/r/"
    }
  }

  /** The path of a file's address, given the file's own path in encoded form. */
  function AddressPath(route: Route, id: string, escaped: string): string {
    route.Prefix() + (id + AddressTail(route, escaped))
  }

  function AddressTail(route: Route, escaped: string): string {
    if escaped != "" then "/" + escaped else if route.Preview? then "/" else ""
  }

  /** buildPreviewPath and buildRawPath, below the external base address. */
  function BuildPath(route: Route, id: string, rel: string, query: string): string
    requires IsBytes(rel)
  {
    AddressPath(route, id, EscapeRel(rel)) + "?" + query
  }

  // ------------------------------------------------------------ serving a request

  function SplitSharePath(rawPath: string, prefix: string): Option<(string, string)> {
    if !HasPrefix(rawPath, prefix) then None
    else
      var tail := TrimPrefix(TrimPrefix(rawPath, prefix), "/");
      var id := TrimSpace(Before(tail, '/'));
      if tail == "" || id == "" then None
      else Some((id, TrimPrefix(After(tail, '/'), "/")))
  }

  datatype RealPath = Real(path: string) | Missing | Unresolvable

  datatype Resolved = Opens(path: string) | Refused

  predicate Inside(path: string, root: string) {
    path == root || HasPrefix(path, root + "/")
  }

  /** ResolveScopedPath; `follow` is what following symlinks gives on this file system. */
  function ResolveScopedPath(root: string, rel: string, follow: string -> RealPath): Resolved {
    var rootClean := Clean(root);
    if rel == "" then Opens(rootClean)
    else if ".." in Split(rel, '/') then Refused
    else
      var cleaned := TrimPrefix(Clean("/" + rel), "/");
      var cleanRel := if cleaned == "." then "" else cleaned;
      var target := Clean(JoinPath(rootClean, cleanRel));
      if !Inside(target, rootClean) then Refused
      else
        var rootReal := match follow(rootClean) case Real(q) => q case _ => rootClean;
        match follow(target)
        case Real(q) => if Inside(q, rootReal) then Opens(target) else Refused
        case Missing => Opens(target)
        case Unresolvable => Refused
  }

  /** The daemon's answer to a request for `url`: the path it opens for share `id`. */
  function Request(route: Route, id: string, url: string, root: string, follow: string -> RealPath): Resolved {
    match Unescape(Before(url, '?'))
    case None => Refused
    case Some(rawPath) =>
      match SplitSharePath(rawPath, route.Prefix())
      case None => Refused
      case Some((askedId, rel)) => if askedId == id then ResolveScopedPath(root, rel, follow) else Refused
  }

  /** Directory of a document, as the links in it are read. */
  function CurrentDir(docRel: string): string {
    var dir := Clean(DirPart(docRel));
    if dir == "." then "" else dir
  }

  // -------------------------------------------------------------- bytes in, bytes out

  lemma TrimmedBytes(s: string)
    requires IsBytes(s)
    ensures IsBytes(TrimChar(TrimSpace(s), '/'))
  {
    TrimSpaceBytes(s);
    TrimCharBytes(TrimSpace(s), '/');
  }

  lemma {:induction false} TrimCharBytes(s: string, c: char)
    requires IsBytes(s)
    ensures IsBytes(TrimChar(s, c))
    decreases |s|
  {
    if s != "" && s[0] == c {
      TrimCharBytes(s[1..], c);
    } else if s != "" && s[|s| - 1] == c {
      TrimCharBytes(s[..|s| - 1], c);
    }
  }

  lemma {:induction false} SplitBytes(s: string)
    requires IsBytes(s)
    ensures AllBytes(Split(s, '/'))
  {
    if s != "" {
      SplitBytes(s[1..]);
      assert IsBytes(Split(s[1..], '/')[0]);
    }
  }

  lemma {:induction false} JoinBytes(parts: seq<string>)
    requires AllBytes(parts)
    ensures IsBytes(Join(parts, '/'))
  {
    if |parts| > 1 {
      JoinBytes(parts[1..]);
      assert IsBytes(parts[0]);
    }
  }

  lemma {:induction false} WalkBytes(rooted: bool, segments: seq<string>)
    requires AllBytes(segments)
    ensures AllBytes(Walk(rooted, [], segments))
    decreases |segments|
  {
    if segments != [] {
      WalkBytes(rooted, segments[..|segments| - 1]);
    }
  }

  // ------------------------------------------------- walking from a root, or from none

  /** How many `..`s a walk without root starts with. */
  function Ups(kept: seq<string>): (k: nat)
    ensures k <= |kept|
    ensures k < |kept| ==> kept[k] != ".."
    ensures forall i :: 0 <= i < k ==> kept[i] == ".."
  {
    if kept != [] && kept[0] == ".." then 1 + Ups(kept[1..]) else 0
  }

  /** A walk from a root's own segments: each leading `..` takes one of them away. */
  function From(base: seq<string>, kept: seq<string>): seq<string> {
    base[..if Ups(kept) <= |base| then |base| - Ups(kept) else 0] + kept[Ups(kept)..]
  }

  lemma UpsIs(kept: seq<string>, k: nat)
    requires k <= |kept| && (forall i :: 0 <= i < k ==> kept[i] == "..") && (k < |kept| ==> kept[k] != "..")
    ensures Ups(kept) == k
  {
  }

  lemma PushFrom(base: seq<string>, kept: seq<string>, segment: string)
    requires AreNames(base) && KeptShape(false, kept) && '/' !in segment
    ensures Push(true, From(base, kept), segment) == From(base, Push(false, kept, segment))
  {
    if segment == "" || segment == "." {
    } else if segment != ".." {
      PushName(base, kept, segment);
    } else if kept != [] && kept[|kept| - 1] != ".." {
      PushBack(base, kept);
    } else {
      PushUp(base, kept);
    }
  }

  lemma PushName(base: seq<string>, kept: seq<string>, segment: string)
    requires segment != ".."
    ensures From(base, kept) + [segment] == From(base, kept + [segment])
  {
    var k := Ups(kept);
    UpsIs(kept + [segment], k);
    assert (kept + [segment])[k..] == kept[k..] + [segment];
  }

  lemma WithoutLast<T>(a: seq<T>, b: seq<T>)
    requires b != []
    ensures (a + b)[|a + b| - 1] == b[|b| - 1] && (a + b)[..|a + b| - 1] == a + b[..|b| - 1]
  {
  }

  lemma PushBack(base: seq<string>, kept: seq<string>)
    requires kept != [] && kept[|kept| - 1] != ".."
    ensures Push(true, From(base, kept), "..") == From(base, kept[..|kept| - 1])
  {
    var k, less := Ups(kept), kept[..|kept| - 1];
    UpsIs(less, k);
    var left, names := base[..if k <= |base| then |base| - k else 0], kept[k..];
    assert From(base, kept) == left + names && names != [] && names[|names| - 1] == kept[|kept| - 1];
    WithoutLast(left, names);
    assert names[..|names| - 1] == less[k..];
  }

  lemma PushUp(base: seq<string>, kept: seq<string>)
    requires AreNames(base) && KeptShape(false, kept)
    requires kept == [] || kept[|kept| - 1] == ".."
    ensures Push(true, From(base, kept), "..") == From(base, kept + [".."])
  {
    assert Ups(kept) == |kept|;
    UpsIs(kept + [".."], |kept| + 1);
    var left := From(base, kept);
    assert left == base[..if |kept| <= |base| then |base| - |kept| else 0];
    assert left != [] ==> left[|left| - 1] in base;
  }

  lemma {:induction false} WalkFrom(base: seq<string>, segments: seq<string>)
    requires AreNames(base) && forall s :: s in segments ==> '/' !in s
    ensures Walk(true, base, segments) == From(base, Walk(false, [], segments))
    decreases |segments|
  {
    if segments != [] {
      var last := |segments| - 1;
      WalkFrom(base, segments[..last]);
      WalkKeeps(false, segments[..last]);
      assert '/' !in segments[last];
      PushFrom(base, Walk(false, [], segments[..last]), segments[last]);
    }
  }

  // ------------------------------------------------------- a link from a document

  /** The segments of a target read from a directory; "" is the shared root. */
  function LinkSegments(dir: string, p: string): seq<string> {
    if dir == "" then Split(p, '/') else Split(dir, '/') + Split(p, '/')
  }

  function Relative(dir: string, p: string): string {
    if dir == "" then Clean(p) else JoinPath(dir, p)
  }

  /** The target leads out of the shared root. */
  predicate Escapes(dir: string, p: string) {
    LeavesRoot(Relative(dir, p))
  }

  /** The file the link names: filepath.Join of the root, the directory and the target. */
  function Named(root: string, dir: string, p: string): string {
    Clean(root + "/" + dir + "/" + p)
  }

  function RootSegments(root: string): seq<string> {
    Walk(true, [], Split(root, '/'))
  }

  lemma RelativeIsWalk(dir: string, p: string)
    requires p != "" && !Rooted(p) && !Rooted(dir)
    ensures var kept := Walk(false, [], LinkSegments(dir, p));
      Relative(dir, p) == if kept == [] then "." else Join(kept, '/')
  {
    if dir != "" {
      SplitConcat(dir, p, '/');
    }
  }

  lemma JoinOfNames(kept: seq<string>)
    requires AreNames(kept)
    ensures Join(kept, '/') != "." && (Join(kept, '/') == "" <==> kept == [])
    ensures kept != [] ==> var s := Join(kept, '/'); s[0] != '/' && s[|s| - 1] != '/'
    decreases |kept|
  {
    if |kept| == 1 {
      assert IsName(kept[0]);
    } else if kept != [] {
      assert IsName(kept[0]);
      JoinOfNames(kept[1..]);
    }
  }

  lemma {:induction false} BeforeFirst(a: string, c: char, b: string)
    requires c !in a
    ensures Before(a + [c] + b, c) == a && After(a + [c] + b, c) == b
  {
    var s := a + [c] + b;
    if a == "" {
      assert s[1..] == b;
    } else {
      assert s[0] == a[0] && a[0] in a && s[1..] == a[1..] + [c] + b;
      BeforeFirst(a[1..], c, b);
      assert [a[0]] + a[1..] == a;
      assert s[|a| + 1..] == b;
    }
  }

  lemma {:induction false} BeforeNone(s: string, c: char)
    requires c !in s
    ensures Before(s, c) == s && After(s, c) == ""
  {
    if s != "" {
      assert s[0] in s;
      BeforeNone(s[1..], c);
      assert [s[0]] + s[1..] == s;
    }
  }

  /** What comes before a mark and what comes after it. */
  lemma CutAt(a: string, mark: char, rest: string)
    requires mark !in a && (rest == "" || rest[0] == mark)
    ensures Before(a + rest, mark) == a && After(a + rest, mark) == if rest == "" then "" else rest[1..]
  {
    if rest == "" {
      assert a + rest == a;
      BeforeNone(a, mark);
    } else {
      assert a + rest == a + [mark] + rest[1..];
      BeforeFirst(a, mark, rest[1..]);
    }
  }

  lemma LeavesRootIsFirst(s: string)
    ensures LeavesRoot(s) <==> Before(s, '/') == ".."
  {
    if s == ".." {
      BeforeNone(s, '/');
    } else if HasPrefix(s, "../") {
      assert s == ".." + ['/'] + s[3..];
      BeforeFirst("..", '/', s[3..]);
    }
    if Before(s, '/') == ".." && s != ".." {
      assert s[..3] == s[..2] + [s[2]];
    }
  }

  lemma EscapesIsUps(dir: string, p: string)
    requires p != "" && !Rooted(p) && !Rooted(dir)
    ensures Escapes(dir, p) <==> Ups(Walk(false, [], LinkSegments(dir, p))) > 0
  {
    RelativeIsWalk(dir, p);
    var kept := Walk(false, [], LinkSegments(dir, p));
    WalkKeeps(false, LinkSegments(dir, p));
    LeavesRootIsFirst(Relative(dir, p));
    if kept == [] {
      BeforeNone(".", '/');
    } else {
      assert '/' !in kept[0];
      if |kept| == 1 {
        BeforeNone(kept[0], '/');
      } else {
        BeforeFirst(kept[0], '/', Join(kept[1..], '/'));
      }
    }
  }

  lemma CleanMarkdownPathIsWalk(dir: string, p: string)
    requires p != "" && !Rooted(p) && !Rooted(dir)
    ensures var kept := Walk(true, [], LinkSegments(dir, p));
      AreNames(kept) && CleanMarkdownPath(dir, p) == Join(kept, '/')
  {
    var kept := Walk(true, [], LinkSegments(dir, p));
    WalkKeeps(true, LinkSegments(dir, p));
    JoinOfNames(kept);
    JoinedWalk(dir, p);
    CleanUnderSlash(if dir != "" then JoinPath(dir, p) else p);
    assert ("/" + Join(kept, '/'))[1..] == Join(kept, '/');
  }

  /** Joining with the document's directory first, which cleans, changes nothing. */
  lemma JoinedWalk(dir: string, p: string)
    requires p != "" && !Rooted(p) && !Rooted(dir)
    ensures var joined := if dir != "" then JoinPath(dir, p) else p;
      Walk(true, [], Split(joined, '/')) == Walk(true, [], LinkSegments(dir, p))
  {
    var segments := LinkSegments(dir, p);
    if dir != "" {
      RelativeIsWalk(dir, p);
      RootedAfterUnrooted(segments);
      WalkKeeps(false, segments);
      if Walk(false, [], segments) != [] {
        SplitJoin(Walk(false, [], segments), '/');
      } else {
        SplitOne(".", '/');
        assert ["."][..0] == [];
      }
    }
  }

  lemma CleanUnderSlash(s: string)
    ensures Clean("/" + s) == "/" + Join(Walk(true, [], Split(s, '/')), '/')
  {
    assert ("/" + s)[1..] == s;
    assert Split("/" + s, '/') == [""] + Split(s, '/');
    WalkAppend(true, [], [""], Split(s, '/'));
    assert [""][..0] == [];
  }

  lemma NamedIsWalk(root: string, dir: string, p: string)
    requires Rooted(root)
    ensures Named(root, dir, p) == "/" + Join(Walk(true, RootSegments(root), LinkSegments(dir, p)), '/')
  {
    var below := dir + "/" + p;
    assert root + "/" + dir + "/" + p == root + ['/'] + below;
    SplitConcat(root, below, '/');
    assert below == dir + ['/'] + p;
    SplitConcat(dir, p, '/');
    WalkAppend(true, [], Split(root, '/'), Split(below, '/'));
    if dir == "" {
      WalkAppend(true, RootSegments(root), [""], Split(p, '/'));
      assert [""][..0] == [];
    }
  }

  // ------------------------------------------------------------ asking for the address

  /** Identifiers are base64url text. */
  predicate OpaqueId(id: string) {
    id != "" && forall i :: 0 <= i < |id| ==> IsLetter(id[i]) || IsDigit(id[i]) || id[i] == '-' || id[i] == '_'
  }

  lemma OpaqueIdPlain(id: string)
    requires OpaqueId(id)
    ensures TrimSpace(id) == id && '%' !in id && '?' !in id && '/' !in id
  {
    TrimSpaceFixed(id);
  }

  lemma AddressLacks(route: Route, id: string, escaped: string)
    requires OpaqueId(id) && '?' !in escaped
    ensures '?' !in AddressPath(route, id, escaped)
  {
    OpaqueIdPlain(id);
    LacksConcat("/", escaped, '?');
    LacksConcat(id, AddressTail(route, escaped), '?');
    LacksConcat(route.Prefix(), id + AddressTail(route, escaped), '?');
  }

  lemma LacksConcat(a: string, b: string, c: char)
    ensures c !in a && c !in b ==> c !in a + b
  {
  }

  lemma DecodedAddress(route: Route, id: string, escaped: string, decoded: string)
    requires OpaqueId(id) && Unescape(escaped) == Some(decoded) && (escaped == "" <==> decoded == "")
    ensures Unescape(AddressPath(route, id, escaped)) == Some(AddressPath(route, id, decoded))
  {
    var tail := AddressTail(route, escaped);
    assert Unescape(tail) == Some(AddressTail(route, decoded)) by {
      if escaped != "" {
        PlainUnescape("/", escaped);
      } else {
        PlainUnescape(tail, "");
        PrependNothing(tail, Some(""));
        assert tail + "" == tail;
      }
    }
    OpaqueIdPlain(id);
    PlainUnescape(id, tail);
    PlainUnescape(route.Prefix(), id + tail);
  }

  lemma SplitOfAddress(route: Route, id: string, rel: string)
    requires OpaqueId(id) && (rel == "" || rel[0] != '/')
    ensures SplitSharePath(AddressPath(route, id, rel), route.Prefix()) == Some((id, rel))
  {
    var prefix, tail := route.Prefix(), id + AddressTail(route, rel);
    TailParts(route, id, rel);
    SplitAfterPrefix(prefix, tail, id, rel);
  }

  lemma SplitAfterPrefix(prefix: string, tail: string, id: string, rel: string)
    requires tail != "" && id != "" && TrimPrefix(tail, "/") == tail
    requires TrimSpace(Before(tail, '/')) == id && TrimPrefix(After(tail, '/'), "/") == rel
    ensures SplitSharePath(prefix + tail, prefix) == Some((id, rel))
  {
    assert (prefix + tail)[..|prefix|] == prefix && (prefix + tail)[|prefix|..] == tail;
  }

  lemma TailParts(route: Route, id: string, rel: string)
    requires OpaqueId(id) && (rel == "" || rel[0] != '/')
    ensures var tail := id + AddressTail(route, rel);
      && tail != "" && TrimPrefix(tail, "/") == tail
      && TrimSpace(Before(tail, '/')) == id
      && TrimPrefix(After(tail, '/'), "/") == rel
  {
    OpaqueIdPlain(id);
    TailStarts(id, AddressTail(route, rel));
    if rel == "" && route.Raw? {
      assert id + "" == id;
      BeforeNone(id, '/');
    } else {
      assert id + AddressTail(route, rel) == id + ['/'] + rel;
      BeforeFirst(id, '/', rel);
    }
  }

  lemma TailStarts(id: string, more: string)
    requires id != "" && '/' !in id
    ensures id + more != "" && TrimPrefix(id + more, "/") == id + more
  {
    assert (id + more)[0] == id[0] && id[0] in id;
  }

  /** The encoded form of a path: no query mark in it, and decoding gives it back. */
  lemma EscapeRelRoundTrip(rel: string)
    requires IsBytes(rel)
    ensures var trimmed := TrimChar(TrimSpace(rel), '/');
      Unescape(EscapeRel(rel)) == Some(trimmed) && (EscapeRel(rel) == "" <==> trimmed == "")
    ensures '?' !in EscapeRel(rel)
  {
    var trimmed := TrimChar(TrimSpace(rel), '/');
    TrimmedBytes(rel);
    if trimmed != "" {
      SplitBytes(trimmed);
      EscapedPathRoundTrip(Split(trimmed, '/'));
      JoinSplit(trimmed, '/');
      assert Unescape("") == Some("");
    }
  }

  /** The path part of the address of rel, decoded, is split into the id and rel
      without surrounding white space and slashes. */
  lemma RequestReaches(route: Route, id: string, rel: string, query: string, root: string, follow: string -> RealPath)
    requires OpaqueId(id) && IsBytes(rel)
    ensures Request(route, id, BuildPath(route, id, rel, query), root, follow) ==
            ResolveScopedPath(root, TrimChar(TrimSpace(rel), '/'), follow)
  {
    var trimmed, escaped := TrimChar(TrimSpace(rel), '/'), EscapeRel(rel);
    EscapeRelRoundTrip(rel);
    RequestOfAddress(route, id, escaped, trimmed, query, root, follow);
  }

  lemma RequestOfAddress(
    route: Route, id: string, escaped: string, decoded: string, query: string, root: string,
    follow: string -> RealPath)
    requires OpaqueId(id) && Unescape(escaped) == Some(decoded) && (escaped == "" <==> decoded == "")
    requires '?' !in escaped && (decoded == "" || decoded[0] != '/')
    ensures Request(route, id, AddressPath(route, id, escaped) + "?" + query, root, follow) ==
            ResolveScopedPath(root, decoded, follow)
  {
    var path := AddressPath(route, id, escaped);
    AddressLacks(route, id, escaped);
    BeforeFirst(path, '?', query);
    assert path + "?" + query == path + ['?'] + query;
    DecodedAddress(route, id, escaped, decoded);
    SplitOfAddress(route, id, decoded);
  }

  /** Nothing on the way to this path is a symlink leading out of the root. */
  predicate NoLinkLeaves(root: string, path: string, follow: string -> RealPath) {
    var rootReal := match follow(Clean(root)) case Real(q) => q case _ => Clean(root);
    match follow(path)
    case Real(q) => Inside(q, rootReal)
    case Missing => true
    case Unresolvable => false
  }

  lemma CleanOfRoot(root: string)
    requires Rooted(root)
    ensures AreNames(RootSegments(root)) && Clean(root) == "/" + Join(RootSegments(root), '/')
    ensures Rooted(Clean(root))
  {
    WalkKeeps(true, Split(root, '/'));
  }

  /** A clean relative path names itself below the root. */
  lemma CleanBelowRoot(root: string, kept: seq<string>)
    requires Rooted(root) && Clean(root) != "/" && AreNames(kept) && kept != []
    ensures var rel, whole := Join(kept, '/'), "/" + Join(RootSegments(root) + kept, '/');
      && ".." !in Split(rel, '/')
      && TrimPrefix(Clean("/" + rel), "/") == rel
      && Clean(JoinPath(Clean(root), rel)) == whole
      && whole == Clean(root) + "/" + rel
  {
    CleanOfRoot(root);
    JoinOfNames(kept);
    var base, rel := RootSegments(root), Join(kept, '/');
    assert base != [];
    SplitJoin(kept, '/');
    forall segment | segment in kept ensures segment != ".." {
      assert IsName(segment);
    }
    CleanRooted(kept);
    assert ("/" + rel)[1..] == rel;
    JoinConcat(base, kept, '/');
    assert "/" + Join(base + kept, '/') == Clean(root) + "/" + rel;
    CleanRooted(base + kept);
  }

  lemma ResolveClean(root: string, kept: seq<string>, follow: string -> RealPath)
    requires Rooted(root) && Clean(root) != "/" && AreNames(kept)
    ensures var whole := "/" + Join(RootSegments(root) + kept, '/');
      && |whole| == |Clean(root)| + (if kept == [] then 0 else 1 + |Join(kept, '/')|)
      && ResolveScopedPath(root, Join(kept, '/'), follow) ==
           if kept == [] || NoLinkLeaves(root, whole, follow) then Opens(whole) else Refused
  {
    CleanOfRoot(root);
    JoinOfNames(kept);
    if kept == [] {
      assert RootSegments(root) + kept == RootSegments(root);
    } else {
      CleanBelowRoot(root, kept);
      assert HasPrefix(Clean(root) + "/" + Join(kept, '/'), Clean(root) + "/");
    }
  }

  lemma ResolvedNotLonger(root: string, rel: string, follow: string -> RealPath)
    requires Rooted(root)
    ensures match ResolveScopedPath(root, rel, follow)
      case Opens(path) => |path| <= |Clean(root)| + if rel == "" then 0 else 1 + |rel|
      case Refused => true
  {
    CleanOfRoot(root);
    CleanNotLonger("/" + rel);
    var cleaned := TrimPrefix(Clean("/" + rel), "/");
    var cleanRel := if cleaned == "." then "" else cleaned;
    var joined := Clean(root) + "/" + cleanRel;
    assert |cleanRel| <= |rel|;
    CleanNotLonger(joined);
    assert Rooted(Clean(joined));
    CleanNotLonger(Clean(joined));
  }

  /** What opens when a link of the document docRel is followed. */
  function Served(
    route: Route, id: string, query: string, root: string, docRel: string, p: string,
    follow: string -> RealPath): Resolved
    requires IsBytes(CleanMarkdownPath(CurrentDir(docRel), p))
  {
    Request(route, id, BuildPath(route, id, CleanMarkdownPath(CurrentDir(docRel), p), query), root, follow)
  }

  /** The path may be opened: it is the root itself, or nothing on the way to it is a
      symlink leading out of the root. */
  predicate Allowed(root: string, rel: string, path: string, follow: string -> RealPath) {
    rel == "" || NoLinkLeaves(root, path, follow)
  }

  /** Following a link, however it is written, opens exactly the file it names, for a link
      that stays in the share when the path needs no trimming, for a path that needs none
      when the link stays in the share, and when no symlink leads to it out of the root. */
  lemma LinkReachesItsFile(
    route: Route, id: string, query: string, root: string, docRel: string, target: string, p: string,
    follow: string -> RealPath)
    requires OpaqueId(id) && Rooted(root) && Clean(root) != "/"
    requires IsBytes(docRel) && !Rooted(docRel) && IsBytes(target)
    requires LocalPath(target) == Some(p)
    ensures IsBytes(CleanMarkdownPath(CurrentDir(docRel), p))
    ensures var dir := CurrentDir(docRel);
      var rel := CleanMarkdownPath(dir, p);
      var inShare, trimmed := !Escapes(dir, p), TrimSpace(rel) == rel;
      inShare || trimmed ==>
        (Served(route, id, query, root, docRel, p, follow) == Opens(Named(root, dir, p)) <==>
          inShare && trimmed && Allowed(root, rel, Named(root, dir, p), follow))
  {
    var dir := CurrentDir(docRel);
    DocumentDir(docRel);
    LocalPathBytes(target);
    LinkPaths(root, dir, p);
    RequestReaches(route, id, CleanMarkdownPath(dir, p), query, root, follow);
    LinkOutcome(root, dir, p, follow);
  }

  lemma LinkOutcome(root: string, dir: string, p: string, follow: string -> RealPath)
    requires Rooted(root) && Clean(root) != "/"
    requires IsBytes(dir) && IsBytes(p) && p != "" && !Rooted(p) && !Rooted(dir)
    ensures var rel := CleanMarkdownPath(dir, p);
      var inShare, trimmed := !Escapes(dir, p), TrimSpace(rel) == rel;
      inShare || trimmed ==>
        (ResolveScopedPath(root, TrimChar(TrimSpace(rel), '/'), follow) == Opens(Named(root, dir, p)) <==>
          inShare && trimmed && Allowed(root, rel, Named(root, dir, p), follow))
  {
    LinkPaths(root, dir, p);
    var kept, left := Walk(true, [], LinkSegments(dir, p)), NamedRoot(root, dir, p);
    var rel := Join(kept, '/');
    if TrimSpace(rel) == rel {
      UntrimmedChar(kept);
      ServedWhenTrimmed(root, kept, left, follow);
    } else if !Escapes(dir, p) {
      ServedWhenUntrimmed(root, kept, follow);
    }
  }

  lemma UntrimmedChar(kept: seq<string>)
    requires AreNames(kept)
    ensures TrimChar(Join(kept, '/'), '/') == Join(kept, '/')
  {
    JoinOfNames(kept);
  }

  /** What is left of the root's segments in the path a link names. */
  function NamedRoot(root: string, dir: string, p: string): seq<string> {
    var base, ups := RootSegments(root), Ups(Walk(false, [], LinkSegments(dir, p)));
    base[..if ups <= |base| then |base| - ups else 0]
  }

  lemma LinkPaths(root: string, dir: string, p: string)
    requires Rooted(root) && Clean(root) != "/"
    requires IsBytes(dir) && IsBytes(p) && p != "" && !Rooted(p) && !Rooted(dir)
    ensures var kept := Walk(true, [], LinkSegments(dir, p));
      && AreNames(kept) && CleanMarkdownPath(dir, p) == Join(kept, '/') && IsBytes(Join(kept, '/'))
      && Named(root, dir, p) == "/" + Join(NamedRoot(root, dir, p) + kept, '/')
    ensures NamedRoot(root, dir, p) == RootSegments(root) <==> !Escapes(dir, p)
    ensures NamedRoot(root, dir, p) <= RootSegments(root)
  {
    CleanMarkdownPathIsWalk(dir, p);
    LinkBytes(dir, p);
    NamedBelow(root, dir, p);
    NothingTakenAway(root, dir, p);
  }

  lemma NamedBelow(root: string, dir: string, p: string)
    requires Rooted(root)
    ensures Named(root, dir, p) == "/" + Join(NamedRoot(root, dir, p) + Walk(true, [], LinkSegments(dir, p)), '/')
  {
    CleanOfRoot(root);
    NamedIsWalk(root, dir, p);
    NamedSegments(RootSegments(root), LinkSegments(dir, p));
  }

  lemma NothingTakenAway(root: string, dir: string, p: string)
    requires Rooted(root) && Clean(root) != "/"
    requires p != "" && !Rooted(p) && !Rooted(dir)
    ensures NamedRoot(root, dir, p) == RootSegments(root) <==> !Escapes(dir, p)
  {
    CleanOfRoot(root);
    EscapesIsUps(dir, p);
    assert RootSegments(root) != [];
  }

  lemma LinkBytes(dir: string, p: string)
    requires IsBytes(dir) && IsBytes(p)
    ensures IsBytes(Join(Walk(true, [], LinkSegments(dir, p)), '/'))
  {
    SplitBytes(p);
    SplitBytes(dir);
    WalkBytes(true, LinkSegments(dir, p));
    JoinBytes(Walk(true, [], LinkSegments(dir, p)));
  }

  lemma NamedSegments(base: seq<string>, segments: seq<string>)
    requires AreNames(base) && forall s :: s in segments ==> '/' !in s
    ensures var ups := Ups(Walk(false, [], segments));
      Walk(true, base, segments) == base[..if ups <= |base| then |base| - ups else 0] + Walk(true, [], segments)
  {
    WalkFrom(base, segments);
    WalkFrom([], segments);
    FromSlash(Walk(false, [], segments));
  }

  lemma FromSlash(kept: seq<string>)
    ensures From([], kept) == kept[Ups(kept)..]
  {
    var none: seq<string> := [];
    assert none[..0] == [];
  }

  /** A path whose ends need no trimming opens at its own place below the root: it is
      the named file just when naming took nothing of the root away. */
  lemma ServedWhenTrimmed(root: string, kept: seq<string>, left: seq<string>, follow: string -> RealPath)
    requires Rooted(root) && Clean(root) != "/" && AreNames(kept)
    requires left <= RootSegments(root)
    ensures ResolveScopedPath(root, Join(kept, '/'), follow) == Opens("/" + Join(left + kept, '/'))
      <==> left == RootSegments(root) && Allowed(root, Join(kept, '/'), "/" + Join(left + kept, '/'), follow)
  {
    var base := RootSegments(root);
    CleanOfRoot(root);
    ResolveClean(root, kept, follow);
    assert AreNames(left + kept) && AreNames(base + kept);
    JoinInjective(base + kept, left + kept);
    assert left != base ==> |left + kept| < |base + kept|;
    assert ("/" + Join(left + kept, '/'))[1..] == Join(left + kept, '/');
    assert ("/" + Join(base + kept, '/'))[1..] == Join(base + kept, '/');
  }

  lemma JoinInjective(a: seq<string>, b: seq<string>)
    requires AreNames(a) && AreNames(b)
    ensures Join(a, '/') == Join(b, '/') <==> a == b
  {
    JoinOfNames(a);
    JoinOfNames(b);
    if a != [] && b != [] {
      SplitJoin(a, '/');
      SplitJoin(b, '/');
    }
  }

  lemma ServedWhenUntrimmed(root: string, kept: seq<string>, follow: string -> RealPath)
    requires Rooted(root) && Clean(root) != "/" && AreNames(kept)
    requires TrimSpace(Join(kept, '/')) != Join(kept, '/')
    ensures ResolveScopedPath(root, TrimChar(TrimSpace(Join(kept, '/')), '/'), follow) !=
            Opens("/" + Join(RootSegments(root) + kept, '/'))
  {
    var rel := Join(kept, '/');
    TrimSpaceFixed(rel);
    JoinOfNames(kept);
    ResolvedNotLonger(root, TrimChar(TrimSpace(rel), '/'), follow);
    ResolveClean(root, kept, follow);
  }

  lemma DocumentDir(docRel: string)
    requires IsBytes(docRel) && !Rooted(docRel)
    ensures IsBytes(CurrentDir(docRel)) && !Rooted(CurrentDir(docRel))
  {
    var part := DirPart(docRel);
    if part != "" {
      var segments := Split(part, '/');
      var kept := Walk(false, [], segments);
      SplitBytes(part);
      WalkBytes(false, segments);
      JoinBytes(kept);
      WalkKeeps(false, segments);
      if kept != [] {
        assert kept[0] != "" && '/' !in kept[0];
        assert kept[0][0] in kept[0];
      }
    }
  }

  lemma LocalPathBytes(target: string)
    requires IsBytes(target) && LocalPath(target).Some?
    ensures var p := LocalPath(target).value; IsBytes(p) && p != "" && !Rooted(p)
  {
    var trimmed := TrimSpace(target);
    TrimSpaceBytes(target);
    ReferencePathBytes(trimmed);
  }

  lemma TrimSpaceBytes(s: string)
    requires IsBytes(s)
    ensures IsBytes(TrimSpace(s))
  {
    TrimLeftBytes(s);
  }

  lemma {:induction false} TrimLeftBytes(s: string)
    requires IsBytes(s)
    ensures IsBytes(TrimLeft(s))
    decreases |s|
  {
    if SpaceAtStart(s) > 0 {
      TrimLeftBytes(s[SpaceAtStart(s)..]);
    }
  }

  lemma ReferencePathBytes(reference: string)
    requires IsBytes(reference) && ReferencePath(reference).Some?
    ensures IsBytes(ReferencePath(reference).value)
  {
    UnescapeGivesBytes(Before(Before(reference, '#'), '?'));
  }

  /** A document published as a bundle sits at the top of its share. Each link the
      analysis found local and not escaping opens exactly the file it names, unless the
      cleaned path has white space at its ends or a symlink leads out of the share. */
  lemma BundledLinkReachesItsFile(
    route: Route, id: string, query: string, root: string, docRel: string, target: string,
    follow: string -> RealPath)
    requires OpaqueId(id) && Rooted(root) && Clean(root) != "/"
    requires IsBytes(docRel) && '/' !in docRel && IsBytes(target)
    requires Analyze(target) == (true, false)
    ensures var p := LocalPath(target).value;
      var rel := CleanMarkdownPath("", p);
      && CurrentDir(docRel) == ""
      && IsBytes(rel)
      && (Served(route, id, query, root, docRel, p, follow) == Opens(Named(root, "", p)) <==>
          TrimSpace(rel) == rel && Allowed(root, rel, Named(root, "", p), follow))
  {
    TopLevelDir(docRel);
    LinkReachesItsFile(route, id, query, root, docRel, target, LocalPath(target).value, follow);
  }

  lemma {:induction false} TopLevelDir(docRel: string)
    requires '/' !in docRel
    ensures DirPart(docRel) == ""
  {
    if docRel != "" {
      assert docRel[|docRel| - 1] in docRel;
      TopLevelDir(docRel[..|docRel| - 1]);
    }
  }

  // A link that needs trimming: `%20a` names the file ` a`, and is served as `a`.

  const SPACED_TARGET := ['%', '2', '0', 'a']
  const SPACED_PATH := [' ', 'a']

  lemma SpacedUnescape()
    ensures Unescape(SPACED_TARGET) == Some(SPACED_PATH)
  {
    var rest := SPACED_TARGET[3..];
    assert rest == ['a'] && rest[1..] == "";
    assert Unescape(rest) == Some(['a'] + "");
    assert ['a'] + "" == ['a'];
    assert HexValue('2') == Some(2) && HexValue('0') == Some(0);
    assert [' '] + ['a'] == SPACED_PATH;
  }

  lemma SpacedReference()
    ensures ReferencePath(SPACED_TARGET) == Some(SPACED_PATH)
  {
    SpacedUnescape();
    BeforeNone(SPACED_TARGET, '#');
    BeforeNone(SPACED_TARGET, '?');
    BeforeNone(SPACED_TARGET, '/');
    assert SchemeOf(SPACED_TARGET, 0) == NoScheme;
  }

  lemma SpacedClean()
    ensures Clean(SPACED_PATH) == SPACED_PATH && CleanMarkdownPath("", SPACED_PATH) == SPACED_PATH
  {
    assert SPACED_PATH != "." && SPACED_PATH != "..";
    SplitOne(SPACED_PATH, '/');
    WalkNames(false, [], [SPACED_PATH]);
    assert [] + [SPACED_PATH] == [SPACED_PATH];
    CleanRooted([SPACED_PATH]);
    assert ("/" + SPACED_PATH)[1..] == SPACED_PATH;
  }

  lemma VisibleEndsStay(s: string)
    requires s != "" && '!' <= s[0] <= '~' && '!' <= s[|s| - 1] <= '~'
    ensures TrimSpace(s) == s
  {
    TrimSpaceFixed(s);
  }

  lemma BlankStartGoes(s: string)
    requires s != "" && s[0] == ' '
    ensures TrimSpace(s) != s
  {
    TrimSpaceFixed(s);
  }

  lemma LocalPathIs(target: string, p: string)
    requires TrimSpace(target) == target && target != "" && target[0] != '#' && target[0] != '/'
    requires ReferencePath(target) == Some(p) && p != "" && p[0] != '/'
    ensures LocalPath(target) == Some(p)
  {
  }

  lemma SpacedLocal()
    ensures LocalPath(SPACED_TARGET) == Some(SPACED_PATH)
  {
    VisibleEndsStay(SPACED_TARGET);
    SpacedReference();
    LocalPathIs(SPACED_TARGET, SPACED_PATH);
  }

  lemma SpacedAnalysis()
    ensures Analyze(SPACED_TARGET) == (true, false)
  {
    SpacedLocal();
    SpacedClean();
    assert SPACED_PATH[0] == ' ';
  }

  /** So it is for every path that stays in the share and needs trimming. */
  lemma UntrimmedPathMisses(
    route: Route, id: string, query: string, root: string, docRel: string, p: string, follow: string -> RealPath)
    requires OpaqueId(id) && Rooted(root) && Clean(root) != "/" && IsBytes(docRel) && '/' !in docRel
    requires IsBytes(p) && p != "" && !Rooted(p) && !Escapes("", p)
    requires TrimSpace(CleanMarkdownPath("", p)) != CleanMarkdownPath("", p)
    ensures CurrentDir(docRel) == "" && IsBytes(CleanMarkdownPath("", p))
    ensures Served(route, id, query, root, docRel, p, follow) != Opens(Named(root, "", p))
  {
    TopLevelDir(docRel);
    LinkPaths(root, "", p);
    RequestReaches(route, id, CleanMarkdownPath("", p), query, root, follow);
    LinkOutcome(root, "", p, follow);
  }

  lemma TrimmedLinkMisses(
    route: Route, id: string, query: string, root: string, docRel: string, follow: string -> RealPath)
    requires OpaqueId(id) && Rooted(root) && Clean(root) != "/" && IsBytes(docRel) && '/' !in docRel
    ensures CurrentDir(docRel) == "" && IsBytes(CleanMarkdownPath("", SPACED_PATH))
    ensures Served(route, id, query, root, docRel, SPACED_PATH, follow) != Opens(Named(root, "", SPACED_PATH))
  {
    SpacedClean();
    BlankStartGoes(SPACED_PATH);
    assert SPACED_PATH[0] == ' ';
    UntrimmedPathMisses(route, id, query, root, docRel, SPACED_PATH, follow);
  }

  /** A share of `/` itself serves no child: why the theorems above exclude that root. */
  lemma NothingBelowSlash(root: string, rel: string, follow: string -> RealPath)
    requires Rooted(root) && Clean(root) == "/"
    ensures ResolveScopedPath(root, rel, follow) in {Refused, Opens("/")}
  {
    var cleaned := TrimPrefix(Clean("/" + rel), "/");
    var joined := Clean("/" + "/" + if cleaned == "." then "" else cleaned);
    CleanOfRoot("/" + "/" + if cleaned == "." then "" else cleaned);
    CleanOfRoot(joined);
    JoinOfNames(RootSegments(joined));
    assert Clean(joined) != "/" ==> Clean(joined)[1] != '/';
  }
}
