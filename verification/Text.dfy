/** Strings as Go programs see them: each char stands for one byte. Splitting and
    joining, trimming white space, and lexical path cleaning. */
module Text {

  predicate HasPrefix(s: string, prefix: string) {
    |prefix| <= |s| && s[..|prefix|] == prefix
  }

  predicate HasSuffix(s: string, suffix: string) {
    |suffix| <= |s| && s[|s| - |suffix|..] == suffix
  }

  lemma Regroup<T>(a: seq<T>, b: seq<T>, c: seq<T>)
    ensures a + b + c == a + (b + c)
  {
  }

  lemma Consed<T>(x: T, s: seq<T>)
    ensures ([x] + s)[0] == x && ([x] + s)[1..] == s
  {
  }

  lemma HeadTail<T>(s: seq<T>)
    requires s != []
    ensures [s[0]] + s[1..] == s
  {
  }

  lemma PartsAround<T>(s: seq<T>, k: nat)
    requires k < |s|
    ensures s == s[..k] + ([s[k]] + s[k + 1..])
  {
  }

  // ------------------------------------------------------------ split and join

  function Split(s: string, sep: char): (parts: seq<string>)
    ensures parts != []
    ensures forall p :: p in parts ==> sep !in p
  {
    if s == "" then [""]
    else
      var rest := Split(s[1..], sep);
      if s[0] == sep then [""] + rest else [[s[0]] + rest[0]] + rest[1..]
  }

  function Join(parts: seq<string>, sep: char): string {
    if parts == [] then ""
    else if |parts| == 1 then parts[0]
    else parts[0] + [sep] + Join(parts[1..], sep)
  }

  lemma {:induction false} JoinSplit(s: string, sep: char)
    ensures Join(Split(s, sep), sep) == s
  {
    if s != "" {
      JoinSplit(s[1..], sep);
      var rest := Split(s[1..], sep);
      if s[0] == sep {
        JoinEmptyFirst(rest, sep);
      } else {
        JoinLongerFirst(s[0], rest[0], rest[1..], sep);
        HeadTail(rest);
      }
      HeadTail(s);
    }
  }

  lemma JoinEmptyFirst(rest: seq<string>, sep: char)
    requires rest != []
    ensures Join([""] + rest, sep) == [sep] + Join(rest, sep)
  {
    Consed("", rest);
    assert "" + [sep] == [sep];
  }

  lemma JoinLongerFirst(c: char, first: string, rest: seq<string>, sep: char)
    ensures Join([[c] + first] + rest, sep) == [c] + Join([first] + rest, sep)
  {
    Consed([c] + first, rest);
    Consed(first, rest);
    if rest != [] {
      Regroup([c], first, [sep]);
      Regroup([c], first + [sep], Join(rest, sep));
    }
  }

  lemma {:induction false} SplitOne(s: string, sep: char)
    requires sep !in s
    ensures Split(s, sep) == [s]
  {
    if s != "" {
      assert s[0] in s;
      SplitOne(s[1..], sep);
      assert [s[0]] + s[1..] == s;
    }
  }

  lemma {:induction false} SplitConcat(a: string, b: string, sep: char)
    ensures Split(a + [sep] + b, sep) == Split(a, sep) + Split(b, sep)
  {
    var s := a + [sep] + b;
    if a == "" {
      assert s[1..] == b;
    } else {
      assert s[1..] == a[1..] + [sep] + b;
      SplitConcat(a[1..], b, sep);
    }
  }

  lemma {:induction false} SplitJoin(parts: seq<string>, sep: char)
    requires parts != [] && forall p :: p in parts ==> sep !in p
    ensures Split(Join(parts, sep), sep) == parts
  {
    if |parts| == 1 {
      SplitOne(parts[0], sep);
    } else {
      var first, rest := parts[0], parts[1..];
      SplitJoin(rest, sep);
      assert Join(parts, sep) == first + [sep] + Join(rest, sep);
      SplitConcat(first, Join(rest, sep), sep);
      SplitOne(first, sep);
      HeadTail(parts);
    }
  }

  lemma {:induction false} JoinConcat(a: seq<string>, b: seq<string>, sep: char)
    requires a != [] && b != []
    ensures Join(a + b, sep) == Join(a, sep) + [sep] + Join(b, sep)
    decreases |a|
  {
    if |a| == 1 {
      assert (a + b)[1..] == b;
    } else {
      JoinConcat(a[1..], b, sep);
      assert (a + b)[1..] == a[1..] + b;
      Regroup(a[0] + [sep], Join(a[1..], sep), [sep]);
      Regroup(a[0] + [sep], Join(a[1..], sep) + [sep], Join(b, sep));
    }
  }

  // --------------------------------------------------------------- white space

  /** The three-byte encodings of the remaining Unicode spaces. */
  predicate WideSpace(a: char, b: char, c: char) {
    || (a == '\U{E1}' && b == '\U{9A}' && c == '\U{80}')
    || (a == '\U{E2}' && b == '\U{80}' && '\U{80}' <= c <= '\U{8A}')
    || (a == '\U{E2}' && b == '\U{80}' && (c == '\U{A8}' || c == '\U{A9}' || c == '\U{AF}'))
    || (a == '\U{E2}' && b == '\U{81}' && c == '\U{9F}')
    || (a == '\U{E3}' && b == '\U{80}' && c == '\U{80}')
  }

  predicate NarrowSpace(c: char) {
    '\t' <= c <= '\r' || c == ' '
  }

  predicate MiddleSpace(a: char, b: char) {
    a == '\U{C2}' && (b == '\U{85}' || b == '\U{A0}')
  }

  /** Length of the white-space character the string starts with, 0 for none. */
  function SpaceAtStart(s: string): (n: nat)
    ensures n <= |s|
  {
    if |s| >= 1 && NarrowSpace(s[0]) then 1
    else if |s| >= 2 && MiddleSpace(s[0], s[1]) then 2
    else if |s| >= 3 && WideSpace(s[0], s[1], s[2]) then 3
    else 0
  }

  function SpaceAtEnd(s: string): (n: nat)
    ensures n <= |s|
  {
    var k := |s|;
    if k >= 1 && NarrowSpace(s[k - 1]) then 1
    else if k >= 2 && MiddleSpace(s[k - 2], s[k - 1]) then 2
    else if k >= 3 && WideSpace(s[k - 3], s[k - 2], s[k - 1]) then 3
    else 0
  }

  function TrimLeft(s: string): (t: string)
    ensures |t| <= |s| && SpaceAtStart(t) == 0
    decreases |s|
  {
    var n := SpaceAtStart(s);
    if n == 0 then s else TrimLeft(s[n..])
  }

  function TrimRight(s: string): (t: string)
    ensures |t| <= |s| && t == s[..|t|]
    ensures SpaceAtEnd(t) == 0
    decreases |s|
  {
    var n := SpaceAtEnd(s);
    if n == 0 then s else TrimRight(s[..|s| - n])
  }

  function TrimSpace(s: string): (t: string)
    ensures |t| <= |s|
    ensures SpaceAtStart(t) == 0 && SpaceAtEnd(t) == 0
  {
    TrimRight(TrimLeft(s))
  }

  lemma TrimSpaceFixed(s: string)
    ensures TrimSpace(s) == s <==> SpaceAtStart(s) == 0 && SpaceAtEnd(s) == 0
    ensures |TrimSpace(s)| == |s| ==> TrimSpace(s) == s
  {
  }

  /** Exactly one white-space character. */
  predicate IsSpace(w: string) {
    || (|w| == 1 && NarrowSpace(w[0]))
    || (|w| == 2 && MiddleSpace(w[0], w[1]))
    || (|w| == 3 && WideSpace(w[0], w[1], w[2]))
  }

  predicate AreSpaces(parts: seq<string>) {
    forall w :: w in parts ==> IsSpace(w)
  }

  function Concat(parts: seq<string>): string {
    if parts == [] then "" else parts[0] + Concat(parts[1..])
  }

  lemma {:induction false} ConcatLast(parts: seq<string>, w: string)
    ensures Concat(parts + [w]) == Concat(parts) + w
    decreases |parts|
  {
    if parts == [] {
      Consed(w, []);
      assert parts + [w] == [w] + [] && w + "" == w;
    } else {
      ConcatLast(parts[1..], w);
      Regroup(parts[0], Concat(parts[1..]), w);
      assert (parts + [w])[1..] == parts[1..] + [w];
    }
  }

  lemma SpaceAtEndIs(s: string)
    ensures SpaceAtStart(s) > 0 ==> IsSpace(s[..SpaceAtStart(s)])
    ensures SpaceAtEnd(s) > 0 ==> IsSpace(s[|s| - SpaceAtEnd(s)..])
    ensures SpaceAtStart(s) == 0 ==> forall n :: 0 <= n <= |s| ==> !IsSpace(s[..n])
    ensures SpaceAtEnd(s) == 0 ==> forall n :: 0 <= n <= |s| ==> !IsSpace(s[n..])
  {
  }

  lemma {:induction false} TrimLeftIs(s: string) returns (spaces: seq<string>)
    ensures AreSpaces(spaces) && s == Concat(spaces) + TrimLeft(s)
    decreases |s|
  {
    var n := SpaceAtStart(s);
    if n == 0 {
      return [];
    }
    SpaceAtEndIs(s);
    var rest := TrimLeftIs(s[n..]);
    spaces := [s[..n]] + rest;
    ConcatFirst(s[..n], rest);
    Regroup(s[..n], Concat(rest), TrimLeft(s[n..]));
    CutTogether(s, n);
  }

  lemma ConcatFirst(w: string, rest: seq<string>)
    ensures Concat([w] + rest) == w + Concat(rest)
  {
    Consed(w, rest);
  }

  lemma CutTogether(s: string, n: nat)
    requires n <= |s|
    ensures s == s[..n] + s[n..]
  {
  }

  lemma {:induction false} TrimRightIs(s: string) returns (spaces: seq<string>)
    ensures AreSpaces(spaces) && s == TrimRight(s) + Concat(spaces)
    decreases |s|
  {
    var n := SpaceAtEnd(s);
    if n == 0 {
      return [];
    }
    SpaceAtEndIs(s);
    var front, w := s[..|s| - n], s[|s| - n..];
    var rest := TrimRightIs(front);
    spaces := rest + [w];
    ConcatLast(rest, w);
    Regroup(TrimRight(s), Concat(rest), w);
    assert s == front + w;
  }

  /** What trimming takes is white space and nothing else, and it leaves none at the ends. */
  lemma TrimSpaceIs(s: string) returns (left: seq<string>, right: seq<string>)
    ensures AreSpaces(left) && AreSpaces(right) && s == Concat(left) + TrimSpace(s) + Concat(right)
    ensures forall n :: 0 <= n <= |TrimSpace(s)| ==> !IsSpace(TrimSpace(s)[..n]) && !IsSpace(TrimSpace(s)[n..])
  {
    left := TrimLeftIs(s);
    right := TrimRightIs(TrimLeft(s));
    SpaceAtEndIs(TrimSpace(s));
    Regroup(Concat(left), TrimSpace(s), Concat(right));
  }

  function TrimPrefix(s: string, prefix: string): string {
    if HasPrefix(s, prefix) then s[|prefix|..] else s
  }

  /** strings.Trim with a single-character cutset. */
  function TrimChar(s: string, c: char): (t: string)
    ensures |t| <= |s|
    ensures t != "" ==> t[0] != c && t[|t| - 1] != c
    ensures s != "" && s[0] != c && s[|s| - 1] != c ==> t == s
    decreases |s|
  {
    if s != "" && s[0] == c then TrimChar(s[1..], c)
    else if s != "" && s[|s| - 1] == c then TrimChar(s[..|s| - 1], c)
    else s
  }

  // ------------------------------------------------------------ path cleaning

  predicate Rooted(s: string) {
    s != "" && s[0] == '/'
  }

  /** One path segment against the segments kept so far. */
  function Push(rooted: bool, kept: seq<string>, segment: string): seq<string> {
    if segment == "" || segment == "." then kept
    else if segment != ".." then kept + [segment]
    else if kept != [] && kept[|kept| - 1] != ".." then kept[..|kept| - 1]
    else if rooted then kept
    else kept + [".."]
  }

  function Walk(rooted: bool, kept: seq<string>, segments: seq<string>): seq<string> {
    if segments == [] then kept
    else
      var last := |segments| - 1;
      Push(rooted, Walk(rooted, kept, segments[..last]), segments[last])
  }

  /** path.Clean, which filepath.Clean is on a system with `/` as separator. */
  function Clean(s: string): string {
    if s == "" then "."
    else
      var kept := Walk(Rooted(s), [], Split(s, '/'));
      if Rooted(s) then "/" + Join(kept, '/') else if kept == [] then "." else Join(kept, '/')
  }

  /** path.Join of two elements. */
  function JoinPath(a: string, b: string): string {
    if a != "" then Clean(a + "/" + b) else if b != "" then Clean(b) else ""
  }

  /** Everything up to and including the last slash. */
  function DirPart(s: string): (d: string)
    ensures |d| <= |s| && d == s[..|d|]
  {
    if s == "" || s[|s| - 1] == '/' then s else DirPart(s[..|s| - 1])
  }

  /** filepath.Dir. */
  function Dir(path: string): string {
    Clean(DirPart(path))
  }

  function DropSlashes(path: string): (s: string)
    ensures s != "" ==> s[|s| - 1] != '/'
    ensures path != "" && path[|path| - 1] != '/' ==> s == path
  {
    if path != "" && path[|path| - 1] == '/' then DropSlashes(path[..|path| - 1]) else path
  }

  /** filepath.Base. */
  function Base(path: string): string {
    if path == "" then "."
    else
      var s := DropSlashes(path);
      if s == "" then "/" else s[|DirPart(s)|..]
  }

  predicate IsName(segment: string) {
    segment != "" && segment != "." && segment != ".." && '/' !in segment
  }

  predicate AreNames(segments: seq<string>) {
    forall s :: s in segments ==> IsName(s)
  }

  lemma {:induction false} WalkAppend(rooted: bool, kept: seq<string>, a: seq<string>, b: seq<string>)
    ensures Walk(rooted, kept, a + b) == Walk(rooted, Walk(rooted, kept, a), b)
    decreases |b|
  {
    if b == [] {
      assert a + b == a;
    } else {
      var last := |b| - 1;
      assert (a + b)[..|a + b| - 1] == a + b[..last];
      WalkAppend(rooted, kept, a, b[..last]);
    }
  }

  lemma {:induction false} WalkNames(rooted: bool, kept: seq<string>, names: seq<string>)
    requires AreNames(names)
    ensures Walk(rooted, kept, names) == kept + names
    decreases |names|
  {
    if names != [] {
      var last := |names| - 1;
      WalkNames(rooted, kept, names[..last]);
      assert IsName(names[last]);
      assert kept + names == kept + names[..last] + [names[last]];
    } else {
      assert kept + names == kept;
    }
  }

  /** What a walk keeps: names, after `..`s only when it is not rooted. */
  predicate KeptShape(rooted: bool, kept: seq<string>) {
    && (forall i :: 0 <= i < |kept| ==> IsName(kept[i]) || (!rooted && kept[i] == ".."))
    && (forall i, j :: 0 <= i < j < |kept| && kept[j] == ".." ==> kept[i] == "..")
  }

  lemma {:induction false} WalkKeeps(rooted: bool, segments: seq<string>)
    requires forall s :: s in segments ==> '/' !in s
    ensures KeptShape(rooted, Walk(rooted, [], segments))
    ensures rooted ==> AreNames(Walk(rooted, [], segments))
    decreases |segments|
  {
    if segments != [] {
      var last := |segments| - 1;
      WalkKeeps(rooted, segments[..last]);
      assert '/' !in segments[last];
      PushKeepsShape(rooted, Walk(rooted, [], segments[..last]), segments[last]);
    }
  }

  lemma PushKeepsShape(rooted: bool, kept: seq<string>, segment: string)
    requires KeptShape(rooted, kept) && '/' !in segment
    ensures KeptShape(rooted, Push(rooted, kept, segment))
  {
  }

  /** Cleaning under a root twice, or once, is the same. */
  lemma {:induction false} RootedAfterUnrooted(segments: seq<string>)
    requires forall s :: s in segments ==> '/' !in s
    ensures Walk(true, [], Walk(false, [], segments)) == Walk(true, [], segments)
    decreases |segments|
  {
    if segments != [] {
      var last := |segments| - 1;
      RootedAfterUnrooted(segments[..last]);
      WalkKeeps(false, segments[..last]);
      WalkPushed(Walk(false, [], segments[..last]), segments[last]);
    }
  }

  lemma WalkPushed(kept: seq<string>, segment: string)
    requires KeptShape(false, kept) && '/' !in segment
    ensures Walk(true, [], Push(false, kept, segment)) == Push(true, Walk(true, [], kept), segment)
  {
    if segment == ".." && kept != [] && kept[|kept| - 1] != ".." {
      var last := |kept| - 1;
      assert IsName(kept[last]);
      assert Walk(true, [], kept) == Walk(true, [], kept[..last]) + [kept[last]];
    } else if segment != "" && segment != "." {
      assert (kept + [segment])[..|kept|] == kept;
    }
  }

  lemma CleanRooted(kept: seq<string>)
    requires AreNames(kept)
    ensures Split("/" + Join(kept, '/'), '/') == [""] + if kept == [] then [""] else kept
    ensures Clean("/" + Join(kept, '/')) == "/" + Join(kept, '/')
  {
    var s := "/" + Join(kept, '/');
    assert s[1..] == Join(kept, '/');
    if kept != [] {
      SplitJoin(kept, '/');
    }
    var segments := if kept == [] then [""] else kept;
    WalkAppend(true, [], [""], segments);
    assert Walk(true, [], [""]) == [] by {
      assert [""][..0] == [];
    }
    if kept == [] {
      assert [""][..0] == [];
    } else {
      WalkNames(true, [], kept);
      assert [] + kept == kept;
    }
  }

  // The rules of cleaning: which segments go, and what stays as it is.

  lemma OneFirst(rooted: bool, kept: seq<string>, segment: string, b: seq<string>)
    ensures Walk(rooted, kept, [segment] + b) == Walk(rooted, Push(rooted, kept, segment), b)
  {
    WalkAppend(rooted, kept, [segment], b);
    assert [segment][..0] == [];
  }

  /** Nothing and `.` are dropped; a name goes together with the `..` after it; and a `..`
      at the root is dropped. */
  lemma CleaningRules(rooted: bool, kept: seq<string>, name: string, b: seq<string>)
    requires IsName(name)
    ensures Walk(rooted, kept, [""] + b) == Walk(rooted, kept, b)
    ensures Walk(rooted, kept, ["."] + b) == Walk(rooted, kept, b)
    ensures Walk(rooted, kept, [name, ".."] + b) == Walk(rooted, kept, b)
    ensures Walk(true, [], [".."] + b) == Walk(true, [], b)
  {
    OneFirst(rooted, kept, "", b);
    OneFirst(rooted, kept, ".", b);
    OneFirst(true, [], "..", b);
    NameGoes(rooted, kept, name, b);
  }

  lemma NameGoes(rooted: bool, kept: seq<string>, name: string, b: seq<string>)
    requires IsName(name)
    ensures Walk(rooted, kept, [name, ".."] + b) == Walk(rooted, kept, b)
  {
    OneFirst(rooted, kept, name, [".."] + b);
    OneFirst(rooted, kept + [name], "..", b);
    assert [name, ".."] + b == [name] + ([".."] + b);
    assert (kept + [name])[..|kept|] == kept;
  }

  /** And what these rules do not apply to stays: names, after `..`s without a root. */
  lemma {:induction false} NormalFormStays(rooted: bool, kept: seq<string>)
    requires KeptShape(rooted, kept)
    ensures Walk(rooted, [], kept) == kept
    decreases |kept|
  {
    if kept != [] {
      var last := |kept| - 1;
      NormalFormStays(rooted, kept[..last]);
      assert kept == kept[..last] + [kept[last]];
      assert kept[last] == ".." && last > 0 ==> kept[last - 1] == "..";
    }
  }

  /** So cleaning a clean path changes nothing. */
  lemma CleanTwice(s: string)
    ensures Clean(Clean(s)) == Clean(s)
  {
    if s != "" {
      var kept := Walk(Rooted(s), [], Split(s, '/'));
      WalkKeeps(Rooted(s), Split(s, '/'));
      if Rooted(s) {
        CleanRooted(kept);
      } else if kept != [] {
        SplitJoin(kept, '/');
        NormalFormStays(false, kept);
        FirstStays(kept);
      } else {
        DotIsClean();
      }
    } else {
      DotIsClean();
    }
  }

  lemma FirstStays(kept: seq<string>)
    requires KeptShape(false, kept) && kept != []
    ensures Join(kept, '/') != "" && !Rooted(Join(kept, '/'))
  {
    assert kept[0] != "" && kept[0][0] != '/';
  }

  lemma DotIsClean()
    ensures Clean(".") == "."
  {
    SplitOne(".", '/');
    assert ["."][..0] == [];
  }

  // Cleaning never makes a path longer.

  function Width(segments: seq<string>): nat {
    if segments == [] then 0 else Width(segments[..|segments| - 1]) + 1 + |segments[|segments| - 1]|
  }

  lemma {:induction false} WidthOfJoin(segments: seq<string>)
    requires segments != []
    ensures |Join(segments, '/')| == Width(segments) - 1
    decreases |segments|
  {
    if |segments| > 1 {
      WidthOfJoin(segments[1..]);
      WidthSplit(segments[..1], segments[1..]);
      assert segments == segments[..1] + segments[1..];
      assert Width(segments[..1]) == 1 + |segments[0]| by {
        assert segments[..1][..0] == [];
      }
    } else {
      assert segments[..0] == [];
    }
  }

  lemma {:induction false} WidthSplit(a: seq<string>, b: seq<string>)
    ensures Width(a + b) == Width(a) + Width(b)
    decreases |b|
  {
    if b == [] {
      assert a + b == a;
    } else {
      assert (a + b)[..|a + b| - 1] == a + b[..|b| - 1];
      WidthSplit(a, b[..|b| - 1]);
    }
  }

  lemma {:induction false} WalkWidth(rooted: bool, kept: seq<string>, segments: seq<string>)
    ensures Width(Walk(rooted, kept, segments)) <= Width(kept) + Width(segments)
    decreases |segments|
  {
    if segments != [] {
      var last := |segments| - 1;
      WalkWidth(rooted, kept, segments[..last]);
      var before := Walk(rooted, kept, segments[..last]);
      assert (before + [segments[last]])[..|before|] == before;
    }
  }

  lemma CleanNotLonger(s: string)
    requires Rooted(s)
    ensures |Clean(s)| <= |s|
  {
    var segments := Split(s, '/');
    var kept := Walk(true, [], segments);
    JoinSplit(s, '/');
    WidthOfJoin(segments);
    var rest := Split(s[1..], '/');
    assert segments == [""] + rest;
    WalkAppend(true, [], [""], rest);
    assert [""][..0] == [];
    WalkWidth(true, [], rest);
    WidthSplit([""], rest);
    if kept != [] {
      WidthOfJoin(kept);
    }
  }
}
