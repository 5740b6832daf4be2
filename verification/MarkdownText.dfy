/** What happens to Markdown text before it is rendered: its frontmatter is split off,
    and directive tags standing alone on a line are made to show as code. */
module MarkdownText {
  import opened Options
  import opened Text

  // -------------------------------------------------------------- frontmatter

  const DELIMITER := "---\n"
  const FENCE := "---"

  /** Offset of the first c in s from `from` on, or -1. */
  function IndexFrom(s: string, c: char, from: nat): (i: int)
    requires from <= |s|
    ensures i == -1 || from <= i < |s|
    ensures i == -1 ==> forall j :: from <= j < |s| ==> s[j] != c
    ensures i >= 0 ==> s[i] == c && forall j :: from <= j < i ==> s[j] != c
    decreases |s| - from
  {
    if from == |s| then -1 else if s[from] == c then from else IndexFrom(s, c, from + 1)
  }

  /** A line of source starts at i and is exactly the fence. */
  predicate FenceAt(source: string, i: nat) {
    && |DELIMITER| <= i && i + |FENCE| <= |source|
    && source[i - 1] == '\n'
    && source[i..i + |FENCE|] == FENCE
    && (i + |FENCE| == |source| || source[i + |FENCE|] == '\n')
  }

  predicate HasFrontmatter(source: string) {
    HasPrefix(source, DELIMITER) && exists i :: 0 <= i <= |source| && FenceAt(source, i)
  }

  predicate NoFenceBefore(source: string, n: nat) {
    forall i :: 0 <= i < n && i <= |source| ==> !FenceAt(source, i)
  }

  /** A line starts at lineStart and ends before lineEnd: is it the fence? */
  lemma LineIsFence(source: string, lineStart: nat, lineEnd: nat)
    requires |DELIMITER| <= lineStart <= lineEnd <= |source| && source[lineStart - 1] == '\n'
    requires forall j :: lineStart <= j < lineEnd ==> source[j] != '\n'
    requires lineEnd == |source| || source[lineEnd] == '\n'
    requires NoFenceBefore(source, lineStart)
    ensures source[lineStart..lineEnd] == FENCE <==> FenceAt(source, lineStart)
    ensures !FenceAt(source, lineStart) ==> NoFenceBefore(source, lineEnd + 1)
  {
    if FenceAt(source, lineStart) {
      var word := source[lineStart..lineStart + 3];
      assert word == ['-', '-', '-'];
      assert source[lineStart] == word[0] && source[lineStart + 1] == word[1] && source[lineStart + 2] == word[2];
      assert lineEnd == lineStart + 3;
    }
  }

  /** The source is its first line, the front part up to the first fence line, that
      fence, and the body. */
  predicate IsSplit(source: string, front: string, body: string) {
    && (source == DELIMITER + front + FENCE + "\n" + body || (source == DELIMITER + front + FENCE && body == ""))
    && FenceAt(source, |DELIMITER| + |front|)
    && NoFenceBefore(source, |DELIMITER| + |front|)
  }

  /** The front part and the body, when the source has frontmatter. How the front part
      reads as YAML is not modelled. */
  method StripFrontmatter(source: string) returns (split: bool, front: string, body: string)
    ensures split <==> HasFrontmatter(source)
    ensures !split ==> front == "" && body == source
    // nothing is lost, and no line of the front part is a fence
    ensures split ==> IsSplit(source, front, body)
  {
    if !HasPrefix(source, DELIMITER) {
      return false, "", source;
    }
    var start := |DELIMITER|;
    var offset := start;
    while offset <= |source|
      invariant start <= offset <= |source| + 1
      invariant offset <= |source| ==> source[offset - 1] == '\n'
      invariant NoFenceBefore(source, offset)
      decreases |source| + 1 - offset
    {
      var lineEnd := IndexFrom(source, '\n', offset);
      LineIsFence(source, offset, if lineEnd < 0 then |source| else lineEnd);
      if lineEnd < 0 {
        if source[offset..] == FENCE {
          SplitLosesNothing(source, offset);
          return true, source[start..offset], "";
        }
        return false, "", source;
      }
      if source[offset..lineEnd] == FENCE {
        SplitLosesNothing(source, offset);
        return true, source[start..offset], source[lineEnd + 1..];
      }
      offset := lineEnd + 1;
    }
    return false, "", source;
  }

  lemma SplitLosesNothing(source: string, i: nat)
    requires HasPrefix(source, DELIMITER) && FenceAt(source, i) && NoFenceBefore(source, i)
    ensures i + 3 == |source| ==> IsSplit(source, source[|DELIMITER|..i], "")
    ensures i + 3 < |source| ==> IsSplit(source, source[|DELIMITER|..i], source[i + 4..])
  {
    assert source == source[..4] + source[4..i] + source[i..i + 3] + source[i + 3..];
    if i + 3 < |source| {
      assert source[i + 3..] == "\n" + source[i + 4..];
    }
  }

  /** There is one way to split a source. */
  lemma SplitIsUnique(source: string, front: string, body: string, front': string, body': string)
    requires IsSplit(source, front, body) && IsSplit(source, front', body')
    ensures front == front' && body == body'
  {
    assert |front| == |front'|;
    assert front == source[4..4 + |front|] && front' == source[4..4 + |front|];
    if |source| > |front| + 7 {
      assert body == source[8 + |front|..] && body' == source[8 + |front|..];
    }
  }

  // ------------------------------------------------------------ directive tags

  const DIRECTIVES := {
    "constraints", "examples", "guardrails", "notify", "on_error",
    "output", "qualification", "reply_logic", "scope", "style"}

  predicate IsLower(c: char) {
    'a' <= c <= 'z'
  }

  predicate IsNameChar(c: char) {
    IsLower(c) || '0' <= c <= '9' || c == '_' || c == ':' || c == '-'
  }

  /** White space in a regular expression. */
  predicate IsRegexSpace(c: char) {
    c == '\t' || c == '\n' || c == '\U{0C}' || c == '\r' || c == ' '
  }

  predicate IsTagName(name: string) {
    name != "" && IsLower(name[0]) && forall c :: c in name ==> IsNameChar(c)
  }

  predicate IsAttributes(attrs: string) {
    attrs == "" || (IsRegexSpace(attrs[0]) && '<' !in attrs && '>' !in attrs)
  }

  /** The pattern of a tag standing alone: `<` or `</`, a name, attributes, `>`. */
  ghost predicate IsTag(t: string, name: string) {
    exists open, attrs :: HasTagParts(t, open, name, attrs)
  }

  predicate HasTagParts(t: string, open: string, name: string, attrs: string) {
    open in {"<", "</"} && IsTagName(name) && IsAttributes(attrs) && t == open + name + attrs + ">"
  }

  function NameEnd(t: string, i: nat): (j: nat)
    requires i <= |t|
    ensures i <= j <= |t|
    ensures forall k :: i <= k < j ==> IsNameChar(t[k])
    ensures j < |t| ==> !IsNameChar(t[j])
    decreases |t| - i
  {
    if i < |t| && IsNameChar(t[i]) then NameEnd(t, i + 1) else i
  }

  function TagName(t: string): Option<string> {
    if |t| < 3 || t[0] != '<' || t[|t| - 1] != '>' then None
    else
      var i := if t[1] == '/' then 2 else 1;
      var j := NameEnd(t, i);
      if j <= i || j >= |t| || !IsLower(t[i]) || !IsAttributes(t[j..|t| - 1]) then None
      else Some(t[i..j])
  }

  lemma TagNameSound(t: string)
    requires TagName(t).Some?
    ensures IsTag(t, TagName(t).value)
  {
    var i := if t[1] == '/' then 2 else 1;
    var j := NameEnd(t, i);
    var open, name, attrs := if i == 2 then "</" else "<", t[i..j], t[j..|t| - 1];
    assert TagName(t) == Some(name);
    NamePart(t, i, j);
    assert t[..i] == open && t[|t| - 1..] == ">";
    assert t == t[..i] + t[i..j] + t[j..|t| - 1] + t[|t| - 1..];
    HasParts(t, open, name, attrs);
  }

  lemma HasParts(t: string, open: string, name: string, attrs: string)
    requires HasTagParts(t, open, name, attrs)
    ensures IsTag(t, name)
  {
  }

  lemma NamePart(t: string, i: nat, j: nat)
    requires i < j <= |t| && IsLower(t[i]) && forall k :: i <= k < j ==> IsNameChar(t[k])
    ensures IsTagName(t[i..j])
  {
    var name := t[i..j];
    assert name[0] == t[i];
    forall c | c in name ensures IsNameChar(c) {
      var k :| 0 <= k < |name| && name[k] == c;
      assert name[k] == t[i + k];
    }
  }

  lemma TagNameComplete(t: string, open: string, name: string, attrs: string)
    requires HasTagParts(t, open, name, attrs)
    ensures TagName(t) == Some(name)
  {
    var i := |open|;
    assert t[i] == name[0] && (i == 1 ==> t[1] != '/');
    assert t[|t| - 1] == '>';
    var end := i + |name|;
    assert forall k :: i <= k < end ==> t[k] == name[k - i] && name[k - i] in name;
    assert !IsNameChar(t[end]);
    assert NameEnd(t, i) == end;
    assert t[i..end] == name && t[end..|t| - 1] == attrs;
  }

  /** Taking the longest name decides the pattern. */
  lemma TagNameIsPattern(t: string, name: string)
    ensures TagName(t) == Some(name) <==> IsTag(t, name)
  {
    if TagName(t) == Some(name) {
      TagNameSound(t);
    }
    if IsTag(t, name) {
      var open, attrs :| HasTagParts(t, open, name, attrs);
      TagNameComplete(t, open, name, attrs);
    }
  }

  function WithoutCR(line: string): string {
    if HasSuffix(line, "\r") then line[..|line| - 1] else line
  }

  function Trimmed(line: string): string {
    TrimSpace(WithoutCR(line))
  }

  function IndentWidth(line: string): (n: nat)
    ensures n <= |line| && forall i :: 0 <= i < n ==> line[i] == ' ' || line[i] == '\t'
    ensures n < |line| ==> line[n] != ' ' && line[n] != '\t'
  {
    if line != "" && (line[0] == ' ' || line[0] == '\t') then 1 + IndentWidth(line[1..]) else 0
  }

  /** The line a directive tag becomes; None for any other line. */
  function RewriteTagLine(line: string): Option<string> {
    var trimmed := Trimmed(line);
    match TagName(trimmed)
    case None => None
    case Some(name) =>
      if name in DIRECTIVES then Some(line[..IndentWidth(line)] + Quoted(trimmed)) else None
  }

  function Quoted(text: string): string {
    "`" + text + "`"
  }

  // ------------------------------------------------------------------ fences

  function RunLength(line: string, c: char): (n: nat)
    ensures n <= |line| && (forall i :: 0 <= i < n ==> line[i] == c) && (n < |line| ==> line[n] != c)
  {
    if line != "" && line[0] == c then 1 + RunLength(line[1..], c) else 0
  }

  /** The run of three or more back-quotes or tildes a line starts with. */
  function Marker(line: string): Option<string> {
    if line == "" || (line[0] != '`' && line[0] != '~') || RunLength(line, line[0]) < 3 then None
    else Some(line[..RunLength(line, line[0])])
  }

  lemma RunLengthIs(line: string, c: char, n: nat)
    requires n <= |line| && (forall i :: 0 <= i < n ==> line[i] == c) && (n < |line| ==> line[n] != c)
    ensures RunLength(line, c) == n
  {
  }

  method FenceMarker(line: string) returns (marker: string, ok: bool)
    ensures ok <==> Marker(line).Some?
    ensures ok ==> Marker(line) == Some(marker)
    ensures ok <==> |line| >= 3 && (line[0] == '`' || line[0] == '~') && line[1] == line[0] && line[2] == line[0]
    ensures ok ==> marker <= line && forall i :: 0 <= i < |marker| ==> marker[i] == line[0]
    ensures ok && |marker| < |line| ==> line[|marker|] != line[0]
  {
    if line == "" {
      return "", false;
    }
    var fenceChar := line[0];
    if fenceChar != '`' && fenceChar != '~' {
      return "", false;
    }
    var runLength := 0;
    while runLength < |line| && line[runLength] == fenceChar
      invariant runLength <= |line| && forall i :: 0 <= i < runLength ==> line[i] == fenceChar
    {
      runLength := runLength + 1;
    }
    RunLengthIs(line, fenceChar, runLength);
    if runLength < 3 {
      return "", false;
    }
    return line[..runLength], true;
  }

  datatype Fence = Outside | Inside(marker: string)

  function NextFence(fence: Fence, marker: string): Fence {
    match fence
    case Outside => Inside(marker)
    case Inside(opener) =>
      if |marker| >= |opener| && opener != "" && marker[0] == opener[0] then Outside else fence
  }

  // ------------------------------------------------------------- the rewriter

  /** A line with what the loop reads off it: its fence marker, the text it becomes when
      it is a directive tag, and whether it is white space only. */
  datatype Line = Line(text: string, marker: Option<string>, tag: Option<string>, blank: bool)

  function Read(text: string): Line {
    Line(text, Marker(Trimmed(text)), RewriteTagLine(text), TrimSpace(text) == "")
  }

  function ReadAll(texts: seq<string>): (lines: seq<Line>)
    ensures |lines| == |texts|
  {
    seq(|texts|, i requires 0 <= i < |texts| => Read(texts[i]))
  }

  function Texts(lines: seq<Line>): (texts: seq<string>)
    ensures |texts| == |lines|
  {
    seq(|lines|, i requires 0 <= i < |lines| => lines[i].text)
  }

  const EMPTY := Line("", None, None, true)

  function Tagged(text: string): Line {
    Line(text, None, None, false)
  }

  function FenceStep(fence: Fence, line: Line): Fence {
    match line.marker
    case None => fence
    case Some(marker) => NextFence(fence, marker)
  }

  /** The fence state after reading these lines. */
  function FenceAfter(fence: Fence, lines: seq<Line>): Fence
    decreases |lines|
  {
    if lines == [] then fence else FenceAfter(FenceStep(fence, lines[0]), lines[1..])
  }

  predicate IsDirective(fence: Fence, line: Line) {
    line.marker.None? && fence == Outside && line.tag.Some?
  }

  /** What a line becomes, given the fence state before it. */
  function Rewritten(fence: Fence, line: Line): Line {
    if IsDirective(fence, line) then Tagged(line.tag.value) else line
  }

  /** What is added for a line, when the output so far ends as `atBlank` says. */
  function EmitLine(fence: Fence, line: Line, atBlank: bool): seq<Line> {
    if IsDirective(fence, line)
    then (if atBlank then [] else [EMPTY]) + [Rewritten(fence, line), EMPTY]
    else [line]
  }

  predicate LeavesBlank(fence: Fence, line: Line) {
    IsDirective(fence, line) || line.blank
  }

  function Emit(lines: seq<Line>, fence: Fence, atBlank: bool): seq<Line>
    decreases |lines|
  {
    if lines == [] then []
    else EmitLine(fence, lines[0], atBlank) + Emit(lines[1..], FenceStep(fence, lines[0]), LeavesBlank(fence, lines[0]))
  }

  /** The lines put out for these lines of source. */
  function Output(texts: seq<string>): seq<string> {
    Texts(Emit(ReadAll(texts), Outside, true))
  }

  function Preserved(source: string): string {
    if source == "" then ""
    else Join(Output(Split(source, '\n')), '\n') + (if HasSuffix(source, "\n") then "\n" else "")
  }

  predicate EndsBlank(output: seq<string>) {
    output == [] || TrimSpace(output[|output| - 1]) == ""
  }

  function FenceOf(inFence: bool, fenceMarker: string): Fence {
    if inFence then Inside(fenceMarker) else Outside
  }

  /** A fence line opens a fence or, if long enough and of the same kind, closes one. */
  method PassFence(inFence: bool, fenceMarker: string, marker: string) returns (inFence': bool, fenceMarker': string)
    requires marker != "" && (inFence ==> fenceMarker != "")
    ensures FenceOf(inFence', fenceMarker') == NextFence(FenceOf(inFence, fenceMarker), marker)
    ensures inFence' ==> fenceMarker' != ""
    // it opens one, closes it, or is a line of it
    ensures !inFence ==> inFence' && fenceMarker' == marker
    ensures inFence ==> (inFence' <==> !Closes(Some(marker), fenceMarker))
    ensures inFence && inFence' ==> fenceMarker' == fenceMarker
  {
    inFence', fenceMarker' := inFence, fenceMarker;
    if !inFence {
      inFence' := true;
      fenceMarker' := marker;
    } else if |marker| >= |fenceMarker| && marker[0] == fenceMarker[0] {
      inFence' := false;
      fenceMarker' := "";
    }
  }

  /** The body of the loop over lines. */
  method ProcessLine(output: seq<string>, inFence: bool, fenceMarker: string, line: string)
    returns (output': seq<string>, inFence': bool, fenceMarker': string)
    requires inFence ==> fenceMarker != ""
    ensures output' == output + Texts(EmitLine(FenceOf(inFence, fenceMarker), Read(line), EndsBlank(output)))
    ensures FenceOf(inFence', fenceMarker') == FenceStep(FenceOf(inFence, fenceMarker), Read(line))
    ensures inFence' ==> fenceMarker' != ""
  {
    output', inFence', fenceMarker' := output, inFence, fenceMarker;
    TextsEmitted(FenceOf(inFence, fenceMarker), Read(line), EndsBlank(output));
    var marker, ok := FenceMarker(Trimmed(line));
    if ok {
      inFence', fenceMarker' := PassFence(inFence, fenceMarker, marker);
      output' := output + [line];
      return;
    }
    if !inFence {
      var rewritten := RewriteTagLine(line);
      if rewritten.Some? {
        output' := AppendTag(output, rewritten.value);
        return;
      }
    }
    output' := output + [line];
  }

  method AppendTag(output: seq<string>, rewritten: string) returns (output': seq<string>)
    ensures output' == output + (if EndsBlank(output) then [rewritten, ""] else ["", rewritten, ""])
  {
    output' := output;
    if |output| > 0 && TrimSpace(output[|output| - 1]) != "" {
      output' := output' + [""];
    }
    output' := output' + [rewritten];
    output' := output' + [""];
  }

  method PreserveDirectiveTags(source: string) returns (result: string)
    ensures result == Preserved(source)
  {
    if source == "" {
      return source;
    }
    var texts := Split(source, '\n');
    var output: seq<string> := [];
    var inFence, fenceMarker := false, "";
    ghost var lines, fence := ReadAll(texts), Outside;
    for i := 0 to |texts|
      invariant fence == FenceOf(inFence, fenceMarker) && (inFence ==> fenceMarker != "")
      invariant output + Texts(Emit(lines[i..], fence, EndsBlank(output))) == Texts(Emit(lines, Outside, true))
    {
      EmitOne(lines, i, fence, output);
      fence := FenceStep(fence, lines[i]);
      output, inFence, fenceMarker := ProcessLine(output, inFence, fenceMarker, texts[i]);
    }
    assert lines[|texts|..] == [] && output + [] == output;
    result := Join(output, '\n');
    if HasSuffix(source, "\n") {
      result := result + "\n";
    }
  }

  lemma EmitOne(lines: seq<Line>, i: nat, fence: Fence, output: seq<string>)
    requires i < |lines| && lines[i].blank == (TrimSpace(lines[i].text) == "")
    ensures var added := Texts(EmitLine(fence, lines[i], EndsBlank(output)));
      output + Texts(Emit(lines[i..], fence, EndsBlank(output))) ==
        output + added + Texts(Emit(lines[i + 1..], FenceStep(fence, lines[i]), EndsBlank(output + added)))
  {
    var line := lines[i];
    var added := EmitLine(fence, line, EndsBlank(output));
    assert lines[i..][1..] == lines[i + 1..];
    EmittedEndsBlank(output, fence, line, EndsBlank(output));
    var rest := Emit(lines[i + 1..], FenceStep(fence, line), LeavesBlank(fence, line));
    TextsConcat(added, rest);
    assert output + (Texts(added) + Texts(rest)) == output + Texts(added) + Texts(rest);
  }

  lemma TextsConcat(a: seq<Line>, b: seq<Line>)
    ensures Texts(a + b) == Texts(a) + Texts(b)
  {
  }

  lemma EmittedEndsBlank(output: seq<string>, fence: Fence, line: Line, atBlank: bool)
    requires line.blank == (TrimSpace(line.text) == "")
    ensures EndsBlank(output + Texts(EmitLine(fence, line, atBlank))) == LeavesBlank(fence, line)
  {
    var added := EmitLine(fence, line, atBlank);
    var all := output + Texts(added);
    assert all[|all| - 1] == added[|added| - 1].text;
    assert TrimSpace("") == "";
  }

  lemma TextsEmitted(fence: Fence, line: Line, atBlank: bool)
    ensures !IsDirective(fence, line) ==> Texts(EmitLine(fence, line, atBlank)) == [line.text]
    ensures IsDirective(fence, line) && atBlank ==> Texts(EmitLine(fence, line, atBlank)) == [line.tag.value, ""]
    ensures IsDirective(fence, line) && !atBlank ==> Texts(EmitLine(fence, line, atBlank)) == ["", line.tag.value, ""]
  {
  }

  // ------------------------------------------------- how the output reads back

  /** A rewritten line is not a directive, not a fence and not blank: it is left alone
      from then on. */
  lemma RewrittenLineIsInert(line: string)
    requires RewriteTagLine(line).Some?
    ensures Read(RewriteTagLine(line).value) == Tagged(RewriteTagLine(line).value)
  {
    QuotedTag(Trimmed(line));
    IndentedQuote(line[..IndentWidth(line)], Quoted(Trimmed(line)));
    var r := RewriteTagLine(line).value;
    assert Trimmed(r) == TrimSpace(r) == Quoted(Trimmed(line));
    NoTagNoRewrite(r);
  }

  lemma NoTagNoRewrite(line: string)
    requires TagName(Trimmed(line)).None?
    ensures RewriteTagLine(line).None?
  {
  }

  lemma IndentedQuote(indent: string, quoted: string)
    requires forall i :: 0 <= i < |indent| ==> indent[i] == ' ' || indent[i] == '\t'
    requires TrimSpace(quoted) == quoted && quoted != "" && quoted[|quoted| - 1] == '`'
    ensures TrimSpace(indent + quoted) == Trimmed(indent + quoted) == quoted
  {
    TrimOfIndented(indent, quoted);
    var r := indent + quoted;
    assert r[|r| - 1] == '`';
    assert WithoutCR(r) == r;
  }

  lemma QuotedTag(t: string)
    requires TagName(t).Some?
    ensures var quoted := Quoted(t);
      && TrimSpace(quoted) == quoted
      && quoted[|quoted| - 1] == '`'
      && Marker(quoted).None?
      && TagName(quoted).None?
  {
    var quoted := Quoted(t);
    assert quoted[0] == '`' && quoted[1] == '<' && quoted[|quoted| - 1] == '`';
    TrimSpaceFixed(quoted);
    RunLengthIs(quoted, '`', 1);
  }

  lemma {:induction false} TrimIndent(indent: string, rest: string)
    requires forall i :: 0 <= i < |indent| ==> indent[i] == ' ' || indent[i] == '\t'
    ensures TrimLeft(indent + rest) == TrimLeft(rest)
    decreases |indent|
  {
    if indent == "" {
      assert indent + rest == rest;
    } else {
      assert (indent + rest)[1..] == indent[1..] + rest;
      TrimIndent(indent[1..], rest);
    }
  }

  lemma TrimOfIndented(indent: string, rest: string)
    requires forall i :: 0 <= i < |indent| ==> indent[i] == ' ' || indent[i] == '\t'
    ensures TrimSpace(indent + rest) == TrimSpace(rest)
  {
    TrimIndent(indent, rest);
  }

  /** A line is rewritten exactly when, white space aside, it is a directive tag by the
      pattern. */
  lemma DirectiveLines(line: string)
    ensures RewriteTagLine(line).Some? <==> exists name :: name in DIRECTIVES && IsTag(Trimmed(line), name)
  {
    var trimmed := Trimmed(line);
    if TagName(trimmed).Some? {
      TagNameIsPattern(trimmed, TagName(trimmed).value);
    }
    forall name ensures TagName(trimmed) == Some(name) <==> IsTag(trimmed, name) {
      TagNameIsPattern(trimmed, name);
    }
  }

  /** It keeps its indent, and apart from white space becomes the tag in back-quotes. */
  lemma DirectiveLineShown(line: string)
    requires RewriteTagLine(line).Some?
    ensures TrimSpace(RewriteTagLine(line).value) == "`" + Trimmed(line) + "`"
    ensures HasPrefix(RewriteTagLine(line).value, line[..IndentWidth(line)])
    ensures |RewriteTagLine(line).value| == IndentWidth(line) + |Trimmed(line)| + 2
  {
    QuotedTag(Trimmed(line));
    IndentedQuote(line[..IndentWidth(line)], Quoted(Trimmed(line)));
  }

  /** Each line is what `read` makes of its text. */
  predicate AsRead(read: string -> Line, lines: seq<Line>) {
    forall i :: 0 <= i < |lines| ==> lines[i] == read(lines[i].text)
  }

  /** Read finds nothing in an empty line, nor in what these lines are rewritten to. */
  predicate ReadsPlain(read: string -> Line, lines: seq<Line>) {
    && read("") == EMPTY
    && forall l :: l in lines && l.tag.Some? ==> read(l.tag.value) == Tagged(l.tag.value)
  }

  lemma {:induction false} OutputReadsBack(read: string -> Line, lines: seq<Line>, fence: Fence, atBlank: bool)
    requires AsRead(read, lines) && ReadsPlain(read, lines)
    ensures AsRead(read, Emit(lines, fence, atBlank))
    decreases |lines|
  {
    if lines != [] {
      assert lines[0] in lines;
      assert AsRead(read, EmitLine(fence, lines[0], atBlank));
      OutputReadsBack(read, lines[1..], FenceStep(fence, lines[0]), LeavesBlank(fence, lines[0]));
    }
  }

  lemma TextsReadPlain(texts: seq<string>)
    ensures ReadsPlain(Read, ReadAll(texts))
  {
    ReadEmpty();
    var lines := ReadAll(texts);
    forall i | 0 <= i < |lines| && lines[i].tag.Some? ensures Read(lines[i].tag.value) == Tagged(lines[i].tag.value) {
      RewrittenLineIsInert(texts[i]);
    }
  }

  lemma {:induction false} FenceAfterConcat(fence: Fence, a: seq<Line>, b: seq<Line>)
    ensures FenceAfter(fence, a + b) == FenceAfter(FenceAfter(fence, a), b)
    decreases |a|
  {
    if a == [] {
      assert a + b == b;
    } else {
      assert (a + b)[1..] == a[1..] + b;
      FenceAfterConcat(FenceStep(fence, a[0]), a[1..], b);
    }
  }

  /** Neither a fence nor a directive. */
  predicate Inert(lines: seq<Line>) {
    forall l :: l in lines ==> l.marker.None? && l.tag.None?
  }

  lemma {:induction false} InertStays(lines: seq<Line>, fence: Fence, atBlank: bool)
    requires Inert(lines)
    ensures Emit(lines, fence, atBlank) == lines && FenceAfter(fence, lines) == fence
    decreases |lines|
  {
    if lines != [] {
      assert lines[0] in lines;
      InertStays(lines[1..], fence, lines[0].blank);
      assert [lines[0]] + lines[1..] == lines;
    }
  }

  /** Where a line stands within what is emitted for it. */
  function Place(fence: Fence, line: Line, atBlank: bool): nat {
    if IsDirective(fence, line) && !atBlank then 1 else 0
  }

  lemma LineEmitted(fence: Fence, line: Line, atBlank: bool)
    ensures var out, place := EmitLine(fence, line, atBlank), Place(fence, line, atBlank);
      && place < |out|
      && out[place] == Rewritten(fence, line)
      && Inert(out[..place])
      && (IsDirective(fence, line) ==> Inert(out))
      && (!IsDirective(fence, line) ==> out == [line])
  {
  }

  /** Reading back what was emitted for a line leaves the fence as reading the line does,
      and finds it unchanged until the line's own place; and a second pass leaves it. */
  lemma FenceAfterEmitted(fence: Fence, line: Line, atBlank: bool)
    ensures var out := EmitLine(fence, line, atBlank);
      && FenceAfter(fence, out) == FenceStep(fence, line)
      && FenceAfter(fence, out[..Place(fence, line, atBlank)]) == fence
      && forall again :: Emit(out, fence, again) == out
  {
    var out := EmitLine(fence, line, atBlank);
    LineEmitted(fence, line, atBlank);
    InertStays(out[..Place(fence, line, atBlank)], fence, true);
    if IsDirective(fence, line) {
      forall again ensures Emit(out, fence, again) == out {
        InertStays(out, fence, again);
      }
    } else {
      assert out[1..] == [];
    }
  }

  /** Where each line ends up in the output. */
  function Places(lines: seq<Line>, fence: Fence, atBlank: bool): (places: seq<nat>)
    ensures |places| == |lines|
    decreases |lines|
  {
    if lines == [] then []
    else
      var shift := |EmitLine(fence, lines[0], atBlank)|;
      var rest := Places(lines[1..], FenceStep(fence, lines[0]), LeavesBlank(fence, lines[0]));
      [Place(fence, lines[0], atBlank)] + seq(|rest|, i requires 0 <= i < |rest| => shift + rest[i])
  }

  /** A line is found at this place of an output, and the fence state before it is the
      one the lines before it leave. */
  predicate AtPlace(before: Fence, line: Line, fence: Fence, out: seq<Line>, place: nat) {
    && place < |out|
    && out[place] == Rewritten(before, line)
    && FenceAfter(fence, out[..place]) == before
  }

  lemma FirstAtPlace(fence: Fence, line: Line, atBlank: bool, tail: seq<Line>)
    ensures AtPlace(fence, line, fence, EmitLine(fence, line, atBlank) + tail, Place(fence, line, atBlank))
  {
    var head, place := EmitLine(fence, line, atBlank), Place(fence, line, atBlank);
    LineEmitted(fence, line, atBlank);
    FenceAfterEmitted(fence, line, atBlank);
    assert (head + tail)[..place] == head[..place];
  }

  lemma Shifted(before: Fence, line: Line, fence: Fence, head: seq<Line>, tail: seq<Line>, place: nat)
    requires AtPlace(before, line, FenceAfter(fence, head), tail, place)
    ensures AtPlace(before, line, fence, head + tail, |head| + place)
  {
    assert (head + tail)[..|head| + place] == head + tail[..place];
    FenceAfterConcat(fence, head, tail[..place]);
  }

  predicate LineFound(lines: seq<Line>, fence: Fence, atBlank: bool, i: nat)
    requires i < |lines|
  {
    var out, place := Emit(lines, fence, atBlank), Places(lines, fence, atBlank)[i];
    AtPlace(FenceAfter(fence, lines[..i]), lines[i], fence, out, place)
  }

  lemma FirstFound(line: Line, rest: seq<Line>, fence: Fence, atBlank: bool)
    ensures LineFound([line] + rest, fence, atBlank, 0)
  {
    FirstAtPlace(fence, line, atBlank, Emit(rest, FenceStep(fence, line), LeavesBlank(fence, line)));
    assert ([line] + rest)[1..] == rest && ([line] + rest)[..0] == [];
  }

  lemma PlacesCons(line: Line, rest: seq<Line>, fence: Fence, atBlank: bool, i: nat)
    requires i < |rest|
    ensures Places([line] + rest, fence, atBlank)[i + 1] ==
            |EmitLine(fence, line, atBlank)| + Places(rest, FenceStep(fence, line), LeavesBlank(fence, line))[i]
  {
    Consed(line, rest);
  }

  lemma FenceAfterCons(line: Line, rest: seq<Line>, fence: Fence, i: nat)
    requires i <= |rest|
    ensures FenceAfter(fence, ([line] + rest)[..i + 1]) == FenceAfter(FenceStep(fence, line), rest[..i])
  {
    assert ([line] + rest)[..i + 1] == [line] + rest[..i];
    Consed(line, rest[..i]);
  }

  lemma NextFound(line: Line, rest: seq<Line>, fence: Fence, atBlank: bool, i: nat)
    requires i < |rest| && LineFound(rest, FenceStep(fence, line), LeavesBlank(fence, line), i)
    ensures LineFound([line] + rest, fence, atBlank, i + 1)
  {
    var next, blank := FenceStep(fence, line), LeavesBlank(fence, line);
    FenceAfterEmitted(fence, line, atBlank);
    Shifted(FenceAfter(next, rest[..i]), rest[i], fence, EmitLine(fence, line, atBlank),
            Emit(rest, next, blank), Places(rest, next, blank)[i]);
    EmitCons(line, rest, fence, atBlank);
    PlacesCons(line, rest, fence, atBlank, i);
    FenceAfterCons(line, rest, fence, i);
  }

  lemma {:induction false} LineAtPlace(lines: seq<Line>, fence: Fence, atBlank: bool, i: nat)
    requires i < |lines|
    ensures LineFound(lines, fence, atBlank, i)
    decreases i
  {
    var line, rest := lines[0], lines[1..];
    assert lines == [line] + rest;
    if i == 0 {
      FirstFound(line, rest, fence, atBlank);
    } else {
      LineAtPlace(rest, FenceStep(fence, line), LeavesBlank(fence, line), i - 1);
      NextFound(line, rest, fence, atBlank, i - 1);
    }
  }

  lemma {:induction false} PlacesIncrease(lines: seq<Line>, fence: Fence, atBlank: bool, i: nat, j: nat)
    requires i < j < |lines|
    ensures Places(lines, fence, atBlank)[i] < Places(lines, fence, atBlank)[j]
    decreases j
  {
    if i < j - 1 {
      PlacesIncrease(lines, fence, atBlank, i, j - 1);
    }
    PlaceGap(lines, fence, atBlank, j - 1);
  }

  lemma {:induction false} ElsewhereEmpty(lines: seq<Line>, fence: Fence, atBlank: bool, k: nat)
    requires k < |Emit(lines, fence, atBlank)| && k !in Places(lines, fence, atBlank)
    ensures Emit(lines, fence, atBlank)[k] == EMPTY
    decreases |lines|
  {
    var places := Places(lines, fence, atBlank);
    var head := EmitLine(fence, lines[0], atBlank);
    if k < |head| {
      assert places[0] == Place(fence, lines[0], atBlank);
    } else {
      var next, blank := FenceStep(fence, lines[0]), LeavesBlank(fence, lines[0]);
      var rest := Places(lines[1..], next, blank);
      forall i | 0 <= i < |rest| ensures rest[i] != k - |head| {
        assert places[i + 1] == |head| + rest[i];
      }
      ElsewhereEmpty(lines[1..], next, blank, k - |head|);
    }
  }

  /** The fence state the texts before this one leave. */
  function FenceBefore(texts: seq<string>, i: nat): Fence
    requires i <= |texts|
  {
    FenceAfter(Outside, ReadAll(texts[..i]))
  }

  /** A marker of the same character, and at least as long. */
  predicate Closes(marker: Option<string>, opener: string) {
    && marker.Some? && |marker.value| >= |opener| && opener != ""
    && marker.value[0] == opener[0]
  }

  /** Line k opens a fence that is still open before line i: it is a fence line, in no
      fence itself, and no line after it closes it. */
  ghost predicate OpenSince(lines: seq<Line>, k: nat, i: nat)
    requires k < i <= |lines|
    decreases i, 0
  {
    && lines[k].marker.Some? && !Fenced(lines, k)
    && forall j :: k < j < i ==> !Closes(lines[j].marker, lines[k].marker.value)
  }

  /** The place before line i is inside a fence. */
  ghost predicate Fenced(lines: seq<Line>, i: nat)
    requires i <= |lines|
    decreases i, 1
  {
    exists k :: 0 <= k < i && OpenSince(lines, k, i)
  }

  lemma OpenEarlier(lines: seq<Line>, k: nat, i: nat, i': nat)
    requires k < i' <= i <= |lines| && OpenSince(lines, k, i)
    ensures OpenSince(lines, k, i') && Fenced(lines, i')
  {
  }

  lemma OpenSinceUnique(lines: seq<Line>, k: nat, k': nat, i: nat)
    requires k < i <= |lines| && k' < i && OpenSince(lines, k, i) && OpenSince(lines, k', i)
    ensures k == k'
  {
    if k < k' {
      OpenEarlier(lines, k, i, k');
      assert false;
    }
    if k' < k {
      OpenEarlier(lines, k', i, k);
      assert false;
    }
  }

  lemma OpenSinceNext(lines: seq<Line>, k: nat, i: nat)
    requires k <= i < |lines|
    ensures k < i ==>
      (OpenSince(lines, k, i + 1) <==> OpenSince(lines, k, i) && !Closes(lines[i].marker, lines[k].marker.value))
    ensures k == i ==> (OpenSince(lines, k, i + 1) <==> lines[i].marker.Some? && !Fenced(lines, i))
  {
  }

  /** The fence state before line i is the marker of the line that opened the fence. */
  ghost predicate FenceIs(lines: seq<Line>, i: nat, fence: Fence)
    requires i <= |lines|
  {
    match fence
    case Outside => !Fenced(lines, i)
    case Inside(marker) => exists k :: 0 <= k < i && OpenSince(lines, k, i) && lines[k].marker == Some(marker)
  }

  lemma FenceIsNext(lines: seq<Line>, i: nat, fence: Fence)
    requires i < |lines| && FenceIs(lines, i, fence)
    ensures FenceIs(lines, i + 1, FenceStep(fence, lines[i]))
  {
    if fence.Inside? {
      var k :| 0 <= k < i && OpenSince(lines, k, i) && lines[k].marker == Some(fence.marker);
      OpenSinceNext(lines, k, i);
      ClosedNext(lines, k, i);
    } else {
      OpenSinceNext(lines, i, i);
      if lines[i].marker.None? {
        OutsideNext(lines, i);
      }
    }
  }

  lemma ClosedNext(lines: seq<Line>, k: nat, i: nat)
    requires k < i < |lines| && OpenSince(lines, k, i)
    ensures Closes(lines[i].marker, lines[k].marker.value) ==> !Fenced(lines, i + 1)
  {
    if Fenced(lines, i + 1) {
      var k' :| 0 <= k' < i + 1 && OpenSince(lines, k', i + 1);
      OpenSinceNext(lines, k', i);
      OpenSinceNext(lines, k, i);
      OpenSinceUnique(lines, k, k', i);
    }
  }

  lemma OutsideNext(lines: seq<Line>, i: nat)
    requires i < |lines| && !Fenced(lines, i) && lines[i].marker.None?
    ensures !Fenced(lines, i + 1)
  {
    if Fenced(lines, i + 1) {
      var k :| 0 <= k < i + 1 && OpenSince(lines, k, i + 1);
      OpenSinceNext(lines, k, i);
    }
  }

  lemma FenceAfterNext(lines: seq<Line>, i: nat)
    requires i < |lines|
    ensures FenceAfter(Outside, lines[..i + 1]) == FenceStep(FenceAfter(Outside, lines[..i]), lines[i])
  {
    assert lines[..i + 1] == lines[..i] + [lines[i]];
    FenceAfterConcat(Outside, lines[..i], [lines[i]]);
    assert [lines[i]][1..] == [];
  }

  lemma {:induction false} FenceOpenedBy(lines: seq<Line>, i: nat)
    requires i <= |lines|
    ensures FenceIs(lines, i, FenceAfter(Outside, lines[..i]))
    decreases i
  {
    if i == 0 {
      assert lines[..0] == [];
    } else {
      FenceOpenedBy(lines, i - 1);
      FenceAfterNext(lines, i - 1);
      FenceIsNext(lines, i - 1, FenceAfter(Outside, lines[..i - 1]));
    }
  }

  lemma FenceIsFenced(lines: seq<Line>, i: nat, fence: Fence)
    requires i <= |lines| && FenceIs(lines, i, fence)
    ensures fence == Outside <==> !Fenced(lines, i)
  {
  }

  /** The loop is inside a fence exactly where the lines are fenced. */
  lemma FenceOpened(lines: seq<Line>, i: nat)
    requires i <= |lines|
    ensures FenceAfter(Outside, lines[..i]) == Outside <==> !Fenced(lines, i)
  {
    FenceOpenedBy(lines, i);
    FenceIsFenced(lines, i, FenceAfter(Outside, lines[..i]));
  }

  lemma FencedBefore(texts: seq<string>, i: nat)
    requires i <= |texts|
    ensures FenceBefore(texts, i) == Outside <==> !Fenced(ReadAll(texts), i)
  {
    ReadPrefix(texts, i);
    FenceOpened(ReadAll(texts), i);
  }

  /** The line is a directive tag outside every fence. */
  ghost predicate Rewrites(texts: seq<string>, i: nat)
    requires i < |texts|
  {
    !Fenced(ReadAll(texts), i) && RewriteTagLine(texts[i]).Some?
  }

  lemma TagIsNoMarker(text: string)
    requires RewriteTagLine(text).Some?
    ensures Marker(Trimmed(text)).None?
  {
    assert Trimmed(text)[0] == '<';
  }

  lemma RewritesIs(texts: seq<string>, i: nat)
    requires i < |texts|
    ensures Rewrites(texts, i) <==> IsDirective(FenceBefore(texts, i), Read(texts[i]))
    ensures Rewritten(FenceBefore(texts, i), Read(texts[i])).text ==
            if Rewrites(texts, i) then RewriteTagLine(texts[i]).value else texts[i]
  {
    FencedBefore(texts, i);
    if RewriteTagLine(texts[i]).Some? {
      TagIsNoMarker(texts[i]);
    }
  }

  /** Line i of these is a directive, given the fence state before the first. */
  predicate DirectiveAt(lines: seq<Line>, fence: Fence, i: nat)
    requires i < |lines|
  {
    IsDirective(FenceAfter(fence, lines[..i]), lines[i])
  }

  /** How far a line is put from the one above it. */
  function Gap(directive: bool, blank: bool, next: bool): nat {
    1 + (if directive then 1 else 0) + (if next && !directive && !blank then 1 else 0)
  }

  predicate GapAt(lines: seq<Line>, fence: Fence, atBlank: bool, i: nat)
    requires i + 1 < |lines|
  {
    var places := Places(lines, fence, atBlank);
    places[i + 1] ==
      places[i] + Gap(DirectiveAt(lines, fence, i), lines[i].blank, DirectiveAt(lines, fence, i + 1))
  }

  lemma DirectiveCons(line: Line, rest: seq<Line>, fence: Fence, i: nat)
    requires i < |rest|
    ensures DirectiveAt([line] + rest, fence, i + 1) == DirectiveAt(rest, FenceStep(fence, line), i)
    ensures DirectiveAt([line] + rest, fence, 0) == IsDirective(fence, line)
  {
    FenceAfterCons(line, rest, fence, i);
    assert ([line] + rest)[..0] == [];
  }

  lemma FirstGap(line: Line, rest: seq<Line>, fence: Fence, atBlank: bool)
    requires rest != []
    ensures GapAt([line] + rest, fence, atBlank, 0)
  {
    PlacesCons(line, rest, fence, atBlank, 0);
    DirectiveCons(line, rest, fence, 0);
    assert rest[..0] == [];
    LineEmitted(fence, line, atBlank);
  }

  lemma NextGap(line: Line, rest: seq<Line>, fence: Fence, atBlank: bool, i: nat)
    requires i + 1 < |rest| && GapAt(rest, FenceStep(fence, line), LeavesBlank(fence, line), i)
    ensures GapAt([line] + rest, fence, atBlank, i + 1)
  {
    PlacesCons(line, rest, fence, atBlank, i);
    PlacesCons(line, rest, fence, atBlank, i + 1);
    DirectiveCons(line, rest, fence, i);
    DirectiveCons(line, rest, fence, i + 1);
  }

  lemma {:induction false} PlaceGap(lines: seq<Line>, fence: Fence, atBlank: bool, i: nat)
    requires i + 1 < |lines|
    ensures GapAt(lines, fence, atBlank, i)
    decreases i
  {
    var line, rest := lines[0], lines[1..];
    assert lines == [line] + rest;
    if i == 0 {
      FirstGap(line, rest, fence, atBlank);
    } else {
      PlaceGap(rest, FenceStep(fence, line), LeavesBlank(fence, line), i - 1);
      NextGap(line, rest, fence, atBlank, i - 1);
    }
  }

  predicate LengthIs(lines: seq<Line>, fence: Fence, atBlank: bool)
    requires lines != []
  {
    var last := |lines| - 1;
    |Emit(lines, fence, atBlank)| ==
      Places(lines, fence, atBlank)[last] + 1 + if DirectiveAt(lines, fence, last) then 1 else 0
  }

  lemma LengthOne(line: Line, fence: Fence, atBlank: bool)
    ensures LengthIs([line], fence, atBlank)
  {
    assert [line][..0] == [] && [line][1..] == [];
    LineEmitted(fence, line, atBlank);
  }

  lemma {:induction false} EmitLength(lines: seq<Line>, fence: Fence, atBlank: bool)
    requires lines != []
    ensures LengthIs(lines, fence, atBlank)
    decreases |lines|
  {
    var line, rest := lines[0], lines[1..];
    assert lines == [line] + rest;
    if rest == [] {
      LengthOne(line, fence, atBlank);
    } else {
      EmitLength(rest, FenceStep(fence, line), LeavesBlank(fence, line));
      LengthCons(line, rest, fence, atBlank);
    }
  }

  lemma LengthCons(line: Line, rest: seq<Line>, fence: Fence, atBlank: bool)
    requires rest != [] && LengthIs(rest, FenceStep(fence, line), LeavesBlank(fence, line))
    ensures LengthIs([line] + rest, fence, atBlank)
  {
    EmitCons(line, rest, fence, atBlank);
    PlacesCons(line, rest, fence, atBlank, |rest| - 1);
    DirectiveCons(line, rest, fence, |rest| - 1);
  }

  /** How far line i + 1 is put from line i: an empty line follows a rewritten one, and
      one comes before it unless the line above is blank or was rewritten itself. */
  ghost function Apart(texts: seq<string>, i: nat): nat
    requires i + 1 < |texts|
  {
    1 + (if Rewrites(texts, i) then 1 else 0)
      + (if Rewrites(texts, i + 1) && !Rewrites(texts, i) && TrimSpace(texts[i]) != "" then 1 else 0)
  }

  lemma DirectiveAtIs(texts: seq<string>, i: nat)
    requires i < |texts|
    ensures DirectiveAt(ReadAll(texts), Outside, i) <==> Rewrites(texts, i)
  {
    ReadPrefix(texts, i);
    RewritesIs(texts, i);
  }

  lemma PlacesApart(texts: seq<string>, i: nat)
    requires i + 1 < |texts|
    ensures var places := Places(ReadAll(texts), Outside, true); places[i + 1] == places[i] + Apart(texts, i)
  {
    var lines := ReadAll(texts);
    PlaceGap(lines, Outside, true, i);
    ApartIsGap(texts, i, lines);
  }

  lemma ApartIsGap(texts: seq<string>, i: nat, lines: seq<Line>)
    requires i + 1 < |texts| && lines == ReadAll(texts)
    ensures Apart(texts, i) ==
            Gap(DirectiveAt(lines, Outside, i), lines[i].blank, DirectiveAt(lines, Outside, i + 1))
  {
    DirectiveAtIs(texts, i);
    DirectiveAtIs(texts, i + 1);
  }

  lemma OutputLength(texts: seq<string>)
    requires texts != []
    ensures Places(ReadAll(texts), Outside, true)[0] == 0
    ensures |Output(texts)| == Places(ReadAll(texts), Outside, true)[|texts| - 1] + 1
                               + if Rewrites(texts, |texts| - 1) then 1 else 0
  {
    EmitLength(ReadAll(texts), Outside, true);
    DirectiveAtIs(texts, |texts| - 1);
  }

  /** This says what the output is, line by line. Each line of source keeps its place in
      order: it becomes its tag in back-quotes when it is a directive outside every fence,
      and is byte for byte itself otherwise. What is added are empty lines, and exactly
      those that Apart counts. The output read again has the same fences at every line. */
  lemma LinesKeepTheirPlaces(texts: seq<string>) returns (places: seq<nat>)
    ensures var out := Output(texts);
      && |places| == |texts|
      && (forall i :: 0 <= i < |texts| ==> places[i] < |out|)
      && (forall i, j :: 0 <= i < j < |texts| ==> places[i] < places[j])
      && (forall i :: 0 <= i < |texts| ==>
            out[places[i]] == if Rewrites(texts, i) then RewriteTagLine(texts[i]).value else texts[i])
      && (forall k :: 0 <= k < |out| && k !in places ==> out[k] == "")
      && (forall i :: 0 <= i < |texts| ==> (Fenced(ReadAll(out), places[i]) <==> Fenced(ReadAll(texts), i)))
      && (forall i :: 0 <= i < |texts| ==> FenceBefore(out, places[i]) == FenceBefore(texts, i))
    ensures texts != [] ==> places[0] == 0
    ensures forall i {:trigger Apart(texts, i)} :: 0 <= i < |texts| - 1 ==> places[i + 1] == places[i] + Apart(texts, i)
    ensures texts != [] ==>
      |Output(texts)| == places[|texts| - 1] + 1 + if Rewrites(texts, |texts| - 1) then 1 else 0
    ensures texts == [] ==> Output(texts) == []
  {
    var lines := ReadAll(texts);
    var out := Output(texts);
    places := Places(lines, Outside, true);
    forall i | 0 <= i < |texts|
      ensures places[i] < |out|
      ensures out[places[i]] == if Rewrites(texts, i) then RewriteTagLine(texts[i]).value else texts[i]
      ensures FenceBefore(out, places[i]) == FenceBefore(texts, i)
      ensures Fenced(ReadAll(out), places[i]) <==> Fenced(ReadAll(texts), i)
      ensures i + 1 < |texts| ==> places[i + 1] == places[i] + Apart(texts, i)
    {
      TextAtPlace(texts, i);
      RewritesIs(texts, i);
      FencedBefore(texts, i);
      FencedBefore(out, places[i]);
      if i + 1 < |texts| {
        PlacesApart(texts, i);
      }
    }
    if texts != [] {
      OutputLength(texts);
    }
    forall i, j | 0 <= i < j < |texts| ensures places[i] < places[j] {
      PlacesIncrease(lines, Outside, true, i, j);
    }
    forall k | 0 <= k < |out| && k !in places ensures out[k] == "" {
      ElsewhereEmpty(lines, Outside, true, k);
    }
  }

  lemma TextAtPlace(texts: seq<string>, i: nat)
    requires i < |texts|
    ensures var out, place := Output(texts), Places(ReadAll(texts), Outside, true)[i];
      && place < |out|
      && out[place] == Rewritten(FenceBefore(texts, i), Read(texts[i])).text
      && FenceBefore(out, place) == FenceBefore(texts, i)
  {
    var place := Places(ReadAll(texts), Outside, true)[i];
    LineAtPlace(ReadAll(texts), Outside, true, i);
    ReadOutput(texts);
    ReadPrefix(texts, i);
    ReadPrefix(Output(texts), place);
  }

  lemma ReadPrefix(texts: seq<string>, i: nat)
    requires i <= |texts|
    ensures ReadAll(texts[..i]) == ReadAll(texts)[..i]
    ensures i < |texts| ==> ReadAll(texts)[i] == Read(texts[i])
  {
  }

  /** Reading the output again finds what was emitted. */
  lemma ReadOutput(texts: seq<string>)
    ensures ReadAll(Output(texts)) == Emit(ReadAll(texts), Outside, true)
  {
    TextsReadPlain(texts);
    OutputReadsBack(Read, ReadAll(texts), Outside, true);
  }

  // -------------------------------------------------------------- a second pass

  function BlankAfter(fence: Fence, lines: seq<Line>, atBlank: bool): bool
    decreases |lines|
  {
    if lines == [] then atBlank else BlankAfter(FenceStep(fence, lines[0]), lines[1..], LeavesBlank(fence, lines[0]))
  }

  lemma {:induction false} EmitConcat(a: seq<Line>, b: seq<Line>, fence: Fence, atBlank: bool)
    ensures Emit(a + b, fence, atBlank) ==
            Emit(a, fence, atBlank) + Emit(b, FenceAfter(fence, a), BlankAfter(fence, a, atBlank))
    decreases |a|
  {
    if a == [] {
      assert a + b == b;
    } else {
      var line, rest := a[0], a[1..];
      var next, blank := FenceStep(fence, line), LeavesBlank(fence, line);
      EmitConcat(rest, b, next, blank);
      EmitCons(line, rest, fence, atBlank);
      EmitCons(line, rest + b, fence, atBlank);
      HeadTail(a);
      Regroup([line], rest, b);
      Regroup(EmitLine(fence, line, atBlank), Emit(rest, next, blank),
              Emit(b, FenceAfter(next, rest), BlankAfter(next, rest, blank)));
    }
  }

  lemma EmitCons(line: Line, rest: seq<Line>, fence: Fence, atBlank: bool)
    ensures Emit([line] + rest, fence, atBlank) ==
            EmitLine(fence, line, atBlank) + Emit(rest, FenceStep(fence, line), LeavesBlank(fence, line))
  {
    assert ([line] + rest)[1..] == rest;
  }

  lemma {:induction false} EmittedStays(lines: seq<Line>, fence: Fence, atBlank: bool, atBlank': bool)
    ensures var out := Emit(lines, fence, atBlank); Emit(out, fence, atBlank') == out
    decreases |lines|
  {
    if lines != [] {
      var head := EmitLine(fence, lines[0], atBlank);
      var next, blank := FenceStep(fence, lines[0]), LeavesBlank(fence, lines[0]);
      FenceAfterEmitted(fence, lines[0], atBlank);
      EmittedStays(lines[1..], next, blank, BlankAfter(fence, head, atBlank'));
      EmitConcat(head, Emit(lines[1..], next, blank), fence, atBlank');
    }
  }

  // No line of output holds a line feed, so the output splits back into its lines.

  lemma {:induction false} TrimLeftLacks(s: string, c: char)
    requires c !in s
    ensures c !in TrimLeft(s)
    decreases |s|
  {
    if SpaceAtStart(s) != 0 {
      TrimLeftLacks(s[SpaceAtStart(s)..], c);
    }
  }

  lemma TrimmedLacks(line: string, c: char)
    requires c !in line
    ensures c !in Trimmed(line)
  {
    TrimLeftLacks(WithoutCR(line), c);
  }

  lemma RewrittenHasNoFeed(line: string)
    requires '\n' !in line && RewriteTagLine(line).Some?
    ensures '\n' !in RewriteTagLine(line).value
  {
    TrimmedLacks(line, '\n');
  }

  predicate NoFeeds(lines: seq<Line>) {
    forall l :: l in lines ==> '\n' !in l.text && (l.tag.Some? ==> '\n' !in l.tag.value)
  }

  lemma {:induction false} EmittedHasNoFeed(lines: seq<Line>, fence: Fence, atBlank: bool)
    requires NoFeeds(lines)
    ensures NoFeeds(Emit(lines, fence, atBlank))
    ensures lines != [] ==> Emit(lines, fence, atBlank) != []
    decreases |lines|
  {
    if lines != [] {
      assert lines[0] in lines;
      EmittedHasNoFeed(lines[1..], FenceStep(fence, lines[0]), LeavesBlank(fence, lines[0]));
    }
  }

  lemma OutputHasNoFeed(texts: seq<string>)
    requires texts != [] && forall t :: t in texts ==> '\n' !in t
    ensures Output(texts) != [] && forall t :: t in Output(texts) ==> '\n' !in t
  {
    var lines := ReadAll(texts);
    forall i | 0 <= i < |texts|
      ensures '\n' !in texts[i] && (RewriteTagLine(texts[i]).Some? ==> '\n' !in RewriteTagLine(texts[i]).value)
    {
      if RewriteTagLine(texts[i]).Some? {
        RewrittenHasNoFeed(texts[i]);
      }
    }
    EmittedHasNoFeed(lines, Outside, true);
  }

  lemma ReadAllWithEmpty(texts: seq<string>)
    ensures ReadAll(texts + [""]) == ReadAll(texts) + [EMPTY]
  {
    ReadEmpty();
    var all := texts + [""];
    forall i | 0 <= i < |all| ensures ReadAll(all)[i] == (ReadAll(texts) + [EMPTY])[i] {
      assert i < |texts| ==> all[i] == texts[i];
    }
  }

  lemma ReadEmpty()
    ensures Read("") == EMPTY
  {
  }

  lemma EmptyStaysLast(lines: seq<Line>)
    requires Emit(lines, Outside, true) == lines
    ensures Emit(lines + [EMPTY], Outside, true) == lines + [EMPTY]
    ensures Texts(lines + [EMPTY]) == Texts(lines) + [""]
  {
    EmitConcat(lines, [EMPTY], Outside, true);
    InertStays([EMPTY], FenceAfter(Outside, lines), BlankAfter(Outside, lines, true));
  }

  /** The lines of the output, read again, are left as they are. */
  lemma SecondOutput(texts: seq<string>)
    ensures Output(Output(texts)) == Output(texts)
    ensures Output(Output(texts) + [""]) == Output(texts) + [""]
  {
    ReadOutput(texts);
    EmittedStays(ReadAll(texts), Outside, true, true);
    EmptyStaysLast(Emit(ReadAll(texts), Outside, true));
    ReadAllWithEmpty(Output(texts));
  }

  lemma SplitsBack(lines: seq<string>, text: string)
    requires lines != [] && forall l :: l in lines ==> '\n' !in l
    ensures text == Join(lines, '\n') ==> Split(text, '\n') == lines
    ensures text == Join(lines, '\n') + "\n" ==> Split(text, '\n') == lines + [""]
  {
    SplitJoin(lines, '\n');
    var joined := Join(lines, '\n');
    assert joined + "\n" == joined + ['\n'] + "";
    SplitConcat(joined, "", '\n');
  }

  /** The rewritten text, split again, is the output for the lines of the source; a final
      line feed makes it end with one more empty line. */
  lemma PreservedLines(source: string)
    ensures source == "" ==> Preserved(source) == ""
    ensures source != "" && source[|source| - 1] == '\n' ==>
      Split(Preserved(source), '\n') == Output(Split(source, '\n')) + [""]
    ensures source != "" && source[|source| - 1] != '\n' ==>
      Split(Preserved(source), '\n') == Output(Split(source, '\n'))
  {
    if source != "" {
      OutputHasNoFeed(Split(source, '\n'));
      EndsWithFeed(source);
      SplitsBack(Output(Split(source, '\n')), Preserved(source));
      WithoutEnd(Join(Output(Split(source, '\n')), '\n'));
    }
  }

  lemma EndsWithFeed(s: string)
    ensures HasSuffix(s, "\n") <==> s != "" && s[|s| - 1] == '\n'
  {
    if s != "" {
      assert s[|s| - 1..] == [s[|s| - 1]];
    }
  }

  lemma WithoutEnd(s: string)
    ensures s + "" == s
  {
  }

  /** A second pass changes nothing but the end: after a line feed it adds another. */
  lemma SecondPass(source: string)
    ensures var once := Preserved(source);
      Preserved(once) == once + (if HasSuffix(once, "\n") then "\n" else "")
  {
    var once := Preserved(source);
    if once != "" {
      var texts := Split(source, '\n');
      OutputHasNoFeed(texts);
      SplitsBack(Output(texts), once);
      SecondOutput(texts);
      JoinSplit(once, '\n');
    }
  }
}
