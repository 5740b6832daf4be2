/** The frontmatter said of the lines of a source: what the splitter does with offsets is
    to look for the first line after the first that is three dashes. */
module Frontmatter {
  import opened Text
  import opened MarkdownText

  /** Line k is the first line of three dashes after the first line, which is one too. */
  predicate FencedLines(lines: seq<string>, k: nat) {
    && 1 <= k < |lines| && lines[0] == ['-', '-', '-'] && lines[k] == ['-', '-', '-']
    && forall i :: 1 <= i < k ==> lines[i] != ['-', '-', '-']
  }

  lemma Dashes()
    ensures DELIMITER == ['-', '-', '-', '\n'] && FENCE == ['-', '-', '-']
  {
  }

  /** The source is `before`, a line of three dashes, and what follows it, if anything. */
  predicate Around(source: string, before: string, last: bool, after: string) {
    source == before + ['\n'] + if last then ['-', '-', '-'] else ['-', '-', '-'] + ['\n'] + after
  }

  lemma LinesAround(source: string, before: string, last: bool, after: string)
    requires Around(source, before, last, after)
    ensures Split(source, '\n') ==
      Split(before, '\n') + ([['-', '-', '-']] + if last then [] else Split(after, '\n'))
  {
    var dash := ['-', '-', '-'];
    SplitOne(dash, '\n');
    if last {
      SplitConcat(before, dash, '\n');
    } else {
      SplitConcat(before, dash + ['\n'] + after, '\n');
      SplitConcat(dash, after, '\n');
    }
  }

  lemma FenceAround(source: string, i: nat)
    requires FenceAt(source, i)
    ensures Around(source, source[..i - 1], i + 3 == |source|, if i + 3 == |source| then "" else source[i + 4..])
  {
    Dashes();
    assert source == source[..i - 1] + [source[i - 1]] + source[i..];
    if i + 3 == |source| {
      assert source[i..] == source[i..i + 3];
    } else {
      assert source[i..] == source[i..i + 3] + [source[i + 3]] + source[i + 4..];
    }
  }

  lemma AroundIsFence(source: string, before: string, last: bool, after: string)
    requires Around(source, before, last, after) && |before| >= 3
    ensures FenceAt(source, |before| + 1)
  {
    Dashes();
    var i := |before| + 1;
    assert source[i - 1] == '\n';
    assert source[i..i + 3] == ['-', '-', '-'];
  }

  /** A fence found at an offset is a line, and the text before it is the lines before. */
  lemma FenceIsLine(source: string, i: nat) returns (k: nat)
    requires FenceAt(source, i)
    ensures var lines := Split(source, '\n');
      && 1 <= k < |lines| && lines[k] == ['-', '-', '-']
      && Join(lines[..k], '\n') == source[..i - 1]
      && (i + 3 < |source| ==> k + 1 < |lines| && Join(lines[k + 1..], '\n') == source[i + 4..])
      && (i + 3 == |source| ==> k + 1 == |lines|)
  {
    FenceAround(source, i);
    k := LineOf(source, source[..i - 1], i + 3 == |source|, if i + 3 == |source| then "" else source[i + 4..]);
  }

  lemma LineOf(source: string, before: string, last: bool, after: string) returns (k: nat)
    requires Around(source, before, last, after)
    ensures var lines := Split(source, '\n');
      && 1 <= k < |lines| && lines[k] == ['-', '-', '-']
      && Join(lines[..k], '\n') == before
      && (if last then k + 1 == |lines| else k + 1 < |lines| && Join(lines[k + 1..], '\n') == after)
  {
    LinesAround(source, before, last, after);
    k := |Split(before, '\n')|;
    PartsOfLines(Split(before, '\n'), ['-', '-', '-'], if last then [] else Split(after, '\n'));
    JoinSplit(before, '\n');
    JoinSplit(after, '\n');
  }

  lemma PartsOfLines(top: seq<string>, line: string, rest: seq<string>)
    ensures var lines := top + ([line] + rest);
      lines[..|top|] == top && lines[|top|] == line && lines[|top| + 1..] == rest
  {
  }

  lemma JoinOfParts(top: seq<string>, line: string, rest: seq<string>)
    requires top != []
    ensures Join(top + ([line] + rest), '\n') ==
      Join(top, '\n') + ['\n'] + if rest == [] then line else line + ['\n'] + Join(rest, '\n')
  {
    JoinConcat(top, [line] + rest, '\n');
    if rest == [] {
      assert [line] + rest == [line];
    } else {
      JoinConcat([line], rest, '\n');
    }
  }

  lemma JoinAround(lines: seq<string>, k: nat)
    requires 1 <= k < |lines| && lines[k] == ['-', '-', '-']
    ensures Around(Join(lines, '\n'), Join(lines[..k], '\n'), k + 1 == |lines|, Join(lines[k + 1..], '\n'))
  {
    PartsAround(lines, k);
    JoinOfParts(lines[..k], lines[k], lines[k + 1..]);
  }

  /** And a line of three dashes after the first is a fence found where it starts. */
  lemma LineIsFenceAt(source: string, k: nat)
    requires var lines := Split(source, '\n'); 1 <= k < |lines| && lines[k] == ['-', '-', '-']
    requires HasPrefix(source, DELIMITER)
    ensures FenceAt(source, |Join(Split(source, '\n')[..k], '\n')| + 1)
  {
    var lines := Split(source, '\n');
    JoinSplit(source, '\n');
    FirstLineLength(source, k);
    JoinAround(lines, k);
    AroundIsFence(source, Join(lines[..k], '\n'), k + 1 == |lines|, Join(lines[k + 1..], '\n'));
  }

  lemma FirstLine(source: string)
    ensures HasPrefix(source, DELIMITER) <==>
      var lines := Split(source, '\n'); |lines| > 1 && lines[0] == ['-', '-', '-']
  {
    Dashes();
    var lines, dash := Split(source, '\n'), ['-', '-', '-'];
    if HasPrefix(source, DELIMITER) {
      assert source == dash + ['\n'] + source[4..];
      SplitConcat(dash, source[4..], '\n');
      SplitOne(dash, '\n');
    }
    if |lines| > 1 && lines[0] == dash {
      JoinSplit(source, '\n');
      JoinConcat(lines[..1], lines[1..], '\n');
      assert lines == lines[..1] + lines[1..] && lines[..1] == [dash];
      assert source == dash + ['\n'] + Join(lines[1..], '\n');
    }
  }

  lemma FirstLineLength(source: string, k: nat)
    requires HasPrefix(source, DELIMITER) && 1 <= k <= |Split(source, '\n')|
    ensures |Join(Split(source, '\n')[..k], '\n')| >= 3
  {
    FirstLine(source);
    var lines := Split(source, '\n');
    if k > 1 {
      JoinConcat(lines[..1], lines[1..k], '\n');
      assert lines[..k] == lines[..1] + lines[1..k];
    }
    assert lines[..1] == [lines[0]];
  }

  lemma JoinLonger(lines: seq<string>, j: nat, k: nat)
    requires 1 <= j < k <= |lines|
    ensures |Join(lines[..j], '\n')| < |Join(lines[..k], '\n')|
  {
    JoinConcat(lines[..j], lines[j..k], '\n');
    assert lines[..k] == lines[..j] + lines[j..k];
  }

  /** A source has frontmatter exactly when its first line is three dashes and so is some
      later one. */
  lemma FrontmatterIsLines(source: string)
    ensures HasFrontmatter(source) <==> exists k :: FencedLines(Split(source, '\n'), k)
  {
    FirstLine(source);
    var lines := Split(source, '\n');
    if HasFrontmatter(source) {
      var i :| 0 <= i <= |source| && FenceAt(source, i);
      var k := FenceIsLine(source, i);
      var first := FirstFence(lines, k);
      assert FencedLines(lines, first);
    }
    if k :| FencedLines(lines, k) {
      LineIsFenceAt(source, k);
    }
  }

  lemma FirstFence(lines: seq<string>, k: nat) returns (first: nat)
    requires 1 <= k < |lines| && lines[k] == ['-', '-', '-']
    ensures 1 <= first <= k && lines[first] == ['-', '-', '-']
    ensures forall i :: 1 <= i < first ==> lines[i] != ['-', '-', '-']
    decreases k
  {
    first := k;
    if i :| 1 <= i < k && lines[i] == ['-', '-', '-'] {
      first := FirstFence(lines, i);
    }
  }

  /** The split is at that line: the front part is the lines between the two, and the body
      the lines after. */
  lemma SplitIsLines(source: string, front: string, body: string) returns (k: nat)
    requires HasPrefix(source, DELIMITER) && IsSplit(source, front, body)
    ensures var lines := Split(source, '\n');
      && FencedLines(lines, k)
      && Join(lines[..k], '\n') + "\n" == "---\n" + front
      && body == Join(lines[k + 1..], '\n')
  {
    Dashes();
    FirstLine(source);
    var i, lines := 4 + |front|, Split(source, '\n');
    k := FenceIsLine(source, i);
    forall j | 1 <= j < k ensures lines[j] != ['-', '-', '-'] {
      if lines[j] == ['-', '-', '-'] {
        LineIsFenceAt(source, j);
        JoinLonger(lines, j, k);
        assert false;
      }
    }
    PartsOf(source, front, body);
  }

  lemma PartsOf(source: string, front: string, body: string)
    requires IsSplit(source, front, body)
    ensures var i := 4 + |front|;
      && source[..i - 1] + "\n" == "---\n" + front
      && (if i + 3 == |source| then body == "" else i + 3 < |source| && body == source[i + 4..])
  {
    Dashes();
    var i := 4 + |front|;
    assert source[..i] == DELIMITER + front;
    assert source[..i] == source[..i - 1] + [source[i - 1]];
    if source == DELIMITER + front + FENCE + "\n" + body {
      assert source[i + 4..] == body;
    }
  }
}
