/** Serving an HTML file with extra markup spliced in just after its DOCTYPE:
    the scanner that finds the place, and the reader of the spliced file. */
module HtmlArtifact {

  /** One byte of a file, written as the character of the same code. */
  type byte = c: char | c as int < 256

  type Bytes = seq<byte>

  const BOM: Bytes := ['\U{EF}', '\U{BB}', '\U{BF}']
  const COMMENT_OPEN: Bytes := "<!--"
  const COMMENT_CLOSE: Bytes := "-->"
  const DOCTYPE: Bytes := "<!doctype"

  // ------------------------------------------------ the prolog as a grammar

  predicate Blank(b: byte) {
    b in " \t\r\n\U{0C}"
  }

  /** Space, tab, line feed, form feed and carriage return, and no other byte. */
  lemma BlankIs(b: byte)
    ensures Blank(b) <==> b as int in {0x20, 0x09, 0x0A, 0x0C, 0x0D}
  {
  }

  predicate At(s: Bytes, i: nat, word: Bytes) {
    i + |word| <= |s| && s[i..i + |word|] == word
  }

  function Lower(b: byte): byte {
    if 'A' <= b <= 'Z' then (b as int + 32) as char else b
  }

  /** The word `<!doctype`, each letter in either case. */
  predicate IsDoctypeWord(w: Bytes) {
    && |w| == 9 && w[0] == '<' && w[1] == '!'
    && (w[2] == 'd' || w[2] == 'D') && (w[3] == 'o' || w[3] == 'O') && (w[4] == 'c' || w[4] == 'C')
    && (w[5] == 't' || w[5] == 'T') && (w[6] == 'y' || w[6] == 'Y') && (w[7] == 'p' || w[7] == 'P')
    && (w[8] == 'e' || w[8] == 'E')
  }

  /** A DOCTYPE is recognised in every casing, and nothing else is. */
  lemma DoctypeInAnyCase(w: Bytes)
    ensures LowerAll(w) == DOCTYPE <==> IsDoctypeWord(w)
  {
    var word := DOCTYPE;
    assert word == ['<', '!', 'd', 'o', 'c', 't', 'y', 'p', 'e'];
    if |w| == 9 {
      LowerOfNine(w);
      forall i | 0 <= i < 9 ensures Lower(w[i]) == word[i] <==>
        w[i] == word[i] || (i >= 2 && w[i] as int + 32 == word[i] as int) {
      }
    }
  }

  lemma LowerOfNine(w: Bytes)
    requires |w| == 9
    ensures LowerAll(w) == DOCTYPE <==> forall i :: 0 <= i < 9 ==> Lower(w[i]) == DOCTYPE[i]
  {
  }

  function LowerAll(s: Bytes): Bytes {
    seq(|s|, i requires 0 <= i < |s| => Lower(s[i]))
  }

  function BomLength(s: Bytes): nat {
    if At(s, 0, BOM) then 3 else 0
  }

  /** s[i..e] is a comment: its opener, then everything to the first `-->` after it. */
  ghost predicate CommentAt(s: Bytes, i: nat, e: nat) {
    && At(s, i, COMMENT_OPEN)
    && i + 7 <= e <= |s|
    && At(s, e - 3, COMMENT_CLOSE)
    && forall t: nat :: i + 4 <= t < e - 3 ==> !At(s, t, COMMENT_CLOSE)
  }

  /** s[i..j] is white space and comments in any order and number. */
  ghost predicate Misc(s: Bytes, i: nat, j: nat)
    decreases if i <= j then j - i else 0
  {
    i == j ||
    (i < j <= |s| && Blank(s[i]) && Misc(s, i + 1, j)) ||
    (exists e :: i < e <= j && CommentAt(s, i, e) && Misc(s, e, j))
  }

  /** s[j..k] is a document type declaration, in any letter case, ending at its first `>`. */
  ghost predicate DoctypeAt(s: Bytes, j: nat, k: nat) {
    && j + |DOCTYPE| < k <= |s|
    && IsDoctypeWord(s[j..j + |DOCTYPE|])
    && s[k - 1] == '>'
    && forall t: nat :: j + |DOCTYPE| <= t < k - 1 ==> s[t] != '>'
  }

  /** From i on: white space and comments, then a DOCTYPE that ends at k. */
  ghost predicate PrologFrom(s: Bytes, i: nat, k: nat) {
    exists j: nat :: i <= j && Misc(s, i, j) && DoctypeAt(s, j, k)
  }

  ghost predicate Prolog(s: Bytes, k: nat) {
    PrologFrom(s, BomLength(s), k)
  }

  lemma OpenBytes(s: Bytes, i: nat)
    ensures At(s, i, COMMENT_OPEN) <==>
      i + 4 <= |s| && s[i] == '<' && s[i + 1] == '!' && s[i + 2] == '-' && s[i + 3] == '-'
  {
    if i + 4 <= |s| {
      assert s[i..i + 4] == [s[i], s[i + 1], s[i + 2], s[i + 3]];
    }
  }

  lemma CloseBytes(s: Bytes, t: nat)
    ensures At(s, t, COMMENT_CLOSE) <==> t + 3 <= |s| && s[t] == '-' && s[t + 1] == '-' && s[t + 2] == '>'
  {
    if t + 3 <= |s| {
      assert s[t..t + 3] == [s[t], s[t + 1], s[t + 2]];
    }
  }

  lemma DoctypeStart(s: Bytes, j: nat, k: nat)
    requires DoctypeAt(s, j, k)
    ensures s[j] == '<' && !Blank(s[j]) && !At(s, j, COMMENT_OPEN)
  {
    OpenBytes(s, j);
    var word := s[j..j + |DOCTYPE|];
    assert word[0] == s[j] && word[2] == s[j + 2];
  }

  lemma CommentEndUnique(s: Bytes, i: nat, e: nat, e': nat)
    requires CommentAt(s, i, e) && CommentAt(s, i, e')
    ensures e == e'
  {
  }

  /** Skipping from i to i' loses no prolog and gains none. */
  ghost predicate SamePrologs(s: Bytes, i: nat, i': nat) {
    forall k :: PrologFrom(s, i, k) <==> PrologFrom(s, i', k)
  }

  lemma PrologAfterBlank(s: Bytes, i: nat)
    requires i < |s| && Blank(s[i])
    ensures SamePrologs(s, i, i + 1)
  {
    forall k | PrologFrom(s, i, k) ensures PrologFrom(s, i + 1, k) {
      var j: nat :| i <= j && Misc(s, i, j) && DoctypeAt(s, j, k);
      DoctypeStart(s, j, k);
      OpenBytes(s, i);
      assert Misc(s, i + 1, j);
    }
    forall k | PrologFrom(s, i + 1, k) ensures PrologFrom(s, i, k) {
      var j: nat :| i + 1 <= j && Misc(s, i + 1, j) && DoctypeAt(s, j, k);
      assert Misc(s, i, j);
    }
  }

  lemma PrologAfterComment(s: Bytes, i: nat, e: nat)
    requires CommentAt(s, i, e)
    ensures SamePrologs(s, i, e)
  {
    OpenBytes(s, i);
    forall k | PrologFrom(s, i, k) ensures PrologFrom(s, e, k) {
      var j: nat :| i <= j && Misc(s, i, j) && DoctypeAt(s, j, k);
      DoctypeStart(s, j, k);
      var e' :| i < e' <= j && CommentAt(s, i, e') && Misc(s, e', j);
      CommentEndUnique(s, i, e, e');
    }
    forall k | PrologFrom(s, e, k) ensures PrologFrom(s, i, k) {
      var j: nat :| e <= j && Misc(s, e, j) && DoctypeAt(s, j, k);
      assert Misc(s, i, j);
    }
  }

  /** A comment that is never closed is part of no prolog. */
  lemma PrologNotInOpenComment(s: Bytes, i: nat)
    requires At(s, i, COMMENT_OPEN)
    requires forall t: nat :: i + 4 <= t <= |s| ==> !At(s, t, COMMENT_CLOSE)
    ensures forall k :: !PrologFrom(s, i, k)
  {
    OpenBytes(s, i);
    forall k | PrologFrom(s, i, k) ensures false {
      var j: nat :| i <= j && Misc(s, i, j) && DoctypeAt(s, j, k);
      DoctypeStart(s, j, k);
      assert false;
    }
  }

  lemma PrologAtOther(s: Bytes, i: nat)
    requires i < |s| ==> !Blank(s[i]) && !At(s, i, COMMENT_OPEN)
    ensures forall k :: PrologFrom(s, i, k) <==> DoctypeAt(s, i, k)
  {
    assert Misc(s, i, i);
    forall k | PrologFrom(s, i, k) ensures DoctypeAt(s, i, k) {
      var j: nat :| i <= j && Misc(s, i, j) && DoctypeAt(s, j, k);
      assert i == j;
    }
  }

  // -------------------------------------------------------------- the scanner

  /** A buffered reader over a whole file, without read errors. */
  class BufferedReader {
    const data: Bytes
    var position: nat

    ghost predicate Valid()
      reads this
    {
      position <= |data|
    }

    constructor (data: Bytes)
      ensures Valid() && this.data == data && position == 0
    {
      this.data := data;
      position := 0;
    }

    /** The next n bytes without consuming them, or what is left when there are fewer. */
    method Peek(n: nat) returns (prefix: Bytes)
      requires Valid()
      ensures prefix == data[position..if position + n <= |data| then position + n else |data|]
    {
      prefix := data[position..if position + n <= |data| then position + n else |data|];
    }

    method Discard(n: nat)
      requires Valid() && position + n <= |data|
      modifies this
      ensures Valid() && position == old(position) + n
    {
      position := position + n;
    }

    method ReadByte() returns (value: byte, eof: bool)
      requires Valid()
      modifies this
      ensures Valid() && eof == (old(position) == |data|)
      ensures !eof ==> value == data[old(position)] && position == old(position) + 1
      ensures eof ==> position == old(position)
    {
      if position == |data| {
        return '\0', true;
      }
      value, eof := data[position], false;
      position := position + 1;
    }
  }

  /** How much of `-->` the bytes s[from..to] end with, once no `-->` lies inside. */
  ghost predicate Dashes(s: Bytes, from: nat, to: nat, matched: nat) {
    && from <= to <= |s|
    && (matched == 0 ==> to == from || s[to - 1] != '-')
    && (matched == 1 ==> to > from && s[to - 1] == '-' && (to == from + 1 || s[to - 2] != '-'))
    && (matched == 2 ==> to > from + 1 && s[to - 1] == '-' && s[to - 2] == '-')
    && (matched == 3 ==> to > from + 2 && At(s, to - 3, COMMENT_CLOSE))
  }

  ghost predicate NoCloseBefore(s: Bytes, from: nat, to: nat) {
    forall t: nat :: from <= t && t + 3 <= to ==> !At(s, t, COMMENT_CLOSE)
  }

  /** Consumes a comment whose opener has been read. */
  method SkipComment(reader: BufferedReader, ghost opener: nat) returns (consumed: nat, closed: bool)
    requires reader.Valid() && At(reader.data, opener, COMMENT_OPEN) && reader.position == opener + 4
    modifies reader
    ensures reader.Valid() && reader.position == old(reader.position) + consumed
    ensures closed ==> CommentAt(reader.data, opener, reader.position)
    ensures !closed ==> forall t: nat :: opener + 4 <= t <= |reader.data| ==> !At(reader.data, t, COMMENT_CLOSE)
  {
    ghost var s, from := reader.data, opener + 4;
    var matched := 0;
    consumed := 0;
    while matched < 3
      invariant 0 <= matched <= 3 && reader.Valid() && reader.position == from + consumed
      invariant Dashes(s, from, reader.position, matched)
      invariant matched < 3 ==> NoCloseBefore(s, from, reader.position)
      invariant matched == 3 ==> NoCloseBefore(s, from, reader.position - 1)
      decreases |s| - reader.position, 3 - matched
    {
      ghost var at := reader.position;
      CloseBytes(s, if at >= 2 then at - 2 else 0);
      var value, eof := reader.ReadByte();
      if eof {
        return consumed, false;
      }
      consumed := consumed + 1;
      if value == '-' {
        if matched < 2 {
          matched := matched + 1;
        }
        continue;
      }
      if value == '>' && matched == 2 {
        matched := 3;
      } else {
        matched := 0;
      }
    }
    closed := true;
  }

  method SkipBlanks(reader: BufferedReader) returns (skipped: nat, eof: bool)
    requires reader.Valid()
    modifies reader
    ensures reader.Valid() && reader.position == old(reader.position) + skipped
    ensures SamePrologs(reader.data, old(reader.position), reader.position)
    ensures eof <==> reader.position == |reader.data|
    ensures !eof ==> !Blank(reader.data[reader.position])
  {
    skipped := 0;
    while true
      invariant reader.Valid() && reader.position == old(reader.position) + skipped
      invariant SamePrologs(reader.data, old(reader.position), reader.position)
      decreases |reader.data| - reader.position
    {
      var prefix := reader.Peek(1);
      if prefix == [] {
        return skipped, true;
      }
      if !Blank(prefix[0]) {
        return skipped, false;
      }
      PrologAfterBlank(reader.data, reader.position);
      reader.Discard(1);
      skipped := skipped + 1;
    }
  }

  /** Skips white space and comments; `ended` when the file ends before anything else. */
  method SkipMisc(reader: BufferedReader, start: nat) returns (offset: nat, ended: bool)
    requires reader.Valid() && start == reader.position
    modifies reader
    ensures reader.Valid() && offset == reader.position
    ensures ended ==> forall k :: !PrologFrom(reader.data, start, k)
    ensures !ended ==> forall k :: PrologFrom(reader.data, start, k) <==> DoctypeAt(reader.data, offset, k)
  {
    offset := start;
    while true
      invariant reader.Valid() && offset == reader.position
      invariant SamePrologs(reader.data, start, offset)
      decreases |reader.data| - offset
    {
      var skipped, eof := SkipBlanks(reader);
      offset := offset + skipped;
      if eof {
        PrologAtOther(reader.data, offset);
        return offset, true;
      }
      var prefix := reader.Peek(4);
      if prefix != COMMENT_OPEN {
        PrologAtOther(reader.data, offset);
        return offset, false;
      }
      ghost var opener := offset;
      reader.Discard(4);
      offset := offset + 4;
      var consumed, closed := SkipComment(reader, opener);
      offset := offset + consumed;
      if !closed {
        PrologNotInOpenComment(reader.data, opener);
        return offset, true;
      }
      PrologAfterComment(reader.data, opener, offset);
    }
  }

  /** Where the markup goes: just past the DOCTYPE, or at the very start. */
  method GuardOffset(source: Bytes) returns (offset: nat)
    ensures offset <= |source|
    ensures offset > 0 ==> Prolog(source, offset)
    ensures offset == 0 ==> forall k :: !Prolog(source, k)
  {
    var reader := new BufferedReader(source);
    offset := 0;
    var prefix := reader.Peek(3);
    if prefix == BOM {
      reader.Discard(3);
      offset := offset + 3;
    }
    var ended;
    offset, ended := SkipMisc(reader, offset);
    if ended {
      return 0;
    }
    prefix := reader.Peek(|DOCTYPE|);
    DoctypeInAnyCase(prefix);
    if LowerAll(prefix) != DOCTYPE {
      return 0;
    }
    offset := SkipDoctype(reader, offset);
  }

  method SkipDoctype(reader: BufferedReader, start: nat) returns (offset: nat)
    requires reader.Valid() && start == reader.position && reader.position + |DOCTYPE| <= |reader.data|
    requires IsDoctypeWord(reader.data[reader.position..reader.position + |DOCTYPE|])
    modifies reader
    ensures offset <= |reader.data|
    ensures offset > 0 ==> DoctypeAt(reader.data, old(reader.position), offset)
    ensures offset == 0 ==> forall k :: !DoctypeAt(reader.data, old(reader.position), k)
  {
    ghost var s, from := reader.data, reader.position;
    offset := start;
    while true
      invariant reader.Valid() && reader.position >= from && offset == reader.position
      invariant forall t: nat :: from <= t < offset ==> s[t] != '>'
      decreases |s| - reader.position
    {
      var value, eof := reader.ReadByte();
      if eof {
        return 0;
      }
      offset := offset + 1;
      if value == '>' {
        NoCloseInWord(s, from, offset);
        return;
      }
    }
  }

  lemma NoCloseInWord(s: Bytes, from: nat, offset: nat)
    requires from + |DOCTYPE| <= |s| && IsDoctypeWord(s[from..from + |DOCTYPE|])
    requires from < offset <= |s| && s[offset - 1] == '>'
    ensures offset > from + |DOCTYPE|
  {
    forall x | from <= x < from + |DOCTYPE| ensures s[x] != '>' {
      assert s[from..from + |DOCTYPE|][x - from] == s[x];
    }
  }

  /** The scanner is a function of the file: a file has at most one prolog. */
  lemma PrologUnique(s: Bytes, i: nat, k: nat, k': nat)
    requires i <= |s| && PrologFrom(s, i, k) && PrologFrom(s, i, k')
    ensures k == k'
    decreases |s| - i
  {
    var j: nat :| i <= j && Misc(s, i, j) && DoctypeAt(s, j, k);
    if i == j || !(Blank(s[i]) || At(s, i, COMMENT_OPEN)) {
      DoctypeStart(s, j, k);
      PrologAtOther(s, i);
    } else if Blank(s[i]) {
      PrologAfterBlank(s, i);
      PrologUnique(s, i + 1, k, k');
    } else {
      var e :| i < e <= j && CommentAt(s, i, e) && Misc(s, e, j);
      PrologAfterComment(s, i, e);
      PrologUnique(s, e, k, k');
    }
  }

  // ------------------------------------------------------ prologs as they are written

  datatype Item = Space(b: byte) | Comment(body: Bytes)

  /** White space, or a comment whose text does not end it. */
  predicate WellWritten(item: Item) {
    match item
    case Space(b) => b as int in {0x20, 0x09, 0x0A, 0x0C, 0x0D}
    case Comment(body) => forall t: nat :: t < |body| ==> !At(body + ['-', '-', '>'], t, ['-', '-', '>'])
  }

  function Written(item: Item): (w: Bytes)
    ensures w != []
  {
    match item
    case Space(b) => [b]
    case Comment(body) => ['<', '!', '-', '-'] + (body + ['-', '-', '>'])
  }

  function WrittenAll(items: seq<Item>): Bytes {
    if items == [] then [] else Written(items[0]) + WrittenAll(items[1..])
  }

  predicate AreWellWritten(items: seq<Item>) {
    forall item :: item in items ==> WellWritten(item)
  }

  lemma AtConcat(s: Bytes, i: nat, a: Bytes, b: Bytes)
    ensures At(s, i, a + b) <==> At(s, i, a) && At(s, i + |a|, b)
  {
    if i + |a| + |b| <= |s| {
      var both := s[i..i + |a| + |b|];
      assert both[..|a|] == s[i..i + |a|] && both[|a|..] == s[i + |a|..i + |a| + |b|];
      assert (a + b)[..|a|] == a && (a + b)[|a|..] == b;
    }
  }

  lemma AtWithin(s: Bytes, i: nat, w: Bytes, t: nat, word: Bytes)
    requires At(s, i, w) && t + |word| <= |w|
    ensures At(s, i + t, word) <==> At(w, t, word)
  {
    var there := s[i + t..i + t + |word|];
    assert forall k :: 0 <= k < |word| ==> there[k] == s[i..i + |w|][t + k];
    assert w[t..t + |word|] == there;
  }

  lemma Markers()
    ensures COMMENT_OPEN == ['<', '!', '-', '-'] && COMMENT_CLOSE == ['-', '-', '>']
    ensures BOM == ['\U{EF}', '\U{BB}', '\U{BF}'] && |DOCTYPE| == 9
  {
  }

  lemma CommentText(s: Bytes, i: nat, body: Bytes, close: Bytes)
    requires At(s, i + 4, body + close) && |close| == 3
    ensures (forall t: nat :: i + 4 <= t < i + 4 + |body| ==> !At(s, t, close)) <==>
            (forall t: nat :: t < |body| ==> !At(body + close, t, close))
  {
    forall t: nat | t < |body| ensures At(s, i + 4 + t, close) <==> At(body + close, t, close) {
      AtWithin(s, i + 4, body + close, t, close);
    }
    if forall t: nat :: i + 4 <= t < i + 4 + |body| ==> !At(s, t, close) {
      forall t: nat | t < |body| ensures !At(body + close, t, close) {
        assert !At(s, i + 4 + t, close);
      }
    }
    if forall t: nat :: t < |body| ==> !At(body + close, t, close) {
      forall t: nat | i + 4 <= t < i + 4 + |body| ensures !At(s, t, close) {
        assert !At(body + close, t - i - 4, close);
      }
    }
  }

  /** A comment in a file is a comment as written. */
  lemma CommentIsWritten(s: Bytes, i: nat, body: Bytes)
    requires At(s, i, Written(Comment(body)))
    ensures CommentAt(s, i, i + |body| + 7) <==> WellWritten(Comment(body))
  {
    var open: Bytes, close: Bytes := ['<', '!', '-', '-'], ['-', '-', '>'];
    Markers();
    AtConcat(s, i, open, body + close);
    AtConcat(s, i + 4, body, close);
    CommentText(s, i, body, close);
  }

  lemma {:induction false} MiscIsWritten(s: Bytes, i: nat, items: seq<Item>, n: nat)
    requires AreWellWritten(items) && At(s, i, WrittenAll(items)) && n == i + |WrittenAll(items)|
    ensures Misc(s, i, n)
    decreases |items|
  {
    if items == [] {
      MiscOfNothing(s, i);
    } else {
      var next := StepOver(s, i, Written(items[0]), WrittenAll(items[1..]), n);
      MiscIsWritten(s, next, items[1..], n);
      assert WellWritten(items[0]);
      ItemIsMisc(s, i, items[0], next, n);
    }
  }

  lemma StepOver(s: Bytes, i: nat, first: Bytes, rest: Bytes, n: nat) returns (next: nat)
    requires At(s, i, first + rest) && n == i + |first + rest|
    ensures At(s, i, first) && At(s, next, rest)
    ensures next == i + |first| && n == next + |rest| && n <= |s|
  {
    AtConcat(s, i, first, rest);
    next := i + |first|;
  }

  lemma MiscOfNothing(s: Bytes, i: nat)
    ensures Misc(s, i, i)
  {
  }

  lemma ItemIsMisc(s: Bytes, i: nat, item: Item, next: nat, j: nat)
    requires WellWritten(item) && At(s, i, Written(item)) && next == i + |Written(item)|
    requires next <= j <= |s| && Misc(s, next, j)
    ensures Misc(s, i, j)
  {
    match item
    case Space(b) =>
      BlankIs(b);
      assert s[i..i + 1][0] == s[i];
    case Comment(body) =>
      CommentIsWritten(s, i, body);
  }

  lemma FirstItem(s: Bytes, i: nat, j: nat) returns (item: Item, next: nat)
    requires i < j <= |s| && Misc(s, i, j)
    ensures WellWritten(item) && At(s, i, Written(item))
    ensures i < next == i + |Written(item)| <= j && Misc(s, next, j)
  {
    next := MiscStarts(s, i, j);
    item := ItemWritten(s, i, next);
  }

  lemma ItemWritten(s: Bytes, i: nat, e: nat) returns (item: Item)
    requires i < e <= |s|
    requires if e == i + 1 then Blank(s[i]) else CommentAt(s, i, e)
    ensures WellWritten(item) && At(s, i, Written(item)) && e == i + |Written(item)|
  {
    if e == i + 1 {
      item := Space(s[i]);
      BlankIs(s[i]);
      assert s[i..i + 1] == [s[i]];
    } else {
      item := Comment(s[i + 4..e - 3]);
      CommentAsWritten(s, i, e);
    }
  }

  lemma MiscStarts(s: Bytes, i: nat, j: nat) returns (e: nat)
    requires i < j <= |s| && Misc(s, i, j)
    ensures i < e <= j && Misc(s, e, j)
    ensures if e == i + 1 then Blank(s[i]) else CommentAt(s, i, e)
  {
    if Blank(s[i]) && Misc(s, i + 1, j) {
      e := i + 1;
    } else {
      e :| i < e <= j && CommentAt(s, i, e) && Misc(s, e, j);
    }
  }

  lemma CommentAsWritten(s: Bytes, i: nat, e: nat)
    requires CommentAt(s, i, e)
    ensures At(s, i, Written(Comment(s[i + 4..e - 3]))) && WellWritten(Comment(s[i + 4..e - 3]))
    ensures i + |Written(Comment(s[i + 4..e - 3]))| == e
  {
    var body := s[i + 4..e - 3];
    var open: Bytes, close: Bytes := ['<', '!', '-', '-'], ['-', '-', '>'];
    Markers();
    AtConcat(s, i, open, body + close);
    AtConcat(s, i + 4, body, close);
    CommentIsWritten(s, i, body);
  }

  lemma {:induction false} MiscWasWritten(s: Bytes, i: nat, j: nat) returns (items: seq<Item>)
    requires i <= j <= |s| && Misc(s, i, j)
    ensures AreWellWritten(items) && At(s, i, WrittenAll(items)) && i + |WrittenAll(items)| == j
    decreases j - i
  {
    if i == j {
      return [];
    }
    var first, next := FirstItem(s, i, j);
    var rest := MiscWasWritten(s, next, j);
    items := WithFirst(s, i, first, rest);
  }

  lemma WithFirst(s: Bytes, i: nat, first: Item, rest: seq<Item>) returns (items: seq<Item>)
    requires WellWritten(first) && AreWellWritten(rest)
    requires At(s, i, Written(first)) && At(s, i + |Written(first)|, WrittenAll(rest))
    ensures AreWellWritten(items) && At(s, i, WrittenAll(items))
    ensures |WrittenAll(items)| == |Written(first)| + |WrittenAll(rest)|
  {
    items := [first] + rest;
    assert items[0] == first && items[1..] == rest;
    AtConcat(s, i, Written(first), WrittenAll(rest));
  }

  function Mark(marked: bool): Bytes {
    if marked then ['\U{EF}', '\U{BB}', '\U{BF}'] else []
  }

  /** A file as written: a mark or none, white space and comments, the word `<!doctype` in
      any case, more text, the first `>`, and the rest of the file. */
  ghost predicate IsWritten(s: Bytes, k: nat, marked: bool, items: seq<Item>, word: Bytes, text: Bytes) {
    && AreWellWritten(items) && IsDoctypeWord(word) && '>' !in text
    && IsPut(s, k, Mark(marked), WrittenAll(items), word, text + ['>'])
  }

  /** These four come first in s, one after the other, and end at k. */
  predicate IsPut(s: Bytes, k: nat, mark: Bytes, misc: Bytes, word: Bytes, end: Bytes) {
    k <= |s| && s[..k] == mark + (misc + (word + end))
  }

  lemma StartsPlain(s: Bytes, items: seq<Item>, word: Bytes)
    requires AreWellWritten(items) && IsDoctypeWord(word)
    requires At(s, 0, WrittenAll(items)) && At(s, |WrittenAll(items)|, word)
    ensures !At(s, 0, BOM)
  {
    Markers();
    if items == [] {
      assert s[0..9][0] == s[0];
    } else {
      AtConcat(s, 0, Written(items[0]), WrittenAll(items[1..]));
      assert WellWritten(items[0]);
      assert s[0..|Written(items[0])|][0] == s[0];
    }
    NoMarkFirst(s);
  }

  lemma NoMarkFirst(s: Bytes)
    requires s != [] && s[0] as int < 0x80
    ensures !At(s, 0, BOM)
  {
    if |s| >= 3 {
      assert s[0..3][0] == s[0];
    }
  }

  lemma DoctypeIsWritten(s: Bytes, j: nat, word: Bytes, text: Bytes)
    requires IsDoctypeWord(word) && At(s, j, word + (text + ['>']))
    ensures DoctypeAt(s, j, j + 10 + |text|) <==> '>' !in text
  {
    AtConcat(s, j, word, text + ['>']);
    AtConcat(s, j + 9, text, ['>']);
    Markers();
    assert s[j + 9 + |text|..j + 9 + |text| + 1][0] == s[j + 9 + |text|];
    assert forall t: nat {:trigger text[t]} :: t < |text| ==> text[t] == s[j + 9 + t];
    if '>' !in text {
      forall t: nat | j + 9 <= t < j + 9 + |text| ensures s[t] != '>' {
        assert text[t - j - 9] in text;
      }
    }
  }

  lemma PartsAt(s: Bytes, k: nat, mark: Bytes, misc: Bytes, word: Bytes, end: Bytes)
    ensures IsPut(s, k, mark, misc, word, end) <==>
      && At(s, 0, mark) && At(s, |mark|, misc) && At(s, |mark| + |misc|, word + end)
      && k == |mark| + |misc| + |word + end|
  {
    var all := mark + (misc + (word + end));
    AtConcat(s, 0, mark, misc + (word + end));
    AtConcat(s, |mark|, misc, word + end);
    assert k <= |s| ==> s[..k] == s[0..k];
    assert IsPut(s, k, mark, misc, word, end) <==> At(s, 0, all) && k == |all|;
  }

  lemma MarkOf(s: Bytes, marked: bool, items: seq<Item>, word: Bytes, end: Bytes)
    requires AreWellWritten(items) && IsDoctypeWord(word)
    requires At(s, 0, Mark(marked)) && At(s, |Mark(marked)|, WrittenAll(items))
    requires At(s, |Mark(marked)| + |WrittenAll(items)|, word + end)
    ensures BomLength(s) == |Mark(marked)|
  {
    Markers();
    if !marked {
      AtConcat(s, |WrittenAll(items)|, word, end);
      StartsPlain(s, items, word);
    }
  }

  /** Every file so written has its prolog where it was written. */
  lemma WrittenIsFound(s: Bytes, k: nat, marked: bool, items: seq<Item>, word: Bytes, text: Bytes)
    requires IsWritten(s, k, marked, items, word, text)
    ensures Prolog(s, k)
  {
    PartsAt(s, k, Mark(marked), WrittenAll(items), word, text + ['>']);
    MarkOf(s, marked, items, word, text + ['>']);
    PartsAreProlog(s, |Mark(marked)|, items, |Mark(marked)| + |WrittenAll(items)|, word, text, k);
  }

  lemma PartsAreProlog(s: Bytes, i: nat, items: seq<Item>, j: nat, word: Bytes, text: Bytes, k: nat)
    requires AreWellWritten(items) && IsDoctypeWord(word) && '>' !in text
    requires At(s, i, WrittenAll(items)) && j == i + |WrittenAll(items)|
    requires At(s, j, word + (text + ['>'])) && k == j + |word + (text + ['>'])|
    ensures PrologFrom(s, i, k)
  {
    MiscIsWritten(s, i, items, j);
    DoctypeIsWritten(s, j, word, text);
    PrologIs(s, i, j, k);
  }

  lemma PrologIs(s: Bytes, i: nat, j: nat, k: nat)
    requires i <= j && Misc(s, i, j) && DoctypeAt(s, j, k)
    ensures PrologFrom(s, i, k)
  {
  }

  lemma PrologParts(s: Bytes, i: nat, k: nat) returns (j: nat)
    requires PrologFrom(s, i, k)
    ensures i <= j <= |s| && Misc(s, i, j) && DoctypeAt(s, j, k)
  {
    j :| i <= j && Misc(s, i, j) && DoctypeAt(s, j, k);
  }

  lemma MarkFound(s: Bytes) returns (marked: bool)
    ensures BomLength(s) == |Mark(marked)| && At(s, 0, Mark(marked))
  {
    Markers();
    marked := BomLength(s) == 3;
  }

  /** And every file with a prolog was so written. */
  lemma FoundWasWritten(s: Bytes, k: nat) returns (marked: bool, items: seq<Item>, word: Bytes, text: Bytes)
    requires Prolog(s, k)
    ensures IsWritten(s, k, marked, items, word, text)
  {
    marked := MarkFound(s);
    var j := PrologParts(s, BomLength(s), k);
    items := MiscWasWritten(s, BomLength(s), j);
    word, text := WordAsWritten(s, j, k);
    Assembled(s, k, marked, items, word, text);
  }

  lemma Assembled(s: Bytes, k: nat, marked: bool, items: seq<Item>, word: Bytes, text: Bytes)
    requires AreWellWritten(items) && IsDoctypeWord(word) && '>' !in text
    requires var i, j := |Mark(marked)|, |Mark(marked)| + |WrittenAll(items)|;
      && At(s, 0, Mark(marked)) && At(s, i, WrittenAll(items)) && At(s, j, word + (text + ['>']))
      && k == j + |word| + |text| + 1
    ensures IsWritten(s, k, marked, items, word, text)
  {
    PartsAt(s, k, Mark(marked), WrittenAll(items), word, text + ['>']);
  }

  lemma WordAsWritten(s: Bytes, j: nat, k: nat) returns (word: Bytes, text: Bytes)
    requires DoctypeAt(s, j, k)
    ensures IsDoctypeWord(word) && '>' !in text
    ensures At(s, j, word + (text + ['>'])) && k == j + |word| + |text| + 1
  {
    Markers();
    word, text := s[j..j + 9], s[j + 9..k - 1];
    assert s[k - 1..k] == ['>'];
    AtConcat(s, j + 9, text, ['>']);
    AtConcat(s, j, word, text + ['>']);
    DoctypeIsWritten(s, j, word, text);
  }

  // --------------------------------------------------------- the spliced file

  /** The file the client sees. */
  function Spliced(source: Bytes, at: nat, injection: Bytes): Bytes
    requires at <= |source|
  {
    source[..at] + injection + source[at..]
  }

  datatype ReadError = NoError | EOF | NegativeOffset

  /** A source as os.File and bytes.Reader behave: a full read has no error, a short
      one says so. The content may have grown or shrunk since its size was taken. */
  class Source {
    const data: Bytes

    constructor (data: Bytes)
      ensures this.data == data
    {
      this.data := data;
    }

    /** Fills p[from..to] from `offset` on. */
    method ReadAt(p: array<byte>, from: nat, to: nat, offset: nat) returns (n: nat, err: ReadError)
      requires from <= to <= p.Length
      modifies p
      ensures n == if offset >= |data| then 0 else if to - from <= |data| - offset then to - from else |data| - offset
      ensures forall i :: 0 <= i < p.Length ==>
        p[i] == if from <= i < from + n then data[offset + i - from] else old(p[i])
      ensures err == if n < to - from then EOF else NoError
    {
      n := if offset >= |data| then 0 else if to - from <= |data| - offset then to - from else |data| - offset;
      forall i | from <= i < from + n {
        p[i] := data[offset + i - from];
      }
      err := if n < to - from then EOF else NoError;
    }
  }

  /** Byte x of the spliced file, for a source whose content is `data`. */
  function ByteAt(data: Bytes, at: nat, injection: Bytes, x: nat): (b: byte)
    requires x < at ==> x < |data|
    requires x >= at + |injection| ==> x - |injection| < |data|
  {
    if x < at then data[x] else if x < at + |injection| then injection[x - at] else data[x - |injection|]
  }

  /** Whether the source still holds what byte x of the spliced file is read from. */
  predicate Readable(data: Bytes, at: nat, injection: Bytes, x: nat) {
    (x < at ==> x < |data|) && (x >= at + |injection| ==> x - |injection| < |data|)
  }

  predicate IsByte(data: Bytes, at: nat, injection: Bytes, x: int, b: byte) {
    x >= 0 && Readable(data, at, injection, x) && b == ByteAt(data, at, injection, x)
  }

  class InjectedReaderAt {
    const source: Source
    const sourceSize: nat
    const insertAt: nat
    const injection: Bytes

    ghost predicate Valid() {
      insertAt <= sourceSize
    }

    function Total(): nat {
      sourceSize + |injection|
    }

    constructor (source: Source, sourceSize: nat, insertAt: nat, injection: Bytes)
      requires insertAt <= sourceSize
      ensures Valid() && this.source == source && this.sourceSize == sourceSize
      ensures this.insertAt == insertAt && this.injection == injection
    {
      this.source, this.sourceSize, this.insertAt, this.injection := source, sourceSize, insertAt, injection;
    }

    /** newHTMLArtifactReadSeeker: the size is the file's, the place the scanner's. */
    constructor ForFile(source: Source, injection: Bytes)
      ensures Valid() && this.source == source && sourceSize == |source.data| && this.injection == injection
      ensures insertAt > 0 ==> Prolog(source.data, insertAt)
      ensures insertAt == 0 ==> forall k :: !Prolog(source.data, k)
    {
      var at := GuardOffset(source.data);
      this.source, this.sourceSize, this.insertAt, this.injection := source, |source.data|, at, injection;
    }

    method ReadAt(p: array<byte>, start: int) returns (written: nat, err: ReadError)
      requires Valid()
      modifies p
      ensures written <= p.Length
      // every byte returned is the right one, and the rest of the buffer is untouched
      ensures written > 0 ==> 0 <= start && start + written <= Total()
      ensures forall i :: 0 <= i < written ==> IsByte(source.data, insertAt, injection, start + i, p[i])
      ensures forall i :: written <= i < p.Length ==> p[i] == old(p[i])
      // nothing is withheld
      ensures p.Length > 0 && start < 0 ==> written == 0 && err == NegativeOffset
      ensures start >= 0 && |source.data| >= sourceSize ==>
        written == if start >= Total() then 0 else if p.Length <= Total() - start then p.Length else Total() - start
      ensures start >= 0 && written < p.Length && start + written < Total() ==>
        !Readable(source.data, insertAt, injection, start + written)
      ensures p.Length == 0 || start >= 0 ==> (err == EOF <==> written < p.Length) && err != NegativeOffset
    {
      if p.Length == 0 {
        return 0, NoError;
      }
      if start < 0 {
        return 0, NegativeOffset;
      }
      var offset: nat := start;
      if offset >= Total() {
        return 0, EOF;
      }
      written := 0;
      while written < p.Length && offset < Total()
        invariant written <= p.Length && offset == start + written && offset <= Total()
        invariant forall i :: 0 <= i < written ==> IsByte(source.data, insertAt, injection, start + i, p[i])
        invariant forall i :: written <= i < p.Length ==> p[i] == old(p[i])
        decreases Total() - offset
      {
        if offset < insertAt {
          var available := Min(p.Length - written, insertAt - offset);
          var n, e := source.ReadAt(p, written, written + available, offset);
          offset := offset + n;
          written := written + n;
          if e != NoError {
            return written, e;
          }
        } else if offset < insertAt + |injection| {
          var injectionOffset := offset - insertAt;
          var n := Min(p.Length - written, |injection| - injectionOffset);
          forall i | written <= i < written + n {
            p[i] := injection[injectionOffset + i - written];
          }
          offset := offset + n;
          written := written + n;
        } else {
          var sourcePosition := offset - |injection|;
          var available := Min(p.Length - written, sourceSize - sourcePosition);
          var n, e := source.ReadAt(p, written, written + available, sourcePosition);
          offset := offset + n;
          written := written + n;
          if e != NoError {
            return written, e;
          }
        }
      }
      err := if written < p.Length then EOF else NoError;
    }
  }

  function Min(a: int, b: int): int {
    if a <= b then a else b
  }

  /** Byte for byte, what ReadAt returns is the source with the markup spliced in. */
  lemma ByteAtIsSpliced(data: Bytes, size: nat, at: nat, injection: Bytes, x: nat)
    requires at <= size <= |data| && x < size + |injection|
    ensures Readable(data, at, injection, x)
    ensures |Spliced(data[..size], at, injection)| == size + |injection|
    ensures ByteAt(data, at, injection, x) == Spliced(data[..size], at, injection)[x]
  {
  }

  /** The range of v from `offset` on, as long as asked for or up to the end. */
  function Chunk(v: Bytes, offset: nat, length: nat): Bytes {
    if offset >= |v| then [] else v[offset..Min(|v|, offset + length)]
  }

  /** The same, byte by byte. */
  ghost predicate IsChunk(v: Bytes, offset: nat, length: nat, got: Bytes) {
    && |got| == (if offset >= |v| then 0 else Min(|v| - offset, length))
    && forall i :: 0 <= i < |got| ==> got[i] == v[offset + i]
  }

  lemma ChunkIs(v: Bytes, offset: nat, length: nat, got: Bytes)
    ensures IsChunk(v, offset, length, got) <==> got == Chunk(v, offset, length)
  {
  }

  /** A chunk, and the chunk read from where it ends, make one chunk. */
  lemma ChunksJoin(v: Bytes, offset: nat, first: nat, rest: nat, before: Bytes, after: Bytes)
    requires IsChunk(v, offset, first, before) && IsChunk(v, offset + |before|, rest, after)
    ensures IsChunk(v, offset, first + rest, before + after)
    ensures |before + after| < first + rest <==> |before| < first || |after| < rest
  {
    var got := before + after;
    forall i | 0 <= i < |got| ensures got[i] == v[offset + i] {
      if i >= |before| {
        assert got[i] == after[i - |before|];
      }
    }
  }

  function Sum(lengths: seq<nat>): nat {
    if lengths == [] then 0 else Sum(lengths[..|lengths| - 1]) + lengths[|lengths| - 1]
  }

  /** The file the client of this reader sees, for a source that still holds at least
      the bytes it was sized with. */
  function Served(r: InjectedReaderAt): (v: Bytes)
    requires r.insertAt <= r.sourceSize <= |r.source.data|
    ensures |v| == r.Total()
  {
    Spliced(r.source.data[..r.sourceSize], r.insertAt, r.injection)
  }

  /** v is that file, byte for byte. */
  ghost predicate Serves(r: InjectedReaderAt, v: Bytes) {
    && r.insertAt <= r.sourceSize <= |r.source.data| && |v| == r.Total()
    && forall x: nat :: x < |v| ==> IsByte(r.source.data, r.insertAt, r.injection, x, v[x])
  }

  lemma ServedIsServed(r: InjectedReaderAt)
    requires r.insertAt <= r.sourceSize <= |r.source.data|
    ensures Serves(r, Served(r))
  {
    forall x: nat | x < |Served(r)| ensures IsByte(r.source.data, r.insertAt, r.injection, x, Served(r)[x]) {
      ByteAtIsSpliced(r.source.data, r.sourceSize, r.insertAt, r.injection, x);
    }
  }

  /** One ReadAt returns the chunk of the file that was asked for. */
  method ReadOnce(r: InjectedReaderAt, ghost v: Bytes, start: nat, length: nat) returns (got: Bytes, eof: bool)
    requires Serves(r, v)
    ensures IsChunk(v, start, length, got)
    ensures eof <==> |got| < length
  {
    var p := new byte[length];
    var written, err := r.ReadAt(p, start);
    got, eof := p[..written], err == EOF;
    forall i | 0 <= i < written ensures p[i] == v[start + i] {
      assert IsByte(r.source.data, r.insertAt, r.injection, start + i, v[start + i]);
    }
  }

  /** Reads one after the other, each from where the one before it ended. */
  method ReadEach(r: InjectedReaderAt, ghost v: Bytes, start: nat, lengths: seq<nat>) returns (got: Bytes, eof: bool)
    requires Serves(r, v)
    ensures IsChunk(v, start, Sum(lengths), got)
    ensures eof <==> |got| < Sum(lengths)
    decreases |lengths|
  {
    if lengths == [] {
      return [], false;
    }
    var last := |lengths| - 1;
    var before, ended := ReadEach(r, v, start, lengths[..last]);
    var after, over := ReadOnce(r, v, start + |before|, lengths[last]);
    ChunksJoin(v, start, Sum(lengths[..last]), lengths[last], before, after);
    return before + after, ended || over;
  }

  /** Reading from any offset in chunks of any sizes yields one contiguous range of the
      spliced file: the whole range asked for, unless the file ends before it, and then
      some read reports the end. */
  method ReadSequence(r: InjectedReaderAt, start: nat, lengths: seq<nat>) returns (got: Bytes, eof: bool)
    requires r.Valid() && |r.source.data| >= r.sourceSize
    ensures got == Chunk(Served(r), start, Sum(lengths))
    ensures eof <==> |got| < Sum(lengths)
  {
    ServedIsServed(r);
    got, eof := ReadEach(r, Served(r), start, lengths);
    ChunkIs(Served(r), start, Sum(lengths), got);
  }

  /** Taking the markup out again gives back the source, and the source's prolog
      stays in front: the spliced file has the same prolog as the source. */
  lemma SplicePreservesSource(source: Bytes, at: nat, injection: Bytes)
    requires at <= |source|
    ensures var v := Spliced(source, at, injection); v[..at] + v[at + |injection|..] == source
    ensures Spliced(source, at, injection)[at..at + |injection|] == injection
    ensures Prolog(source, at) ==> Prolog(Spliced(source, at, injection), at)
  {
    if Prolog(source, at) {
      SpliceKeepsProlog(source, at, injection);
    }
  }

  lemma SpliceKeepsProlog(source: Bytes, at: nat, injection: Bytes)
    requires at <= |source| && Prolog(source, at)
    ensures Prolog(Spliced(source, at, injection), at)
  {
    var v := Spliced(source, at, injection);
    var i := BomLength(source);
    var j: nat :| i <= j && Misc(source, i, j) && DoctypeAt(source, j, at);
    assert forall x :: 0 <= x < at ==> v[x] == source[x];
    assert v[j..j + |DOCTYPE|] == source[j..j + |DOCTYPE|];
    BomUnchanged(source, v, j);
    MiscUnchanged(source, v, at, i, j);
  }

  lemma BomUnchanged(source: Bytes, v: Bytes, j: nat)
    requires j + 3 <= |source| && j + 3 <= |v| && source[..j + 3] == v[..j + 3]
    ensures BomLength(source) == BomLength(v)
  {
    assert source[..3] == source[..j + 3][..3] == v[..3];
  }

  lemma AtUnchanged(source: Bytes, v: Bytes, at: nat, t: nat, word: Bytes)
    requires at <= |source| && at <= |v| && source[..at] == v[..at] && t + |word| <= at
    ensures At(v, t, word) <==> At(source, t, word)
  {
    var end := t + |word|;
    assert source[..at][t..end] == source[t..end];
    assert v[..at][t..end] == v[t..end];
  }

  lemma {:induction false} MiscUnchanged(source: Bytes, v: Bytes, at: nat, i: nat, j: nat)
    requires at <= |source| && at <= |v| && source[..at] == v[..at]
    requires i <= j <= at && Misc(source, i, j)
    ensures Misc(v, i, j)
    decreases j - i
  {
    if i < j {
      assert source[..at][i] == v[..at][i];
      if Blank(source[i]) && Misc(source, i + 1, j) {
        MiscUnchanged(source, v, at, i + 1, j);
      } else {
        var e :| i < e <= j && CommentAt(source, i, e) && Misc(source, e, j);
        forall t: nat, word: Bytes | t + |word| <= at ensures At(v, t, word) <==> At(source, t, word) {
          AtUnchanged(source, v, at, t, word);
        }
        MiscUnchanged(source, v, at, e, j);
      }
    }
  }
}
