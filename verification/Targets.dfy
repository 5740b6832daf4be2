/** What the text of a link or of a name means: the laws of decoding, of the path a
    reference names, and of the analysis that publishing rests on. */
module Targets {
  import opened Options
  import opened Text
  import opened Links

  // ----------------------------------------------------------------- decoding

  /** A hexadecimal digit in either case has its value, and nothing else has one. */
  lemma HexInEitherCase(c: char, n: nat)
    ensures HexValue(c) == Some(n) <==>
      if n < 10 then c as int == '0' as int + n
      else n < 16 && (c as int == 'A' as int + n - 10 || c as int == 'a' as int + n - 10)
  {
  }

  /** Two digits after a `%` stand for one byte. */
  lemma EscapeDecodes(high: char, low: char, m: nat, n: nat, tail: string)
    requires HexValue(high) == Some(m) && HexValue(low) == Some(n)
    ensures Unescape(['%', high, low] + tail) == Prepend([(16 * m + n) as char], Unescape(tail))
  {
    assert (['%', high, low] + tail)[3..] == tail;
  }

  /** A letter or digit of ASCII, or one of ten marks. */
  predicate NeedsNoEscape(c: char) {
    || 0x61 <= c as int <= 0x7A || 0x41 <= c as int <= 0x5A || 0x30 <= c as int <= 0x39
    || c in ['-', '_', '.', '~', '$', '&', '+', ':', '=', '@']
  }

  lemma EscapedLength(c: char)
    requires c as int < 256
    ensures EscapeByte(c) == [c] <==> NeedsNoEscape(c)
    ensures |EscapeByte(c)| == if NeedsNoEscape(c) then 1 else 3
  {
    var marks := "-_.~$&+:=@";
    assert marks == ['-', '_', '.', '~', '$', '&', '+', ':', '=', '@'];
  }

  /** Encoding leaves a text as it is exactly when none of its characters needs escaping. */
  lemma {:induction false} EscapeLeavesAlone(s: string)
    requires IsBytes(s)
    ensures |PathEscape(s)| >= |s|
    ensures PathEscape(s) == s <==> forall c :: c in s ==> NeedsNoEscape(c)
  {
    if s != "" {
      EscapeLeavesAlone(s[1..]);
      EscapedLength(s[0]);
      HeadTail(s);
      assert forall c :: c in s <==> c == s[0] || c in s[1..];
      if NeedsNoEscape(s[0]) {
        assert PathEscape(s)[1..] == PathEscape(s[1..]);
      }
    }
  }

  /** Every `%` is followed by two hexadecimal digits. */
  predicate Decodable(s: string) {
    forall i :: 0 <= i < |s| && s[i] == '%' ==>
      i + 2 < |s| && HexValue(s[i + 1]).Some? && HexValue(s[i + 2]).Some?
  }

  lemma {:induction false} DecodesExactlyWhen(s: string)
    ensures Unescape(s).Some? <==> Decodable(s)
    decreases |s|
  {
    if s != "" {
      if s[0] != '%' {
        DecodesExactlyWhen(s[1..]);
        DecodableTail(s, 1);
      } else if |s| >= 3 && HexValue(s[1]).Some? && HexValue(s[2]).Some? {
        DecodesExactlyWhen(s[3..]);
        DecodableTail(s, 3);
      }
    }
  }

  lemma DecodableTail(s: string, n: nat)
    requires n <= |s| && forall i :: 0 < i < n ==> s[i] != '%'
    requires n > 0 && (s[0] == '%' ==> 2 < |s| && HexValue(s[1]).Some? && HexValue(s[2]).Some?)
    ensures Decodable(s) <==> Decodable(s[n..])
  {
    var tail := s[n..];
    assert forall i :: n <= i < |s| ==> s[i] == tail[i - n];
    if Decodable(s) {
      forall i | 0 <= i < |tail| && tail[i] == '%'
        ensures i + 2 < |tail| && HexValue(tail[i + 1]).Some? && HexValue(tail[i + 2]).Some?
      {
        assert s[n + i] == '%';
      }
    }
    if Decodable(tail) {
      forall i | 0 <= i < |s| && s[i] == '%'
        ensures i + 2 < |s| && HexValue(s[i + 1]).Some? && HexValue(s[i + 2]).Some?
      {
        if i >= n {
          assert tail[i - n] == '%';
        }
      }
    }
  }

  // ------------------------------------------------- the parts of a reference

  /** The reference is a path in encoded form, a query and a fragment, each of the last two
      empty or with its mark: it is cut at the first `#`, and before that at the first `?`. */
  predicate CutAs(reference: string, encoded: string, query: string, fragment: string) {
    && reference == encoded + query + fragment
    && '?' !in encoded && '#' !in encoded && '#' !in query
    && (query == "" || query[0] == '?') && (fragment == "" || fragment[0] == '#')
  }

  predicate NoControl(s: string) {
    forall c :: c in s ==> c as int >= 0x20 && c as int != 0x7F
  }

  lemma ControlIs(s: string)
    ensures HasControl(s) <==> !NoControl(s)
  {
  }

  /** There are no control characters before the fragment, and the fragment decodes. */
  predicate Readable(encoded: string, query: string, fragment: string) {
    NoControl(encoded + query) && (fragment == "" || Decodable(fragment[1..]))
  }

  lemma CutIs(reference: string, encoded: string, query: string, fragment: string)
    requires CutAs(reference, encoded, query, fragment)
    ensures Before(reference, '#') == encoded + query
    ensures After(reference, '#') == if fragment == "" then "" else fragment[1..]
    ensures Before(encoded + query, '?') == encoded
  {
    CutAt(encoded + query, '#', fragment);
    CutAt(encoded, '?', query);
  }

  /** There is always a way to cut a reference. */
  lemma CutExists(reference: string) returns (encoded: string, query: string, fragment: string)
    ensures CutAs(reference, encoded, query, fragment)
  {
    var u := Before(reference, '#');
    encoded := Before(u, '?');
    query, fragment := u[|encoded|..], reference[|u|..];
    assert u == encoded + query && reference == u + fragment;
    assert forall c :: c in query ==> c in u;
    assert forall c :: c in encoded ==> c in u;
  }

  // ------------------------------------------------------ the path of a link

  lemma {:induction false} SchemeNeedsColon(u: string, i: nat)
    requires i <= |u| && SchemeOf(u, i) != NoScheme
    ensures exists k :: i <= k < |u| && u[k] == ':' && forall j :: i <= j < k ==> u[j] != '/' && u[j] != '?'
    decreases |u| - i
  {
    if u[i] != ':' {
      assert SchemeOf(u, i) == SchemeOf(u, i + 1);
      SchemeNeedsColon(u, i + 1);
    }
  }

  lemma {:induction false} BeforeHas(s: string, c: char, k: nat)
    requires k < |s| && forall j :: 0 <= j <= k ==> s[j] != c
    ensures s[k] in Before(s, c)
  {
    assert |Before(s, c)| > k;
    assert Before(s, c)[k] == s[k];
  }

  /** What looks like a scheme shows a colon in the path's first segment. */
  lemma SchemeShowsColon(u: string)
    requires SchemeOf(u, 0) != NoScheme
    ensures ':' in Before(Before(u, '?'), '/') && !HasPrefix(Before(u, '?'), "/")
  {
    SchemeNeedsColon(u, 0);
    var k :| 0 <= k < |u| && u[k] == ':' && forall j :: 0 <= j < k ==> u[j] != '/' && u[j] != '?';
    BeforeHas(u, '?', k);
    var rest := Before(u, '?');
    assert |rest| > k && rest[k] == ':';
    BeforeHas(rest, '/', k);
  }

  /** The path has no colon in its first segment, unless it begins with a slash. */
  predicate NoColonFirst(encoded: string) {
    HasPrefix(encoded, "/") || ':' !in Before(encoded, '/')
  }

  ghost predicate Names(reference: string, p: string, encoded: string, query: string, fragment: string) {
    && CutAs(reference, encoded, query, fragment) && Readable(encoded, query, fragment)
    && NoColonFirst(encoded) && Unescape(encoded) == Some(p)
  }

  lemma ReferenceWhenCut(reference: string, encoded: string, query: string, fragment: string)
    requires CutAs(reference, encoded, query, fragment)
    ensures ReferencePath(reference) ==
      if Readable(encoded, query, fragment) && NoColonFirst(encoded) then Unescape(encoded) else None
  {
    CutIs(reference, encoded, query, fragment);
    ControlIs(encoded + query);
    DecodesExactlyWhen(After(reference, '#'));
    if SchemeOf(encoded + query, 0) != NoScheme {
      SchemeShowsColon(encoded + query);
    }
  }

  /** A reference names a path exactly when its part before query and fragment, decoded, is
      that path, and it is readable and shows no scheme. */
  lemma ReferenceExactlyWhen(reference: string, p: string)
    ensures ReferencePath(reference) == Some(p) <==>
      exists encoded, query, fragment :: Names(reference, p, encoded, query, fragment)
  {
    var encoded, query, fragment := CutExists(reference);
    ReferenceWhenCut(reference, encoded, query, fragment);
    if ReferencePath(reference) == Some(p) {
      assert Names(reference, p, encoded, query, fragment);
    }
    if e, q, f :| Names(reference, p, e, q, f) {
      ReferenceWhenCut(reference, e, q, f);
    }
  }

  lemma SlashDecodesFirst(encoded: string)
    requires HasPrefix(encoded, "/") && Unescape(encoded).Some?
    ensures HasPrefix(Unescape(encoded).value, "/")
  {
    assert encoded[0] == '/';
  }

  lemma PathComesFirst(reference: string, encoded: string, query: string, fragment: string)
    requires CutAs(reference, encoded, query, fragment) && encoded != ""
    ensures reference != "" && reference[0] == encoded[0] && reference[0] != '#'
  {
    assert encoded[0] in encoded;
  }

  lemma NamesNothing(reference: string, p: string, encoded: string, query: string, fragment: string)
    requires Names(reference, p, encoded, query, fragment)
    requires reference == "" || HasPrefix(reference, "#") || HasPrefix(reference, "//")
    ensures p == "" || p[0] == '/'
  {
    if encoded != "" {
      PathComesFirst(reference, encoded, query, fragment);
      assert HasPrefix(reference, "//");
      assert reference[..2][0] == '/';
      SlashDecodesFirst(encoded);
    }
    assert Unescape("") == Some("");
  }

  /** A link is local exactly when, white space around it aside, its part before query and
      fragment decodes to a path that is not empty and does not begin with a slash. */
  lemma LocalExactlyWhen(target: string, p: string)
    ensures LocalPath(target) == Some(p) <==>
      && p != "" && p[0] != '/'
      && exists encoded, query, fragment :: Names(TrimSpace(target), p, encoded, query, fragment)
  {
    var trimmed := TrimSpace(target);
    ReferenceExactlyWhen(trimmed, p);
    if e, q, f :| Names(trimmed, p, e, q, f) {
      if trimmed == "" || HasPrefix(trimmed, "#") || HasPrefix(trimmed, "//") {
        NamesNothing(trimmed, p, e, q, f);
      }
    }
  }

  /** Query and fragment are cut off: `guide.md#x` names `guide.md`. */
  lemma QueryAndFragmentAreCutOff(p: string, query: string, fragment: string)
    requires CutAs(p + query + fragment, p, query, fragment) && Readable(p, query, fragment)
    requires p != "" && p[0] != '/' && '%' !in p && NoColonFirst(p)
    requires TrimSpace(p + query + fragment) == p + query + fragment
    ensures LocalPath(p + query + fragment) == Some(p)
  {
    PlainUnescape(p, "");
    PrependNothing(p, Some(""));
    assert p + "" == p && Unescape("") == Some("");
    LocalExactlyWhen(p + query + fragment, p);
    assert Names(p + query + fragment, p, p, query, fragment);
  }

  // ------------------------------------------------------------- the analysis

  lemma JoinedShape(kept: seq<string>)
    requires KeptShape(false, kept) && kept != []
    ensures Join(kept, '/') != "." && Join(kept, '/') != ""
  {
    assert kept[0] != "" && kept[0] != ".";
    if |kept| > 1 {
      assert Join(kept, '/') == kept[0] + ['/'] + Join(kept[1..], '/');
      assert Join(kept, '/')[|kept[0]|] == '/';
    }
  }

  /** A local link needs its document's directory exactly when it is left with a segment
      after the walk from there, and it is found to leave that directory exactly when the
      walk is left with a step upwards. */
  lemma AnalyzedExactlyWhen(target: string)
    ensures LocalPath(target).None? ==> Analyze(target) == (false, false)
    ensures LocalPath(target).Some? ==>
      var kept := Walk(false, [], Split(LocalPath(target).value, '/'));
      Analyze(target) == (kept != [], Ups(kept) > 0)
  {
    if LocalPath(target).Some? {
      var p := LocalPath(target).value;
      RelativeIsWalk("", p);
      EscapesIsUps("", p);
      var kept := Walk(false, [], Split(p, '/'));
      WalkKeeps(false, Split(p, '/'));
      if kept != [] {
        JoinedShape(kept);
      }
    }
  }
}
