/** What the client asks the daemon about when it puts a name into an admin address. */
module AdminRequests {
  import opened Options
  import opened Text
  import opened Links
  import opened Targets

  /** A share by its id, some other address, or nothing at all. */
  datatype Asked = AsksId(id: string) | AsksElsewhere | Malformed

  /** The name is put at the end of the address as it is: what follows a `#` or `?` is
      no part of the path, the path is decoded, and a path that is not clean is answered
      at another address. The daemon trims the rest. */
  function AskedFor(name: string): Asked {
    var u, fragment := Before(name, '#'), After(name, '#');
    if HasControl(u) || (fragment != "" && Unescape(fragment).None?) then Malformed
    else
      match Unescape(Before(u, '?'))
      case None => Malformed
      case Some(path) =>
        if path == "." || path == ".." || '/' in path then AsksElsewhere else AsksId(TrimSpace(path))
  }

  /** A name without a meaning in addresses. */
  predicate IsPlain(name: string) {
    && name != "." && name != ".." && !HasControl(name) && TrimSpace(name) == name
    && '#' !in name && '?' !in name && '%' !in name
  }

  lemma {:induction false} UnescapedLength(s: string)
    requires Unescape(s).Some?
    ensures |Unescape(s).value| <= |s|
    ensures |Unescape(s).value| == |s| ==> '%' !in s && Unescape(s).value == s
  {
    if s != "" {
      if s[0] != '%' {
        UnescapedLength(s[1..]);
        HeadTail(s);
        assert forall c :: c in s ==> c == s[0] || c in s[1..];
      } else {
        UnescapedLength(s[3..]);
      }
    }
  }

  lemma BeforeAll(s: string, c: char)
    requires |Before(s, c)| == |s|
    ensures Before(s, c) == s && c !in s
  {
  }

  /** The daemon is asked about the share of that very name exactly when it is plain. */
  lemma PlainAsksForItself(name: string)
    requires '/' !in name
    ensures AskedFor(name) == AsksId(name) <==> IsPlain(name)
  {
    if IsPlain(name) {
      BeforeNone(name, '#');
      BeforeNone(name, '?');
      PlainUnescape(name, "");
      PrependNothing(name, Some(""));
      assert name + "" == name && Unescape("") == Some("");
    }
    if AskedFor(name) == AsksId(name) {
      var u := Before(name, '#');
      var rest := Before(u, '?');
      UnescapedLength(rest);
      BeforeAll(name, '#');
      BeforeAll(u, '?');
    }
  }

  lemma PlainUnescapes(s: string)
    requires '%' !in s
    ensures Unescape(s) == Some(s)
  {
    PlainUnescape(s, "");
    PrependNothing(s, Some(""));
    assert s + "" == s && Unescape("") == Some("");
  }

  // ------------------------------------- what a name means, by the parts of an address

  /** At the end of an address the name is readable, and its path decodes to this one. */
  ghost predicate Means(name: string, path: string) {
    exists encoded, query, fragment ::
      CutAs(name, encoded, query, fragment) && Readable(encoded, query, fragment) && Unescape(encoded) == Some(path)
  }

  /** A single segment that cleaning leaves in place. */
  predicate OneSegment(path: string) {
    path != "." && path != ".." && '/' !in path
  }

  lemma AskedWhenCut(name: string, encoded: string, query: string, fragment: string)
    requires CutAs(name, encoded, query, fragment)
    ensures AskedFor(name) ==
      if !Readable(encoded, query, fragment) || Unescape(encoded).None? then Malformed
      else if OneSegment(Unescape(encoded).value) then AsksId(TrimSpace(Unescape(encoded).value))
      else AsksElsewhere
  {
    CutIs(name, encoded, query, fragment);
    ControlIs(encoded + query);
    DecodesExactlyWhen(After(name, '#'));
  }

  /** The daemon is asked about the share of the decoded path, without white space at its
      ends; about something else when that path is not one segment; and about nothing when
      the name means no path at all. */
  lemma AskedExactlyWhen(name: string)
    ensures forall path :: Means(name, path) ==>
      AskedFor(name) == if OneSegment(path) then AsksId(TrimSpace(path)) else AsksElsewhere
    ensures AskedFor(name) == Malformed <==> forall path :: !Means(name, path)
  {
    var encoded, query, fragment := CutExists(name);
    AskedWhenCut(name, encoded, query, fragment);
    if AskedFor(name) != Malformed {
      assert Means(name, Unescape(encoded).value);
    }
    forall path | Means(name, path)
      ensures AskedFor(name) == if OneSegment(path) then AsksId(TrimSpace(path)) else AsksElsewhere
    {
      var e, q, f :| CutAs(name, e, q, f) && Readable(e, q, f) && Unescape(e) == Some(path);
      AskedWhenCut(name, e, q, f);
    }
  }

  /** A plain id with a query or a fragment after it means that id: `notes#2.md` asks about
      the share `notes`. */
  lemma PlainIsCutOff(id: string, query: string, fragment: string)
    requires IsPlain(id) && '/' !in id && CutAs(id + query + fragment, id, query, fragment)
    requires Readable(id, query, fragment)
    ensures Means(id + query + fragment, id)
  {
    PlainUnescapes(id);
  }

  lemma PlainMeansItself(name: string)
    requires IsPlain(name)
    ensures Means(name, name)
  {
    assert name == name + "" + "" && name + "" == name;
    PlainUnescapes(name);
    assert CutAs(name, name, "", "") && Readable(name, "", "");
  }

  lemma {:induction false} EscapedIsVisible(s: string)
    requires IsBytes(s)
    ensures !HasControl(PathEscape(s)) && '#' !in PathEscape(s)
  {
    if s != "" {
      EscapedIsVisible(s[1..]);
      var first := EscapeByte(s[0]);
      HexRoundTrip(s[0] as int / 16);
      HexRoundTrip(s[0] as int % 16);
      forall c | c in first ensures ' ' <= c && c != '\U{7F}' && c != '#' {
      }
      assert forall c :: c in PathEscape(s) ==> c in first || c in PathEscape(s[1..]);
    }
  }

  /** The encoded form of any text means that text. */
  lemma EscapedMeans(s: string)
    requires IsBytes(s)
    ensures Means(PathEscape(s), s)
  {
    var encoded := PathEscape(s);
    EscapeRoundTrip(s, "");
    EscapedIsVisible(s);
    PrependNothing(s, Some(""));
    assert Unescape("") == Some("");
    assert encoded == encoded + "" + "" && encoded + "" == encoded;
    assert CutAs(encoded, encoded, "", "") && Readable(encoded, "", "");
  }

  /** `a?b` asks about the share `a`. */
  lemma QueryIsCutOff()
    ensures AskedFor(['a', '?', 'b']) == AsksId(['a'])
  {
    var name, a := ['a', '?', 'b'], ['a'];
    BeforeNone(name, '#');
    assert name == a + ['?'] + ['b'];
    BeforeFirst(a, '?', ['b']);
    PlainUnescapes(a);
    VisibleEndsStay(a);
  }

  /** `.` asks about no share. */
  lemma DotAsksElsewhere()
    ensures AskedFor(['.']) == AsksElsewhere
  {
    BeforeNone(['.'], '#');
    BeforeNone(['.'], '?');
    PlainUnescapes(['.']);
  }
}
