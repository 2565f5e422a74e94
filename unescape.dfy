/** `unescape` of src/utilities/unescape.ts: the five HTML entities `&amp;`, `&lt;`, `&gt;`,
    `&quot;` and `&#39;` are replaced by the characters they name, in one left-to-right
    pass of a global regular expression. */
module Unescape {
  import opened Wrappers

  /** `HTML_UNESCAPES`: each entity and the character it stands for. */
  const Table: seq<(string, char)> :=
    [("&amp;", '&'), ("&lt;", '<'), ("&gt;", '>'), ("&quot;", '"'), ("&#39;", '\'')]

  /** `s` starts with `e`. */
  predicate StartsWith(s: string, e: string) {
    |e| <= |s| && s[..|e|] == e
  }

  /** The entity of the table that `s` starts with, if any; no entity is a prefix of
      another, so at most one matches. */
  function EntityAt(s: string): (r: Option<(string, char)>)
    ensures r.Some? ==> r.value in Table && StartsWith(s, r.value.0)
    ensures forall e :: e in Table && StartsWith(s, e.0) ==> r == Some(e)
    ensures s == [] || s[0] != '&' ==> r.None?
  {
    if |s| < 4 || s[0] != '&' then None
    else if s[1] == 'a' && |s| >= 5 && s[2] == 'm' && s[3] == 'p' && s[4] == ';' then Some(Table[0])
    else if s[1] == 'l' && s[2] == 't' && s[3] == ';' then Some(Table[1])
    else if s[1] == 'g' && s[2] == 't' && s[3] == ';' then Some(Table[2])
    else if s[1] == 'q' && |s| >= 6 && s[2] == 'u' && s[3] == 'o' && s[4] == 't' && s[5] == ';' then Some(Table[3])
    else if s[1] == '#' && |s| >= 5 && s[2] == '3' && s[3] == '9' && s[4] == ';' then Some(Table[4])
    else None
  }

  /** `RE_ESCAPED_HTML.test(s)`: an entity occurs somewhere in `s`. */
  predicate HasEntity(s: string)
    decreases |s|
  {
    s != [] && (EntityAt(s).Some? || HasEntity(s[1..]))
  }

  /** `s.replace(RE_ESCAPED_HTML, …)`: scan left to right, replacing each entity found and
      going on after it; the replacement is never scanned again. */
  function ReplaceEntities(s: string): (r: string)
    ensures |r| <= |s|
    decreases |s|
  {
    if s == [] then ""
    else
      match EntityAt(s)
      case Some((entity, c)) => [c] + ReplaceEntities(s[|entity|..])
      case None => [s[0]] + ReplaceEntities(s[1..])
  }

  /** `unescape(slice)`: never longer than the slice, and the slice itself when it holds
      none of the five entities. */
  function Unescape(slice: string): (r: string)
    ensures |r| <= |slice|
    ensures !HasEntity(slice) ==> r == slice
  {
    if slice != [] && HasEntity(slice) then ReplaceEntities(slice) else slice
  }

  /** Without an entity the scan copies the string. */
  lemma {:induction false} ReplaceNoEntity(s: string)
    requires !HasEntity(s)
    ensures ReplaceEntities(s) == s
    decreases |s|
  {
    if s != [] {
      ReplaceNoEntity(s[1..]);
    }
  }

  /** The guard in front of `replace` changes nothing: `unescape` is the scan. */
  lemma UnescapeIsScan(s: string)
    ensures Unescape(s) == ReplaceEntities(s)
  {
    if !HasEntity(s) {
      ReplaceNoEntity(s);
    }
  }

  /** Each entity of the table becomes its character. */
  lemma Entities()
    ensures Unescape("&amp;") == "&"
    ensures Unescape("&lt;") == "<"
    ensures Unescape("&gt;") == ">"
    ensures Unescape("&quot;") == "\""
    ensures Unescape("&#39;") == "'"
  {
    EntityAlone("&amp;", '&');
    EntityAlone("&lt;", '<');
    EntityAlone("&gt;", '>');
    EntityAlone("&quot;", '"');
    EntityAlone("&#39;", '\'');
  }

  /** A string that is one entity unescapes to its character. */
  lemma EntityAlone(e: string, c: char)
    requires EntityAt(e) == Some((e, c))
    ensures Unescape(e) == [c]
  {
    UnescapeIsScan(e);
    assert e[|e|..] == [];
  }

  /** One pass only: `&amp;lt;` becomes `&lt;`, which a second call turns into `<`, so
      `unescape` is not idempotent. */
  lemma SinglePass()
    ensures Unescape("&amp;lt;") == "&lt;"
    ensures Unescape(Unescape("&amp;lt;")) == "<"
  {
    AmpFirst();
    EntityAlone("&lt;", '<');
  }

  lemma AmpFirst()
    ensures ReplaceEntities("&amp;lt;") == "&lt;"
    ensures Unescape("&amp;lt;") == "&lt;"
  {
    var s := "&amp;lt;";
    assert EntityAt(s) == Some(("&amp;", '&'));
    assert s[5..] == "lt;";
    ReplaceNoAmp("lt;");
    assert ReplaceEntities(s) == ['&'] + "lt;";
    UnescapeIsScan(s);
  }

  /** Entities outside the table, such as `&nbsp;`, stay as they are. */
  lemma OtherEntity()
    ensures Unescape("&nbsp;") == "&nbsp;"
  {
    var n := "&nbsp;";
    assert EntityAt(n).None?;
    assert n[1..] == "nbsp;";
    ReplaceNoAmp("nbsp;");
    assert ReplaceEntities(n) == [n[0]] + "nbsp;" == n;
    UnescapeIsScan(n);
  }

  /** A string without `&` is copied by the scan. */
  lemma {:induction false} ReplaceNoAmp(s: string)
    requires forall i :: 0 <= i < |s| ==> s[i] != '&'
    ensures ReplaceEntities(s) == s
    decreases |s|
  {
    if s != [] {
      assert EntityAt(s).None?;
      ReplaceNoAmp(s[1..]);
    }
  }

  /** The escaping that the table undoes (lodash's `escape`): each of `& < > " '` is written
      as its entity. */
  function Escape(s: string): string
    decreases |s|
  {
    if s == [] then ""
    else
      var c := s[0];
      var e := if c == '&' then "&amp;" else if c == '<' then "&lt;" else if c == '>' then "&gt;"
               else if c == '"' then "&quot;" else if c == '\'' then "&#39;" else [c];
      e + Escape(s[1..])
  }

  /** The scan undoes `escape`. */
  lemma {:induction false} ScanEscape(s: string)
    ensures ReplaceEntities(Escape(s)) == s
    decreases |s|
  {
    if s != [] {
      ScanEscape(s[1..]);
      var c := s[0];
      var rest := Escape(s[1..]);
      var e := if c == '&' then "&amp;" else if c == '<' then "&lt;" else if c == '>' then "&gt;"
               else if c == '"' then "&quot;" else if c == '\'' then "&#39;" else [c];
      assert Escape(s) == e + rest;
      assert (e + rest)[|e|..] == rest;
      if |e| == 1 {
        assert (e + rest)[0] == c != '&';
      } else {
        assert (e + rest)[..|e|] == e;
        assert EntityAt(e + rest) == Some((e, c));
      }
      assert s == [c] + s[1..];
    }
  }

  /** `unescape` inverts `escape`: the round trip gives back every string. */
  lemma UnescapeEscape(s: string)
    ensures Unescape(Escape(s)) == s
  {
    UnescapeIsScan(Escape(s));
    ScanEscape(s);
  }
}
