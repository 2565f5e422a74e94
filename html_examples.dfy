/** The outcome of the template parser on a whole family of one-fragment templates,
    `<a ATTRS>T</b>`: a plain element with double-quoted attributes and text, or a
    mismatched end tag. The family is parametric in its names, attributes and text. */
module HtmlExamples {
  import opened Wrappers
  import opened JsText
  import opened HtmlGrammar
  import opened HtmlProperties
  import JsonString

  /** The cursor reading character `i` of fragment `j`, or the start of the next fragment
      once `i` reaches the end. */
  function At(strings: seq<string>, j: nat, i: nat): Cursor
    requires j < |strings|
  {
    if i < |strings[j]| then Cursor(j, i) else Cursor(j + 1, 0)
  }

  lemma AtOk(strings: seq<string>, j: nat, i: nat)
    requires j < |strings| && i <= |strings[j]|
    ensures CursorOk(strings, At(strings, j, i))
  {
  }

  lemma NextAt(strings: seq<string>, j: nat, i: nat)
    requires j < |strings| && i < |strings[j]|
    ensures CursorOk(strings, At(strings, j, i))
    ensures Next(strings, At(strings, j, i))
            == Some((Step(i == |strings[j]| - 1, [strings[j][i]]), At(strings, j, i + 1)))
  {
  }

  /** `consumeWhitespace` on a character that is not white space returns it at once. */
  lemma WhitespaceAt(t: Template, j: nat, i: nat)
    requires j < |t.strings| && i < |t.strings[j]| && !IsSpaceChar(t.strings[j][i])
    ensures CursorOk(t.strings, At(t.strings, j, i))
    ensures ConsumeWhitespace(t, At(t.strings, j, i))
            == Success((Step(i == |t.strings[j]| - 1, [t.strings[j][i]]), At(t.strings, j, i + 1)))
  {
    NextAt(t.strings, j, i);
  }

  /** A character that may appear in an attribute name. */
  predicate AttrNameChar(c: char) {
    !IsSpaceChar(c) && c != '=' && c != '>' && c != '/'
  }

  lemma ConcatStep(p: string, s: string, i: nat, e: nat)
    requires i < e <= |s|
    ensures p + [s[i]] + s[i + 1..e] == p + s[i..e]
  {
    assert s[i..e] == [s[i]] + s[i + 1..e];
  }

  lemma ConcatNone(p: string, s: string, i: nat)
    requires i <= |s|
    ensures p + s[i..i] == p
  {
  }

  /** One step of each loop, from a cursor whose next step is known. */
  lemma TagStep(t: Template, c: Cursor, c1: Cursor, ch: char, tag: string)
    requires CursorOk(t.strings, c) && CursorOk(t.strings, c1)
    requires Next(t.strings, c) == Some((Step(false, [ch]), c1)) && IsTagNameChar([ch])
    ensures ConsumeTagLoop(t, c, tag) == ConsumeTagLoop(t, c1, tag + [ch])
  {
    assert !IsSpace([ch]);
  }

  lemma EndStep(t: Template, c: Cursor, c1: Cursor, ch: char, name: string)
    requires CursorOk(t.strings, c) && CursorOk(t.strings, c1)
    requires Next(t.strings, c) == Some((Step(false, [ch]), c1)) && IsTagNameChar([ch])
    ensures EndTagLoop(t, c, name, false) == EndTagLoop(t, c1, name + [ch], false)
  {
    assert !IsSpace([ch]);
  }

  lemma AttrStep(t: Template, c: Cursor, c1: Cursor, ch: char, attrs: map<string, string>, name: string)
    requires CursorOk(t.strings, c) && CursorOk(t.strings, c1)
    requires ConsumeWhitespace(t, c) == Success((Step(false, [ch]), c1)) && AttrNameChar(ch)
    ensures AttributesLoop(t, c, attrs, name) == AttributesLoop(t, c1, attrs, name + [ch])
  {
    assert [ch] != ">" && [ch] != "/" && [ch] != "=";
  }

  lemma QuoteStep(t: Template, c: Cursor, c1: Cursor, ch: char, text: string)
    requires CursorOk(t.strings, c) && CursorOk(t.strings, c1)
    requires Next(t.strings, c) == Some((Step(false, [ch]), c1)) && ch != '"'
    ensures QuoteLoop(t, c, text) == QuoteLoop(t, c1, text + [ch])
  {
    assert [ch] != "\"";
  }

  /** Inside a fragment, away from its last character, the cursor simply moves right. */
  lemma NextIn(strings: seq<string>, j: nat, i: nat)
    requires j < |strings| && i + 1 < |strings[j]|
    ensures CursorOk(strings, Cursor(j, i)) && CursorOk(strings, Cursor(j, i + 1))
    ensures Next(strings, Cursor(j, i)) == Some((Step(false, [strings[j][i]]), Cursor(j, i + 1)))
  {
    NextAt(strings, j, i);
  }

  lemma TagHeadStep(t: Template, j: nat, i: nat, tag: string)
    requires j < |t.strings| && i + 1 < |t.strings[j]| && IsTagNameChar([t.strings[j][i]])
    ensures CursorOk(t.strings, Cursor(j, i))
    ensures ConsumeTagLoop(t, Cursor(j, i), tag) == ConsumeTagLoop(t, Cursor(j, i + 1), tag + [t.strings[j][i]])
  {
    NextIn(t.strings, j, i);
    TagStep(t, Cursor(j, i), Cursor(j, i + 1), t.strings[j][i], tag);
  }

  lemma EndHeadStep(t: Template, j: nat, i: nat, name: string)
    requires j < |t.strings| && i + 1 < |t.strings[j]| && IsTagNameChar([t.strings[j][i]])
    ensures CursorOk(t.strings, Cursor(j, i))
    ensures EndTagLoop(t, Cursor(j, i), name, false) == EndTagLoop(t, Cursor(j, i + 1), name + [t.strings[j][i]], false)
  {
    NextIn(t.strings, j, i);
    EndStep(t, Cursor(j, i), Cursor(j, i + 1), t.strings[j][i], name);
  }

  lemma TextHeadStep(t: Template, j: nat, i: nat, text: string, children: seq<Child>)
    requires j < |t.strings| && i + 1 < |t.strings[j]| && t.strings[j][i] != '<'
    ensures CursorOk(t.strings, Cursor(j, i))
    ensures ChildrenLoop(t, Cursor(j, i), text, children)
            == ChildrenLoop(t, Cursor(j, i + 1), text + [t.strings[j][i]], children)
  {
    NextIn(t.strings, j, i);
    assert [t.strings[j][i]] != "<";
  }

  lemma AttrHeadStep(t: Template, j: nat, i: nat, attrs: map<string, string>, name: string)
    requires j < |t.strings| && i + 1 < |t.strings[j]| && AttrNameChar(t.strings[j][i])
    ensures CursorOk(t.strings, Cursor(j, i))
    ensures AttributesLoop(t, Cursor(j, i), attrs, name)
            == AttributesLoop(t, Cursor(j, i + 1), attrs, name + [t.strings[j][i]])
  {
    WhitespaceAt(t, j, i);
    AttrStep(t, Cursor(j, i), Cursor(j, i + 1), t.strings[j][i], attrs, name);
  }

  lemma QuoteHeadStep(t: Template, j: nat, i: nat, text: string)
    requires j < |t.strings| && i + 1 < |t.strings[j]| && t.strings[j][i] != '"'
    ensures CursorOk(t.strings, Cursor(j, i))
    ensures QuoteLoop(t, Cursor(j, i), text) == QuoteLoop(t, Cursor(j, i + 1), text + [t.strings[j][i]])
  {
    NextIn(t.strings, j, i);
    QuoteStep(t, Cursor(j, i), Cursor(j, i + 1), t.strings[j][i], text);
  }

  /** Reading tag-name characters that are not the last of their fragment extends the name. */
  lemma {:induction false} TagNameScan(t: Template, j: nat, i: nat, e: nat, tag: string)
    requires j < |t.strings| && i <= e < |t.strings[j]|
    requires forall m :: i <= m < e ==> IsTagNameChar([t.strings[j][m]])
    ensures ConsumeTagLoop(t, Cursor(j, i), tag) == ConsumeTagLoop(t, Cursor(j, e), tag + t.strings[j][i..e])
    decreases e - i
  {
    if i == e {
      ConcatNone(tag, t.strings[j], i);
    } else {
      TagHeadStep(t, j, i, tag);
      TagNameScan(t, j, i + 1, e, tag + [t.strings[j][i]]);
      ConcatStep(tag, t.strings[j], i, e);
    }
  }

  /** The same for the name of an end tag. */
  lemma {:induction false} EndNameScan(t: Template, j: nat, i: nat, e: nat, name: string)
    requires j < |t.strings| && i <= e < |t.strings[j]|
    requires forall m :: i <= m < e ==> IsTagNameChar([t.strings[j][m]])
    ensures EndTagLoop(t, Cursor(j, i), name, false) == EndTagLoop(t, Cursor(j, e), name + t.strings[j][i..e], false)
    decreases e - i
  {
    if i == e {
      ConcatNone(name, t.strings[j], i);
    } else {
      EndHeadStep(t, j, i, name);
      EndNameScan(t, j, i + 1, e, name + [t.strings[j][i]]);
      ConcatStep(name, t.strings[j], i, e);
    }
  }

  /** Text without `<` that does not end its fragment is gathered unchanged. */
  lemma {:induction false} TextScan(t: Template, j: nat, i: nat, e: nat, text: string, children: seq<Child>)
    requires j < |t.strings| && i <= e < |t.strings[j]|
    requires forall m :: i <= m < e ==> t.strings[j][m] != '<'
    ensures ChildrenLoop(t, Cursor(j, i), text, children)
            == ChildrenLoop(t, Cursor(j, e), text + t.strings[j][i..e], children)
    decreases e - i
  {
    if i == e {
      ConcatNone(text, t.strings[j], i);
    } else {
      TextHeadStep(t, j, i, text, children);
      TextScan(t, j, i + 1, e, text + [t.strings[j][i]], children);
      ConcatStep(text, t.strings[j], i, e);
    }
  }

  /** Attribute-name characters that do not end their fragment extend the pending name. */
  lemma {:induction false} AttrNameScan(t: Template, j: nat, i: nat, e: nat, attrs: map<string, string>, name: string)
    requires j < |t.strings| && i <= e < |t.strings[j]|
    requires forall m :: i <= m < e ==> AttrNameChar(t.strings[j][m])
    ensures AttributesLoop(t, Cursor(j, i), attrs, name)
            == AttributesLoop(t, Cursor(j, e), attrs, name + t.strings[j][i..e])
    decreases e - i
  {
    if i == e {
      ConcatNone(name, t.strings[j], i);
    } else {
      AttrHeadStep(t, j, i, attrs, name);
      AttrNameScan(t, j, i + 1, e, attrs, name + [t.strings[j][i]]);
      ConcatStep(name, t.strings[j], i, e);
    }
  }

  /** Characters other than a quote, not ending their fragment, join the quoted text. */
  lemma {:induction false} QuoteScan(t: Template, j: nat, i: nat, e: nat, text: string)
    requires j < |t.strings| && i <= e < |t.strings[j]|
    requires forall m :: i <= m < e ==> t.strings[j][m] != '"'
    ensures QuoteLoop(t, Cursor(j, i), text) == QuoteLoop(t, Cursor(j, e), text + t.strings[j][i..e])
    decreases e - i
  {
    if i == e {
      ConcatNone(text, t.strings[j], i);
    } else {
      QuoteHeadStep(t, j, i, text);
      QuoteScan(t, j, i + 1, e, text + [t.strings[j][i]]);
      ConcatStep(text, t.strings[j], i, e);
    }
  }

  // ---------------------------------------------------------------------------------
  // Pieces of an element inside one fragment

  /** `consumeTag` over a name of `[a-zA-Z0-9-]` closed by `>`: no attributes, and an
      interpolation follows exactly when the `>` ends its fragment. */
  lemma TagClosed(t: Template, j: nat, i: nat, e: nat)
    requires j < |t.strings| && i <= e < |t.strings[j]| && t.strings[j][e] == '>'
    requires forall m :: i <= m < e ==> IsTagNameChar([t.strings[j][m]])
    ensures CursorOk(t.strings, Cursor(j, i))
    ensures ConsumeTag(t, Cursor(j, i))
            == Success((TagHead(t.strings[j][i..e], map[], false, e == |t.strings[j]| - 1), At(t.strings, j, e + 1)))
  {
    TagNameScan(t, j, i, e, "");
    assert "" + t.strings[j][i..e] == t.strings[j][i..e];
    NextAt(t.strings, j, e);
    assert [t.strings[j][e]] == ">";
  }

  /** `consumeChildren` over text without `<` up to the `</` of an end tag. */
  lemma ChildrenText(t: Template, j: nat, i: nat, e: nat)
    requires j < |t.strings| && i <= e && e + 1 < |t.strings[j]|
    requires t.strings[j][e] == '<' && t.strings[j][e + 1] == '/'
    requires forall m :: i <= m < e ==> t.strings[j][m] != '<'
    ensures CursorOk(t.strings, Cursor(j, i))
    ensures ConsumeChildren(t, Cursor(j, i), false) == Success((Flush(t.strings[j][i..e], []), Cursor(j, e + 1)))
  {
    TextScan(t, j, i, e, "", []);
    assert "" + t.strings[j][i..e] == t.strings[j][i..e];
    NextIn(t.strings, j, e);
    assert [t.strings[j][e]] == "<";
  }

  lemma TagNameNoSpace(name: string)
    requires forall m :: 0 <= m < |name| ==> IsTagNameChar([name[m]])
    ensures TrimEnd(name) == name
  {
    assert NoSpace(name) by {
      forall m | 0 <= m < |name| ensures !IsSpaceChar(name[m]) {
        assert IsTagNameChar([name[m]]);
      }
    }
    TrimEndNoSpace(name);
  }

  /** The loop of `consumeEndTag` over a name of `[a-zA-Z0-9-]` and `>`. */
  lemma EndNameClosed(t: Template, j: nat, i: nat, e: nat)
    requires j < |t.strings| && i <= e < |t.strings[j]| && t.strings[j][e] == '>'
    requires forall m :: i <= m < e ==> IsTagNameChar([t.strings[j][m]])
    ensures CursorOk(t.strings, Cursor(j, i))
    ensures EndTagLoop(t, Cursor(j, i), "", false) == Success((t.strings[j][i..e], At(t.strings, j, e + 1)))
  {
    EndNameScan(t, j, i, e, "");
    var name := t.strings[j][i..e];
    assert "" + name == name;
    NextAt(t.strings, j, e);
    assert [t.strings[j][e]] == ">";
    assert forall m :: 0 <= m < |name| ==> IsTagNameChar([name[m]]) by {
      forall m | 0 <= m < |name| ensures IsTagNameChar([name[m]]) {
        assert name[m] == t.strings[j][i + m];
      }
    }
    TagNameNoSpace(name);
  }

  /** `consumeEndTag` over `/`, a name of `[a-zA-Z0-9-]` and `>`. */
  lemma EndTagClosed(t: Template, j: nat, i: nat, e: nat)
    requires j < |t.strings| && i < e < |t.strings[j]|
    requires t.strings[j][i] == '/' && t.strings[j][e] == '>'
    requires forall m :: i + 1 <= m < e ==> IsTagNameChar([t.strings[j][m]])
    ensures CursorOk(t.strings, Cursor(j, i))
    ensures ConsumeEndTag(t, Cursor(j, i)) == Success((t.strings[j][i + 1..e], At(t.strings, j, e + 1)))
  {
    WhitespaceAt(t, j, i);
    assert [t.strings[j][i]] == "/";
    EndNameClosed(t, j, i + 1, e);
  }

  /** `processConsumption` from the outcomes of its three parts, for a tag that is not
      self-closing and not followed by an interpolation. */
  lemma ProcessParts(t: Template, c: Cursor, a: string, attrs: map<string, string>, c1: Cursor,
                     children: seq<Child>, c2: Cursor, b: string, c3: Cursor)
    requires CursorOk(t.strings, c) && CursorOk(t.strings, c1) && CursorOk(t.strings, c2)
    requires ConsumeTag(t, c) == Success((TagHead(a, attrs, false, false), c1))
    requires ConsumeChildren(t, c1, false) == Success((children, c2))
    requires ConsumeEndTag(t, c2) == Success((b, c3))
    ensures ProcessConsumption(t, c)
            == if a == b then Success((Element(a, attrs, children, []), c3)) else Failure(TagMismatch(a, b))
  {
  }

  /** `s[p1]` ends an opening tag; the text up to `p2` holds no `<`, and `</b>` spans
      `p2` to `p3`. */
  ghost predicate BodyAt(s: string, p1: nat, p2: nat, p3: nat, text: string, b: string) {
    && p1 < p2 && p2 + 1 < p3 < |s|
    && s[p2] == '<' && s[p2 + 1] == '/' && s[p3] == '>'
    && (forall m :: p1 < m < p2 ==> s[m] != '<')
    && (forall m :: p2 + 1 < m < p3 ==> IsTagNameChar([s[m]]))
    && s[p1 + 1..p2] == text && s[p2 + 2..p3] == b
  }

  /** `processConsumption` once the open tag `a` with attributes `attrs` is read, over a
      text free of `<` and an end tag `</b>` with `b` a name of `[a-zA-Z0-9-]`: the element
      with the trimmed text as its only child when the names agree, and a tag mismatch
      otherwise. */
  lemma TextElement(t: Template, j: nat, i: nat, p1: nat, p2: nat, p3: nat, a: string, attrs: map<string, string>,
                    text: string, b: string)
    requires j < |t.strings| && i <= p1 && BodyAt(t.strings[j], p1, p2, p3, text, b)
    requires CursorOk(t.strings, Cursor(j, i))
    requires ConsumeTag(t, Cursor(j, i)) == Success((TagHead(a, attrs, false, false), Cursor(j, p1 + 1)))
    ensures ProcessConsumption(t, Cursor(j, i))
      == if a == b then Success((Element(a, attrs, Flush(text, []), []), At(t.strings, j, p3 + 1)))
         else Failure(TagMismatch(a, b))
  {
    ChildrenText(t, j, p1 + 1, p2);
    EndTagClosed(t, j, p2 + 1, p3);
    assert CursorOk(t.strings, Cursor(j, p1 + 1));
    assert CursorOk(t.strings, Cursor(j, p2 + 1));
    assert ConsumeTag(t, Cursor(j, i)) == Success((TagHead(a, attrs, false, false), Cursor(j, p1 + 1)));
    assert ConsumeChildren(t, Cursor(j, p1 + 1), false) == Success((Flush(text, []), Cursor(j, p2 + 1)));
    assert ConsumeEndTag(t, Cursor(j, p2 + 1)) == Success((b, At(t.strings, j, p3 + 1)));
    ProcessParts(t, Cursor(j, i), a, attrs, Cursor(j, p1 + 1), Flush(text, []),
                 Cursor(j, p2 + 1), b, At(t.strings, j, p3 + 1));
  }

  /** `consume` over a template that is one element: that element, or its error. */
  lemma ConsumeOne(t: Template, c: Cursor, c1: Cursor)
    requires CursorOk(t.strings, c) && CursorOk(t.strings, c1)
    requires Next(t.strings, c) == Some((Step(false, "<"), c1))
    requires var r := ProcessConsumption(t, c1); r.Success? ==> r.value.1 == Cursor(|t.strings|, 0)
    ensures var r := ProcessConsumption(t, c1);
      Consume(t, c, []) == if r.Success? then Success([r.value.0]) else Failure(r.error)
  {
    var r := ProcessConsumption(t, c1);
    if r.Success? {
      var e := r.value.0;
      assert [] + [e] == [e];
      assert Next(t.strings, Cursor(|t.strings|, 0)).None?;
      assert Consume(t, Cursor(|t.strings|, 0), [e]) == Success([e]);
    }
  }

  // ---------------------------------------------------------------------------------
  // Attributes inside one fragment

  /** The text of a quoted value of plain characters neither ends with a backslash nor
      decodes to anything but itself. */
  lemma PlainLiteral(v: string)
    requires JsonString.Plain(v)
    ensures !EndsWith("\"" + v, "\\")
    ensures JsonString.ParseLiteral("\"" + v + "\"") == Some(v)
  {
    assert ("\"" + v)[|v|] == if v == [] then '"' else v[|v| - 1];
    JsonString.DecodePlain(v);
    var literal := "\"" + v + "\"";
    assert literal[1..|literal| - 1] == v;
  }

  /** `consumeStringQuote` after its opening quote ... */
  lemma QuoteOpenParts(t: Template, c: Cursor, c1: Cursor)
    requires CursorOk(t.strings, c) && CursorOk(t.strings, c1)
    requires ConsumeWhitespace(t, c) == Success((Step(false, "\""), c1))
    ensures ConsumeStringQuote(t, c) == QuoteLoop(t, c1, "\"")
  {
  }

  /** ... and at its closing quote, whatever follows it. */
  lemma QuoteCloseParts(t: Template, c: Cursor, text: string, c1: Cursor, v: string, ins: bool)
    requires CursorOk(t.strings, c) && CursorOk(t.strings, c1)
    requires Next(t.strings, c) == Some((Step(ins, "\""), c1))
    requires !EndsWith(text, "\\") && JsonString.ParseLiteral(text + "\"") == Some(v)
    ensures QuoteLoop(t, c, text) == Success((v, c1))
  {
  }

  /** The loop of `consumeStringQuote` at the closing quote, after plain characters. */
  lemma QuoteEnd(t: Template, j: nat, e: nat, v: string)
    requires j < |t.strings| && e < |t.strings[j]| && t.strings[j][e] == '"'
    requires JsonString.Plain(v)
    ensures CursorOk(t.strings, Cursor(j, e))
    ensures QuoteLoop(t, Cursor(j, e), "\"" + v) == Success((v, At(t.strings, j, e + 1)))
  {
    NextAt(t.strings, j, e);
    assert At(t.strings, j, e) == Cursor(j, e);
    assert [t.strings[j][e]] == "\"";
    PlainLiteral(v);
    QuoteCloseParts(t, Cursor(j, e), "\"" + v, At(t.strings, j, e + 1), v, e == |t.strings[j]| - 1);
  }

  /** The loop of `consumeStringQuote` over plain characters and the closing quote. */
  lemma QuoteClosed(t: Template, j: nat, q: nat, e: nat)
    requires j < |t.strings| && q < e < |t.strings[j]| && t.strings[j][e] == '"'
    requires forall m :: q < m < e ==> JsonString.IsUnescaped(t.strings[j][m])
    ensures CursorOk(t.strings, Cursor(j, q + 1))
    ensures QuoteLoop(t, Cursor(j, q + 1), "\"") == Success((t.strings[j][q + 1..e], At(t.strings, j, e + 1)))
  {
    var s := t.strings[j];
    var v := s[q + 1..e];
    QuoteScan(t, j, q + 1, e, "\"");
    PlainSlice(s, q, e);
    QuoteEnd(t, j, e, v);
  }

  lemma PlainSlice(s: string, q: nat, e: nat)
    requires q < e <= |s|
    requires forall m :: q < m < e ==> JsonString.IsUnescaped(s[m])
    ensures JsonString.Plain(s[q + 1..e])
  {
    var v := s[q + 1..e];
    assert forall m :: 0 <= m < |v| ==> v[m] == s[q + 1 + m];
  }

  /** A quoted value of plain characters (no quote, backslash or control character)
      decodes to itself. */
  lemma QuotedPlain(t: Template, j: nat, q: nat, e: nat)
    requires j < |t.strings| && q < e < |t.strings[j]|
    requires t.strings[j][q] == '"' && t.strings[j][e] == '"'
    requires forall m :: q < m < e ==> JsonString.IsUnescaped(t.strings[j][m])
    ensures CursorOk(t.strings, Cursor(j, q))
    ensures ConsumeStringQuote(t, Cursor(j, q)) == Success((t.strings[j][q + 1..e], At(t.strings, j, e + 1)))
  {
    WhitespaceAt(t, j, q);
    assert [t.strings[j][q]] == "\"";
    QuoteOpenParts(t, Cursor(j, q), Cursor(j, q + 1));
    QuoteClosed(t, j, q, e);
  }

  /** One `name="value"` pair in the attribute loop, from an abstract view of its parts. */
  lemma AttrPairParts(t: Template, c: Cursor, attrs: map<string, string>, name: string, c1: Cursor, v: string, c2: Cursor)
    requires CursorOk(t.strings, c) && CursorOk(t.strings, c1) && CursorOk(t.strings, c2) && name != ""
    requires ConsumeWhitespace(t, c) == Success((Step(false, "="), c1))
    requires ConsumeStringQuote(t, c1) == Success((v, c2))
    ensures AttributesLoop(t, c, attrs, name) == AttributesLoop(t, c2, attrs[name := v], "")
  {
  }

  lemma NonEmptyName(s: string, i: nat, e: nat)
    requires i < e <= |s|
    ensures "" + s[i..e] == s[i..e] != ""
  {
    assert s[i..e][0] == s[i];
  }

  /** `s[i..e1]` is an attribute name, followed by `="`, a plain value and the closing
      quote at `e2`. */
  ghost predicate PairAt(s: string, i: nat, e1: nat, e2: nat) {
    && i < e1 && e1 + 1 < e2 && e2 < |s|
    && (forall m :: i <= m < e1 ==> AttrNameChar(s[m]))
    && s[e1] == '=' && s[e1 + 1] == '"' && s[e2] == '"'
    && (forall m :: e1 + 1 < m < e2 ==> JsonString.IsUnescaped(s[m]))
  }

  /** `name="value"` inside a fragment stores the value under the name. */
  lemma AttrPair(t: Template, j: nat, i: nat, e1: nat, e2: nat, attrs: map<string, string>)
    requires j < |t.strings| && PairAt(t.strings[j], i, e1, e2) && e2 + 1 < |t.strings[j]|
    ensures CursorOk(t.strings, Cursor(j, i))
    ensures AttrsFrom(t, Cursor(j, i), attrs)
            == AttrsFrom(t, Cursor(j, e2 + 1), attrs[t.strings[j][i..e1] := t.strings[j][e1 + 2..e2]])
  {
    AttrNameScan(t, j, i, e1, attrs, "");
    NonEmptyName(t.strings[j], i, e1);
    AttrEquals(t, j, e1, e2, attrs, t.strings[j][i..e1]);
  }

  /** `="value"` after a pending name stores the value under it. */
  lemma AttrEquals(t: Template, j: nat, e1: nat, e2: nat, attrs: map<string, string>, name: string)
    requires j < |t.strings| && e1 + 1 < e2 && e2 + 1 < |t.strings[j]| && name != ""
    requires t.strings[j][e1] == '=' && t.strings[j][e1 + 1] == '"' && t.strings[j][e2] == '"'
    requires forall m :: e1 + 1 < m < e2 ==> JsonString.IsUnescaped(t.strings[j][m])
    ensures CursorOk(t.strings, Cursor(j, e1))
    ensures AttributesLoop(t, Cursor(j, e1), attrs, name)
            == AttributesLoop(t, Cursor(j, e2 + 1), attrs[name := t.strings[j][e1 + 2..e2]], "")
  {
    WhitespaceAt(t, j, e1);
    assert [t.strings[j][e1]] == "=";
    QuotedPlain(t, j, e1 + 1, e2);
    AttrPairParts(t, Cursor(j, e1), attrs, name, Cursor(j, e1 + 1), t.strings[j][e1 + 2..e2], Cursor(j, e2 + 1));
  }

  /** The attribute loop from `c` with no name pending. */
  ghost function AttrsFrom(t: Template, c: Cursor, attrs: map<string, string>): Parsed<AttrTail>
    requires CursorOk(t.strings, c)
  {
    AttributesLoop(t, c, attrs, "")
  }

  /** White space before an attribute is skipped. */
  lemma AttrSpace(t: Template, j: nat, i: nat, attrs: map<string, string>)
    requires j < |t.strings| && i + 1 < |t.strings[j]| && IsSpaceChar(t.strings[j][i])
    ensures CursorOk(t.strings, Cursor(j, i))
    ensures AttrsFrom(t, Cursor(j, i), attrs) == AttrsFrom(t, Cursor(j, i + 1), attrs)
  {
    NextIn(t.strings, j, i);
    assert ConsumeWhitespace(t, Cursor(j, i)) == ConsumeWhitespace(t, Cursor(j, i + 1));
  }

  /** `>` ends the attributes; an interpolation follows when it ends its fragment. */
  lemma AttrsClosed(t: Template, j: nat, i: nat, attrs: map<string, string>)
    requires j < |t.strings| && i < |t.strings[j]| && t.strings[j][i] == '>'
    ensures CursorOk(t.strings, Cursor(j, i))
    ensures AttributesLoop(t, Cursor(j, i), attrs, "")
            == Success((AttrTail(attrs, false, i == |t.strings[j]| - 1), At(t.strings, j, i + 1)))
  {
    WhitespaceAt(t, j, i);
    assert [t.strings[j][i]] == ">";
  }

  /** A tag name followed by white space hands over to `consumeAttributes`. */
  lemma TagThenAttrs(t: Template, j: nat, i: nat, e: nat)
    requires j < |t.strings| && i <= e && e + 1 < |t.strings[j]| && IsSpaceChar(t.strings[j][e])
    requires forall m :: i <= m < e ==> IsTagNameChar([t.strings[j][m]])
    ensures CursorOk(t.strings, Cursor(j, i)) && CursorOk(t.strings, Cursor(j, e + 1))
    ensures ConsumeTag(t, Cursor(j, i))
            == match AttributesLoop(t, Cursor(j, e + 1), map[], "")
               case Success(p) => Success((TagHead(t.strings[j][i..e], p.0.attributes, p.0.selfClosing, p.0.insertAfter), p.1))
               case Failure(err) => Failure(err)
  {
    TagNameScan(t, j, i, e, "");
    assert "" + t.strings[j][i..e] == t.strings[j][i..e];
    NextIn(t.strings, j, e);
  }

  // ---------------------------------------------------------------------------------
  // Attribute lists

  /** An attribute the way templates write it, ` name="value"`, with a name of characters
      other than white space, `=`, `>` and `/`, and a value of plain characters. */
  predicate PlainAttr(kv: (string, string)) {
    && kv.0 != []
    && (forall m :: 0 <= m < |kv.0| ==> AttrNameChar(kv.0[m]))
    && JsonString.Plain(kv.1)
  }

  /** Every attribute of the list is a plain one. */
  predicate AllPlain(kvs: seq<(string, string)>)
    decreases |kvs|
  {
    kvs == [] || (PlainAttr(kvs[0]) && AllPlain(kvs[1..]))
  }

  function PairText(kv: (string, string)): string {
    " " + kv.0 + "=\"" + kv.1 + "\""
  }

  function AttrsText(kvs: seq<(string, string)>): string
    decreases |kvs|
  {
    if kvs == [] then "" else PairText(kvs[0]) + AttrsText(kvs[1..])
  }

  /** The attributes stored one after the other: a later name overrides an earlier one. */
  function AttrsMap(attrs: map<string, string>, kvs: seq<(string, string)>): map<string, string>
    decreases |kvs|
  {
    if kvs == [] then attrs else AttrsMap(attrs[kvs[0].0 := kvs[0].1], kvs[1..])
  }

  lemma SliceSplitAt(s: string, i: nat, e: nat, x: string, y: string)
    requires i <= e <= |s| && s[i..e] == x + y
    ensures i + |x| <= e && s[i..i + |x|] == x && s[i + |x|..e] == y
  {
    assert s[i..i + |x|] == s[i..e][..|x|];
    assert s[i + |x|..e] == s[i..e][|x|..];
  }

  lemma PairChars(s: string, i: nat, kv: (string, string))
    requires PlainAttr(kv)
    requires i + |PairText(kv)| <= |s| && s[i..i + |PairText(kv)|] == PairText(kv)
    ensures var e1 := i + 1 + |kv.0|;
      var e2 := e1 + 2 + |kv.1|;
      && e2 + 1 == i + |PairText(kv)|
      && s[i] == ' ' && PairAt(s, i + 1, e1, e2)
  {
    var (k, v) := kv;
    var w := PairText(kv);
    assert forall m :: i <= m < i + |w| ==> s[m] == w[m - i];
    assert forall m :: 0 <= m < |k| ==> w[1 + m] == k[m];
    assert forall m :: 0 <= m < |v| ==> w[|k| + 3 + m] == v[m];
  }

  lemma PairParts(s: string, i: nat, kv: (string, string))
    requires i + |PairText(kv)| <= |s| && s[i..i + |PairText(kv)|] == PairText(kv)
    ensures var e1 := i + 1 + |kv.0|;
      s[i + 1..e1] == kv.0 && s[e1 + 2..e1 + 2 + |kv.1|] == kv.1
  {
    var (k, v) := kv;
    var w := PairText(kv);
    var e1 := i + 1 + |k|;
    assert forall m :: 0 <= m < |k| ==> s[i + 1..e1][m] == s[i + 1 + m] == w[1 + m] == k[m];
    assert forall m :: 0 <= m < |v| ==> s[e1 + 2..e1 + 2 + |v|][m] == s[e1 + 2 + m] == w[|k| + 3 + m] == v[m];
  }

  /** One ` name="value"` of an attribute list, by its positions. */
  lemma {:induction false} AttrsStepAt(t: Template, j: nat, i: nat, e1: nat, e2: nat, attrs: map<string, string>)
    requires j < |t.strings| && i < |t.strings[j]| && IsSpaceChar(t.strings[j][i])
    requires PairAt(t.strings[j], i + 1, e1, e2) && e2 + 1 < |t.strings[j]|
    ensures CursorOk(t.strings, Cursor(j, i))
    ensures AttrsFrom(t, Cursor(j, i), attrs)
            == AttrsFrom(t, Cursor(j, e2 + 1), attrs[t.strings[j][i + 1..e1] := t.strings[j][e1 + 2..e2]])
  {
    AttrPair(t, j, i + 1, e1, e2, attrs);
    AttrSpace(t, j, i, attrs);
  }

  /** One ` name="value"` of an attribute list. */
  lemma AttrsStep(t: Template, j: nat, i: nat, kv: (string, string), attrs: map<string, string>)
    requires j < |t.strings| && i + |PairText(kv)| < |t.strings[j]| && PlainAttr(kv)
    requires t.strings[j][i..i + |PairText(kv)|] == PairText(kv)
    ensures CursorOk(t.strings, Cursor(j, i))
    ensures AttrsFrom(t, Cursor(j, i), attrs)
            == AttrsFrom(t, Cursor(j, i + |PairText(kv)|), attrs[kv.0 := kv.1])
  {
    var s := t.strings[j];
    PairChars(s, i, kv);
    PairParts(s, i, kv);
    var e1 := i + 1 + |kv.0|;
    var e2 := e1 + 2 + |kv.1|;
    AttrsStepAt(t, j, i, e1, e2, attrs);
    PairStored(attrs, s, i, e1, e2, kv);
  }

  lemma PairStored(attrs: map<string, string>, s: string, i: nat, e1: nat, e2: nat, kv: (string, string))
    requires i + 1 <= e1 && e1 + 2 <= e2 <= |s| && s[i + 1..e1] == kv.0 && s[e1 + 2..e2] == kv.1
    ensures attrs[s[i + 1..e1] := s[e1 + 2..e2]] == attrs[kv.0 := kv.1]
  {
  }

  /** The first attribute of a nonempty list, split off its text and its map. */
  lemma AttrsCons(s: string, i: nat, e: nat, kvs: seq<(string, string)>, attrs: map<string, string>)
    requires kvs != [] && i <= e <= |s| && s[i..e] == AttrsText(kvs)
    ensures var m := i + |PairText(kvs[0])|;
      && m <= e && s[i..m] == PairText(kvs[0]) && s[m..e] == AttrsText(kvs[1..])
      && AttrsMap(attrs, kvs) == AttrsMap(attrs[kvs[0].0 := kvs[0].1], kvs[1..])
  {
    SliceSplitAt(s, i, e, PairText(kvs[0]), AttrsText(kvs[1..]));
  }

  /** The first attribute of a non-empty list: the loop stores it and moves to the text
      of the others. */
  lemma AttrsHead(t: Template, j: nat, i: nat, e: nat, kvs: seq<(string, string)>, attrs: map<string, string>)
    requires j < |t.strings| && i <= e < |t.strings[j]| && kvs != []
    requires t.strings[j][i..e] == AttrsText(kvs) && AllPlain(kvs)
    ensures var m := i + |PairText(kvs[0])|;
      && m <= e && t.strings[j][m..e] == AttrsText(kvs[1..]) && AllPlain(kvs[1..])
      && AttrsFrom(t, Cursor(j, i), attrs) == AttrsFrom(t, Cursor(j, m), attrs[kvs[0].0 := kvs[0].1])
      && AttrsMap(attrs, kvs) == AttrsMap(attrs[kvs[0].0 := kvs[0].1], kvs[1..])
  {
    AttrsCons(t.strings[j], i, e, kvs, attrs);
    AttrsStep(t, j, i, kvs[0], attrs);
  }

  /** The attribute loop over a list of plain attributes stores them all, in order. */
  lemma {:induction false} AttrsScan(t: Template, j: nat, i: nat, e: nat, kvs: seq<(string, string)>, attrs: map<string, string>)
    requires j < |t.strings| && i <= e < |t.strings[j]|
    requires t.strings[j][i..e] == AttrsText(kvs)
    requires AllPlain(kvs)
    ensures AttrsFrom(t, Cursor(j, i), attrs) == AttrsFrom(t, Cursor(j, e), AttrsMap(attrs, kvs))
    decreases |kvs|
  {
    if kvs == [] {
      assert |t.strings[j][i..e]| == 0;
      assert i == e && AttrsMap(attrs, kvs) == attrs;
    } else {
      AttrsHead(t, j, i, e, kvs, attrs);
      AttrsScan(t, j, i + |PairText(kvs[0])|, e, kvs[1..], attrs[kvs[0].0 := kvs[0].1]);
    }
  }

  /** `consumeTag` over a name, a list of plain attributes and `>`. */
  lemma TagAttrs(t: Template, j: nat, i: nat, p0: nat, p1: nat, kvs: seq<(string, string)>)
    requires j < |t.strings| && i <= p0 <= p1 && p1 + 1 < |t.strings[j]|
    requires forall m :: i <= m < p0 ==> IsTagNameChar([t.strings[j][m]])
    requires t.strings[j][p0..p1] == AttrsText(kvs) && AllPlain(kvs)
    requires t.strings[j][p1] == '>'
    ensures CursorOk(t.strings, Cursor(j, i))
    ensures ConsumeTag(t, Cursor(j, i))
            == Success((TagHead(t.strings[j][i..p0], AttrsMap(map[], kvs), false, false), Cursor(j, p1 + 1)))
  {
    var s := t.strings[j];
    if kvs == [] {
      assert |s[p0..p1]| == 0;
      TagClosed(t, j, i, p0);
    } else {
      var m := p0 + |PairText(kvs[0])|;
      AttrsCons(s, p0, p1, kvs, map[]);
      assert s[p0] == ' ' by {
        assert s[p0..m][0] == s[p0];
      }
      TagThenAttrs(t, j, i, p0);
      AttrSpace(t, j, p0, map[]);
      AttrsScan(t, j, p0, p1, kvs, map[]);
      AttrsClosed(t, j, p1, AttrsMap(map[], kvs));
    }
  }

  // ---------------------------------------------------------------------------------
  // Whole templates

  predicate NoLessThan(text: string) {
    forall k :: 0 <= k < |text| ==> text[k] != '<'
  }

  /** The literal `<a ATTRS>T</b>`. */
  function ElementSource(a: string, kvs: seq<(string, string)>, text: string, b: string): string {
    "<" + a + AttrsText(kvs) + ">" + text + "</" + b + ">"
  }

  lemma LayoutTag(a: string, kvs: seq<(string, string)>, text: string, b: string)
    requires ValidTagName(a)
    ensures var s := ElementSource(a, kvs, text, b);
      && |s| == 1 + |a| + |AttrsText(kvs)| + 1 + |text| + 2 + |b| + 1 && s[0] == '<'
      && s[1..1 + |a|] == a && (forall m :: 1 <= m < 1 + |a| ==> IsTagNameChar([s[m]]))
  {
    var s := ElementSource(a, kvs, text, b);
    assert forall m :: 1 <= m < 1 + |a| ==> s[m] == a[m - 1];
    assert s[1..1 + |a|] == a by {
      assert forall m :: 0 <= m < |a| ==> s[1..1 + |a|][m] == s[1 + m] == a[m];
    }
  }

  lemma LayoutAttrs(a: string, kvs: seq<(string, string)>, text: string, b: string)
    ensures var s := ElementSource(a, kvs, text, b);
      var p0 := 1 + |a|;
      s[p0..p0 + |AttrsText(kvs)|] == AttrsText(kvs) && s[p0 + |AttrsText(kvs)|] == '>'
  {
    var s := ElementSource(a, kvs, text, b);
    var w := AttrsText(kvs);
    var p0 := 1 + |a|;
    assert forall m :: p0 <= m < p0 + |w| ==> s[m] == w[m - p0];
    assert s[p0..p0 + |w|] == w by {
      assert forall m :: 0 <= m < |w| ==> s[p0..p0 + |w|][m] == s[p0 + m] == w[m];
    }
  }

  lemma LayoutText(a: string, kvs: seq<(string, string)>, text: string, b: string)
    requires NoLessThan(text)
    ensures var s := ElementSource(a, kvs, text, b);
      var p1 := 1 + |a| + |AttrsText(kvs)|;
      var p2 := p1 + 1 + |text|;
      && s[p1 + 1..p2] == text && (forall m :: p1 < m < p2 ==> s[m] != '<')
  {
    var s := ElementSource(a, kvs, text, b);
    var p1 := 1 + |a| + |AttrsText(kvs)|;
    var p2 := p1 + 1 + |text|;
    assert forall m :: p1 < m < p2 ==> s[m] == text[m - p1 - 1];
    assert s[p1 + 1..p2] == text by {
      assert forall m :: 0 <= m < |text| ==> s[p1 + 1..p2][m] == s[p1 + 1 + m] == text[m];
    }
  }

  lemma LayoutEnd(a: string, kvs: seq<(string, string)>, text: string, b: string)
    requires ValidTagName(b)
    ensures var s := ElementSource(a, kvs, text, b);
      var p2 := 1 + |a| + |AttrsText(kvs)| + 1 + |text|;
      var p3 := p2 + 2 + |b|;
      && s[p2] == '<' && s[p2 + 1] == '/' && s[p2 + 2..p3] == b && s[p3] == '>'
      && (forall m :: p2 + 1 < m < p3 ==> IsTagNameChar([s[m]]))
  {
    var s := ElementSource(a, kvs, text, b);
    var p2 := 1 + |a| + |AttrsText(kvs)| + 1 + |text|;
    var p3 := p2 + 2 + |b|;
    assert forall m :: p2 + 1 < m < p3 ==> s[m] == b[m - p2 - 2];
    assert s[p2 + 2..p3] == b by {
      assert forall m :: 0 <= m < |b| ==> s[p2 + 2..p3][m] == s[p2 + 2 + m] == b[m];
    }
  }

  lemma LayoutBody(a: string, kvs: seq<(string, string)>, text: string, b: string, p1: nat, p2: nat, p3: nat)
    requires NoLessThan(text) && ValidTagName(b)
    requires p1 == 1 + |a| + |AttrsText(kvs)| && p2 == p1 + 1 + |text| && p3 == p2 + 2 + |b|
    ensures BodyAt(ElementSource(a, kvs, text, b), p1, p2, p3, text, b)
  {
    LayoutText(a, kvs, text, b);
    LayoutEnd(a, kvs, text, b);
  }

  /** `consumeTag` after the `<` of `<a ATTRS>T</b>` reads the opening tag. */
  lemma ElementTag(a: string, kvs: seq<(string, string)>, text: string, b: string, values: seq<Arg>, p1: nat)
    requires ValidTagName(a) && AllPlain(kvs) && p1 == 1 + |a| + |AttrsText(kvs)|
    ensures CursorOk([ElementSource(a, kvs, text, b)], Cursor(0, 1))
    ensures ConsumeTag(Template([ElementSource(a, kvs, text, b)], values), Cursor(0, 1))
            == Success((TagHead(a, AttrsMap(map[], kvs), false, false), Cursor(0, p1 + 1)))
  {
    var s := ElementSource(a, kvs, text, b);
    var t := Template([s], values);
    var p0 := 1 + |a|;
    LayoutTag(a, kvs, text, b);
    LayoutAttrs(a, kvs, text, b);
    assert t.strings[0] == s;
    TagAttrs(t, 0, 1, p0, p1, kvs);
  }

  /** `processConsumption` after the `<` of `<a ATTRS>T</b>` reads the whole element. */
  lemma ElementProcess(a: string, kvs: seq<(string, string)>, text: string, b: string, values: seq<Arg>)
    requires ValidTagName(a) && ValidTagName(b) && NoLessThan(text)
    requires AllPlain(kvs)
    ensures CursorOk([ElementSource(a, kvs, text, b)], Cursor(0, 1))
    ensures ProcessConsumption(Template([ElementSource(a, kvs, text, b)], values), Cursor(0, 1))
            == if a == b then Success((Element(a, AttrsMap(map[], kvs), Flush(text, []), []), Cursor(1, 0)))
               else Failure(TagMismatch(a, b))
  {
    var s := ElementSource(a, kvs, text, b);
    var t := Template([s], values);
    var p1 := 1 + |a| + |AttrsText(kvs)|;
    var p2 := p1 + 1 + |text|;
    var p3 := p2 + 2 + |b|;
    ElementTag(a, kvs, text, b, values, p1);
    LayoutBody(a, kvs, text, b, p1, p2, p3);
    assert t.strings[0] == s;
    TextElement(t, 0, 1, p1, p2, p3, a, AttrsMap(map[], kvs), text, b);
    assert At(t.strings, 0, p3 + 1) == Cursor(1, 0);
  }

  /** `html` on one literal `<a ATTRS>T</b>`: whatever the values, the element `a` with its
      attributes and its trimmed text, or a tag mismatch naming both tags. */
  lemma HtmlElement(a: string, kvs: seq<(string, string)>, text: string, b: string, values: seq<Arg>)
    requires ValidTagName(a) && ValidTagName(b) && NoLessThan(text)
    requires AllPlain(kvs)
    ensures Html([ElementSource(a, kvs, text, b)], values)
            == if a == b then Success([Element(a, AttrsMap(map[], kvs), Flush(text, []), [])])
               else Failure(TagMismatch(a, b))
  {
    var t := Template([ElementSource(a, kvs, text, b)], values);
    LayoutTag(a, kvs, text, b);
    ElementProcess(a, kvs, text, b, values);
    NextIn(t.strings, 0, 0);
    ConsumeOne(t, Cursor(0, 0), Cursor(0, 1));
  }
}
