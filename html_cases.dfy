/** The templates of the library's HTML tests and further families of templates, each
    with the outcome the model gives: self-closing tags, `/` in a tag name, what may
    stand between top-level elements, interpolated attribute values and children, and
    nested elements. A template without interpolations parses the same whatever values
    come with it. */
module HtmlCases {
  import opened Wrappers
  import opened JsText
  import opened HtmlGrammar
  import opened HtmlProperties
  import opened HtmlExamples

  /** `<h1>h1</h1>`: one `h1` element whose only child is the text `h1`. */
  lemma PlainH1(values: seq<Arg>)
    ensures Html(["<h1>h1</h1>"], values) == Success([Element("h1", map[], [TextChild("h1")], [])])
  {
    assert ElementSource("h1", [], "h1", "h1") == "<h1>h1</h1>";
    assert ValidTagName("h1") && NoLessThan("h1") && AllPlain([]);
    HtmlElement("h1", [], "h1", "h1", values);
    assert AttrsMap(map[], []) == map[];
    assert TrimStart("h1") == "h1";
    assert Flush("h1", []) == [TextChild("h1")];
  }

  /** `<h1 id="123"></h1>`: the attribute is stored and there are no children. */
  lemma WithId(values: seq<Arg>)
    ensures Html(["<h1 id=\"123\"></h1>"], values) == Success([Element("h1", map["id" := "123"], [], [])])
  {
    var kvs := [("id", "123")];
    assert AttrsText(kvs) == " id=\"123\"";
    assert ElementSource("h1", kvs, "", "h1") == "<h1 id=\"123\"></h1>";
    assert JsonString.Plain("123");
    HtmlElement("h1", kvs, "", "h1", values);
  }

  /** The attributes of the third and fourth tests. */
  const TestAttrs: seq<(string, string)> := [("onclick", "alert(123)"), ("data1", "123")]

  /** They are written ` onclick="alert(123)" data1="123"`. */
  lemma TestAttrsText()
    ensures AttrsText(TestAttrs) == " onclick=\"alert(123)\"" + " data1=\"123\""
  {
    assert PairText(TestAttrs[0]) == " onclick=\"alert(123)\"";
    assert PairText(TestAttrs[1]) == " data1=\"123\"";
    assert TestAttrs[1..][1..] == [];
  }

  lemma TestAttrsPlain()
    ensures AllPlain(TestAttrs)
  {
    assert JsonString.Plain("alert(123)") && JsonString.Plain("123");
    assert TestAttrs[1..][1..] == [];
  }

  /** `<h1 onclick="alert(123)" data1="123">T</h1>` for the texts `""` and `"` of the third
      and fourth tests: both attributes, and the text as it stands. */
  lemma QuotesText(values: seq<Arg>)
    ensures Html([ElementSource("h1", TestAttrs, "\"\"", "h1")], values)
            == Success([Element("h1", map["onclick" := "alert(123)", "data1" := "123"], [TextChild("\"\"")], [])])
    ensures Html([ElementSource("h1", TestAttrs, "\"", "h1")], values)
            == Success([Element("h1", map["onclick" := "alert(123)", "data1" := "123"], [TextChild("\"")], [])])
  {
    TestAttrsPlain();
    assert AttrsMap(map[], TestAttrs) == map["onclick" := "alert(123)", "data1" := "123"];
    QuotedText("\"\"", values);
    QuotedText("\"", values);
  }

  /** The element of those tests with a text of quotes. */
  lemma QuotedText(text: string, values: seq<Arg>)
    requires text != "" && forall m :: 0 <= m < |text| ==> text[m] == '"'
    ensures Html([ElementSource("h1", TestAttrs, text, "h1")], values)
            == Success([Element("h1", AttrsMap(map[], TestAttrs), [TextChild(text)], [])])
  {
    TestAttrsPlain();
    assert ValidTagName("h1") && NoLessThan(text);
    HtmlElement("h1", TestAttrs, text, "h1", values);
    assert TrimStart(text) == text;
    assert Flush(text, []) == [TextChild(text)];
  }

  // ---------------------------------------------------------------------------------
  // Layout of the templates below

  /** `s` holds `x` from position `i` on. */
  lemma SliceAt(s: string, i: nat, x: string)
    requires i + |x| <= |s| && forall m :: 0 <= m < |x| ==> s[i + m] == x[m]
    ensures s[i..i + |x|] == x
  {
    forall m | 0 <= m < |x| ensures s[i..i + |x|][m] == x[m] {
      assert s[i..i + |x|][m] == s[i + m];
    }
  }

  /** `<a` followed by `rest`. */
  lemma OpenLayout(a: string, rest: string)
    requires ValidTagName(a)
    ensures var s := "<" + a + rest;
      && |s| == 1 + |a| + |rest| && s[0] == '<'
      && (forall m :: 1 <= m < 1 + |a| ==> IsTagNameChar([s[m]]))
      && (forall m :: 0 <= m < |rest| ==> s[1 + |a| + m] == rest[m])
  {
    var s := "<" + a + rest;
    assert forall m :: 1 <= m < 1 + |a| ==> s[m] == a[m - 1];
  }

  /** The name of `<a` followed by `rest`. */
  lemma OpenName(a: string, rest: string)
    ensures ("<" + a + rest)[1..1 + |a|] == a
  {
    var s := "<" + a + rest;
    assert s[1..1 + |a|] == a;
  }

  /** The characters of a slice that is a valid tag name are tag-name characters. */
  lemma SliceChars(s: string, i: nat, j: nat, a: string)
    requires i <= j <= |s| && s[i..j] == a && ValidTagName(a)
    ensures forall m :: i <= m < j ==> IsTagNameChar([s[m]])
  {
    forall m | i <= m < j ensures IsTagNameChar([s[m]]) {
      assert s[m] == s[i..j][m - i] == a[m - i];
    }
  }

  /** The characters of a slice that is an attribute name are attribute-name characters. */
  lemma SliceAttrChars(s: string, i: nat, j: nat, k: string)
    requires i <= j <= |s| && s[i..j] == k && forall m :: 0 <= m < |k| ==> AttrNameChar(k[m])
    ensures forall m :: i <= m < j ==> AttrNameChar(s[m])
  {
    forall m | i <= m < j ensures AttrNameChar(s[m]) {
      assert s[m] == s[i..j][m - i] == k[m - i];
    }
  }

  /** A template whose first element, read after the `<` that opens it, ends the input is
      that one element; an error reading it is the template's error. */
  lemma HtmlOne(t: Template)
    requires |t.strings| >= 1 && |t.strings[0]| >= 2 && t.strings[0][0] == '<'
    ensures CursorOk(t.strings, Cursor(0, 1))
    ensures var r := ProcessConsumption(t, Cursor(0, 1));
      r.Success? && r.value.1 == Cursor(|t.strings|, 0) ==> Html(t.strings, t.values) == Success([r.value.0])
    ensures var r := ProcessConsumption(t, Cursor(0, 1));
      r.Failure? ==> Html(t.strings, t.values) == Failure(r.error)
  {
    NextIn(t.strings, 0, 0);
    var r := ProcessConsumption(t, Cursor(0, 1));
    if r.Failure? || r.value.1 == Cursor(|t.strings|, 0) {
      ConsumeOne(t, Cursor(0, 0), Cursor(0, 1));
    }
  }

  // ---------------------------------------------------------------------------------
  // Attribute values

  /** `<a` followed by `rest`, with `p0` the position after the name. */
  lemma Opening(a: string, rest: string, s: string, p0: nat)
    requires s == "<" + a + rest && p0 == 1 + |a|
    ensures |s| == p0 + |rest| && s[0] == '<' && s[1..p0] == a && Holds(s, rest, p0)
  {
    assert s[1..p0] == a;
  }

  /** The layout of ` k='r`. */
  lemma SingleQuotedRest(k: string, r: string, rest: string)
    requires rest == " " + k + "='" + r
    ensures |rest| > 2 + |k| && rest[0] == ' ' && rest[1..1 + |k|] == k
    ensures rest[1 + |k|] == '=' && rest[2 + |k|] == '\''
  {
    assert rest[1..1 + |k|] == k;
  }

  /** The layout of `<a k='r`. */
  lemma SingleQuotedLayout(a: string, k: string, r: string, s: string, p0: nat, q: nat)
    requires s == "<" + a + (" " + k + "='" + r) && p0 == 1 + |a| && q == p0 + 1 + |k|
    ensures && q + 1 < |s| && s[0] == '<' && s[p0] == ' ' && s[q] == '=' && s[q + 1] == '\''
      && s[1..p0] == a && s[p0 + 1..q] == k
  {
    var rest := " " + k + "='" + r;
    Opening(a, rest, s, p0);
    SingleQuotedRest(k, r, rest);
    SliceShift(s, rest, p0, 1, 1 + |k|);
    assert s[p0] == rest[0] && s[q] == rest[1 + |k|] && s[q + 1] == rest[2 + |k|];
  }

  /** `processConsumption` after the `<` of `<a k='`. */
  lemma SingleQuotedProcess(t: Template, a: string, k: string, p0: nat, q: nat)
    requires |t.strings| == 1 && ValidTagName(a)
    requires k != [] && forall m :: 0 <= m < |k| ==> AttrNameChar(k[m])
    requires p0 == 1 + |a| && q == p0 + 1 + |k|
    requires var s := t.strings[0];
      && q + 1 < |s| && s[p0] == ' ' && s[q] == '=' && s[q + 1] == '\''
      && s[1..p0] == a && s[p0 + 1..q] == k
    ensures CursorOk(t.strings, Cursor(0, 1))
    ensures ProcessConsumption(t, Cursor(0, 1)) == Failure(ExpectedQuote)
  {
    SliceChars(t.strings[0], 1, p0, a);
    SingleQuotedAttrs(t, k, p0 + 1, q);
    TagThenAttrs(t, 0, 1, p0);
  }

  /** The attribute loop on `k='`, from `i` on, with `q` the position of `=`. */
  lemma SingleQuotedAttrs(t: Template, k: string, i: nat, q: nat)
    requires |t.strings| == 1 && k != [] && forall m :: 0 <= m < |k| ==> AttrNameChar(k[m])
    requires q == i + |k|
    requires var s := t.strings[0]; q + 1 < |s| && s[q] == '=' && s[q + 1] == '\'' && s[i..q] == k
    ensures CursorOk(t.strings, Cursor(0, i))
    ensures AttributesLoop(t, Cursor(0, i), map[], "") == Failure(ExpectedQuote)
  {
    var s := t.strings[0];
    SliceAttrChars(s, i, q, k);
    AttrNameScan(t, 0, i, q, map[], "");
    assert "" + s[i..q] == k;
    SingleQuotedValue(t, k, q);
  }

  /** The attribute loop at `='` with the name `k` read. */
  lemma SingleQuotedValue(t: Template, k: string, q: nat)
    requires |t.strings| == 1 && k != []
    requires var s := t.strings[0]; q + 1 < |s| && s[q] == '=' && s[q + 1] == '\''
    ensures CursorOk(t.strings, Cursor(0, q))
    ensures AttributesLoop(t, Cursor(0, q), map[], k) == Failure(ExpectedQuote)
  {
    var s := t.strings[0];
    WhitespaceAt(t, 0, q);
    assert [s[q]] == "=";
    WhitespaceAt(t, 0, q + 1);
    assert ConsumeStringQuote(t, Cursor(0, q + 1)) == Failure(ExpectedQuote);
  }

  /** A value in single quotes, `<a k='…`, is rejected with `expectedQuote`: the parser
      knows double quotes only. */
  lemma SingleQuotedFamily(a: string, k: string, r: string, values: seq<Arg>)
    requires ValidTagName(a) && k != [] && forall m :: 0 <= m < |k| ==> AttrNameChar(k[m])
    ensures Html(["<" + a + " " + k + "='" + r], values) == Failure(ExpectedQuote)
  {
    var s := "<" + a + " " + k + "='" + r;
    var t := Template([s], values);
    var p0 := 1 + |a|;
    var q := p0 + 1 + |k|;
    assert s == "<" + a + (" " + k + "='" + r);
    SingleQuotedLayout(a, k, r, s, p0, q);
    assert t.strings[0] == s;
    SingleQuotedProcess(t, a, k, p0, q);
    HtmlOne(t);
  }

  /** The fifth test, `<h1 id='123' data1="123"></h1>`, is rejected with `expectedQuote`. */
  lemma SingleQuoted(values: seq<Arg>)
    ensures Html(["<" + "h1" + " " + "id" + "='" + "123' data1=\"123\"></h1>"], values) == Failure(ExpectedQuote)
  {
    assert ValidTagName("h1");
    SingleQuotedFamily("h1", "id", "123' data1=\"123\"></h1>", values);
  }

  // ---------------------------------------------------------------------------------
  // Control characters in quoted values

  /** The loop of `consumeStringQuote` over a value without quotes or backslashes whose
      first control character is at `i`: `JSON.parse` rejects the value. */
  lemma QuoteControl(t: Template, j: nat, q: nat, i: nat, e: nat)
    requires j < |t.strings| && q < i < e < |t.strings[j]| && t.strings[j][e] == '"'
    requires forall m :: q < m < e ==> t.strings[j][m] != '"' && t.strings[j][m] != '\\'
    requires t.strings[j][i] < ' ' && forall m :: q < m < i ==> t.strings[j][m] >= ' '
    ensures CursorOk(t.strings, Cursor(j, q + 1))
    ensures QuoteLoop(t, Cursor(j, q + 1), "\"") == Failure(InvalidJson)
  {
    var s := t.strings[j];
    var v := s[q + 1..e];
    assert JsonString.Decode(v) == None && v != [] && v[|v| - 1] != '\\' by {
      ControlBody(s, q, i, e);
    }
    QuoteUndecodable(t, j, q + 1, e, v);
  }

  /** The loop of `consumeStringQuote` over a value `v` without quotes that `JSON.parse`
      rejects and whose last character is not a backslash. */
  lemma QuoteUndecodable(t: Template, j: nat, i: nat, e: nat, v: string)
    requires j < |t.strings| && i <= e < |t.strings[j]| && t.strings[j][e] == '"'
    requires forall m :: i <= m < e ==> t.strings[j][m] != '"'
    requires v == t.strings[j][i..e] && v != [] && v[|v| - 1] != '\\'
    requires JsonString.Decode(v) == None
    ensures CursorOk(t.strings, Cursor(j, i))
    ensures QuoteLoop(t, Cursor(j, i), "\"") == Failure(InvalidJson)
  {
    QuoteScan(t, j, i, e, "\"");
    RejectedLiteral(v);
    QuoteRejected(t, j, e, "\"" + v);
  }

  /** The text `"v` of a non-empty value `v` that does not end with a backslash, closed. */
  lemma RejectedLiteral(v: string)
    requires v != [] && v[|v| - 1] != '\\' && JsonString.Decode(v) == None
    ensures !EndsWith("\"" + v, "\\") && JsonString.ParseLiteral("\"" + v + "\"") == None
  {
    var text := "\"" + v;
    assert text[|text| - 1..] == [v[|v| - 1]];
    var literal := text + "\"";
    assert literal[1..|literal| - 1] == v;
  }

  /** The loop of `consumeStringQuote` at a closing quote whose value `JSON.parse` rejects. */
  lemma QuoteRejected(t: Template, j: nat, e: nat, text: string)
    requires j < |t.strings| && e < |t.strings[j]| && t.strings[j][e] == '"'
    requires !EndsWith(text, "\\") && JsonString.ParseLiteral(text + "\"") == None
    ensures CursorOk(t.strings, Cursor(j, e))
    ensures QuoteLoop(t, Cursor(j, e), text) == Failure(InvalidJson)
  {
    NextAt(t.strings, j, e);
    assert At(t.strings, j, e) == Cursor(j, e);
    assert [t.strings[j][e]] == "\"";
  }

  /** The body of such a value does not decode. */
  lemma ControlBody(s: string, q: nat, i: nat, e: nat)
    requires q < i < e <= |s|
    requires forall m :: q < m < e ==> s[m] != '"' && s[m] != '\\'
    requires s[i] < ' ' && forall m :: q < m < i ==> s[m] >= ' '
    ensures JsonString.Decode(s[q + 1..e]) == None
    ensures s[q + 1..e] != [] && s[q + 1..e][e - q - 2] != '\\'
    ensures forall m :: q + 1 <= m < e ==> s[m] != '"'
  {
    var v := s[q + 1..e];
    assert forall m :: 0 <= m < |v| ==> v[m] == s[q + 1 + m];
    JsonString.ControlCharRejected(v, i - q - 1);
  }

  /** The attribute loop at `="…"` with the name `k` read, the value as above. */
  lemma ControlValue(t: Template, k: string, q: nat, i: nat, e: nat)
    requires |t.strings| >= 1 && k != ""
    requires var s := t.strings[0]; q + 1 < i < e < |s| && s[q] == '=' && s[q + 1] == '"' && s[e] == '"'
    requires forall m :: q + 1 < m < e ==> t.strings[0][m] != '"' && t.strings[0][m] != '\\'
    requires t.strings[0][i] < ' ' && forall m :: q + 1 < m < i ==> t.strings[0][m] >= ' '
    ensures CursorOk(t.strings, Cursor(0, q))
    ensures AttributesLoop(t, Cursor(0, q), map[], k) == Failure(InvalidJson)
  {
    var s := t.strings[0];
    WhitespaceAt(t, 0, q);
    assert [s[q]] == "=";
    WhitespaceAt(t, 0, q + 1);
    assert [s[q + 1]] == "\"";
    QuoteOpenParts(t, Cursor(0, q + 1), Cursor(0, q + 2));
    QuoteControl(t, 0, q + 1, i, e);
  }

  /** The attribute loop over `k="…"`, from `i0` on, with `q` the position of `=`. */
  lemma ControlAttrs(t: Template, k: string, i0: nat, q: nat, i: nat, e: nat)
    requires |t.strings| == 1 && k != [] && forall m :: 0 <= m < |k| ==> AttrNameChar(k[m])
    requires q == i0 + |k|
    requires var s := t.strings[0];
      q + 1 < i < e < |s| && s[q] == '=' && s[q + 1] == '"' && s[e] == '"' && s[i0..q] == k
    requires forall m :: q + 1 < m < e ==> t.strings[0][m] != '"' && t.strings[0][m] != '\\'
    requires t.strings[0][i] < ' ' && forall m :: q + 1 < m < i ==> t.strings[0][m] >= ' '
    ensures CursorOk(t.strings, Cursor(0, i0))
    ensures AttributesLoop(t, Cursor(0, i0), map[], "") == Failure(InvalidJson)
  {
    var s := t.strings[0];
    SliceAttrChars(s, i0, q, k);
    AttrNameScan(t, 0, i0, q, map[], "");
    assert "" + s[i0..q] == k;
    ControlValue(t, k, q, i, e);
  }

  /** `processConsumption` after the `<` of `<a k="…"` with such a value. */
  lemma ControlProcess(t: Template, a: string, k: string, p0: nat, q: nat, i: nat, e: nat)
    requires |t.strings| == 1 && ValidTagName(a)
    requires k != [] && forall m :: 0 <= m < |k| ==> AttrNameChar(k[m])
    requires p0 == 1 + |a| && q == p0 + 1 + |k| && q + 1 < i < e
    requires var s := t.strings[0];
      && e < |s| && s[p0] == ' ' && s[q] == '=' && s[q + 1] == '"' && s[e] == '"'
      && s[1..p0] == a && s[p0 + 1..q] == k
    requires forall m :: q + 1 < m < e ==> t.strings[0][m] != '"' && t.strings[0][m] != '\\'
    requires t.strings[0][i] < ' ' && forall m :: q + 1 < m < i ==> t.strings[0][m] >= ' '
    ensures CursorOk(t.strings, Cursor(0, 1))
    ensures ProcessConsumption(t, Cursor(0, 1)) == Failure(InvalidJson)
  {
    SliceChars(t.strings[0], 1, p0, a);
    ControlAttrs(t, k, p0 + 1, q, i, e);
    TagThenAttrs(t, 0, 1, p0);
  }

  /** The layout of `<a k="v"r`. */
  lemma ControlLayout(a: string, k: string, v: string, r: string, s: string, p0: nat, q: nat)
    requires s == "<" + a + (" " + k + "=\"" + v + "\"" + r) && p0 == 1 + |a| && q == p0 + 1 + |k|
    ensures q + 2 + |v| < |s| && s[0] == '<' && s[p0] == ' ' && s[q] == '=' && s[q + 1] == '"'
    ensures s[q + 2 + |v|] == '"' && s[1..p0] == a && s[p0 + 1..q] == k
    ensures forall m :: q + 2 <= m < q + 2 + |v| ==> s[m] == v[m - q - 2]
  {
    var rest := " " + k + "=\"" + v + "\"" + r;
    Opening(a, rest, s, p0);
    QuotedValueRest(k, v, r, rest);
    SliceShift(s, rest, p0, 1, 1 + |k|);
    assert s[p0] == rest[0] && s[q] == rest[1 + |k|] && s[q + 1] == rest[2 + |k|];
    assert s[q + 2 + |v|] == rest[3 + |k| + |v|];
    forall m | q + 2 <= m < q + 2 + |v| ensures s[m] == v[m - q - 2] {
      assert s[m] == rest[3 + |k| + (m - q - 2)];
    }
  }

  /** The layout of ` k="v"r`. */
  lemma QuotedValueRest(k: string, v: string, r: string, rest: string)
    requires rest == " " + k + "=\"" + v + "\"" + r
    ensures |rest| == 4 + |k| + |v| + |r| && rest[0] == ' ' && rest[1..1 + |k|] == k
    ensures rest[1 + |k|] == '=' && rest[2 + |k|] == '"' && rest[3 + |k| + |v|] == '"'
    ensures forall m :: 0 <= m < |v| ==> rest[3 + |k| + m] == v[m]
  {
    assert rest[1..1 + |k|] == k;
  }

  /** A raw control character in a double-quoted value, such as a tab or the line break of
      a value spread over two lines, makes `JSON.parse` fail: `<a k="…` is rejected with
      `invalidJson` for every value without quotes or backslashes that holds one (`i` is
      the first). */
  lemma ControlCharFamily(a: string, k: string, v: string, r: string, i: nat, values: seq<Arg>)
    requires ValidTagName(a) && k != [] && forall m :: 0 <= m < |k| ==> AttrNameChar(k[m])
    requires forall m :: 0 <= m < |v| ==> v[m] != '"' && v[m] != '\\'
    requires i < |v| && v[i] < ' ' && forall m :: 0 <= m < i ==> v[m] >= ' '
    ensures Html(["<" + a + " " + k + "=\"" + v + "\"" + r], values) == Failure(InvalidJson)
  {
    var s := "<" + a + " " + k + "=\"" + v + "\"" + r;
    var t := Template([s], values);
    var p0 := 1 + |a|;
    var q := p0 + 1 + |k|;
    assert s == "<" + a + (" " + k + "=\"" + v + "\"" + r);
    ControlLayout(a, k, v, r, s, p0, q);
    assert t.strings[0] == s;
    ControlProcess(t, a, k, p0, q, q + 2 + i, q + 2 + |v|);
    HtmlOne(t);
  }

  /** For instance a tab: `<a k="x<TAB>y"></a>`. */
  lemma TabInValue(values: seq<Arg>)
    ensures Html(["<a k=\"x\ty\"></a>"], values) == Failure(InvalidJson)
  {
    TabParts();
    ControlCharFamily("a", "k", "x\ty", "></a>", 1, values);
  }

  /** The pieces of `<a k="x<TAB>y"></a>` meet the family's requirements. */
  lemma TabParts()
    ensures ValidTagName("a") && "k" != [] && forall m :: 0 <= m < |"k"| ==> AttrNameChar("k"[m])
    ensures var v := "x\ty"; forall m :: 0 <= m < |v| ==> v[m] != '"' && v[m] != '\\'
    ensures var v := "x\ty"; 1 < |v| && v[1] < ' ' && forall m :: 0 <= m < 1 ==> v[m] >= ' '
    ensures "<" + "a" + " " + "k" + "=\"" + "x\ty" + "\"" + "></a>" == "<a k=\"x\ty\"></a>"
  {
    var v := "x\ty";
    assert |v| == 3 && v[0] == 'x' && v[1] == '\t' && v[2] == 'y';
    assert AttrNameChar("k"[0]);
  }

  // ---------------------------------------------------------------------------------
  // Quoted values

  /** The loop of `consumeStringQuote` at `\` and the `"` after it: a quote after a
      backslash does not end the value. */
  lemma EscapedQuoteStep(t: Template, j: nat, i: nat, text: string)
    requires j < |t.strings| && i + 2 < |t.strings[j]| && t.strings[j][i] == '\\' && t.strings[j][i + 1] == '"'
    ensures CursorOk(t.strings, Cursor(j, i))
    ensures QuoteLoop(t, Cursor(j, i), text) == QuoteLoop(t, Cursor(j, i + 2), text + "\\\"")
  {
    var t1 := text + "\\";
    assert QuoteLoop(t, Cursor(j, i), text) == QuoteLoop(t, Cursor(j, i + 1), t1) by {
      QuoteHeadStep(t, j, i, text);
      assert [t.strings[j][i]] == "\\";
    }
    assert QuoteLoop(t, Cursor(j, i + 1), t1) == QuoteLoop(t, Cursor(j, i + 2), text + "\\\"") by {
      EndsBackslash(text);
      QuoteAfterBackslash(t, j, i + 1, t1);
    }
  }

  lemma EndsBackslash(text: string)
    ensures EndsWith(text + "\\", "\\")
    ensures text + "\\" + "\"" == text + "\\\""
  {
    var w := text + "\\";
    assert w[|w| - 1..] == "\\";
  }

  /** A quote read while the text ends with a backslash joins the text. */
  lemma QuoteAfterBackslash(t: Template, j: nat, i: nat, text: string)
    requires j < |t.strings| && i + 1 < |t.strings[j]| && t.strings[j][i] == '"' && EndsWith(text, "\\")
    ensures CursorOk(t.strings, Cursor(j, i))
    ensures QuoteLoop(t, Cursor(j, i), text) == QuoteLoop(t, Cursor(j, i + 1), text + "\"")
  {
    NextIn(t.strings, j, i);
    assert [t.strings[j][i]] == "\"";
  }

  /** The loop of `consumeStringQuote` over `x\"y` in `"x\"y"`, up to the closing quote,
      after any text `p`. */
  lemma QuoteEscapedScan(t: Template, j: nat, q: nat, e1: nat, e2: nat, x: string, y: string, p: string)
    requires j < |t.strings| && q < e1 && e1 + 1 < e2 < |t.strings[j]|
    requires var s := t.strings[j]; s[e1] == '\\' && s[e1 + 1] == '"' && x == s[q + 1..e1] && y == s[e1 + 2..e2]
    requires forall m :: q < m < e1 ==> t.strings[j][m] != '"'
    requires forall m :: e1 + 1 < m < e2 ==> t.strings[j][m] != '"'
    ensures CursorOk(t.strings, Cursor(j, q + 1)) && CursorOk(t.strings, Cursor(j, e2))
    ensures QuoteLoop(t, Cursor(j, q + 1), p) == QuoteLoop(t, Cursor(j, e2), p + x + "\\\"" + y)
  {
    QuoteEscapedHead(t, j, q + 1, e1, p);
    QuoteScan(t, j, e1 + 2, e2, p + x + "\\\"");
  }

  /** The same loop, after any text `p`, from `i` to just after `\"`. */
  lemma QuoteEscapedHead(t: Template, j: nat, i: nat, e1: nat, p: string)
    requires j < |t.strings| && i <= e1 && e1 + 2 < |t.strings[j]|
    requires t.strings[j][e1] == '\\' && t.strings[j][e1 + 1] == '"'
    requires forall m :: i <= m < e1 ==> t.strings[j][m] != '"'
    ensures CursorOk(t.strings, Cursor(j, i))
    ensures QuoteLoop(t, Cursor(j, i), p) == QuoteLoop(t, Cursor(j, e1 + 2), p + t.strings[j][i..e1] + "\\\"")
  {
    QuoteScan(t, j, i, e1, p);
    EscapedQuoteStep(t, j, e1, p + t.strings[j][i..e1]);
  }

  /** The closing quote of `"x\"y"`. */
  lemma QuoteEscapedClose(t: Template, j: nat, e2: nat, x: string, y: string)
    requires j < |t.strings| && e2 < |t.strings[j]| && t.strings[j][e2] == '"'
    requires JsonString.Plain(x) && JsonString.Plain(y)
    ensures CursorOk(t.strings, Cursor(j, e2))
    ensures QuoteLoop(t, Cursor(j, e2), "\"" + x + "\\\"" + y) == Success((x + "\"" + y, At(t.strings, j, e2 + 1)))
  {
    EscapedLiteral(x, y);
    NextAt(t.strings, j, e2);
    assert At(t.strings, j, e2) == Cursor(j, e2) && [t.strings[j][e2]] == "\"";
    QuoteCloseParts(t, Cursor(j, e2), "\"" + x + "\\\"" + y, At(t.strings, j, e2 + 1), x + "\"" + y, e2 == |t.strings[j]| - 1);
  }

  /** A quoted value of plain characters with one escaped quote, `"x\"y"`, inside a
      fragment: the quote is kept in the value. */
  lemma QuoteEscaped(t: Template, j: nat, q: nat, e1: nat, e2: nat)
    requires j < |t.strings| && q < e1 && e1 + 1 < e2 < |t.strings[j]|
    requires var s := t.strings[j]; s[q] == '"' && s[e1] == '\\' && s[e1 + 1] == '"' && s[e2] == '"'
    requires forall m :: q < m < e1 ==> JsonString.IsUnescaped(t.strings[j][m])
    requires forall m :: e1 + 1 < m < e2 ==> JsonString.IsUnescaped(t.strings[j][m])
    ensures CursorOk(t.strings, Cursor(j, q))
    ensures var s := t.strings[j];
      ConsumeStringQuote(t, Cursor(j, q)) == Success((s[q + 1..e1] + "\"" + s[e1 + 2..e2], At(t.strings, j, e2 + 1)))
  {
    var s := t.strings[j];
    var x, y := s[q + 1..e1], s[e1 + 2..e2];
    WhitespaceAt(t, j, q);
    assert [s[q]] == "\"";
    QuoteOpenParts(t, Cursor(j, q), Cursor(j, q + 1));
    QuoteEscapedScan(t, j, q, e1, e2, x, y, "\"");
    PlainSlice(s, q, e1);
    PlainSlice(s, e1 + 1, e2);
    QuoteEscapedClose(t, j, e2, x, y);
  }

  /** The text of `"x\"y` does not end with a backslash and decodes to `x"y`. */
  lemma EscapedLiteral(x: string, y: string)
    requires JsonString.Plain(x) && JsonString.Plain(y)
    ensures !EndsWith("\"" + x + "\\\"" + y, "\\")
    ensures JsonString.ParseLiteral("\"" + x + "\\\"" + y + "\"") == Some(x + "\"" + y)
  {
    var text := "\"" + x + "\\\"" + y;
    assert text[|text| - 1] == if y == [] then '"' else y[|y| - 1];
    JsonString.EscapedQuoteIn(x, y);
    var literal := text + "\"";
    assert literal[1..|literal| - 1] == x + "\\\"" + y;
  }

  /** The attribute loop at `="x\"y"` with the name `k` read. */
  lemma EscapedPair(t: Template, q: nat, e1: nat, e2: nat, k: string, v: string)
    requires |t.strings| >= 1 && q + 1 < e1 && e1 + 1 < e2 && e2 + 1 < |t.strings[0]| && k != ""
    requires var s := t.strings[0];
      && s[q] == '=' && s[q + 1] == '"' && s[e1] == '\\' && s[e1 + 1] == '"' && s[e2] == '"'
      && v == s[q + 2..e1] + "\"" + s[e1 + 2..e2]
    requires forall m :: q + 1 < m < e1 ==> JsonString.IsUnescaped(t.strings[0][m])
    requires forall m :: e1 + 1 < m < e2 ==> JsonString.IsUnescaped(t.strings[0][m])
    ensures CursorOk(t.strings, Cursor(0, q)) && CursorOk(t.strings, Cursor(0, e2 + 1))
    ensures AttributesLoop(t, Cursor(0, q), map[], k) == AttributesLoop(t, Cursor(0, e2 + 1), map[k := v], "")
  {
    var s := t.strings[0];
    WhitespaceAt(t, 0, q);
    assert [s[q]] == "=" && At(t.strings, 0, q) == Cursor(0, q) && At(t.strings, 0, q + 1) == Cursor(0, q + 1);
    QuoteEscaped(t, 0, q + 1, e1, e2);
    assert At(t.strings, 0, e2 + 1) == Cursor(0, e2 + 1);
    AttrPairParts(t, Cursor(0, q), map[], k, Cursor(0, q + 1), v, Cursor(0, e2 + 1));
  }

  /** The attribute loop reads the name `k` from `i` up to `q`. */
  lemma NameScan(t: Template, i: nat, q: nat, k: string)
    requires |t.strings| >= 1 && i < q < |t.strings[0]| && k == t.strings[0][i..q]
    requires forall m :: i <= m < q ==> AttrNameChar(t.strings[0][m])
    ensures CursorOk(t.strings, Cursor(0, i)) && CursorOk(t.strings, Cursor(0, q)) && k != ""
    ensures AttributesLoop(t, Cursor(0, i), map[], "") == AttributesLoop(t, Cursor(0, q), map[], k)
  {
    AttrNameScan(t, 0, i, q, map[], "");
    NonEmptyName(t.strings[0], i, q);
  }

  /** The attribute loop over `k="x\"y"`, from `i` on, with `q` the position of `=`. */
  lemma EscapedAttrs(t: Template, i: nat, q: nat, e1: nat, e2: nat, k: string, v: string)
    requires |t.strings| >= 1 && i < q && q + 1 < e1 && e1 + 1 < e2 && e2 + 1 < |t.strings[0]|
    requires forall m :: i <= m < q ==> AttrNameChar(t.strings[0][m])
    requires var s := t.strings[0];
      && s[q] == '=' && s[q + 1] == '"' && s[e1] == '\\' && s[e1 + 1] == '"' && s[e2] == '"'
      && k == s[i..q] && v == s[q + 2..e1] + "\"" + s[e1 + 2..e2]
    requires forall m :: q + 1 < m < e1 ==> JsonString.IsUnescaped(t.strings[0][m])
    requires forall m :: e1 + 1 < m < e2 ==> JsonString.IsUnescaped(t.strings[0][m])
    ensures CursorOk(t.strings, Cursor(0, i)) && CursorOk(t.strings, Cursor(0, e2 + 1))
    ensures AttributesLoop(t, Cursor(0, i), map[], "") == AttributesLoop(t, Cursor(0, e2 + 1), map[k := v], "")
  {
    NameScan(t, i, q, k);
    EscapedPair(t, q, e1, e2, k, v);
  }

  /** The layout of `<a k="x\"y"></a>`. */
  ghost predicate EscapedAt(s: string) {
    && |s| == 16 && s[1..2] == "a" && IsTagNameChar([s[1]]) && IsSpaceChar(s[2])
    && s[3..4] == "k" && AttrNameChar(s[3]) && s[4] == '=' && s[5] == '"'
    && s[6..7] == "x" && JsonString.IsUnescaped(s[6]) && s[7] == '\\' && s[8] == '"'
    && s[9..10] == "y" && JsonString.IsUnescaped(s[9]) && s[10] == '"' && s[11] == '>'
    && s[12] == '<' && s[13] == '/' && s[14..15] == "a" && IsTagNameChar([s[14]]) && s[15] == '>'
  }

  lemma EscapedLayout()
    ensures EscapedAt("<a k=\"x\\\"y\"></a>")
  {
    var s := "<a k=\"x\\\"y\"></a>";
    assert s[1..2] == [s[1]] && s[3..4] == [s[3]] && s[6..7] == [s[6]] && s[9..10] == [s[9]] && s[14..15] == [s[14]];
  }

  /** `consumeTag` after the `<` of `<a k="x\"y">`. */
  lemma EscapedTag(t: Template)
    requires |t.strings| == 1 && EscapedAt(t.strings[0])
    ensures CursorOk(t.strings, Cursor(0, 1))
    ensures ConsumeTag(t, Cursor(0, 1)) == Success((TagHead("a", map["k" := "x\"y"], false, false), Cursor(0, 12)))
  {
    TagThenAttrs(t, 0, 1, 2);
    EscapedAttrsAt(t);
  }

  /** The attribute loop of `<a k="x\"y">`. */
  lemma EscapedAttrsAt(t: Template)
    requires |t.strings| == 1 && EscapedAt(t.strings[0])
    ensures CursorOk(t.strings, Cursor(0, 3))
    ensures AttributesLoop(t, Cursor(0, 3), map[], "") == Success((AttrTail(map["k" := "x\"y"], false, false), Cursor(0, 12)))
  {
    EscapedAttrs(t, 3, 4, 7, 10, "k", "x\"y");
    AttrsClosed(t, 0, 11, map["k" := "x\"y"]);
    assert At(t.strings, 0, 12) == Cursor(0, 12);
  }

  /** `<a k="x\"y"></a>` stores `x"y` under `k`. */
  lemma EscapedQuoteValue(values: seq<Arg>)
    ensures Html(["<a k=\"x\\\"y\"></a>"], values) == Success([Element("a", map["k" := "x\"y"], [], [])])
  {
    var t := Template(["<a k=\"x\\\"y\"></a>"], values);
    EscapedLayout();
    EscapedElement(t);
    HtmlOne(t);
  }

  /** `processConsumption` after the `<` of `<a k="x\"y"></a>`. */
  lemma EscapedElement(t: Template)
    requires |t.strings| == 1 && EscapedAt(t.strings[0])
    ensures CursorOk(t.strings, Cursor(0, 1))
    ensures ProcessConsumption(t, Cursor(0, 1)) == Success((Element("a", map["k" := "x\"y"], [], []), Cursor(1, 0)))
  {
    var s := t.strings[0];
    EscapedTag(t);
    ChildrenText(t, 0, 12, 12);
    assert Flush(s[12..12], []) == [];
    EndTagClosed(t, 0, 13, 15);
    assert At(t.strings, 0, 16) == Cursor(1, 0);
    ProcessParts(t, Cursor(0, 1), "a", map["k" := "x\"y"], Cursor(0, 12), [], Cursor(0, 13), "a", Cursor(1, 0));
  }

  // ---------------------------------------------------------------------------------
  // An interpolation inside a quoted value

  /** The layout of `<a k="x` and `y"></a>`, the fragments around the interpolation. */
  ghost predicate InQuoteAt(s0: string, s1: string) {
    && |s0| == 7 && s0[1..2] == "a" && IsTagNameChar([s0[1]]) && IsSpaceChar(s0[2])
    && s0[3..4] == "k" && AttrNameChar(s0[3]) && s0[4] == '=' && s0[5] == '"' && s0[6] == 'x'
    && |s1| == 7 && s1[0] == 'y' && s1[1] == '"' && s1[2] == '>' && s1[3] == '<' && s1[4] == '/'
    && s1[5..6] == "a" && IsTagNameChar([s1[5]]) && s1[6] == '>'
  }

  lemma InQuoteLayout()
    ensures InQuoteAt("<a k=\"x", "y\"></a>")
  {
    var s0, s1 := "<a k=\"x", "y\"></a>";
    assert s0[1..2] == [s0[1]] && s0[3..4] == [s0[3]] && s1[5..6] == [s1[5]];
  }

  /** The value `JSON.parse` is given for `"x${v}y"`, with `ins` the text of `v`. */
  function InQuoteLiteral(ins: string): string {
    "\"x" + ins + "y\""
  }

  /** The end of the quoted value, in the second fragment: `y` and the closing quote. */
  lemma InQuoteEnd(t: Template, ins: string)
    requires |t.strings| == 2 && InQuoteAt(t.strings[0], t.strings[1])
    ensures CursorOk(t.strings, Cursor(1, 0))
    ensures var p := JsonString.ParseLiteral(InQuoteLiteral(ins));
      QuoteLoop(t, Cursor(1, 0), "\"x" + ins) == if p.Some? then Success((p.value, Cursor(1, 2))) else Failure(InvalidJson)
  {
    QuoteHeadStep(t, 1, 0, "\"x" + ins);
    NextIn(t.strings, 1, 1);
    var text := "\"x" + ins + "y";
    assert "\"x" + ins + [t.strings[1][0]] == text && text[|text| - 1] == 'y';
    assert [t.strings[1][1]] == "\"" && text + "\"" == InQuoteLiteral(ins);
  }

  /** `consumeStringQuote` over `"x${v}y"`: the text of the interpolation is spliced into
      the value before `JSON.parse` reads it; a null interpolation throws first. */
  lemma InQuoteValue(t: Template)
    requires |t.strings| == 2 && InQuoteAt(t.strings[0], t.strings[1])
    ensures CursorOk(t.strings, Cursor(0, 5))
    ensures var ins := InsertionText(t, Cursor(1, 0));
      ins.Failure? ==> ConsumeStringQuote(t, Cursor(0, 5)) == Failure(NullInsertion)
    ensures var ins := InsertionText(t, Cursor(1, 0));
      ins.Success? ==>
        var p := JsonString.ParseLiteral(InQuoteLiteral(ins.value));
        ConsumeStringQuote(t, Cursor(0, 5)) == if p.Some? then Success((p.value, Cursor(1, 2))) else Failure(InvalidJson)
  {
    var s0 := t.strings[0];
    WhitespaceAt(t, 0, 5);
    assert [s0[5]] == "\"" && At(t.strings, 0, 5) == Cursor(0, 5) && At(t.strings, 0, 6) == Cursor(0, 6);
    QuoteOpenParts(t, Cursor(0, 5), Cursor(0, 6));
    NextAt(t.strings, 0, 6);
    assert At(t.strings, 0, 6) == Cursor(0, 6) && At(t.strings, 0, 7) == Cursor(1, 0);
    assert [s0[6]] == "x" && "\"" + "x" == "\"x";
    var ins := InsertionText(t, Cursor(1, 0));
    if ins.Success? {
      InQuoteEnd(t, ins.value);
    }
  }

  /** The attribute loop of `<a k="x${v}y">`. */
  lemma InQuoteAttrs(t: Template)
    requires |t.strings| == 2 && InQuoteAt(t.strings[0], t.strings[1])
    ensures CursorOk(t.strings, Cursor(0, 3))
    ensures var ins := InsertionText(t, Cursor(1, 0));
      ins.Failure? ==> AttributesLoop(t, Cursor(0, 3), map[], "") == Failure(NullInsertion)
    ensures var ins := InsertionText(t, Cursor(1, 0));
      ins.Success? ==>
        var p := JsonString.ParseLiteral(InQuoteLiteral(ins.value));
        AttributesLoop(t, Cursor(0, 3), map[], "")
        == if p.Some? then Success((AttrTail(map["k" := p.value], false, false), Cursor(1, 3))) else Failure(InvalidJson)
  {
    var s0 := t.strings[0];
    AttrHeadStep(t, 0, 3, map[], "");
    assert "" + [s0[3]] == "k";
    WhitespaceAt(t, 0, 4);
    assert [s0[4]] == "=" && At(t.strings, 0, 4) == Cursor(0, 4) && At(t.strings, 0, 5) == Cursor(0, 5);
    InQuoteValue(t);
    var ins := InsertionText(t, Cursor(1, 0));
    if ins.Success? {
      var p := JsonString.ParseLiteral(InQuoteLiteral(ins.value));
      if p.Some? {
        AttrsClosed(t, 1, 2, map["k" := p.value]);
        assert At(t.strings, 1, 3) == Cursor(1, 3);
      }
    }
  }

  /** `processConsumption` after the `<` of `<a k="x${v}y"></a>`. */
  lemma InQuoteProcess(t: Template)
    requires |t.strings| == 2 && InQuoteAt(t.strings[0], t.strings[1])
    ensures CursorOk(t.strings, Cursor(0, 1))
    ensures var ins := InsertionText(t, Cursor(1, 0));
      ins.Failure? ==> ProcessConsumption(t, Cursor(0, 1)) == Failure(NullInsertion)
    ensures var ins := InsertionText(t, Cursor(1, 0));
      ins.Success? ==>
        var p := JsonString.ParseLiteral(InQuoteLiteral(ins.value));
        ProcessConsumption(t, Cursor(0, 1))
        == if p.Some? then Success((Element("a", map["k" := p.value], [], []), Cursor(2, 0))) else Failure(InvalidJson)
  {
    TagThenAttrs(t, 0, 1, 2);
    InQuoteAttrs(t);
    var ins := InsertionText(t, Cursor(1, 0));
    if ins.Success? {
      var p := JsonString.ParseLiteral(InQuoteLiteral(ins.value));
      if p.Some? {
        InQuoteRest(t, map["k" := p.value]);
      }
    }
  }

  /** `processConsumption` once the tag `<a k="x${v}y">` has been read. */
  lemma InQuoteRest(t: Template, attrs: map<string, string>)
    requires |t.strings| == 2 && InQuoteAt(t.strings[0], t.strings[1])
    requires CursorOk(t.strings, Cursor(0, 1))
    requires ConsumeTag(t, Cursor(0, 1)) == Success((TagHead("a", attrs, false, false), Cursor(1, 3)))
    ensures ProcessConsumption(t, Cursor(0, 1)) == Success((Element("a", attrs, [], []), Cursor(2, 0)))
  {
    var s1 := t.strings[1];
    ChildrenText(t, 1, 3, 3);
    assert Flush(s1[3..3], []) == [];
    EndTagClosed(t, 1, 4, 6);
    assert At(t.strings, 1, 7) == Cursor(2, 0);
    ProcessParts(t, Cursor(0, 1), "a", attrs, Cursor(1, 3), [], Cursor(1, 4), "a", Cursor(2, 0));
  }

  /** An interpolation inside a quoted value, `<a k="x${v}y"></a>`: the text of `v` is
      spliced between `x` and `y` and the whole is read by `JSON.parse`; a missing or
      falsy `v` throws on the null insertion. */
  lemma InsertedInQuote(values: seq<Arg>)
    ensures var ins := InsertionText(Template(["<a k=\"x", "y\"></a>"], values), Cursor(1, 0));
      ins.Failure? ==> Html(["<a k=\"x", "y\"></a>"], values) == Failure(NullInsertion)
    ensures var ins := InsertionText(Template(["<a k=\"x", "y\"></a>"], values), Cursor(1, 0));
      ins.Success? ==>
        var p := JsonString.ParseLiteral(InQuoteLiteral(ins.value));
        Html(["<a k=\"x", "y\"></a>"], values)
        == if p.Some? then Success([Element("a", map["k" := p.value], [], [])]) else Failure(InvalidJson)
  {
    var t := Template(["<a k=\"x", "y\"></a>"], values);
    InQuoteLayout();
    InQuoteProcess(t);
    HtmlOne(t);
  }

  /** In particular a non-empty plain string `v` is stored between `x` and `y`. */
  lemma InsertedPlainInQuote(v: string)
    requires v != "" && JsonString.Plain(v)
    ensures Html(["<a k=\"x", "y\"></a>"], [Str(v)]) == Success([Element("a", map["k" := "x" + v + "y"], [], [])])
  {
    var t := Template(["<a k=\"x", "y\"></a>"], [Str(v)]);
    InsertedInQuote([Str(v)]);
    assert InsertionText(t, Cursor(1, 0)) == Success(v);
    PlainAround(v);
  }

  /** `"x` and `y"` around a plain string `v` decode to `xvy`. */
  lemma PlainAround(v: string)
    requires JsonString.Plain(v)
    ensures JsonString.ParseLiteral(InQuoteLiteral(v)) == Some("x" + v + "y")
  {
    var w := "x" + v + "y";
    assert JsonString.Plain(w) by {
      forall m | 0 <= m < |w| ensures JsonString.IsUnescaped(w[m]) {
        if 0 < m < |w| - 1 {
          assert w[m] == v[m - 1];
        }
      }
    }
    JsonString.DecodePlain(w);
    var literal := InQuoteLiteral(v);
    assert literal[1..|literal| - 1] == w;
  }

  // ---------------------------------------------------------------------------------
  // Tag ends

  /** `consumeAttributes` at `/>`: no further attribute, self-closing. */
  lemma SelfCloseAttrs(t: Template, j: nat, i: nat, attrs: map<string, string>)
    requires j < |t.strings| && i + 1 < |t.strings[j]|
    requires t.strings[j][i] == '/' && t.strings[j][i + 1] == '>'
    ensures CursorOk(t.strings, Cursor(j, i))
    ensures AttributesLoop(t, Cursor(j, i), attrs, "")
            == Success((AttrTail(attrs, true, false), At(t.strings, j, i + 2)))
  {
    WhitespaceAt(t, j, i);
    WhitespaceAt(t, j, i + 1);
    assert [t.strings[j][i]] == "/" && [t.strings[j][i + 1]] == ">";
    assert At(t.strings, j, i) == Cursor(j, i) && At(t.strings, j, i + 1) == Cursor(j, i + 1);
  }

  /** `processConsumption` after the `<` of `<a />`. */
  lemma SelfClosingProcess(t: Template, a: string)
    requires ValidTagName(a) && |t.strings| == 1
    requires var s := t.strings[0];
      var p0 := 1 + |a|;
      && |s| == p0 + 3 && s[p0] == ' ' && s[p0 + 1] == '/' && s[p0 + 2] == '>' && s[1..p0] == a
    ensures CursorOk(t.strings, Cursor(0, 1))
    ensures ProcessConsumption(t, Cursor(0, 1)) == Success((Element(a, map[], [], []), Cursor(1, 0)))
  {
    var p0 := 1 + |a|;
    SliceChars(t.strings[0], 1, p0, a);
    SelfCloseAttrs(t, 0, p0 + 1, map[]);
    TagThenAttrs(t, 0, 1, p0);
    assert ConsumeTag(t, Cursor(0, 1)) == Success((TagHead(a, map[], true, false), Cursor(1, 0)));
  }

  /** A tag closed by ` />` is a self-closing element without children. */
  lemma SelfClosing(a: string, values: seq<Arg>)
    requires ValidTagName(a)
    ensures Html(["<" + a + " />"], values) == Success([Element(a, map[], [], [])])
  {
    var s := "<" + a + " />";
    var t := Template([s], values);
    var p0 := 1 + |a|;
    OpenLayout(a, " />");
    OpenName(a, " />");
    assert s[p0] == ' ' && s[p0 + 1] == '/' && s[p0 + 2] == '>' && |s| == p0 + 3;
    assert t.strings[0] == s;
    SelfClosingProcess(t, a);
    HtmlOne(t);
  }

  // ---------------------------------------------------------------------------------
  // Errors in a start tag

  /** `processConsumption` after the `<` of `<a` followed by a character that cannot be
      in a tag name, inside its fragment. */
  lemma InvalidTagProcess(t: Template, a: string, p0: nat)
    requires |t.strings| >= 1 && ValidTagName(a) && p0 == 1 + |a|
    requires var s := t.strings[0]; p0 + 1 < |s| && s[1..p0] == a
    requires var x := t.strings[0][p0]; !IsTagNameChar([x]) && !IsSpaceChar(x) && x != '>'
    ensures CursorOk(t.strings, Cursor(0, 1))
    ensures ProcessConsumption(t, Cursor(0, 1)) == Failure(InvalidCharacterInTagName([t.strings[0][p0]]))
  {
    var s := t.strings[0];
    SliceChars(s, 1, p0, a);
    TagNameScan(t, 0, 1, p0, "");
    NextIn(t.strings, 0, p0);
    assert [s[p0]] != ">" && !IsSpace([s[p0]]);
    assert ConsumeTagLoop(t, Cursor(0, p0), "" + s[1..p0]) == Failure(InvalidCharacterInTagName([s[p0]]));
  }

  /** A character outside `[a-zA-Z0-9-]`, white space and `>` after the tag name, `<a/`
      for one, is rejected with `invalidCharacterInTagName` naming it, whatever follows. */
  lemma InvalidTagChar(a: string, x: char, r: string, more: seq<string>, values: seq<Arg>)
    requires ValidTagName(a) && r != [] && !IsTagNameChar([x]) && !IsSpaceChar(x) && x != '>'
    ensures Html(["<" + a + [x] + r] + more, values) == Failure(InvalidCharacterInTagName([x]))
  {
    var s := "<" + a + [x] + r;
    var t := Template([s] + more, values);
    var p0 := 1 + |a|;
    assert s == "<" + a + ([x] + r);
    Opening(a, [x] + r, s, p0);
    assert s[p0] == ([x] + r)[0] == x;
    assert t.strings[0] == s;
    InvalidTagProcess(t, a, p0);
    HtmlOne(t);
  }

  /** The fixed instance `<a/>`. */
  lemma SlashInA(values: seq<Arg>)
    ensures Html(["<" + "a" + "/" + ">"], values) == Failure(InvalidCharacterInTagName("/"))
  {
    assert ValidTagName("a") && !IsTagNameChar("/");
    InvalidTagChar("a", '/', ">", [], values);
    assert ["<" + "a" + ['/'] + ">"] + [] == ["<" + "a" + "/" + ">"];
  }

  /** `processConsumption` after the `<` of `<a` whose last character ends the fragment. */
  lemma NameEndProcess(t: Template, a: string, p0: nat)
    requires |t.strings| >= 1 && ValidTagName(a) && a != [] && p0 == 1 + |a|
    requires var s := t.strings[0]; |s| == p0 && s[1..p0] == a
    ensures CursorOk(t.strings, Cursor(0, 1))
    ensures ProcessConsumption(t, Cursor(0, 1)) == Failure(NoInsertInTagNames)
  {
    var s := t.strings[0];
    var e := p0 - 1;
    SliceChars(s, 1, p0, a);
    TagNameScan(t, 0, 1, e, "");
    NextAt(t.strings, 0, e);
    assert IsTagNameChar([s[e]]) && !IsSpace([s[e]]) && [s[e]] != ">";
    assert At(t.strings, 0, e) == Cursor(0, e);
  }

  /** A first fragment `<a` that ends inside the tag name puts the interpolation after it
      in the name, whatever the fragments after it hold; with `a` empty the interpolation
      follows the top-level `<`. */
  lemma InsertedTagName(a: string, more: seq<string>, values: seq<Arg>)
    requires ValidTagName(a)
    ensures Html(["<" + a] + more, values) == Failure(NoInsertInTagNames)
  {
    var s := "<" + a;
    var t := Template([s] + more, values);
    assert t.strings[0] == s;
    if a == [] {
      NextAt(t.strings, 0, 0);
    } else {
      var p0 := 1 + |a|;
      Opening(a, "", s, p0);
      NameEndProcess(t, a, p0);
      HtmlOne(t);
    }
  }

  /** `processConsumption` after the `<` of `<a =`. */
  lemma EmptyNameProcess(t: Template, a: string, p0: nat)
    requires |t.strings| >= 1 && ValidTagName(a) && p0 == 1 + |a|
    requires var s := t.strings[0]; p0 + 1 < |s| && s[1..p0] == a && IsSpaceChar(s[p0]) && s[p0 + 1] == '='
    ensures CursorOk(t.strings, Cursor(0, 1))
    ensures ProcessConsumption(t, Cursor(0, 1)) == Failure(ExpectedAttrName)
  {
    var s := t.strings[0];
    SliceChars(s, 1, p0, a);
    TagThenAttrs(t, 0, 1, p0);
    WhitespaceAt(t, 0, p0 + 1);
    assert [s[p0 + 1]] == "=" && At(t.strings, 0, p0 + 1) == Cursor(0, p0 + 1);
  }

  /** An `=` with no attribute name before it is rejected with `expectedAttrName`. */
  lemma EmptyAttrName(a: string, r: string, more: seq<string>, values: seq<Arg>)
    requires ValidTagName(a)
    ensures Html(["<" + a + " =" + r] + more, values) == Failure(ExpectedAttrName)
  {
    var s := "<" + a + " =" + r;
    var t := Template([s] + more, values);
    var p0 := 1 + |a|;
    assert s == "<" + a + (" =" + r);
    Opening(a, " =" + r, s, p0);
    assert s[p0] == (" =" + r)[0] && s[p0 + 1] == (" =" + r)[1];
    assert t.strings[0] == s;
    EmptyNameProcess(t, a, p0);
    HtmlOne(t);
  }

  /** `processConsumption` after the `<` of `<a k` where `k` ends the fragment. */
  lemma NameInsertProcess(t: Template, a: string, k: string, p0: nat)
    requires |t.strings| >= 1 && ValidTagName(a) && p0 == 1 + |a|
    requires k != [] && forall m :: 0 <= m < |k| ==> AttrNameChar(k[m])
    requires var s := t.strings[0]; |s| == p0 + 1 + |k| && s[1..p0] == a && IsSpaceChar(s[p0]) && s[p0 + 1..] == k
    ensures CursorOk(t.strings, Cursor(0, 1))
    ensures ProcessConsumption(t, Cursor(0, 1)) == Failure(NoInsertInAttrNames)
  {
    var s := t.strings[0];
    var e := |s| - 1;
    SliceChars(s, 1, p0, a);
    SliceAttrChars(s, p0 + 1, |s|, k);
    TagThenAttrs(t, 0, 1, p0);
    AttrNameScan(t, 0, p0 + 1, e, map[], "");
    WhitespaceAt(t, 0, e);
    assert AttrNameChar(s[e]);
    assert [s[e]] != ">" && [s[e]] != "/" && [s[e]] != "=";
    assert At(t.strings, 0, e) == Cursor(0, e);
  }

  /** A fragment that ends inside an attribute name puts the interpolation after it in the
      name: `noInsertInAttrNames`, whatever the fragments after it hold. */
  lemma InsertedAttrName(a: string, k: string, more: seq<string>, values: seq<Arg>)
    requires ValidTagName(a) && k != [] && forall m :: 0 <= m < |k| ==> AttrNameChar(k[m])
    ensures Html(["<" + a + " " + k] + more, values) == Failure(NoInsertInAttrNames)
  {
    var s := "<" + a + " " + k;
    var t := Template([s] + more, values);
    var p0 := 1 + |a|;
    assert s == "<" + a + (" " + k);
    Opening(a, " " + k, s, p0);
    assert s[p0] == (" " + k)[0];
    SliceShift(s, " " + k, p0, 1, 1 + |k|);
    assert (" " + k)[1..1 + |k|] == k && s[p0 + 1..] == s[p0 + 1..p0 + 1 + |k|];
    assert t.strings[0] == s;
    NameInsertProcess(t, a, k, p0);
    HtmlOne(t);
  }

  /** `processConsumption` after the `<` of `<a /x`. */
  lemma SlashProcess(t: Template, a: string, p0: nat)
    requires |t.strings| >= 1 && ValidTagName(a) && p0 == 1 + |a|
    requires var s := t.strings[0];
      && p0 + 2 < |s| && s[1..p0] == a && IsSpaceChar(s[p0]) && s[p0 + 1] == '/'
      && !IsSpaceChar(s[p0 + 2]) && s[p0 + 2] != '>'
    ensures CursorOk(t.strings, Cursor(0, 1))
    ensures ProcessConsumption(t, Cursor(0, 1)) == Failure(ExpectedTagClosing)
  {
    var s := t.strings[0];
    SliceChars(s, 1, p0, a);
    TagThenAttrs(t, 0, 1, p0);
    WhitespaceAt(t, 0, p0 + 1);
    WhitespaceAt(t, 0, p0 + 2);
    assert [s[p0 + 1]] == "/" && [s[p0 + 2]] != ">";
    assert At(t.strings, 0, p0 + 1) == Cursor(0, p0 + 1) && At(t.strings, 0, p0 + 2) == Cursor(0, p0 + 2);
  }

  /** A `/` among the attributes must be followed by `>`: anything else but white space is
      rejected with `expectedTagClosing`. */
  lemma SlashNotClosing(a: string, x: char, r: string, more: seq<string>, values: seq<Arg>)
    requires ValidTagName(a) && !IsSpaceChar(x) && x != '>'
    ensures Html(["<" + a + " /" + [x] + r] + more, values) == Failure(ExpectedTagClosing)
  {
    var s := "<" + a + " /" + [x] + r;
    var t := Template([s] + more, values);
    var p0 := 1 + |a|;
    var rest := " /" + [x] + r;
    assert s == "<" + a + rest;
    Opening(a, rest, s, p0);
    assert s[p0] == rest[0] && s[p0 + 1] == rest[1] && s[p0 + 2] == rest[2] == x;
    assert t.strings[0] == s;
    SlashProcess(t, a, p0);
    HtmlOne(t);
  }

  // ---------------------------------------------------------------------------------
  // What may stand between top-level elements

  /** A template whose first fragment starts with white space and then a character that
      is neither `<` nor white space is rejected with `expectedTagOpening`. */
  lemma NotAnOpening(strings: seq<string>, values: seq<Arg>, p: nat)
    requires |strings| >= 1 && p < |strings[0]| && forall m :: 0 <= m < p ==> IsSpaceChar(strings[0][m])
    requires strings[0][p] != '<' && !IsSpaceChar(strings[0][p])
    ensures Html(strings, values) == Failure(ExpectedTagOpening)
  {
    var t := Template(strings, values);
    forall m | 0 <= m <= p ensures Rest(strings, Cursor(0, 0))[m].chr == [strings[0][m]] {
      RestAt(strings, 0, 0, m);
    }
    assert [strings[0][p]] != "<" && !IsSpace([strings[0][p]]);
    ConsumeRejects(t, Cursor(0, 0), [], p);
  }

  /** So is a template whose first fragment is empty: the empty step is not white space. */
  lemma EmptyFirst(strings: seq<string>, values: seq<Arg>)
    requires |strings| >= 1 && strings[0] == ""
    ensures Html(strings, values) == Failure(ExpectedTagOpening)
  {
    assert CursorOk(strings, Cursor(0, 0));
  }

  /** `processConsumption` after the `<` of `<a />`, with anything after it. */
  lemma SelfClosedAt(t: Template, a: string, p0: nat)
    requires |t.strings| >= 1 && ValidTagName(a) && p0 == 1 + |a|
    requires var s := t.strings[0];
      && p0 + 3 <= |s| && s[p0] == ' ' && s[p0 + 1] == '/' && s[p0 + 2] == '>' && s[1..p0] == a
    ensures CursorOk(t.strings, Cursor(0, 1))
    ensures ProcessConsumption(t, Cursor(0, 1)) == Success((Element(a, map[], [], []), At(t.strings, 0, p0 + 3)))
  {
    SliceChars(t.strings[0], 1, p0, a);
    SelfCloseAttrs(t, 0, p0 + 1, map[]);
    TagThenAttrs(t, 0, 1, p0);
  }

  /** `consume` at the top level of `t`, from `e` on: white space up to `e + k`, and there
      a character that is neither `<` nor white space. */
  lemma RejectedFrom(t: Template, items: seq<Element>, e: nat, k: nat)
    requires |t.strings| >= 1 && e + k < |t.strings[0]|
    requires forall m :: e <= m < e + k ==> IsSpaceChar(t.strings[0][m])
    requires t.strings[0][e + k] != '<' && !IsSpaceChar(t.strings[0][e + k])
    ensures CursorOk(t.strings, Cursor(0, e))
    ensures Consume(t, Cursor(0, e), items) == Failure(ExpectedTagOpening)
  {
    var s := t.strings[0];
    forall m | 0 <= m <= k ensures Rest(t.strings, Cursor(0, e))[m].chr == [s[e + m]] {
      RestAt(t.strings, 0, e, m);
    }
    assert [s[e + k]] != "<" && !IsSpace([s[e + k]]);
    ConsumeRejects(t, Cursor(0, e), items, k);
  }

  /** The layout of `<a />` followed by white space `w` and `x`. */
  lemma AfterLayout(a: string, w: string, x: char, r: string, s: string, p0: nat)
    requires s == "<" + a + " />" + w + [x] + r && p0 == 1 + |a|
    ensures p0 + 3 + |w| < |s| && s[1..p0] == a
    ensures s[p0] == ' ' && s[p0 + 1] == '/' && s[p0 + 2] == '>'
    ensures (forall m :: p0 + 3 <= m < p0 + 3 + |w| ==> s[m] == w[m - p0 - 3]) && s[p0 + 3 + |w|] == x
  {
    var rest := " />" + w + [x] + r;
    assert s == "<" + a + rest;
    Opening(a, rest, s, p0);
    assert s[p0] == rest[0] && s[p0 + 1] == rest[1] && s[p0 + 2] == rest[2];
    assert forall m :: 0 <= m < |w| ==> rest[3 + m] == w[m];
    assert rest[3 + |w|] == x;
  }

  /** After a complete element, a character that is neither `<` nor white space is
      rejected with `expectedTagOpening`, whatever white space stands in between. */
  lemma AfterElement(a: string, w: string, x: char, r: string, more: seq<string>, values: seq<Arg>)
    requires ValidTagName(a) && (forall m :: 0 <= m < |w| ==> IsSpaceChar(w[m]))
    requires x != '<' && !IsSpaceChar(x)
    ensures Html(["<" + a + " />" + w + [x] + r] + more, values) == Failure(ExpectedTagOpening)
  {
    var s := "<" + a + " />" + w + [x] + r;
    var t := Template([s] + more, values);
    var p0 := 1 + |a|;
    AfterLayout(a, w, x, r, s, p0);
    assert t.strings[0] == s;
    SelfClosedAt(t, a, p0);
    var e := p0 + 3;
    assert At(t.strings, 0, e) == Cursor(0, e);
    RejectedFrom(t, [] + [Element(a, map[], [], [])], e, |w|);
    NextIn(t.strings, 0, 0);
  }

  /** Any number of fragments of white space alone, and only those, give an empty list of
      elements. */
  lemma OnlySpace(strings: seq<string>, values: seq<Arg>)
    ensures Html(strings, values) == Success([]) <==> forall j :: 0 <= j < |strings| ==> Blank(strings[j])
  {
    var t := Template(strings, values);
    var c := Cursor(0, 0);
    assert CursorOk(strings, c);
    assert Rest(strings, c) == StepsAfter(strings, 0);
    BlankSteps(strings, 0);
    ConsumeNoElements(t, c);
    if SpaceSteps(Rest(strings, c)) {
      ConsumeSpaces(t, c, []);
    }
  }

  // ---------------------------------------------------------------------------------
  // Interpolations

  /** The layout of `<a k=`, the fragment before an interpolated attribute value. */
  lemma AttrInsertLayout(a: string, k: string, p0: nat, q: nat)
    requires ValidTagName(a) && p0 == 1 + |a| && q == p0 + 1 + |k|
    ensures var s := "<" + a + " " + k + "=";
      && |s| == q + 1 && s[0] == '<' && s[p0] == ' ' && s[q] == '='
      && (forall m :: 1 <= m < p0 ==> IsTagNameChar([s[m]]))
      && s[p0 + 1..q] == k && s[1..p0] == a
  {
    var rest := " " + k + "=";
    OpenLayout(a, rest);
    OpenName(a, rest);
    var s := "<" + a + rest;
    assert s == "<" + a + " " + k + "=";
    assert forall m :: 0 <= m < |k| ==> rest[1 + m] == k[m];
    assert rest[0] == ' ' && rest[1 + |k|] == '=';
    SliceAt(s, p0 + 1, k);
  }

  /** The layout of `></a>`, the fragment after an interpolated attribute value. */
  lemma CloseLayout(a: string)
    requires ValidTagName(a)
    ensures var s := "></" + a + ">";
      && |s| == 4 + |a| && s[0] == '>' && s[1] == '<' && s[2] == '/' && s[3 + |a|] == '>'
      && (forall m :: 3 <= m < 3 + |a| ==> IsTagNameChar([s[m]]))
      && s[3..3 + |a|] == a
  {
    var s := "></" + a + ">";
    assert forall m :: 3 <= m < 3 + |a| ==> s[m] == a[m - 3];
    assert s[3..3 + |a|] == a;
  }

  /** The opening `<a k=` of an interpolated attribute: the tag and everything after the
      `=`, which starts the next fragment. */
  lemma AttrInsertTag(t: Template, a: string, k: string)
    requires ValidTagName(a) && k != [] && forall m :: 0 <= m < |k| ==> AttrNameChar(k[m])
    requires |t.strings| == 2 && t.strings[0] == "<" + a + " " + k + "="
    ensures CursorOk(t.strings, Cursor(0, 1)) && CursorOk(t.strings, Cursor(1, 0))
    ensures InsertionText(t, Cursor(1, 0)).Failure? ==> ConsumeTag(t, Cursor(0, 1)) == Failure(NullInsertion)
    ensures InsertionText(t, Cursor(1, 0)).Success? ==>
              ConsumeTag(t, Cursor(0, 1))
              == match AttributesLoop(t, Cursor(1, 0), map[k := InsertionText(t, Cursor(1, 0)).value], "")
                 case Success(p) => Success((TagHead(a, p.0.attributes, p.0.selfClosing, p.0.insertAfter), p.1))
                 case Failure(err) => Failure(err)
  {
    var s := t.strings[0];
    var p0 := 1 + |a|;
    var q := p0 + 1 + |k|;
    AttrInsertLayout(a, k, p0, q);
    TagThenAttrs(t, 0, 1, p0);
    AttrNameScan(t, 0, p0 + 1, q, map[], "");
    assert "" + s[p0 + 1..q] == k;
    WhitespaceAt(t, 0, q);
    assert [s[q]] == "=" && At(t.strings, 0, q) == Cursor(0, q) && At(t.strings, 0, q + 1) == Cursor(1, 0);
  }

  /** An attribute whose value is interpolated, `<a k=${v}></a>`, takes the text of the
      value; a missing or falsy value is read as null, whose `toString` throws. */
  lemma AttrInsertion(a: string, k: string, values: seq<Arg>)
    requires ValidTagName(a) && k != [] && forall m :: 0 <= m < |k| ==> AttrNameChar(k[m])
    ensures Html(["<" + a + " " + k + "=", "></" + a + ">"], values)
            == if GetInsertion(Template(["<" + a + " " + k + "=", "></" + a + ">"], values), Cursor(1, 0)).Null?
               then Failure(NullInsertion)
               else Success([Element(a, map[k := Stringify(values[0])], [], [])])
  {
    var s1 := "></" + a + ">";
    var t := Template(["<" + a + " " + k + "=", s1], values);
    AttrInsertTag(t, a, k);
    if !GetInsertion(t, Cursor(1, 0)).Null? {
      var attrs := map[k := Stringify(values[0])];
      CloseLayout(a);
      assert t.strings[1] == s1;
      AttrsClosed(t, 1, 0, attrs);
      assert At(t.strings, 1, 1) == Cursor(1, 1);
      assert ConsumeTag(t, Cursor(0, 1)) == Success((TagHead(a, attrs, false, false), Cursor(1, 1)));
      ChildrenText(t, 1, 1, 1);
      assert Flush(s1[1..1], []) == [];
      EndTagClosed(t, 1, 2, 3 + |a|);
      assert At(t.strings, 1, 4 + |a|) == Cursor(2, 0);
      ProcessParts(t, Cursor(0, 1), a, attrs, Cursor(1, 1), [], Cursor(1, 2), a, Cursor(2, 0));
    }
    NextIn(t.strings, 0, 0);
    ConsumeOne(t, Cursor(0, 0), Cursor(0, 1));
  }

  /** A second fragment `</a>` ends the children at once and closes `a`. */
  lemma EndFragment(t: Template, a: string, children: seq<Child>)
    requires ValidTagName(a) && |t.strings| == 2 && t.strings[1] == "</" + a + ">"
    ensures CursorOk(t.strings, Cursor(1, 0)) && CursorOk(t.strings, Cursor(1, 1))
    ensures ChildrenLoop(t, Cursor(1, 0), "", children) == Success((children, Cursor(1, 1)))
    ensures ConsumeEndTag(t, Cursor(1, 1)) == Success((a, Cursor(2, 0)))
  {
    var s1 := t.strings[1];
    assert forall m :: 2 <= m < 2 + |a| ==> s1[m] == a[m - 2];
    assert s1[0] == '<' && s1[1] == '/' && s1[2 + |a|] == '>' && |s1| == 3 + |a|;
    NextIn(t.strings, 1, 0);
    assert s1[2..2 + |a|] == a;
    EndTagClosed(t, 1, 1, 2 + |a|);
    assert At(t.strings, 1, 3 + |a|) == Cursor(2, 0);
  }

  /** A child interpolated right after the opening tag, `<a>${v}</a>`: a string, number or
      boolean becomes a text child, a virtual item is kept as it is, and null, undefined,
      falsy values and state leave no child. */
  lemma ChildInsertion(a: string, values: seq<Arg>)
    requires ValidTagName(a)
    ensures Html(["<" + a + ">", "</" + a + ">"], values)
            == Success([Element(a, map[], AddArgToChildren(GetInsertion(Template(["<" + a + ">", "</" + a + ">"], values), Cursor(1, 0)), []), [])])
  {
    var s0, s1 := "<" + a + ">", "</" + a + ">";
    var t := Template([s0, s1], values);
    var p0 := 1 + |a|;
    OpenLayout(a, ">");
    OpenName(a, ">");
    assert t.strings[0] == s0 && s0[p0] == '>' && |s0| == p0 + 1;
    TagClosed(t, 0, 1, p0);
    assert At(t.strings, 0, p0 + 1) == Cursor(1, 0);
    var children := AddArgToChildren(GetInsertion(t, Cursor(1, 0)), []);
    EndFragment(t, a, children);
    assert ProcessConsumption(t, Cursor(0, 1)) == Success((Element(a, map[], children, []), Cursor(2, 0)));
    NextIn(t.strings, 0, 0);
    ConsumeOne(t, Cursor(0, 0), Cursor(0, 1));
  }

  /** The child text of `<a>${v}</a>` for a string value. */
  lemma ChildString(a: string, v: string)
    requires ValidTagName(a) && v != ""
    ensures Html(["<" + a + ">", "</" + a + ">"], [Str(v)]) == Success([Element(a, map[], [TextChild(v)], [])])
  {
    ChildInsertion(a, [Str(v)]);
    assert GetInsertion(Template(["<" + a + ">", "</" + a + ">"], [Str(v)]), Cursor(1, 0)) == Str(v);
    assert [] + [TextChild(v)] == [TextChild(v)];
    assert AddArgToChildren(Str(v), []) == [TextChild(v)];
  }

  /** A state interpolated as a child leaves no child behind in the parsed element. */
  lemma ChildState(a: string, id: nat, shown: string)
    requires ValidTagName(a)
    ensures Html(["<" + a + ">", "</" + a + ">"], [StateRef(id, shown)]) == Success([Element(a, map[], [], [])])
  {
    ChildInsertion(a, [StateRef(id, shown)]);
  }

  // ---------------------------------------------------------------------------------
  // Nested elements

  /** `s` holds `mid` from position `off` on. */
  ghost predicate Holds(s: string, mid: string, off: nat) {
    off + |mid| <= |s| && forall i :: off <= i < off + |mid| ==> s[i] == mid[i - off]
  }

  lemma SliceShift(s: string, mid: string, off: nat, i: nat, j: nat)
    requires Holds(s, mid, off) && i <= j <= |mid|
    ensures s[off + i..off + j] == mid[i..j]
  {
    forall m | 0 <= m < j - i ensures s[off + i..off + j][m] == mid[i..j][m] {
      assert s[off + i..off + j][m] == s[off + i + m];
    }
  }

  /** The body of an element, shifted along with the text that holds it. */
  lemma BodyShift(s: string, mid: string, off: nat, q1: nat, q2: nat, q3: nat, x: string, b: string)
    requires Holds(s, mid, off) && BodyAt(mid, q1, q2, q3, x, b)
    ensures BodyAt(s, off + q1, off + q2, off + q3, x, b)
  {
    SliceShift(s, mid, off, q1 + 1, q2);
    SliceShift(s, mid, off, q2 + 2, q3);
  }

  /** The opening `<a>` of `<a>M</a>`. */
  lemma WrapOpen(a: string, mid: string, s: string, p0: nat)
    requires ValidTagName(a) && s == "<" + a + ">" + mid + "</" + a + ">" && p0 == 1 + |a|
    ensures p0 < |s| && s[0] == '<' && s[p0] == '>' && s[1..p0] == a && Holds(s, mid, p0 + 1)
  {
    assert s[1..p0] == a;
  }

  /** The end tag `</a>` of `<a>M</a>`, from `e` on. */
  lemma WrapClose(a: string, mid: string, s: string, e: nat)
    requires s == "<" + a + ">" + mid + "</" + a + ">" && e == 2 + |a| + |mid|
    ensures |s| == e + 3 + |a| && s[e] == '<' && s[e + 1] == '/' && s[e + 2 + |a|] == '>'
    ensures s[e + 2..e + 2 + |a|] == a
  {
    var tail := "</" + a + ">";
    assert s == ("<" + a + ">" + mid) + tail;
    assert s[e..] == tail;
    assert tail[2..2 + |a|] == a;
    assert s[e + 2..e + 2 + |a|] == tail[2..2 + |a|];
  }

  /** The length of `<b>x</b>`. */
  lemma MidLength(b: string, x: string)
    ensures |ElementSource(b, [], x, b)| == 2 * |b| + |x| + 5
  {
    assert AttrsText([]) == "";
  }

  /** The layout of `<b>x</b>`. */
  lemma MidLayout(b: string, x: string)
    requires ValidTagName(b) && NoLessThan(x)
    ensures var mid := ElementSource(b, [], x, b);
      var q1 := 1 + |b|;
      var q2 := q1 + 1 + |x|;
      var q3 := q2 + 2 + |b|;
      && mid[0] == '<' && mid[q1] == '>' && mid[1..q1] == b
      && BodyAt(mid, q1, q2, q3, x, b) && |mid| == q3 + 1
  {
    var q1 := 1 + |b|;
    assert AttrsText([]) == "";
    LayoutTag(b, [], x, b);
    LayoutAttrs(b, [], x, b);
    LayoutBody(b, [], x, b, q1, q1 + 1 + |x|, q1 + 1 + |x| + 2 + |b|);
  }

  /** The layout of `<b>x</b>` inside `s`, from position `off` on, with `q1` its first `>`,
      `q2` the `<` of its end tag and `q3` the last `>`. */
  lemma InnerLayout(s: string, b: string, x: string, off: nat, q1: nat, q2: nat, q3: nat)
    requires ValidTagName(b) && NoLessThan(x) && Holds(s, ElementSource(b, [], x, b), off)
    requires q1 == off + 1 + |b| && q2 == q1 + 1 + |x| && q3 == q2 + 2 + |b|
    ensures s[off] == '<' && s[q1] == '>' && s[off + 1..q1] == b
    ensures BodyAt(s, q1, q2, q3, x, b)
  {
    var mid := ElementSource(b, [], x, b);
    var m1 := 1 + |b|;
    var m2 := m1 + 1 + |x|;
    MidLayout(b, x);
    BodyShift(s, mid, off, m1, m2, m2 + 2 + |b|, x, b);
    SliceShift(s, mid, off, 1, m1);
    assert s[off] == mid[0] && s[off + m1] == mid[m1];
  }

  /** The inner element `<b>x</b>`, read after its `<` at `off`. */
  lemma InnerElement(t: Template, off: nat, b: string, x: string, q1: nat, q3: nat)
    requires |t.strings| == 1 && ValidTagName(b) && q1 == off + 1 + |b|
    requires BodyAt(t.strings[0], q1, q1 + 1 + |x|, q3, x, b) && q3 + 1 < |t.strings[0]|
    requires t.strings[0][q1] == '>' && t.strings[0][off + 1..q1] == b
    requires forall m :: off + 1 <= m < q1 ==> IsTagNameChar([t.strings[0][m]])
    ensures CursorOk(t.strings, Cursor(0, off + 1))
    ensures ProcessConsumption(t, Cursor(0, off + 1))
            == Success((Element(b, map[], Flush(x, []), []), Cursor(0, q3 + 1)))
  {
    TagClosed(t, 0, off + 1, q1);
    TextElement(t, 0, off + 1, q1, q1 + 1 + |x|, q3, b, map[], x, b);
  }

  /** The children loop reads the inner element `<b>x</b>` at `off` as one nested child. */
  lemma InnerStart(t: Template, off: nat, b: string, x: string, q1: nat, q3: nat)
    requires |t.strings| == 1 && ValidTagName(b) && q1 == off + 1 + |b|
    requires BodyAt(t.strings[0], q1, q1 + 1 + |x|, q3, x, b) && q3 + 2 < |t.strings[0]|
    requires t.strings[0][off] == '<' && t.strings[0][q1] == '>' && t.strings[0][off + 1..q1] == b
    requires forall m :: off + 1 <= m < q1 ==> IsTagNameChar([t.strings[0][m]])
    ensures CursorOk(t.strings, Cursor(0, off)) && CursorOk(t.strings, Cursor(0, q3 + 1))
    ensures ChildrenLoop(t, Cursor(0, off), "", [])
            == ChildrenLoop(t, Cursor(0, q3 + 1), "", Flush("", []) + [NestedChild([Element(b, map[], Flush(x, []), [])])])
  {
    var s := t.strings[0];
    InnerElement(t, off, b, x, q1, q3);
    // the `<` of the inner element, which is not followed by `/`
    NextIn(t.strings, 0, off);
    assert Seek(t, Cursor(0, off + 1)) == Success(Some(s[off + 1]));
    assert s[off + 1] != '/' by {
      if |b| > 0 { assert IsTagNameChar([s[off + 1]]); }
    }
  }

  /** The children loop at the `<` of an inner element `<b>x</b>` followed by `</`: that
      element is the only child. */
  lemma InnerChild(t: Template, off: nat, b: string, x: string, q1: nat, q3: nat)
    requires |t.strings| == 1 && ValidTagName(b) && q1 == off + 1 + |b|
    requires BodyAt(t.strings[0], q1, q1 + 1 + |x|, q3, x, b) && q3 + 2 < |t.strings[0]|
    requires t.strings[0][off] == '<' && t.strings[0][q1] == '>' && t.strings[0][off + 1..q1] == b
    requires forall m :: off + 1 <= m < q1 ==> IsTagNameChar([t.strings[0][m]])
    requires t.strings[0][q3 + 1] == '<' && t.strings[0][q3 + 2] == '/'
    ensures CursorOk(t.strings, Cursor(0, off))
    ensures ChildrenLoop(t, Cursor(0, off), "", [])
            == Success(([NestedChild([Element(b, map[], Flush(x, []), [])])], Cursor(0, q3 + 2)))
  {
    var inner := Element(b, map[], Flush(x, []), []);
    var children := Flush("", []) + [NestedChild([inner])];
    ChildrenEnd(t, 0, q3 + 1, "", children);
    InnerStart(t, off, b, x, q1, q3);
    assert Flush("", []) == [] && Flush("", children) == children;
    assert children == [NestedChild([inner])];
  }

  /** `consumeChildren` at the `</` of an end tag: the children so far, with the pending
      text flushed. */
  lemma ChildrenEnd(t: Template, j: nat, i: nat, text: string, children: seq<Child>)
    requires j < |t.strings| && i + 1 < |t.strings[j]| && t.strings[j][i] == '<' && t.strings[j][i + 1] == '/'
    ensures CursorOk(t.strings, Cursor(j, i))
    ensures ChildrenLoop(t, Cursor(j, i), text, children) == Success((Flush(text, children), Cursor(j, i + 1)))
  {
    NextIn(t.strings, j, i);
    assert [t.strings[j][i]] == "<";
    assert Seek(t, Cursor(j, i + 1)) == Success(Some('/'));
  }

  /** The outer element of `<a><b>x</b></a>` in `s`: `<a>` at the start, `</a>` at the end
      from `q3 + 1` on. */
  ghost predicate OuterAt(s: string, a: string, q3: nat) {
    var p0 := 1 + |a|;
    var e := q3 + 1;
    && ValidTagName(a) && p0 + 1 < e && |s| == e + 3 + |a|
    && s[p0] == '>' && s[1..p0] == a && s[p0 + 1] == '<'
    && s[e] == '<' && s[e + 1] == '/' && s[e + 2 + |a|] == '>' && s[e + 2..e + 2 + |a|] == a
  }

  /** The inner element of `<a><b>x</b></a>` in `s`, with `q1` the `>` of `<b>` and `q3` the
      `>` of `</b>`. */
  ghost predicate InnerAt(s: string, a: string, b: string, x: string, q1: nat, q3: nat) {
    var p0 := 1 + |a|;
    && ValidTagName(b) && q1 == p0 + 2 + |b| && q3 + 1 < |s|
    && BodyAt(s, q1, q1 + 1 + |x|, q3, x, b)
    && s[q1] == '>' && s[p0 + 2..q1] == b
  }

  /** The layout of `<a><b>x</b></a>` in the one fragment of `t`. */
  ghost predicate NestedAt(t: Template, a: string, b: string, x: string, q1: nat, q3: nat) {
    |t.strings| == 1 && OuterAt(t.strings[0], a, q3) && InnerAt(t.strings[0], a, b, x, q1, q3)
  }

  /** The opening and the end tag of the outer element `<a>…</a>`. */
  lemma OuterTags(t: Template, a: string, b: string, x: string, q1: nat, q3: nat)
    requires NestedAt(t, a, b, x, q1, q3)
    ensures CursorOk(t.strings, Cursor(0, 1)) && CursorOk(t.strings, Cursor(0, q3 + 2))
    ensures ConsumeTag(t, Cursor(0, 1)) == Success((TagHead(a, map[], false, false), Cursor(0, 2 + |a|)))
    ensures ConsumeEndTag(t, Cursor(0, q3 + 2)) == Success((a, Cursor(1, 0)))
  {
    var p0 := 1 + |a|;
    var e := q3 + 1;
    SliceChars(t.strings[0], 1, p0, a);
    SliceChars(t.strings[0], e + 2, e + 2 + |a|, a);
    TagClosed(t, 0, 1, p0);
    assert At(t.strings, 0, p0 + 1) == Cursor(0, p0 + 1);
    EndTagClosed(t, 0, e + 1, e + 2 + |a|);
    assert At(t.strings, 0, e + 3 + |a|) == Cursor(1, 0);
  }

  /** The children of the outer element `<a>…</a>`: the inner element alone. */
  lemma OuterChildren(t: Template, a: string, b: string, x: string, q1: nat, q3: nat)
    requires NestedAt(t, a, b, x, q1, q3)
    ensures CursorOk(t.strings, Cursor(0, 2 + |a|))
    ensures ConsumeChildren(t, Cursor(0, 2 + |a|), false)
            == Success(([NestedChild([Element(b, map[], Flush(x, []), [])])], Cursor(0, q3 + 2)))
  {
    SliceChars(t.strings[0], 3 + |a|, q1, b);
    InnerChild(t, 2 + |a|, b, x, q1, q3);
  }

  /** `processConsumption` after the `<` of `<a>` whose only content is an inner element
      `<b>x</b>`, closed by `</a>` at the end of the one fragment. */
  lemma OuterElement(t: Template, a: string, b: string, x: string, q1: nat, q3: nat)
    requires NestedAt(t, a, b, x, q1, q3)
    ensures CursorOk(t.strings, Cursor(0, 1))
    ensures ProcessConsumption(t, Cursor(0, 1))
            == Success((Element(a, map[], [NestedChild([Element(b, map[], Flush(x, []), [])])], []), Cursor(1, 0)))
  {
    OuterTags(t, a, b, x, q1, q3);
    OuterChildren(t, a, b, x, q1, q3);
    var children := [NestedChild([Element(b, map[], Flush(x, []), [])])];
    ProcessParts(t, Cursor(0, 1), a, map[], Cursor(0, 2 + |a|), children, Cursor(0, q3 + 2), a, Cursor(1, 0));
  }

  /** The outer element of `<a><b>x</b></a>` is where `OuterAt` says. */
  lemma OuterLayout(a: string, b: string, x: string, s: string, mid: string, q3: nat)
    requires ValidTagName(a) && mid == ElementSource(b, [], x, b)
    requires s == "<" + a + ">" + mid + "</" + a + ">" && q3 == 1 + |a| + |mid|
    ensures OuterAt(s, a, q3)
  {
    WrapOpen(a, mid, s, 1 + |a|);
    WrapClose(a, mid, s, q3 + 1);
    assert mid[0] == '<';
    assert s[2 + |a|] == mid[0];
  }

  /** The inner element of `<a><b>x</b></a>` is where `InnerAt` says. */
  lemma InnerLayoutAt(a: string, b: string, x: string, s: string, mid: string, q1: nat, q3: nat)
    requires ValidTagName(a) && ValidTagName(b) && NoLessThan(x) && mid == ElementSource(b, [], x, b)
    requires s == "<" + a + ">" + mid + "</" + a + ">"
    requires q1 == 3 + |a| + |b| && q3 == 1 + |a| + |mid|
    ensures InnerAt(s, a, b, x, q1, q3)
  {
    WrapOpen(a, mid, s, 1 + |a|);
    assert |s| == |mid| + 2 * |a| + 5;
    MidLength(b, x);
    InnerLayout(s, b, x, 2 + |a|, q1, q1 + 1 + |x|, q3);
  }

  /** An element nested in another, `<a><b>x</b></a>`: the inner element is the outer
      one's only child, wrapped in a list of one. */
  lemma Nested(a: string, b: string, x: string, values: seq<Arg>)
    requires ValidTagName(a) && ValidTagName(b) && NoLessThan(x)
    ensures Html(["<" + a + ">" + ElementSource(b, [], x, b) + "</" + a + ">"], values)
            == Success([Element(a, map[], [NestedChild([Element(b, map[], Flush(x, []), [])])], [])])
  {
    var mid := ElementSource(b, [], x, b);
    var s := "<" + a + ">" + mid + "</" + a + ">";
    var t := Template([s], values);
    var q1, q3 := 3 + |a| + |b|, 1 + |a| + |mid|;
    assert NestedAt(t, a, b, x, q1, q3) by {
      assert t.strings[0] == s;
      OuterLayout(a, b, x, s, mid, q3);
      InnerLayoutAt(a, b, x, s, mid, q1, q3);
    }
    OuterElement(t, a, b, x, q1, q3);
    HtmlOne(t);
  }
}
