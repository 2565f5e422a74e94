/** The template grammar of src/html.ts as pure functions: the character cursor over the
    literal fragments, the classification of interpolated arguments, and one function per
    parsing routine of `HTMLParser`. The class in module Html is proved to compute exactly
    these functions; module HtmlProperties proves what they promise. */
module HtmlGrammar {
  import opened Wrappers
  import opened JsText
  import JsonString
  import Structure

  /** An interpolated value. `shown` is what `toString()` yields for an object argument. */
  datatype Arg =
    | Null
    | Undefined
    | Bool(b: bool)
    | Num(n: int)
    | Str(s: string)
    | StateRef(id: nat, shown: string)  // an object whose `__postactItem` is "state"
    | Item(id: nat, shown: string)      // any other object: a virtual item, a list of them, ...

  datatype ArgumentType = Empty | Text | State | VirtualItem

  /** `identifyArgument`: nullish values are empty, state objects are recognised before
      primitives, primitives are text, and everything else is a virtual item. */
  function IdentifyArgument(arg: Arg): (t: ArgumentType)
    ensures t == Empty <==> arg.Null? || arg.Undefined?
    ensures t == State <==> arg.StateRef?
    ensures t == Text <==> arg.Bool? || arg.Num? || arg.Str?
    ensures t == VirtualItem <==> arg.Item?
  {
    if arg.Null? || arg.Undefined? then Empty
    else if arg.StateRef? then State
    else if arg.Bool? || arg.Num? || arg.Str? then Text
    else VirtualItem
  }

  /** The values JavaScript converts to `false`. */
  predicate Falsy(arg: Arg) {
    arg.Null? || arg.Undefined? || arg == Bool(false) || arg == Num(0) || arg == Str("")
  }

  /** `String(arg)`: a string is its own text, a number its decimal digits (read back by
      `JsText.IntToStringValue`), and an object what its `toString()` yields. */
  function Stringify(arg: Arg): (r: string)
    ensures arg.Str? ==> r == arg.s
    ensures arg.Num? && arg.n >= 0 ==>
      (forall i :: 0 <= i < |r| ==> '0' <= r[i] <= '9') && DigitsValue(r) == arg.n
    ensures arg.Num? && arg.n < 0 ==>
      |r| >= 2 && r[0] == '-' && (forall i :: 1 <= i < |r| ==> '0' <= r[i] <= '9')
      && DigitsValue(r[1..]) == -arg.n
    ensures arg.Bool? ==> (r == "true" <==> arg.b) && (r == "false" <==> !arg.b)
  {
    match arg
    case Null => "null"
    case Undefined => "undefined"
    case Bool(b) => if b then "true" else "false"
    case Num(n) => IntToStringValue(n); IntToString(n)
    case Str(s) => s
    case StateRef(_, shown) => shown
    case Item(_, shown) => shown
  }

  /** The eight `ParseError` conditions, and the four ways the source fails with a
      `TypeError` or `SyntaxError` instead: destructuring the null that `next()` returns
      at the end of the input (`this.next()!`), indexing the missing fragment past the
      last one in `seek()`, `toString()` on a missing insertion, and a quoted value
      `JSON.parse` rejects. */
  datatype ParseError =
    | NoInsertInTagNames
    | NoInsertInAttrNames
    | InvalidCharacterInTagName(chr: string)
    | ExpectedQuote
    | ExpectedAttrName
    | ExpectedTagClosing
    | ExpectedTagOpening
    | TagMismatch(starting: string, closing: string)
    | UnexpectedEnd
    | SeekPastEnd
    | NullInsertion
    | InvalidJson
  {
    /** The error's message. The eight `ParseError` texts are the source's; the other four
        are those of the V8 engine, where the source itself writes none (`JSON.parse`
        names the offending token and its position, which `InvalidJson` leaves out). A
        message quotes the character or the tag names it is about. */
    function Message(): (r: string)
      ensures InvalidCharacterInTagName? ==> StartsWith(r, chr)
      ensures TagMismatch? ==>
        StartsWith(r, MismatchPrefix + starting + MismatchMiddle) && EndsWith(r, closing + "`")
    {
      match this
      case NoInsertInTagNames => NoInsertInTagNamesText
      case NoInsertInAttrNames => NoInsertInAttrNamesText
      case InvalidCharacterInTagName(chr) => CharMessage(chr)
      case ExpectedQuote => ExpectedQuoteText
      case ExpectedAttrName => ExpectedAttrNameText
      case ExpectedTagClosing => ExpectedTagClosingText
      case ExpectedTagOpening => ExpectedTagOpeningText
      case TagMismatch(s, e) => MismatchMessage(s, e)
      case UnexpectedEnd => UnexpectedEndText
      case SeekPastEnd => SeekPastEndText
      case NullInsertion => NullInsertionText
      case InvalidJson => InvalidJsonText
    }

    /** An error whose message has no argument in it. */
    predicate Fixed() {
      !InvalidCharacterInTagName? && !TagMismatch?
    }
  }

  const NoInsertInTagNamesText := "`${...}` is not allowed in tag names"
  const NoInsertInAttrNamesText := "`${...}` is not allowed in attribute names"
  const ExpectedQuoteText := "expected double quote (\")"
  const ExpectedAttrNameText := "expected attribute name, got empty"
  const ExpectedTagClosingText := "expected tag to be closing (with a slash: /)"
  const ExpectedTagOpeningText := "expected an opening tag"
  const UnexpectedEndText := "object null is not iterable (cannot read property Symbol(Symbol.iterator))"
  const SeekPastEndText := "Cannot read properties of undefined (reading '0')"
  const NullInsertionText := "Cannot read properties of null (reading 'toString')"
  const InvalidJsonText := "Unexpected token in JSON"
  const CharSuffix := " is not a valid html tag character"
  const MismatchPrefix := "the starting and closing tags do not match: `"
  const MismatchMiddle := "` and `"

  /** `invalidCharacterInTagName(chr)`: the character, then why it is refused. */
  function CharMessage(chr: string): (r: string)
    ensures StartsWith(r, chr) && EndsWith(r, CharSuffix)
  {
    var m := chr + CharSuffix;
    assert m[..|chr|] == chr && m[|chr|..] == CharSuffix;
    m
  }

  /** `tagMismatch(starting, closing)`: both names, each between backticks. */
  function MismatchMessage(starting: string, closing: string): (r: string)
    ensures StartsWith(r, MismatchPrefix + starting + MismatchMiddle) && EndsWith(r, closing + "`")
  {
    var head := MismatchPrefix + starting + MismatchMiddle;
    var m := head + (closing + "`");
    assert m[..|head|] == head && m[|head|..] == closing + "`";
    m
  }

  predicate NoBacktick(s: string) {
    forall i :: 0 <= i < |s| ==> s[i] != '`'
  }

  /** The lengths of the fixed messages, all different. */
  function FixedLength(e: ParseError): nat
    requires e.Fixed()
  {
    match e
    case NoInsertInTagNames => 36
    case NoInsertInAttrNames => 42
    case ExpectedQuote => 25
    case ExpectedAttrName => 34
    case ExpectedTagClosing => 44
    case ExpectedTagOpening => 23
    case UnexpectedEnd => 74
    case SeekPastEnd => 49
    case NullInsertion => 51
    case InvalidJson => 24
  }

  /** The last characters of the fixed messages. */
  function FixedEnd(e: ParseError): char
    requires e.Fixed()
  {
    match e
    case NoInsertInTagNames => 's'
    case NoInsertInAttrNames => 's'
    case ExpectedQuote => ')'
    case ExpectedAttrName => 'y'
    case ExpectedTagClosing => ')'
    case ExpectedTagOpening => 'g'
    case UnexpectedEnd => ')'
    case SeekPastEnd => ')'
    case NullInsertion => ')'
    case InvalidJson => 'N'
  }

  /** A fixed message has the length and the last character the two tables give. */
  lemma FixedMessage(e: ParseError)
    requires e.Fixed()
    ensures var m := e.Message(); |m| == FixedLength(e) && m[|m| - 1] == FixedEnd(e)
  {
  }

  /** No two fixed messages have the same length. */
  lemma FixedInjective(e1: ParseError, e2: ParseError)
    requires e1.Fixed() && e2.Fixed() && FixedLength(e1) == FixedLength(e2)
    ensures e1 == e2
  {
  }

  /** The character of an invalid-character message is what precedes the fixed suffix. */
  lemma CharDetermines(c1: string, c2: string)
    requires CharMessage(c1) == CharMessage(c2)
    ensures c1 == c2
  {
    var m := CharMessage(c1);
    assert c1 == m[..|m| - |CharSuffix|] == c2;
  }

  /** The message tells the errors apart: two errors with the same message are the same
      error, provided the starting tag of a mismatch has no backtick (a tag name never
      does). */
  lemma MessageDetermines(e1: ParseError, e2: ParseError)
    requires e1.Message() == e2.Message()
    requires e1.TagMismatch? ==> NoBacktick(e1.starting)
    requires e2.TagMismatch? ==> NoBacktick(e2.starting)
    ensures e1 == e2
  {
    var m := e1.Message();
    if e1.Fixed() && e2.Fixed() {
      FixedMessage(e1);
      FixedMessage(e2);
      FixedInjective(e1, e2);
    } else if e1.Fixed() || e2.Fixed() {
      var (f, o) := if e1.Fixed() then (e1, e2) else (e2, e1);
      FixedMessage(f);
      MessageLast(o);
    } else if e1.InvalidCharacterInTagName? && e2.InvalidCharacterInTagName? {
      CharDetermines(e1.chr, e2.chr);
    } else if e1.TagMismatch? && e2.TagMismatch? {
      MismatchDetermines(e1.starting, e1.closing, e2.starting, e2.closing);
    } else {
      MessageLast(e1);
      MessageLast(e2);
    }
  }

  /** An invalid character's message ends in `r`, a mismatch's in a backtick. */
  lemma MessageLast(e: ParseError)
    requires !e.Fixed()
    ensures var m := e.Message();
      m != [] && m[|m| - 1] == if e.TagMismatch? then '`' else 'r'
  {
    var m := e.Message();
    if e.TagMismatch? {
      assert m[|m| - 1] == (e.closing + "`")[|e.closing|];
    } else {
      assert m[|m| - 1] == CharSuffix[|CharSuffix| - 1];
    }
  }

  /** The first backtick after the prefix ends the starting tag. */
  lemma MismatchDetermines(s1: string, e1: string, s2: string, e2: string)
    requires NoBacktick(s1) && NoBacktick(s2)
    requires TagMismatch(s1, e1).Message() == TagMismatch(s2, e2).Message()
    ensures s1 == s2 && e1 == e2
  {
    var m := TagMismatch(s1, e1).Message();
    var p := |MismatchPrefix|;
    assert m[..p + |s1| + |MismatchMiddle|] == MismatchPrefix + s1 + MismatchMiddle;
    assert m[..p + |s2| + |MismatchMiddle|] == MismatchPrefix + s2 + MismatchMiddle;
    assert m[p + |s1|] == '`' && m[p + |s2|] == '`';
    assert s1 == m[p..p + |s1|] == s2;
    assert e1 == m[|m| - 1 - |e1|..|m| - 1];
  }

  /** Without that proviso two mismatches can share a message. */
  lemma MismatchAmbiguous()
    ensures TagMismatch("a` and `b", "c").Message() == TagMismatch("a", "b` and `c").Message()
  {
  }

  /** A `"virtual-element"` as the parser builds it; `listeners` is always empty. */
  datatype Element = Element(tag: string, attributes: map<string, string>, children: seq<Child>,
                             listeners: seq<Structure.Listener>)

  /** A child the parser pushes: a string, a one-element list holding a nested element,
      or an interpolated object passed through unchanged. */
  datatype Child = TextChild(text: string) | NestedChild(elements: seq<Element>) | ItemChild(item: Arg)

  // ---------------------------------------------------------------------------------
  // The cursor

  /** What `next()` returns: whether an interpolation follows, and the character read
      (the empty string for an empty fragment). */
  datatype Step = Step(insert: bool, chr: string)

  /** The cursor fields `#tsaIdx` and `#idx`. */
  datatype Cursor = Cursor(tsa: nat, idx: nat)

  datatype Template = Template(strings: seq<string>, values: seq<Arg>)

  /** The steps one fragment contributes: each character, flagged on the last one, or a
      single flagged empty step for an empty fragment. */
  function FragmentSteps(s: string): (r: seq<Step>)
    ensures |r| == StepCount(s)
  {
    if |s| == 0 then [Step(true, "")]
    else seq(|s|, k requires 0 <= k < |s| => Step(k == |s| - 1, [s[k]]))
  }

  /** The number of steps of a fragment. */
  function StepCount(s: string): nat {
    if |s| == 0 then 1 else |s|
  }

  ghost predicate CursorOk(strings: seq<string>, c: Cursor) {
    && c.tsa <= |strings|
    && (c.tsa < |strings| ==> c.idx < StepCount(strings[c.tsa]))
    && (c.tsa == |strings| ==> c.idx == 0)
  }

  /** The steps of the fragments from `k` on, fragment after fragment. */
  ghost function StepsAfter(strings: seq<string>, k: nat): seq<Step>
    decreases |strings| - k
  {
    if k >= |strings| then [] else FragmentSteps(strings[k]) + StepsAfter(strings, k + 1)
  }

  /** The whole stream of steps. */
  ghost function AllSteps(strings: seq<string>): seq<Step> {
    StepsAfter(strings, 0)
  }

  /** The steps a cursor has still to read. */
  ghost function Rest(strings: seq<string>, c: Cursor): seq<Step>
    requires CursorOk(strings, c)
  {
    StepsAfter(strings, c.tsa)[c.idx..]
  }

  /** The steps left in the cursor's own fragment; with the number of fragments not yet
      finished, the measure that every read decreases. */
  ghost function InFragment(strings: seq<string>, c: Cursor): nat
    requires CursorOk(strings, c)
  {
    if c.tsa < |strings| then StepCount(strings[c.tsa]) - c.idx else 0
  }

  /** `c2` is a valid cursor strictly after `c`. */
  ghost predicate Advanced(strings: seq<string>, c: Cursor, c2: Cursor) {
    CursorOk(strings, c2) && (c.tsa < c2.tsa || (c.tsa == c2.tsa && c.idx < c2.idx))
  }

  /** `c2` is a valid cursor not before `c`. */
  ghost predicate NotBehind(strings: seq<string>, c: Cursor, c2: Cursor) {
    CursorOk(strings, c2) && (c.tsa < c2.tsa || (c.tsa == c2.tsa && c.idx <= c2.idx))
  }

  /** The cursor `next()` moves to from `c`, inside or past its fragment. */
  function Successor(strings: seq<string>, c: Cursor): Cursor
    requires c.tsa < |strings|
  {
    var s := strings[c.tsa];
    if |s| == 0 then Cursor(c.tsa + 1, 0)
    else
      // `(#idx + 1) % length`, for an index below the length
      var idx := if c.idx + 1 == |s| then 0 else c.idx + 1;
      Cursor(c.tsa + (if idx == 0 then 1 else 0), idx)
  }

  lemma SuccessorFacts(strings: seq<string>, c: Cursor)
    requires CursorOk(strings, c) && c.tsa < |strings|
    ensures CursorOk(strings, Successor(strings, c))
    ensures Advanced(strings, c, Successor(strings, c))
  {
  }

  /** `next()`: the step at the cursor and the cursor after it, or None at the end. */
  function Next(strings: seq<string>, c: Cursor): (r: Option<(Step, Cursor)>)
    requires CursorOk(strings, c)
    ensures r.None? <==> c.tsa == |strings|
    ensures r.Some? ==> Advanced(strings, c, r.value.1)
  {
    // the source's second end test (`#idx` past the fragment) cannot succeed on a valid cursor
    if c.tsa >= |strings| then None
    else
      SuccessorFacts(strings, c);
      var s := strings[c.tsa];
      if |s| == 0 then Some((Step(true, ""), Successor(strings, c)))
      else
        var n := Successor(strings, c);
        Some((Step(n.idx == 0, [s[c.idx]]), n))
  }

  /** `next()` reads the step stream in order: it returns the first step still to read
      and moves past it, and returns None exactly when nothing is left. */
  lemma NextInStream(strings: seq<string>, c: Cursor)
    requires CursorOk(strings, c)
    ensures Next(strings, c).None? <==> Rest(strings, c) == []
    ensures Next(strings, c).Some? ==>
      Rest(strings, c) == [Next(strings, c).value.0] + Rest(strings, Next(strings, c).value.1)
  {
    if c.tsa < |strings| {
      var s := strings[c.tsa];
      var x := StepsAfter(strings, c.tsa);
      assert x == FragmentSteps(s) + StepsAfter(strings, c.tsa + 1);
      assert x[c.idx..] == [x[c.idx]] + x[c.idx + 1..];
      if c.idx + 1 == StepCount(s) {
        assert x[c.idx + 1..] == StepsAfter(strings, c.tsa + 1);
      }
    }
  }

  // ---------------------------------------------------------------------------------
  // Parsing routines, one per method of HTMLParser

  /** A parsing routine's outcome: its value and the cursor after it, or the error raised. */
  type Parsed<X> = Result<(X, Cursor), ParseError>

  /** A result of `consumeTag`: name, attributes, self-closing, and whether an
      interpolation follows the tag. */
  datatype TagHead = TagHead(tag: string, attributes: map<string, string>, selfClosing: bool, insertAfter: bool)

  /** A result of `consumeAttributes`. */
  datatype AttrTail = AttrTail(attributes: map<string, string>, selfClosing: bool, insertAfter: bool)

  /** `/[a-zA-Z0-9-]/.test(chr)`. */
  predicate IsTagNameChar(chr: string) {
    |chr| == 1 && ('a' <= chr[0] <= 'z' || 'A' <= chr[0] <= 'Z' || '0' <= chr[0] <= '9' || chr[0] == '-')
  }

  /** `this.next()!`: reading past the end dereferences null. */
  function NextOrEnd(t: Template, c: Cursor): (r: Parsed<Step>)
    requires CursorOk(t.strings, c)
    ensures r.Success? ==> Advanced(t.strings, c, r.value.1)
    ensures r.Failure? ==> r.error == UnexpectedEnd
  {
    match Next(t.strings, c)
    case None => Failure(UnexpectedEnd)
    case Some(p) => Success(p)
  }

  /** `seek()`: the next character of the current fragment, None at its end; past the last
      fragment the source indexes `undefined` and throws. */
  function Seek(t: Template, c: Cursor): Result<Option<char>, ParseError> {
    if c.tsa >= |t.strings| then Failure(SeekPastEnd)
    else if c.idx < |t.strings[c.tsa]| then Success(Some(t.strings[c.tsa][c.idx]))
    else Success(None)
  }

  /** What `seek()` sees is what `next()` would read: the end of the input when `next()`
      returns null, nothing exactly for the empty step of an empty fragment, and otherwise
      the character of the next step. */
  lemma SeekNext(t: Template, c: Cursor)
    requires CursorOk(t.strings, c)
    ensures Seek(t, c).Failure? <==> Next(t.strings, c).None?
    ensures Seek(t, c).Failure? ==> Seek(t, c).error == SeekPastEnd
    ensures Seek(t, c) == Success(None) <==> Next(t.strings, c).Some? && Next(t.strings, c).value.0 == Step(true, "")
    ensures Seek(t, c).Success? && Seek(t, c).value.Some? ==>
      Next(t.strings, c).Some? && Next(t.strings, c).value.0.chr == [Seek(t, c).value.value]
  {
  }

  /** `seek()` does not look past the current fragment, but after a step that ends its
      fragment the cursor is already in the next one: there `seek()` gives that fragment's
      first character. */
  lemma SeekAfterFlag(t: Template, c: Cursor)
    requires CursorOk(t.strings, c) && Next(t.strings, c).Some? && Next(t.strings, c).value.0.insert
    ensures var c1 := Next(t.strings, c).value.1;
      c1 == Cursor(c.tsa + 1, 0)
      && Seek(t, c1) == if c.tsa + 1 == |t.strings| then Failure(SeekPastEnd)
                        else if t.strings[c.tsa + 1] == "" then Success(None)
                        else Success(Some(t.strings[c.tsa + 1][0]))
  {
  }

  /** `getInsertion()`: the value after the fragment last finished, or null when that value
      is falsy or missing. */
  function GetInsertion(t: Template, c: Cursor): Arg {
    if 1 <= c.tsa <= |t.values| && !Falsy(t.values[c.tsa - 1]) then t.values[c.tsa - 1] else Null
  }

  /** `this.getInsertion()!.toString()`. */
  function InsertionText(t: Template, c: Cursor): Result<string, ParseError> {
    var arg := GetInsertion(t, c);
    if arg.Null? || arg.Undefined? then Failure(NullInsertion) else Success(Stringify(arg))
  }

  /** `consumeWhitespace`: the first step that is not white space. */
  function ConsumeWhitespace(t: Template, c: Cursor): (r: Parsed<Step>)
    requires CursorOk(t.strings, c)
    ensures r.Success? ==> Advanced(t.strings, c, r.value.1) && !IsSpace(r.value.0.chr)
    decreases |t.strings| - c.tsa, InFragment(t.strings, c)
  {
    var n :- NextOrEnd(t, c);
    if IsSpace(n.0.chr) then ConsumeWhitespace(t, n.1) else Success(n)
  }

  /** `consumeTag`. */
  function ConsumeTag(t: Template, c: Cursor): (r: Parsed<TagHead>)
    requires CursorOk(t.strings, c)
    ensures r.Success? ==> Advanced(t.strings, c, r.value.1)
  {
    ConsumeTagLoop(t, c, "")
  }

  /** The loop of `consumeTag`, with the name read so far. */
  function ConsumeTagLoop(t: Template, c: Cursor, tag: string): (r: Parsed<TagHead>)
    requires CursorOk(t.strings, c)
    ensures r.Success? ==> Advanced(t.strings, c, r.value.1)
    decreases |t.strings| - c.tsa, InFragment(t.strings, c)
  {
    var n :- NextOrEnd(t, c);
    var (st, c1) := n;
    if IsSpace(st.chr) then
      var a :- ConsumeAttributes(t, c1);
      Success((TagHead(tag, a.0.attributes, a.0.selfClosing, a.0.insertAfter), a.1))
    else if st.chr == ">" then Success((TagHead(tag, map[], false, st.insert), c1))
    else if st.insert then Failure(NoInsertInTagNames)
    else if !IsTagNameChar(st.chr) then Failure(InvalidCharacterInTagName(st.chr))
    else ConsumeTagLoop(t, c1, tag + st.chr)
  }

  /** `consumeAttributes`. */
  function ConsumeAttributes(t: Template, c: Cursor): (r: Parsed<AttrTail>)
    requires CursorOk(t.strings, c)
    ensures r.Success? ==> Advanced(t.strings, c, r.value.1)
  {
    AttributesLoop(t, c, map[], "")
  }

  /** The loop of `consumeAttributes`, with the attributes stored and the name read so far.
      The source's `state` is always 0 at the top of the loop, and since `consumeWhitespace`
      never yields white space its `/\s|=/` test matches "=" only: the `"true"` default
      after it is never reached. */
  function AttributesLoop(t: Template, c: Cursor, attrs: map<string, string>, name: string): (r: Parsed<AttrTail>)
    requires CursorOk(t.strings, c)
    ensures r.Success? ==> Advanced(t.strings, c, r.value.1)
    decreases |t.strings| - c.tsa, InFragment(t.strings, c)
  {
    var w :- ConsumeWhitespace(t, c);
    var (st, c1) := w;
    if st.chr == ">" then Success((AttrTail(attrs, false, st.insert), c1))
    else if st.chr == "/" then
      var w2 :- ConsumeWhitespace(t, c1);
      if w2.0.chr != ">" then Failure(ExpectedTagClosing)
      else Success((AttrTail(attrs, true, st.insert), w2.1))
    else if st.chr != "=" then
      if st.insert then Failure(NoInsertInAttrNames)
      else AttributesLoop(t, c1, attrs, name + st.chr)
    else if name == "" then Failure(ExpectedAttrName)
    else
      var v :- AttributeValue(t, c1, st.insert);
      AttributesLoop(t, v.1, attrs[name := v.0], "")
  }

  /** The value after `=`: the insertion's text when the `=` ends a fragment, otherwise a
      quoted string. */
  function AttributeValue(t: Template, c: Cursor, insert: bool): (r: Parsed<string>)
    requires CursorOk(t.strings, c)
    ensures r.Success? ==> NotBehind(t.strings, c, r.value.1)
  {
    if insert then
      var s :- InsertionText(t, c);
      Success((s, c))
    else ConsumeStringQuote(t, c)
  }

  /** `consumeEndTag`, entered just after the `<` of `</`: the name, with trailing white
      space trimmed. */
  function ConsumeEndTag(t: Template, c: Cursor): (r: Parsed<string>)
    requires CursorOk(t.strings, c)
    ensures r.Success? ==> Advanced(t.strings, c, r.value.1)
  {
    var w :- ConsumeWhitespace(t, c);
    if w.0.chr != "/" then Failure(ExpectedTagClosing)
    else if w.0.insert then Failure(NoInsertInTagNames)
    else EndTagLoop(t, w.1, "", false)
  }

  /** The loop of `consumeEndTag`: `collected` is the source's `state == 1`, set once white
      space has been read, after which any character is accepted. */
  function EndTagLoop(t: Template, c: Cursor, name: string, collected: bool): (r: Parsed<string>)
    requires CursorOk(t.strings, c)
    ensures r.Success? ==> Advanced(t.strings, c, r.value.1)
    decreases |t.strings| - c.tsa, InFragment(t.strings, c)
  {
    var n :- NextOrEnd(t, c);
    var (st, c1) := n;
    if st.chr == ">" then Success((TrimEnd(name), c1))
    else if st.insert then Failure(NoInsertInTagNames)
    else
      var collected' := collected || IsSpace(st.chr);
      if !collected' && !IsTagNameChar(st.chr) then Failure(InvalidCharacterInTagName(st.chr))
      else EndTagLoop(t, c1, name + st.chr, collected')
  }

  /** Appends the insertion's text when an interpolation follows. */
  function AppendInsertion(t: Template, c: Cursor, text: string, insert: bool): Result<string, ParseError> {
    if insert then
      var s :- InsertionText(t, c);
      Success(text + s)
    else Success(text)
  }

  /** `consumeStringQuote`: a double-quoted value, decoded as a JSON string. */
  function ConsumeStringQuote(t: Template, c: Cursor): (r: Parsed<string>)
    requires CursorOk(t.strings, c)
    ensures r.Success? ==> Advanced(t.strings, c, r.value.1)
  {
    var w :- ConsumeWhitespace(t, c);
    var (st, c1) := w;
    if st.chr != "\"" then Failure(ExpectedQuote)
    else
      var text :- AppendInsertion(t, c1, "\"", st.insert);
      QuoteLoop(t, c1, text)
  }

  /** The loop of `consumeStringQuote`: a quote ends the value unless the text gathered so
      far (insertions included) ends with a backslash. */
  function QuoteLoop(t: Template, c: Cursor, text: string): (r: Parsed<string>)
    requires CursorOk(t.strings, c)
    ensures r.Success? ==> Advanced(t.strings, c, r.value.1)
    decreases |t.strings| - c.tsa, InFragment(t.strings, c)
  {
    var n :- NextOrEnd(t, c);
    var (st, c1) := n;
    if !EndsWith(text, "\\") && st.chr == "\"" then
      match JsonString.ParseLiteral(text + "\"")
      case Some(v) => Success((v, c1))
      case None => Failure(InvalidJson)
    else
      var text' :- AppendInsertion(t, c1, text + st.chr, st.insert);
      QuoteLoop(t, c1, text')
  }

  /** `addArgToChildren`: empty and state arguments are dropped, primitives become their
      text, and any other object is appended unchanged. */
  function AddArgToChildren(insertion: Arg, children: seq<Child>): (r: seq<Child>)
    ensures insertion.Null? || insertion.Undefined? || insertion.StateRef? ==> r == children
    ensures insertion.Bool? || insertion.Num? || insertion.Str? ==> r == children + [TextChild(Stringify(insertion))]
    ensures insertion.Item? ==> r == children + [ItemChild(insertion)]
  {
    match IdentifyArgument(insertion)
    case Empty => children
    case Text => children + [TextChild(Stringify(insertion))]
    case State => children // kept for later in the source
    case VirtualItem => children + [ItemChild(insertion)]
  }

  /** The text gathered so far, with leading white space trimmed, appended if not empty. */
  function Flush(text: string, children: seq<Child>): seq<Child> {
    var trimmed := TrimStart(text);
    if trimmed != "" then children + [TextChild(trimmed)] else children
  }

  /** `processConsumption`, entered just after a `<`: one element. */
  function ProcessConsumption(t: Template, c: Cursor): (r: Parsed<Element>)
    requires CursorOk(t.strings, c)
    ensures r.Success? ==> Advanced(t.strings, c, r.value.1)
    decreases |t.strings| - c.tsa, InFragment(t.strings, c), 2
  {
    var h :- ConsumeTag(t, c);
    var (head, c1) := h;
    if head.selfClosing then Success((Element(head.tag, head.attributes, [], []), c1))
    else
      var ch :- ConsumeChildren(t, c1, head.insertAfter);
      var e :- ConsumeEndTag(t, ch.1);
      if head.tag != e.0 then Failure(TagMismatch(head.tag, e.0))
      else Success((Element(head.tag, head.attributes, ch.0, []), e.1))
  }

  /** `consumeChildren`: the children up to the `<` of the end tag. */
  function ConsumeChildren(t: Template, c: Cursor, afterTagInsert: bool): (r: Parsed<seq<Child>>)
    requires CursorOk(t.strings, c)
    ensures r.Success? ==> Advanced(t.strings, c, r.value.1)
    decreases |t.strings| - c.tsa, InFragment(t.strings, c), 1
  {
    var children := if afterTagInsert then AddArgToChildren(GetInsertion(t, c), []) else [];
    ChildrenLoop(t, c, "", children)
  }

  /** The loop of `consumeChildren`, with the pending text and the children so far. */
  function ChildrenLoop(t: Template, c: Cursor, text: string, children: seq<Child>): (r: Parsed<seq<Child>>)
    requires CursorOk(t.strings, c)
    ensures r.Success? ==> Advanced(t.strings, c, r.value.1)
    decreases |t.strings| - c.tsa, InFragment(t.strings, c), 0
  {
    var n :- NextOrEnd(t, c);
    var (st, c1) := n;
    if st.chr == "<" then
      var next :- Seek(t, c1);
      if next == Some('/') then Success((Flush(text, children), c1))
      else
        var p :- ProcessConsumption(t, c1);
        ChildrenLoop(t, p.1, "", Flush(text, children) + [NestedChild([p.0])])
    else
      var text' := text + st.chr;
      if st.insert then ChildrenLoop(t, c1, "", AddArgToChildren(GetInsertion(t, c1), Flush(text', children)))
      else ChildrenLoop(t, c1, text', children)
  }

  /** The loop of `consume`: top-level elements, separated by white space only. */
  function Consume(t: Template, c: Cursor, items: seq<Element>): (r: Result<seq<Element>, ParseError>)
    requires CursorOk(t.strings, c)
    decreases |t.strings| - c.tsa, InFragment(t.strings, c)
  {
    match Next(t.strings, c)
    case None => Success(items)
    case Some((st, c1)) =>
      if st.chr == "<" then
        if st.insert then Failure(NoInsertInTagNames)
        else
          var p :- ProcessConsumption(t, c1);
          Consume(t, p.1, items + [p.0])
      else if !IsSpace(st.chr) then Failure(ExpectedTagOpening)
      else Consume(t, c1, items)
  }

  /** `html`: the elements of a template. */
  function Html(strings: seq<string>, values: seq<Arg>): Result<seq<Element>, ParseError>
  {
    Consume(Template(strings, values), Cursor(0, 0), [])
  }
}
