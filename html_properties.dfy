/** What the template grammar of module HtmlGrammar promises: the cursor reads every
    fragment in order, the shape of every parse result, and the outcome of the
    template forms the source's tests and comments describe. */
module HtmlProperties {
  import opened Wrappers
  import opened JsText
  import opened HtmlGrammar
  import JsonString

  // ---------------------------------------------------------------------------------
  // The cursor

  /** The steps `next()` returns when called until it returns null. */
  ghost function Drain(strings: seq<string>, c: Cursor): seq<Step>
    requires CursorOk(strings, c)
    decreases |strings| - c.tsa, InFragment(strings, c)
  {
    match Next(strings, c)
    case None => []
    case Some((st, c1)) => [st] + Drain(strings, c1)
  }

  /** From any cursor, `next()` returns the rest of the step stream, in order. */
  lemma {:induction false} DrainFrom(strings: seq<string>, c: Cursor)
    requires CursorOk(strings, c)
    ensures Drain(strings, c) == Rest(strings, c)
    decreases |strings| - c.tsa, InFragment(strings, c)
  {
    NextInStream(strings, c);
    match Next(strings, c)
    case None =>
    case Some((st, c1)) =>
      DrainFrom(strings, c1);
  }

  /** Starting from the first fragment, `next()` returns exactly the step stream. */
  lemma DrainAll(strings: seq<string>)
    ensures Drain(strings, Cursor(0, 0)) == AllSteps(strings)
  {
    DrainFrom(strings, Cursor(0, 0));
  }

  /** The characters a sequence of steps reads. */
  function Spell(steps: seq<Step>): string
  {
    if steps == [] then "" else steps[0].chr + Spell(steps[1..])
  }

  function Concat(strings: seq<string>): string
  {
    if strings == [] then "" else strings[0] + Concat(strings[1..])
  }

  lemma {:induction false} SpellAppend(a: seq<Step>, b: seq<Step>)
    ensures Spell(a + b) == Spell(a) + Spell(b)
    decreases |a|
  {
    if a != [] {
      assert (a + b)[1..] == a[1..] + b;
      SpellAppend(a[1..], b);
    } else {
      assert a + b == b;
    }
  }

  lemma {:induction false} SpellFragmentFrom(s: string, k: nat)
    requires k <= |s|
    ensures Spell(FragmentSteps(s)[k..]) == s[k..]
    decreases |s| - k
  {
    var steps := FragmentSteps(s)[k..];
    if k < |s| {
      assert steps[0] == Step(k == |s| - 1, [s[k]]);
      assert steps[1..] == FragmentSteps(s)[k + 1..];
      SpellFragmentFrom(s, k + 1);
      assert Spell(steps) == [s[k]] + Spell(steps[1..]);
      assert s[k..] == [s[k]] + s[k + 1..];
    } else if |s| == 0 {
      assert steps[1..] == [];
      assert Spell(steps) == "" + Spell([]);
    } else {
      assert steps == [];
    }
  }

  /** A fragment's steps read its characters. */
  lemma SpellFragment(s: string)
    ensures Spell(FragmentSteps(s)) == s
  {
    SpellFragmentFrom(s, 0);
    assert FragmentSteps(s)[0..] == FragmentSteps(s);
  }

  lemma {:induction false} SpellAfter(strings: seq<string>, k: nat)
    requires k <= |strings|
    ensures Spell(StepsAfter(strings, k)) == Concat(strings[k..])
    decreases |strings| - k
  {
    if k < |strings| {
      SpellAfter(strings, k + 1);
      SpellAppend(FragmentSteps(strings[k]), StepsAfter(strings, k + 1));
      SpellFragment(strings[k]);
      assert strings[k..][1..] == strings[k + 1..];
    }
  }

  /** The steps of the whole template read its fragments' characters, one after another. */
  lemma SpellAllSteps(strings: seq<string>)
    ensures Spell(AllSteps(strings)) == Concat(strings)
  {
    SpellAfter(strings, 0);
    assert strings[0..] == strings;
  }

  /** The number of steps flagged as followed by an interpolation. */
  function Flags(steps: seq<Step>): nat
  {
    if steps == [] then 0 else (if steps[0].insert then 1 else 0) + Flags(steps[1..])
  }

  lemma {:induction false} FlagsAppend(a: seq<Step>, b: seq<Step>)
    ensures Flags(a + b) == Flags(a) + Flags(b)
    decreases |a|
  {
    if a != [] {
      assert (a + b)[1..] == a[1..] + b;
      FlagsAppend(a[1..], b);
    } else {
      assert a + b == b;
    }
  }

  lemma {:induction false} FlagsFragmentFrom(s: string, k: nat)
    requires k < |s|
    ensures Flags(FragmentSteps(s)[k..]) == 1
    decreases |s| - k
  {
    var steps := FragmentSteps(s)[k..];
    if k + 1 < |s| {
      assert steps[1..] == FragmentSteps(s)[k + 1..];
      FlagsFragmentFrom(s, k + 1);
    } else {
      assert steps[1..] == [];
    }
  }

  lemma {:induction false} FlagsAfter(strings: seq<string>, k: nat)
    requires k <= |strings|
    ensures Flags(StepsAfter(strings, k)) == |strings| - k
    decreases |strings| - k
  {
    if k < |strings| {
      var s := strings[k];
      FlagsAfter(strings, k + 1);
      FlagsAppend(FragmentSteps(s), StepsAfter(strings, k + 1));
      if |s| > 0 {
        FlagsFragmentFrom(s, 0);
        assert FragmentSteps(s)[0..] == FragmentSteps(s);
      } else {
        assert FragmentSteps(s)[1..] == [];
      }
    }
  }

  /** Exactly one step per fragment is flagged ... */
  lemma OneFlagPerFragment(strings: seq<string>)
    ensures Flags(AllSteps(strings)) == |strings|
  {
    FlagsAfter(strings, 0);
  }

  /** ... and it is the fragment's last step: its last character, or its single empty step. */
  lemma FragmentEndFlagged(strings: seq<string>, j: nat)
    requires j < |strings|
    ensures var k := StepCount(strings[j]) - 1;
      k < |StepsAfter(strings, j)| && StepsAfter(strings, j)[k].insert
      && StepsAfter(strings, j)[k].chr == (if strings[j] == "" then "" else [strings[j][|strings[j]| - 1]])
  {
    assert StepsAfter(strings, j) == FragmentSteps(strings[j]) + StepsAfter(strings, j + 1);
  }

  /** `getInsertion()` after a flagged step yields the value following that fragment, and
      null when the value is falsy or missing. */
  lemma InsertionAfterFlag(t: Template, c: Cursor)
    requires CursorOk(t.strings, c)
    requires Next(t.strings, c).Some? && Next(t.strings, c).value.0.insert
    ensures var c1 := Next(t.strings, c).value.1;
      c1.tsa == c.tsa + 1
      && GetInsertion(t, c1) == if c.tsa < |t.values| && !Falsy(t.values[c.tsa]) then t.values[c.tsa] else Null
  {
  }

  /** Falsy values (null, undefined, false, 0, "") render nothing: `getInsertion()` turns
      them into null and `addArgToChildren` drops it. */
  lemma FalsyInsertionDropped(t: Template, c: Cursor, children: seq<Child>)
    requires 1 <= c.tsa <= |t.values| && Falsy(t.values[c.tsa - 1])
    ensures GetInsertion(t, c) == Null
    ensures AddArgToChildren(GetInsertion(t, c), children) == children
  {
  }

  // ---------------------------------------------------------------------------------
  // The end tag

  /** The loop of `consumeEndTag` never reports a missing `/`. */
  lemma {:induction false} EndTagLoopErrors(t: Template, c: Cursor, name: string, collected: bool)
    requires CursorOk(t.strings, c)
    ensures EndTagLoop(t, c, name, collected) != Failure(ExpectedTagClosing)
    decreases |t.strings| - c.tsa, InFragment(t.strings, c)
  {
    match Next(t.strings, c)
    case None =>
    case Some((st, c1)) =>
      EndTagLoopErrors(t, c1, name + st.chr, collected || IsSpace(st.chr));
  }

  /** The children loop stops only at a `<` whose next character, as `seek()` sees it, is `/`. */
  lemma {:induction false} ChildrenStopAtSlash(t: Template, c: Cursor, text: string, children: seq<Child>)
    requires CursorOk(t.strings, c)
    ensures var r := ChildrenLoop(t, c, text, children);
      r.Success? ==> Seek(t, r.value.1) == Success(Some('/'))
    decreases |t.strings| - c.tsa, InFragment(t.strings, c), 0
  {
    match Next(t.strings, c)
    case None =>
    case Some((st, c1)) =>
      if st.chr == "<" {
        if Seek(t, c1) != Success(Some('/')) && Seek(t, c1).Success? {
          var p := ProcessConsumption(t, c1);
          if p.Success? {
            ChildrenStopAtSlash(t, p.value.1, "", Flush(text, children) + [NestedChild([p.value.0])]);
          }
        }
      } else if st.insert {
        ChildrenStopAtSlash(t, c1, "", AddArgToChildren(GetInsertion(t, c1), Flush(text + st.chr, children)));
      } else {
        ChildrenStopAtSlash(t, c1, text + st.chr, children);
      }
  }

  /** After the children, `consumeEndTag` finds the `/` that `seek()` saw, so its
      `expectedTagClosing` check never fires: the end tag fails only on an interpolation
      after the `/` or inside the name, a bad name character, or the end of the input. */
  lemma EndTagAfterChildren(t: Template, c: Cursor, afterTagInsert: bool)
    requires CursorOk(t.strings, c)
    ensures var r := ConsumeChildren(t, c, afterTagInsert);
      r.Success? ==> ConsumeEndTag(t, r.value.1) != Failure(ExpectedTagClosing)
  {
    var children := if afterTagInsert then AddArgToChildren(GetInsertion(t, c), []) else [];
    ChildrenStopAtSlash(t, c, "", children);
    var r := ConsumeChildren(t, c, afterTagInsert);
    if r.Success? {
      var c2 := r.value.1;
      SeekNext(t, c2);
      var (st, c3) := Next(t.strings, c2).value;
      assert ConsumeWhitespace(t, c2) == Success((st, c3));
      EndTagLoopErrors(t, c3, "", false);
    }
  }

  // ---------------------------------------------------------------------------------
  // What may stand between top-level elements

  /** Every step reads a white-space character. */
  predicate SpaceSteps(steps: seq<Step>) {
    forall i :: 0 <= i < |steps| ==> IsSpace(steps[i].chr)
  }

  /** A fragment of white space only, and not empty. */
  predicate Blank(s: string) {
    s != "" && forall m :: 0 <= m < |s| ==> IsSpaceChar(s[m])
  }

  lemma SpaceStepsAppend(a: seq<Step>, b: seq<Step>)
    ensures SpaceSteps(a + b) <==> SpaceSteps(a) && SpaceSteps(b)
  {
    if SpaceSteps(a) && SpaceSteps(b) {
      forall i | 0 <= i < |a + b| ensures IsSpace((a + b)[i].chr) {
        if i < |a| { assert (a + b)[i] == a[i]; } else { assert (a + b)[i] == b[i - |a|]; }
      }
    }
    if SpaceSteps(a + b) {
      forall i | 0 <= i < |a| ensures IsSpace(a[i].chr) { assert (a + b)[i] == a[i]; }
      forall i | 0 <= i < |b| ensures IsSpace(b[i].chr) { assert (a + b)[|a| + i] == b[i]; }
    }
  }

  /** A fragment's steps are all white space exactly when the fragment is blank; an empty
      fragment reads the empty step, which is not white space. */
  lemma FragmentBlank(s: string)
    ensures SpaceSteps(FragmentSteps(s)) <==> Blank(s)
  {
    var steps := FragmentSteps(s);
    if s == "" {
      assert !IsSpace(steps[0].chr);
    } else if SpaceSteps(steps) {
      forall m | 0 <= m < |s| ensures IsSpaceChar(s[m]) {
        assert steps[m].chr == [s[m]];
      }
    } else if Blank(s) {
      forall i | 0 <= i < |steps| ensures IsSpace(steps[i].chr) {
        assert steps[i].chr == [s[i]];
      }
    }
  }

  lemma {:induction false} BlankSteps(strings: seq<string>, k: nat)
    requires k <= |strings|
    ensures SpaceSteps(StepsAfter(strings, k)) <==> forall j :: k <= j < |strings| ==> Blank(strings[j])
    decreases |strings| - k
  {
    if k < |strings| {
      BlankSteps(strings, k + 1);
      SpaceStepsAppend(FragmentSteps(strings[k]), StepsAfter(strings, k + 1));
      FragmentBlank(strings[k]);
    }
  }

  /** White space only, from any cursor, adds no element and ends the loop of `consume`,
      even where an interpolation follows: the value is not read. */
  lemma {:induction false} ConsumeSpaces(t: Template, c: Cursor, items: seq<Element>)
    requires CursorOk(t.strings, c) && SpaceSteps(Rest(t.strings, c))
    ensures Consume(t, c, items) == Success(items)
    decreases |t.strings| - c.tsa, InFragment(t.strings, c)
  {
    NextInStream(t.strings, c);
    match Next(t.strings, c)
    case None =>
    case Some((st, c1)) =>
      var rest := Rest(t.strings, c);
      assert rest[0] == st && Rest(t.strings, c1) == rest[1..];
      assert IsSpace(st.chr);
      assert SpaceSteps(Rest(t.strings, c1)) by {
        forall i | 0 <= i < |rest[1..]| ensures IsSpace(rest[1..][i].chr) {
          assert rest[1..][i] == rest[i + 1];
        }
      }
      ConsumeSpaces(t, c1, items);
  }

  /** The loop of `consume` never drops an element. */
  lemma {:induction false} ConsumeLonger(t: Template, c: Cursor, items: seq<Element>)
    requires CursorOk(t.strings, c)
    ensures Consume(t, c, items).Success? ==> |Consume(t, c, items).value| >= |items|
    decreases |t.strings| - c.tsa, InFragment(t.strings, c)
  {
    match Next(t.strings, c)
    case None =>
    case Some((st, c1)) =>
      if st.chr == "<" {
        if !st.insert && ProcessConsumption(t, c1).Success? {
          var (e, c2) := ProcessConsumption(t, c1).value;
          ConsumeLonger(t, c2, items + [e]);
        }
      } else {
        ConsumeLonger(t, c1, items);
      }
  }

  /** One element read at the top level. */
  lemma ConsumeOpening(t: Template, c: Cursor, c1: Cursor, e: Element, c2: Cursor, items: seq<Element>)
    requires CursorOk(t.strings, c) && CursorOk(t.strings, c1) && CursorOk(t.strings, c2)
    requires Next(t.strings, c) == Some((Step(false, "<"), c1)) && ProcessConsumption(t, c1) == Success((e, c2))
    ensures Consume(t, c, items) == Consume(t, c2, items + [e])
  {
  }

  /** A top-level `<` either fails or adds an element. */
  lemma OpeningNotEmpty(t: Template, c: Cursor)
    requires CursorOk(t.strings, c) && Next(t.strings, c).Some? && Next(t.strings, c).value.0.chr == "<"
    ensures Consume(t, c, []) != Success([])
  {
    var st := Next(t.strings, c).value.0;
    var c1 := Next(t.strings, c).value.1;
    var r := ProcessConsumption(t, c1);
    if !st.insert && r.Success? {
      ConsumeOpening(t, c, c1, r.value.0, r.value.1, []);
      ConsumeLonger(t, r.value.1, [] + [r.value.0]);
    }
  }

  lemma SpaceCons(st: Step, rest: seq<Step>)
    requires IsSpace(st.chr) && SpaceSteps(rest)
    ensures SpaceSteps([st] + rest)
  {
    SpaceStepsAppend([st], rest);
  }

  /** Conversely, a loop of `consume` that ends without an element has read white space
      only. */
  lemma {:induction false} ConsumeNoElements(t: Template, c: Cursor)
    requires CursorOk(t.strings, c)
    ensures Consume(t, c, []) == Success([]) ==> SpaceSteps(Rest(t.strings, c))
    decreases |t.strings| - c.tsa, InFragment(t.strings, c)
  {
    NextInStream(t.strings, c);
    var n := Next(t.strings, c);
    if n.Some? {
      var (st, c1) := n.value;
      if st.chr == "<" {
        OpeningNotEmpty(t, c);
      } else if IsSpace(st.chr) {
        assert Consume(t, c, []) == Consume(t, c1, []);
        ConsumeNoElements(t, c1);
        if SpaceSteps(Rest(t.strings, c1)) {
          SpaceCons(st, Rest(t.strings, c1));
        }
      } else {
        assert Consume(t, c, []) == Failure(ExpectedTagOpening);
      }
    }
  }

  /** Wherever the top level stands, before or between elements, white space followed by
      a character that is neither `<` nor white space (or by an empty fragment) is rejected
      with `expectedTagOpening`. */
  lemma {:induction false} ConsumeRejects(t: Template, c: Cursor, items: seq<Element>, k: nat)
    requires CursorOk(t.strings, c)
    requires var rest := Rest(t.strings, c);
      && k < |rest| && (forall m :: 0 <= m < k ==> IsSpace(rest[m].chr))
      && rest[k].chr != "<" && !IsSpace(rest[k].chr)
    ensures Consume(t, c, items) == Failure(ExpectedTagOpening)
    decreases k
  {
    NextInStream(t.strings, c);
    var (st, c1) := Next(t.strings, c).value;
    if k > 0 {
      SpacePrefixShift(Rest(t.strings, c), st, Rest(t.strings, c1), k);
      ConsumeSpaceStep(t, c, items);
      ConsumeRejects(t, c1, items, k - 1);
    } else {
      assert Rest(t.strings, c)[0] == st;
    }
  }

  /** Likewise a top-level `<` that ends its fragment, after white space, is rejected with
      `noInsertInTagNames`: an interpolation may not open a tag name. */
  lemma {:induction false} ConsumeInsertedOpening(t: Template, c: Cursor, items: seq<Element>, k: nat)
    requires CursorOk(t.strings, c)
    requires var rest := Rest(t.strings, c);
      && k < |rest| && (forall m :: 0 <= m < k ==> IsSpace(rest[m].chr))
      && rest[k] == Step(true, "<")
    ensures Consume(t, c, items) == Failure(NoInsertInTagNames)
    decreases k
  {
    NextInStream(t.strings, c);
    var (st, c1) := Next(t.strings, c).value;
    if k > 0 {
      SpacePrefixShift(Rest(t.strings, c), st, Rest(t.strings, c1), k);
      ConsumeSpaceStep(t, c, items);
      ConsumeInsertedOpening(t, c1, items, k - 1);
    } else {
      assert Rest(t.strings, c)[0] == st;
    }
  }

  /** A stream of `k` white-space steps and then `rest[k]`, with its first step taken off. */
  lemma SpacePrefixShift(rest: seq<Step>, st: Step, rest1: seq<Step>, k: nat)
    requires rest == [st] + rest1 && 0 < k < |rest| && forall m :: 0 <= m < k ==> IsSpace(rest[m].chr)
    ensures IsSpace(st.chr) && rest1[k - 1] == rest[k]
    ensures forall m :: 0 <= m < k - 1 ==> IsSpace(rest1[m].chr)
  {
    assert rest[0] == st;
    assert forall m :: 0 <= m < k - 1 ==> rest1[m] == rest[m + 1];
  }

  /** A white-space step at the top level is skipped. */
  lemma ConsumeSpaceStep(t: Template, c: Cursor, items: seq<Element>)
    requires CursorOk(t.strings, c) && Next(t.strings, c).Some? && IsSpace(Next(t.strings, c).value.0.chr)
    ensures Consume(t, c, items) == Consume(t, Next(t.strings, c).value.1, items)
  {
    assert Next(t.strings, c).value.0.chr != "<";
  }

  /** The steps still to read from a cursor inside a fragment are its characters. */
  lemma RestAt(strings: seq<string>, j: nat, i: nat, m: nat)
    requires j < |strings| && i + m < |strings[j]|
    ensures CursorOk(strings, Cursor(j, i)) && m < |Rest(strings, Cursor(j, i))|
    ensures Rest(strings, Cursor(j, i))[m] == Step(i + m == |strings[j]| - 1, [strings[j][i + m]])
  {
    var x := StepsAfter(strings, j);
    assert x == FragmentSteps(strings[j]) + StepsAfter(strings, j + 1);
    assert x[i + m] == FragmentSteps(strings[j])[i + m];
  }

  // ---------------------------------------------------------------------------------
  // The shape of every parse result

  predicate ValidTagName(tag: string) {
    forall i :: 0 <= i < |tag| ==> IsTagNameChar([tag[i]])
  }

  /** An element as the parser builds it: a name of `[a-zA-Z0-9-]`, no listeners, and
      well-shaped children. */
  predicate ElementShape(e: Element)
    decreases e, 1
  {
    && ValidTagName(e.tag)
    && e.listeners == []
    && AllShaped(e.children)
  }

  predicate AllShaped(children: seq<Child>)
    decreases children, 0
  {
    forall i :: 0 <= i < |children| ==> ChildShape(children[i])
  }

  /** Text is never empty, state arguments never appear, and a nested element is wrapped
      in a one-element list. */
  predicate ChildShape(child: Child)
    decreases child
  {
    match child
    case TextChild(s) => s != ""
    case ItemChild(a) => a.Item?
    case NestedChild(es) => |es| == 1 && ElementShape(es[0])
  }

  lemma {:induction false} TagLoopShape(t: Template, c: Cursor, tag: string)
    requires CursorOk(t.strings, c) && ValidTagName(tag)
    requires ConsumeTagLoop(t, c, tag).Success?
    ensures ValidTagName(ConsumeTagLoop(t, c, tag).value.0.tag)
    decreases |t.strings| - c.tsa, InFragment(t.strings, c)
  {
    var n := NextOrEnd(t, c).value;
    var (st, c1) := n;
    if !IsSpace(st.chr) && st.chr != ">" {
      assert (tag + st.chr)[..|tag|] == tag;
      TagLoopShape(t, c1, tag + st.chr);
    }
  }

  /** A step that could stand in a tag name. */
  predicate TagNameStep(st: Step) {
    !st.insert && IsTagNameChar(st.chr)
  }

  /** The converse of `TagLoopShape`: after some tag-name characters, a character inside
      its fragment that is neither a tag-name character, white space nor `>` is rejected
      with `invalidCharacterInTagName` naming it. */
  lemma {:induction false} TagLoopRejects(t: Template, c: Cursor, tag: string, k: nat)
    requires CursorOk(t.strings, c)
    requires var rest := Rest(t.strings, c);
      && k < |rest| && (forall m :: 0 <= m < k ==> TagNameStep(rest[m]))
      && !rest[k].insert && !IsSpace(rest[k].chr) && rest[k].chr != ">" && !IsTagNameChar(rest[k].chr)
    ensures ConsumeTagLoop(t, c, tag) == Failure(InvalidCharacterInTagName(Rest(t.strings, c)[k].chr))
    decreases k
  {
    NextInStream(t.strings, c);
    var (st, c1) := Next(t.strings, c).value;
    if k > 0 {
      var rest := Rest(t.strings, c);
      assert TagNameStep(rest[0]) && rest[0] == st;
      assert !IsSpace(st.chr) && st.chr != ">";
      assert forall m :: 0 <= m < k - 1 ==> Rest(t.strings, c1)[m] == rest[m + 1];
      TagLoopRejects(t, c1, tag + st.chr, k - 1);
    }
  }

  /** `consumeWhitespace` fails only at the end of the input. */
  lemma {:induction false} WhitespaceError(t: Template, c: Cursor)
    requires CursorOk(t.strings, c)
    ensures ConsumeWhitespace(t, c).Failure? ==> ConsumeWhitespace(t, c).error == UnexpectedEnd
    decreases |t.strings| - c.tsa, InFragment(t.strings, c)
  {
    match Next(t.strings, c)
    case None =>
    case Some((st, c1)) =>
      if IsSpace(st.chr) {
        WhitespaceError(t, c1);
      }
  }

  /** Reading a quoted value never complains about a tag name. */
  lemma {:induction false} QuoteLoopError(t: Template, c: Cursor, text: string)
    requires CursorOk(t.strings, c)
    ensures QuoteLoop(t, c, text).Failure? ==> !QuoteLoop(t, c, text).error.InvalidCharacterInTagName?
    decreases |t.strings| - c.tsa, InFragment(t.strings, c)
  {
    match Next(t.strings, c)
    case None =>
    case Some((st, c1)) =>
      if !(!EndsWith(text, "\\") && st.chr == "\"") {
        var r := AppendInsertion(t, c1, text + st.chr, st.insert);
        if r.Success? {
          QuoteLoopError(t, c1, r.value);
        }
      }
  }

  /** Nor does reading attributes. */
  lemma {:induction false} AttributesLoopError(t: Template, c: Cursor, attrs: map<string, string>, name: string)
    requires CursorOk(t.strings, c)
    ensures AttributesLoop(t, c, attrs, name).Failure? ==> !AttributesLoop(t, c, attrs, name).error.InvalidCharacterInTagName?
    decreases |t.strings| - c.tsa, InFragment(t.strings, c)
  {
    WhitespaceError(t, c);
    var w := ConsumeWhitespace(t, c);
    if w.Success? {
      var (st, c1) := w.value;
      if st.chr == "/" {
        WhitespaceError(t, c1);
      } else if st.chr != "=" && st.chr != ">" {
        if !st.insert {
          AttributesLoopError(t, c1, attrs, name + st.chr);
        }
      } else if st.chr == "=" && name != "" {
        var v := AttributeValue(t, c1, st.insert);
        if !st.insert {
          WhitespaceError(t, c1);
          var q := ConsumeWhitespace(t, c1);
          if q.Success? && q.value.0.chr == "\"" {
            var text := AppendInsertion(t, q.value.1, "\"", q.value.0.insert);
            if text.Success? {
              QuoteLoopError(t, q.value.1, text.value);
            }
          }
        }
        if v.Success? {
          AttributesLoopError(t, v.value.1, attrs[name := v.value.0], "");
        }
      }
    }
  }

  /** And only such a character is ever named by `invalidCharacterInTagName`. */
  lemma {:induction false} TagLoopNames(t: Template, c: Cursor, tag: string)
    requires CursorOk(t.strings, c)
    ensures ConsumeTagLoop(t, c, tag).Failure? && ConsumeTagLoop(t, c, tag).error.InvalidCharacterInTagName? ==>
      var ch := ConsumeTagLoop(t, c, tag).error.chr;
      !IsTagNameChar(ch) && !IsSpace(ch) && ch != ">"
    decreases |t.strings| - c.tsa, InFragment(t.strings, c)
  {
    match Next(t.strings, c)
    case None =>
    case Some((st, c1)) =>
      if IsSpace(st.chr) {
        AttributesLoopError(t, c1, map[], "");
      } else if st.chr != ">" && !st.insert && IsTagNameChar(st.chr) {
        TagLoopNames(t, c1, tag + st.chr);
      }
  }

  lemma FlushShape(text: string, children: seq<Child>)
    requires AllShaped(children)
    ensures AllShaped(Flush(text, children))
  {
  }

  /** The insertion `getInsertion()` hands to `addArgToChildren` is never falsy, so
      what it appends is never an empty string. */
  lemma AddArgShape(t: Template, c: Cursor, children: seq<Child>)
    requires AllShaped(children)
    ensures AllShaped(AddArgToChildren(GetInsertion(t, c), children))
  {
    var arg := GetInsertion(t, c);
    if arg.Bool? || arg.Num? || arg.Str? {
      assert Stringify(arg) != "";
      var r := AddArgToChildren(arg, children);
      assert r == children + [TextChild(Stringify(arg))];
      assert ChildShape(r[|r| - 1]);
    }
  }

  lemma {:induction false} ProcessShape(t: Template, c: Cursor)
    requires CursorOk(t.strings, c)
    requires ProcessConsumption(t, c).Success?
    ensures ElementShape(ProcessConsumption(t, c).value.0)
    decreases |t.strings| - c.tsa, InFragment(t.strings, c), 2
  {
    var (head, c1) := ConsumeTag(t, c).value;
    TagLoopShape(t, c, "");
    if !head.selfClosing {
      ChildrenShape(t, c1, head.insertAfter);
    }
  }

  lemma {:induction false} ChildrenShape(t: Template, c: Cursor, afterTagInsert: bool)
    requires CursorOk(t.strings, c)
    requires ConsumeChildren(t, c, afterTagInsert).Success?
    ensures AllShaped(ConsumeChildren(t, c, afterTagInsert).value.0)
    decreases |t.strings| - c.tsa, InFragment(t.strings, c), 1
  {
    var children := if afterTagInsert then AddArgToChildren(GetInsertion(t, c), []) else [];
    if afterTagInsert {
      AddArgShape(t, c, []);
    }
    ChildrenLoopShape(t, c, "", children);
  }

  lemma {:induction false} ChildrenLoopShape(t: Template, c: Cursor, text: string, children: seq<Child>)
    requires CursorOk(t.strings, c) && AllShaped(children)
    requires ChildrenLoop(t, c, text, children).Success?
    ensures AllShaped(ChildrenLoop(t, c, text, children).value.0)
    decreases |t.strings| - c.tsa, InFragment(t.strings, c), 0
  {
    var (st, c1) := NextOrEnd(t, c).value;
    FlushShape(text, children);
    if st.chr == "<" {
      if Seek(t, c1).value != Some('/') {
        var (e, c2) := ProcessConsumption(t, c1).value;
        ProcessShape(t, c1);
        var next := Flush(text, children) + [NestedChild([e])];
        assert ChildShape(next[|next| - 1]);
        ChildrenLoopShape(t, c2, "", next);
      }
    } else {
      var text' := text + st.chr;
      if st.insert {
        FlushShape(text', children);
        AddArgShape(t, c1, Flush(text', children));
        ChildrenLoopShape(t, c1, "", AddArgToChildren(GetInsertion(t, c1), Flush(text', children)));
      } else {
        ChildrenLoopShape(t, c1, text', children);
      }
    }
  }

  /** `consume` keeps the elements already read, in order, and appends the new ones. */
  lemma {:induction false} ConsumeShape(t: Template, c: Cursor, items: seq<Element>)
    requires CursorOk(t.strings, c)
    requires forall i :: 0 <= i < |items| ==> ElementShape(items[i])
    requires Consume(t, c, items).Success?
    ensures items <= Consume(t, c, items).value
    ensures forall e :: e in Consume(t, c, items).value ==> ElementShape(e)
    decreases |t.strings| - c.tsa, InFragment(t.strings, c)
  {
    match Next(t.strings, c)
    case None =>
    case Some((st, c1)) =>
      if st.chr == "<" {
        var (e, c2) := ProcessConsumption(t, c1).value;
        ProcessShape(t, c1);
        ConsumeShape(t, c2, items + [e]);
      } else {
        ConsumeShape(t, c1, items);
      }
  }

  /** Every element `html` returns, at any depth, has a valid name and no listeners, and
      no child is an empty string or a state argument. */
  lemma HtmlShape(strings: seq<string>, values: seq<Arg>)
    requires Html(strings, values).Success?
    ensures forall e :: e in Html(strings, values).value ==> ElementShape(e)
  {
    ConsumeShape(Template(strings, values), Cursor(0, 0), []);
  }
}
