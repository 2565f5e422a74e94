/** `HTMLParser` of src/html.ts: a cursor over the template's fragments whose methods
    advance `tsaIdx`/`idx` step by step. Each method is proved to compute the
    corresponding function of module HtmlGrammar. */
module Html {
  import opened Wrappers
  import opened JsText
  import opened HtmlGrammar
  import JsonString

  /** A method's outcome agrees with a grammar function's: the same value with the cursor
      where the function leaves it, or the same error. */
  ghost predicate Agrees<X>(r: Result<X, ParseError>, c: Cursor, spec: Parsed<X>) {
    match spec
    case Success(p) => r == Success(p.0) && c == p.1
    case Failure(e) => r == Failure(e)
  }

  lemma NextIndex(i: nat, n: nat)
    requires i < n
    ensures (i + 1) % n == if i + 1 == n then 0 else i + 1
  {
  }

  class HtmlParser {
    const strings: seq<string>
    const values: seq<Arg>
    var tsaIdx: nat
    var idx: nat

    ghost function Tpl(): Template {
      Template(strings, values)
    }

    ghost function Cur(): Cursor
      reads this
    {
      Cursor(tsaIdx, idx)
    }

    ghost predicate Valid()
      reads this
    {
      CursorOk(strings, Cur())
    }

    /** The steps left in the current fragment. */
    ghost function Left(): nat
      reads this
      requires Valid()
    {
      InFragment(strings, Cur())
    }

    constructor(strings: seq<string>, values: seq<Arg>)
      ensures this.strings == strings && this.values == values
      ensures Valid() && Cur() == Cursor(0, 0)
    {
      this.strings := strings;
      this.values := values;
      tsaIdx := 0;
      idx := 0;
    }

    method Next() returns (n: Option<Step>)
      requires Valid()
      modifies this
      ensures Valid()
      ensures match HtmlGrammar.Next(strings, old(Cur()))
              case None => n.None? && Cur() == old(Cur())
              case Some(p) => n == Some(p.0) && Cur() == p.1
    {
      if tsaIdx >= |strings| {
        return None;
      }
      if |strings[tsaIdx]| == 0 {
        idx := 0;
        tsaIdx := tsaIdx + 1;
        return Some(Step(true, ""));
      }
      // a valid cursor never has `idx` past its fragment, so the source's second null
      // return is not reachable
      var templateStr := strings[tsaIdx];
      var value := [templateStr[idx]];
      NextIndex(idx, |templateStr|);
      idx := (idx + 1) % |templateStr|;
      tsaIdx := tsaIdx + if idx == 0 then 1 else 0;
      return Some(Step(idx == 0, value));
    }

    method Seek() returns (r: Result<Option<char>, ParseError>)
      ensures r == HtmlGrammar.Seek(Tpl(), Cur())
    {
      if tsaIdx >= |strings| {
        return Failure(SeekPastEnd);
      }
      if idx < |strings[tsaIdx]| {
        return Success(Some(strings[tsaIdx][idx]));
      }
      return Success(None);
    }

    method GetInsertion() returns (r: Arg)
      ensures r == HtmlGrammar.GetInsertion(Tpl(), Cur())
    {
      if 1 <= tsaIdx <= |values| && !Falsy(values[tsaIdx - 1]) {
        return values[tsaIdx - 1];
      }
      return Null;
    }

    method Consume() returns (r: Result<seq<Element>, ParseError>)
      requires Valid()
      modifies this
      ensures r == HtmlGrammar.Consume(Tpl(), old(Cur()), [])
    {
      var items: seq<Element> := [];
      while true
        invariant Valid()
        invariant HtmlGrammar.Consume(Tpl(), Cur(), items) == HtmlGrammar.Consume(Tpl(), old(Cur()), [])
        decreases |strings| - tsaIdx, Left()
      {
        var n := Next();
        if n.None? {
          break;
        }
        var st := n.value;
        if st.chr == "<" {
          if st.insert {
            return Failure(NoInsertInTagNames);
          }
          var e := ProcessConsumption();
          if e.Failure? {
            return Failure(e.error);
          }
          items := items + [e.value];
        } else if !IsSpace(st.chr) {
          return Failure(ExpectedTagOpening);
        }
      }
      return Success(items);
    }

    method ProcessConsumption() returns (r: Result<Element, ParseError>)
      requires Valid()
      modifies this
      ensures Valid()
      ensures Agrees(r, Cur(), HtmlGrammar.ProcessConsumption(Tpl(), old(Cur())))
      decreases |strings| - tsaIdx, Left(), 2
    {
      var head := ConsumeTag();
      if head.Failure? {
        return Failure(head.error);
      }
      var h := head.value;
      if h.selfClosing {
        return Success(Element(h.tag, h.attributes, [], []));
      }
      var children := ConsumeChildren(h.insertAfter);
      if children.Failure? {
        return Failure(children.error);
      }
      var endTag := ConsumeEndTag();
      if endTag.Failure? {
        return Failure(endTag.error);
      }
      if h.tag != endTag.value {
        return Failure(TagMismatch(h.tag, endTag.value));
      }
      return Success(Element(h.tag, h.attributes, children.value, []));
    }

    method ConsumeTag() returns (r: Result<TagHead, ParseError>)
      requires Valid()
      modifies this
      ensures Valid()
      ensures Agrees(r, Cur(), HtmlGrammar.ConsumeTag(Tpl(), old(Cur())))
    {
      var tag := "";
      while true
        invariant Valid()
        invariant ConsumeTagLoop(Tpl(), Cur(), tag) == HtmlGrammar.ConsumeTag(Tpl(), old(Cur()))
        decreases |strings| - tsaIdx, Left()
      {
        var n := Next();
        if n.None? {
          return Failure(UnexpectedEnd);
        }
        var st := n.value;
        if IsSpace(st.chr) {
          var a := ConsumeAttributes();
          if a.Failure? {
            return Failure(a.error);
          }
          return Success(TagHead(tag, a.value.attributes, a.value.selfClosing, a.value.insertAfter));
        }
        if st.chr == ">" {
          return Success(TagHead(tag, map[], false, st.insert));
        }
        if st.insert {
          return Failure(NoInsertInTagNames);
        }
        if !IsTagNameChar(st.chr) {
          return Failure(InvalidCharacterInTagName(st.chr));
        }
        tag := tag + st.chr;
      }
    }

    method ConsumeAttributes() returns (r: Result<AttrTail, ParseError>)
      requires Valid()
      modifies this
      ensures Valid()
      ensures Agrees(r, Cur(), HtmlGrammar.ConsumeAttributes(Tpl(), old(Cur())))
    {
      var attrs: map<string, string> := map[];
      var name := "";
      while true
        invariant Valid()
        invariant AttributesLoop(Tpl(), Cur(), attrs, name) == HtmlGrammar.ConsumeAttributes(Tpl(), old(Cur()))
        decreases |strings| - tsaIdx, Left()
      {
        var w := ConsumeWhitespace();
        if w.Failure? {
          return Failure(w.error);
        }
        var st := w.value;
        if st.chr == ">" {
          return Success(AttrTail(attrs, false, st.insert));
        }
        if st.chr == "/" {
          var w2 := ConsumeWhitespace();
          if w2.Failure? {
            return Failure(w2.error);
          }
          if w2.value.chr != ">" {
            return Failure(ExpectedTagClosing);
          }
          return Success(AttrTail(attrs, true, st.insert));
        }
        if st.chr != "=" {
          // still reading the name: white space never reaches this point
          if st.insert {
            return Failure(NoInsertInAttrNames);
          }
          name := name + st.chr;
          continue;
        }
        if name == "" {
          return Failure(ExpectedAttrName);
        }
        var value: string;
        if st.insert {
          var insertion := GetInsertion();
          if insertion.Null? || insertion.Undefined? {
            return Failure(NullInsertion);
          }
          value := Stringify(insertion);
        } else {
          var quoted := ConsumeStringQuote();
          if quoted.Failure? {
            return Failure(quoted.error);
          }
          value := quoted.value;
        }
        attrs := attrs[name := value];
        name := "";
      }
    }

    method ConsumeEndTag() returns (r: Result<string, ParseError>)
      requires Valid()
      modifies this
      ensures Valid()
      ensures Agrees(r, Cur(), HtmlGrammar.ConsumeEndTag(Tpl(), old(Cur())))
    {
      var w := ConsumeWhitespace();
      if w.Failure? {
        return Failure(w.error);
      }
      if w.value.chr != "/" {
        return Failure(ExpectedTagClosing);
      }
      if w.value.insert {
        return Failure(NoInsertInTagNames);
      }
      var name := "";
      var collected := false; // the source's `state == 1`
      while true
        invariant Valid()
        invariant EndTagLoop(Tpl(), Cur(), name, collected) == HtmlGrammar.ConsumeEndTag(Tpl(), old(Cur()))
        decreases |strings| - tsaIdx, Left()
      {
        var n := Next();
        if n.None? {
          return Failure(UnexpectedEnd);
        }
        var st := n.value;
        if st.chr == ">" {
          return Success(TrimEnd(name));
        }
        if st.insert {
          return Failure(NoInsertInTagNames);
        }
        if IsSpace(st.chr) {
          collected := true;
        }
        if !collected && !IsTagNameChar(st.chr) {
          return Failure(InvalidCharacterInTagName(st.chr));
        }
        name := name + st.chr;
      }
    }

    method ConsumeWhitespace() returns (r: Result<Step, ParseError>)
      requires Valid()
      modifies this
      ensures Valid()
      ensures Agrees(r, Cur(), HtmlGrammar.ConsumeWhitespace(Tpl(), old(Cur())))
      decreases |strings| - tsaIdx, Left()
    {
      var n := Next();
      if n.None? {
        return Failure(UnexpectedEnd);
      }
      if IsSpace(n.value.chr) {
        r := ConsumeWhitespace();
        return;
      }
      return Success(n.value);
    }

    method ConsumeStringQuote() returns (r: Result<string, ParseError>)
      requires Valid()
      modifies this
      ensures Valid()
      ensures Agrees(r, Cur(), HtmlGrammar.ConsumeStringQuote(Tpl(), old(Cur())))
    {
      var text := "";
      var w := ConsumeWhitespace();
      if w.Failure? {
        return Failure(w.error);
      }
      if w.value.chr != "\"" {
        return Failure(ExpectedQuote);
      }
      text := text + "\"";
      assert text == "\"";
      if w.value.insert {
        var insertion := GetInsertion();
        if insertion.Null? || insertion.Undefined? {
          return Failure(NullInsertion);
        }
        text := text + Stringify(insertion);
      }
      assert HtmlGrammar.AppendInsertion(Tpl(), Cur(), "\"", w.value.insert) == Success(text);
      while true
        invariant Valid()
        invariant QuoteLoop(Tpl(), Cur(), text) == HtmlGrammar.ConsumeStringQuote(Tpl(), old(Cur()))
        decreases |strings| - tsaIdx, Left()
      {
        var n := Next();
        if n.None? {
          return Failure(UnexpectedEnd);
        }
        var st := n.value;
        if !EndsWith(text, "\\") && st.chr == "\"" {
          break;
        }
        text := text + st.chr;
        if st.insert {
          var insertion := GetInsertion();
          if insertion.Null? || insertion.Undefined? {
            return Failure(NullInsertion);
          }
          text := text + Stringify(insertion);
        }
      }
      var decoded := JsonString.ParseLiteral(text + "\"");
      if decoded.None? {
        return Failure(InvalidJson);
      }
      return Success(decoded.value);
    }

    method ConsumeChildren(afterTagInsert: bool) returns (r: Result<seq<Child>, ParseError>)
      requires Valid()
      modifies this
      ensures Valid()
      ensures Agrees(r, Cur(), HtmlGrammar.ConsumeChildren(Tpl(), old(Cur()), afterTagInsert))
      decreases |strings| - tsaIdx, Left(), 1
    {
      var text := "";
      var children: seq<Child> := [];
      if afterTagInsert {
        var insertion := GetInsertion();
        children := AddArgToChildren(insertion, children);
      }
      while true
        invariant Valid()
        invariant NotBehind(strings, old(Cur()), Cur())
        invariant ChildrenLoop(Tpl(), Cur(), text, children)
                  == HtmlGrammar.ConsumeChildren(Tpl(), old(Cur()), afterTagInsert)
        decreases |strings| - tsaIdx, Left()
      {
        var n := Next();
        if n.None? {
          return Failure(UnexpectedEnd);
        }
        var st := n.value;
        if st.chr == "<" {
          var next := Seek();
          if next.Failure? {
            return Failure(next.error);
          }
          if next.value == Some('/') {
            break;
          }
          children := Flush(text, children);
          text := "";
          var e := ProcessConsumption();
          if e.Failure? {
            return Failure(e.error);
          }
          children := children + [NestedChild([e.value])];
          continue;
        }
        text := text + st.chr;
        if st.insert {
          children := Flush(text, children);
          text := "";
          var insertion := GetInsertion();
          children := AddArgToChildren(insertion, children);
        }
      }
      return Success(Flush(text, children));
    }
  }

  /** `html`: parse a template's fragments and interpolated values. */
  method ParseTemplate(strings: seq<string>, values: seq<Arg>) returns (r: Result<seq<Element>, ParseError>)
    ensures r == HtmlGrammar.Html(strings, values)
  {
    var parser := new HtmlParser(strings, values);
    r := parser.Consume();
  }
}
