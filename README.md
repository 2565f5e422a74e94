# postact core in Dafny

A model of the core of *postact*, a small TypeScript front-end library, with proofs about it.

**The tagged-template HTML parser** (`html` in src/html.ts) is the main part.
- A template is a list of literal fragments and a parallel list of interpolated values.
- A cursor of two indices walks the fragments one character at a time. Each step says whether an interpolation follows the character just read.
- Recursive-descent routines turn the steps into a list of `"virtual-element"` records, or stop at the first of the library's parse errors.

The parser takes two forms:
- `HtmlGrammar`: one pure function per routine of `HTMLParser`.
- `Html.HtmlParser`: a class with the parser's four fields. Its methods update the cursor in place, with the source's loops, and each is proved to compute its `HtmlGrammar` function.

`HtmlProperties` states what the grammar promises, for all inputs:
- the cursor visits each character of each fragment, in order;
- every fragment is flagged exactly once, on its last step;
- falsy insertions are dropped;
- every parsed element has a valid tag name, no listeners and well-shaped children.

`HtmlExamples` and `HtmlCases` compute the parser's result on whole families of templates:
- elements with attributes and text;
- mismatched end tags;
- self-closing tags;
- `/` written directly after a tag name;
- escaped quotes and interpolations inside quoted values;
- interpolated attribute values and children;
- each error of a start tag, and what may stand between top-level elements;
- nested elements;
- the five templates of the library's HTML tests.

The smaller cores sit beside the parser:
- `Structure` (src/vdom/structure.ts): the virtual-node sum type, its builders and its kind tests.
- `Routes` (src/routes.ts): matching a pattern with `:param` and `*` segments against a path. The loop fills the parameter map.
- `Css` (src/css.ts) and `CssUtil` (src/utilities/css.ts): camelCase to kebab-case property names with the `webkit` prefix, and the template and object forms of `css`.
- `Unescape` (src/utilities/unescape.ts): the five-entity table and the one-pass replacement.
- `Subscribable`, `Dependent`, `State` and `Internals`: the subscriber registry, the derived value, the state cell and the `Maybe` box. Each is a class whose methods change its fields.

Helper modules:
- `JsText` models the JavaScript string built-ins the core uses: `\s`, `trimStart`, `trimEnd`, `trim`, `startsWith`, `endsWith`, ASCII case mapping and integer `toString`.
- `JsonString` decodes the bodies of JSON string literals.
- `Wrappers` holds `Option` and `Result`.

## Model

| member | source | states |
|---|---|---|
| HtmlGrammar.IdentifyArgument | src/html.ts:20-32 | null and undefined are Empty; a state object is State even though the primitive test comes after; booleans, numbers and strings are Text; every other object is VirtualItem — each in both directions |
| HtmlGrammar.Next | src/html.ts:91-109 | `next()` returns null exactly when every fragment is used; otherwise the cursor strictly advances and stays valid |
| HtmlGrammar.NextInStream | src/html.ts:91-109 | one call of `next()` consumes exactly the first step of the remaining step stream, and returns null exactly when that stream is empty |
| HtmlGrammar.NextOrEnd | src/html.ts:178 | `this.next()!` fails only with the error of destructuring null, and otherwise advances |
| HtmlGrammar.Stringify | src/html.ts:353 | `toString()` of a string is the string itself; of a non-negative number, digits that denote it; of a negative one, `-` and the digits of its magnitude; of a boolean, `true` exactly for true and `false` exactly for false |
| JsText.IntToStringValue | src/html.ts:353 | an integer's text reads back as the integer: its digits, after a `-` for a negative one, denote its magnitude |
| HtmlGrammar.ParseError.Message | src/html.ts:34-71 | the message of `invalidCharacterInTagName(chr)` starts with `chr`; that of `tagMismatch(s, e)` holds `s` after the fixed prefix and ends with `e` and a backtick |
| HtmlGrammar.CharMessage | src/html.ts:47-49 | the message is the character followed by the fixed reason |
| HtmlGrammar.MismatchMessage | src/html.ts:67-71 | the message is the fixed prefix, the starting tag, the text between the names, then the closing tag and a backtick |
| HtmlGrammar.MessageDetermines | src/html.ts:34-71 | two errors with the same message are the same error, with their arguments, whenever the starting tag of a mismatch holds no backtick (no tag name does) |
| HtmlGrammar.CharDetermines | src/html.ts:47-49 | the message of an invalid character determines the character |
| HtmlGrammar.MismatchDetermines | src/html.ts:67-71 | the message of a mismatch between backtick-free starting tags determines both tags |
| HtmlGrammar.MismatchAmbiguous | src/html.ts:67-71 | without that proviso two different mismatches can share a message: starting tags ``a` and `b`` and `a`, with closing tags `c` and ``b` and `c`` |
| HtmlGrammar.ConsumeWhitespace | src/html.ts:280-284 | the step returned is never white space, and the cursor has advanced |
| HtmlGrammar.AddArgToChildren | src/html.ts:347-364 | empty and state arguments leave the children unchanged; a primitive appends its string; any other object is appended unchanged |
| HtmlGrammar.ProcessConsumption | src/html.ts:143-169 | a parsed element leaves the cursor strictly further on (the termination measure of the mutual recursion) |
| Html.HtmlParser.constructor | src/html.ts:80-85 | the parser holds the template and starts at fragment 0, index 0 |
| Html.HtmlParser.Next | src/html.ts:91-109 | updates the two cursor fields exactly as `HtmlGrammar.Next` says and returns its step; at the end the cursor is unchanged |
| Html.HtmlParser.Seek | src/html.ts:115-117 | the character under the cursor in the current fragment, or none at its end |
| HtmlGrammar.SeekNext | src/html.ts:91-117 | `seek()` fails, by indexing the missing fragment, exactly when `next()` returns null; it sees nothing exactly when `next()` reads the empty step of an empty fragment; otherwise it sees the character `next()` reads |
| HtmlGrammar.SeekAfterFlag | src/html.ts:105-117 | after the step that ends a fragment, `seek()` looks at the first character of the next fragment, or at nothing, or at the end of the input |
| Html.HtmlParser.GetInsertion | src/html.ts:119-121 | the value after the fragment just finished, with falsy values read as null |
| Html.HtmlParser.Consume | src/html.ts:123-141 | the top-level loop yields exactly `HtmlGrammar.Consume` |
| Html.HtmlParser.ProcessConsumption | src/html.ts:143-169 | result and final cursor agree with `HtmlGrammar.ProcessConsumption` |
| Html.HtmlParser.ConsumeTag | src/html.ts:175-194 | the tag-name loop agrees with `HtmlGrammar.ConsumeTag` in result and cursor |
| Html.HtmlParser.ConsumeAttributes | src/html.ts:200-250 | the attribute loop agrees with `HtmlGrammar.ConsumeAttributes` in result and cursor |
| Html.HtmlParser.ConsumeEndTag | src/html.ts:252-278 | the end-tag loop agrees with `HtmlGrammar.ConsumeEndTag` in result and cursor |
| Html.HtmlParser.ConsumeWhitespace | src/html.ts:280-284 | agrees with `HtmlGrammar.ConsumeWhitespace` in result and cursor |
| Html.HtmlParser.ConsumeStringQuote | src/html.ts:286-303 | the quoted-value loop agrees with `HtmlGrammar.ConsumeStringQuote` in result and cursor |
| Html.HtmlParser.ConsumeChildren | src/html.ts:305-344 | the children loop agrees with `HtmlGrammar.ConsumeChildren` in result and cursor |
| Html.ParseTemplate | src/html.ts:366-372 | `html(tsa, ...values)` returns exactly `HtmlGrammar.Html(strings, values)` |
| Html.NextIndex | src/html.ts:105-106 | `(idx + 1) % length` is 0 exactly on the last character of a fragment |
| HtmlProperties.DrainFrom | src/html.ts:91-109 | calling `next()` until it returns null yields exactly the remaining step stream from any cursor |
| HtmlProperties.DrainAll | src/html.ts:91-109 | from the start, `next()` yields every step of every fragment, in order |
| HtmlProperties.SpellFragment | src/html.ts:94-108 | the characters read from one fragment spell that fragment |
| HtmlProperties.SpellAllSteps | src/html.ts:91-109 | the characters of all the steps spell the concatenation of the fragments: nothing is skipped or repeated |
| HtmlProperties.OneFlagPerFragment | src/html.ts:94-108 | exactly one step per fragment carries the insertion flag |
| HtmlProperties.FragmentEndFlagged | src/html.ts:94-108 | the flagged step of a fragment is its last character, or the single empty step of an empty fragment |
| HtmlProperties.InsertionAfterFlag | src/html.ts:105-121 | after a flagged step the cursor is in the next fragment, and `getInsertion()` gives the value that follows the finished fragment, or null when it is falsy or absent |
| HtmlProperties.FalsyInsertionDropped | src/html.ts:119-121 | null, undefined, `false`, `0` and `""` read as null and add no child |
| HtmlProperties.TagLoopShape | src/html.ts:175-194 | every tag name the parser accepts consists of `[a-zA-Z0-9-]` |
| HtmlProperties.TagLoopRejects | src/html.ts:177-193 | conversely, after any run of tag-name characters, the first character that is not one of them, not white space and not `>` is rejected, and `invalidCharacterInTagName` names exactly it |
| HtmlProperties.TagLoopNames | src/html.ts:177-193 | `invalidCharacterInTagName(ch)` is only ever raised for a `ch` that is not a tag-name character, not white space and not `>` |
| HtmlProperties.WhitespaceError | src/html.ts:280-284 | `consumeWhitespace` fails only at the end of the input |
| HtmlProperties.QuoteLoopError | src/html.ts:286-303 | reading a quoted value never raises `invalidCharacterInTagName` |
| HtmlProperties.AttributesLoopError | src/html.ts:200-250 | reading attributes never raises `invalidCharacterInTagName` |
| HtmlProperties.EndTagLoopErrors | src/html.ts:265-277 | the loop of `consumeEndTag` after the `/` never raises `expectedTagClosing` |
| HtmlProperties.ChildrenStopAtSlash | src/html.ts:305-344 | the children loop returns only where `seek()` sees a `/` |
| HtmlProperties.EndTagAfterChildren | src/html.ts:252-255 | after the children, `consumeEndTag` never fails with `expectedTagClosing` |
| HtmlProperties.SpaceStepsAppend | src/html.ts:132-137 | a joined step list is all white space exactly when both parts are |
| HtmlProperties.FragmentBlank | src/html.ts:91-109 | a fragment's steps are all white space exactly when the fragment is non-empty white space |
| HtmlProperties.BlankSteps | src/html.ts:91-109 | the steps of the fragments from `k` on are all white space exactly when each of those fragments is non-empty white space |
| HtmlProperties.ConsumeSpaces | src/html.ts:123-141 | from any cursor, white-space steps alone add no element and end the loop with the elements read so far |
| HtmlProperties.ConsumeLonger | src/html.ts:123-141 | the loop of `consume` never drops an element |
| HtmlProperties.ConsumeOpening | src/html.ts:132-134 | a top-level `<` followed by a parsed element appends that element and continues after it |
| HtmlProperties.OpeningNotEmpty | src/html.ts:132-134 | a top-level `<` never ends in an empty success |
| HtmlProperties.ConsumeNoElements | src/html.ts:123-141 | conversely, a loop that ends with no element has read only white space |
| HtmlProperties.ConsumeRejects | src/html.ts:132-137 | from any place at the top level, before or between elements, white space then a character that is neither `<` nor white space is rejected with `expectedTagOpening` |
| HtmlProperties.ConsumeInsertedOpening | src/html.ts:132-133 | from any place at the top level, white space then a `<` that ends its fragment is rejected with `noInsertInTagNames` |
| HtmlProperties.RestAt | src/html.ts:94-108 | the steps still to read from a cursor inside a fragment are its characters, the last one flagged |
| HtmlProperties.FlushShape | src/html.ts:320-342 | flushed text is never empty |
| HtmlProperties.AddArgShape | src/html.ts:347-364 | an added argument is never a state object |
| HtmlProperties.ProcessShape | src/html.ts:143-169 | every parsed element has a valid tag name, no listeners and well-shaped children |
| HtmlProperties.ChildrenShape | src/html.ts:305-344 | children are non-empty strings, object arguments, or one-element lists holding a well-shaped element |
| HtmlProperties.ChildrenLoopShape | src/html.ts:311-343 | the children loop keeps the children well-shaped |
| HtmlProperties.ConsumeShape | src/html.ts:123-141 | the top-level loop only appends: earlier elements are a prefix of the result, and all are well-shaped |
| HtmlProperties.HtmlShape | src/html.ts:366-372 | every element of a successful parse is well-shaped |
| HtmlExamples.ConsumeOne | src/html.ts:123-141 | a template that is one element after `<` gives that element alone, or that element's error |
| HtmlExamples.ElementProcess | src/html.ts:143-278 | `<a ATTRS>T</b>` read after `<` gives the element with the double-quoted attributes and trimmed text when `a == b`, and `tagMismatch(a, b)` otherwise |
| HtmlExamples.HtmlElement | src/html.ts:143-344 | for every valid pair of names, list of double-quoted attributes and text without `<`: `<a ATTRS>T</b>` gives one element with those attributes (a later name overriding an earlier one) and the text trimmed at the start, or `tagMismatch(a, b)` |
| HtmlExamples.PlainLiteral | src/html.ts:286-303 | a value between double quotes with no quote, backslash or control character is stored as exactly its raw characters |
| HtmlCases.PlainH1 | tests/html.test.ts:14-18 | `<h1>h1</h1>` gives one `h1` element with the text child `h1` |
| HtmlCases.WithId | tests/html.test.ts:20-24 | `<h1 id="123"></h1>` gives one `h1` with attribute `id = 123` and no children |
| HtmlCases.QuotesText | tests/html.test.ts:26-36 | the element with `onclick` and `data1` attributes keeps both attributes and its text, `""` in the third test and `"` in the fourth |
| HtmlCases.QuotedText | src/html.ts:305-344 | any non-empty text of quotes in that element is kept verbatim |
| HtmlCases.EscapedQuoteStep | src/html.ts:294-298 | a `\"` inside a quoted value does not end it: both characters join the text |
| HtmlCases.QuoteAfterBackslash | src/html.ts:294-298 | a `"` read while the text ends with a backslash joins the text |
| HtmlCases.QuoteEscaped | src/html.ts:286-303 | in any fragment, a quoted value `"x\"y"` of plain characters is read up to its last quote and stored as `x"y` |
| HtmlCases.EscapedLiteral | src/html.ts:302 | the text `"x\"y` does not end with a backslash, and `JSON.parse` of `"x\"y"` gives `x"y` |
| HtmlCases.EscapedQuoteValue | src/html.ts:286-303 | `<a k="x\"y"></a>` gives `a` with `k` holding `x"y` |
| HtmlCases.QuoteControl | src/html.ts:294-302 | the loop of `consumeStringQuote` over a value with no quote or backslash but a control character fails with `invalidJson` |
| HtmlCases.ControlCharFamily | src/html.ts:286-302 | for every valid tag name, attribute name and value with no quote or backslash that holds a control character (a tab, a line break), `<a k="v"…` is rejected with `invalidJson` |
| HtmlCases.TabInValue | src/html.ts:286-302 | `<a k="x<TAB>y"></a>` is rejected with `invalidJson` |
| HtmlCases.InsertedInQuote | src/html.ts:294-302 | in `<a k="x${v}y"></a>` the text of `v` is spliced into the quoted value before `JSON.parse`: a falsy `v` fails with the null dereference, otherwise the result is `a` with `k` holding the parse of `"x` + text + `y"`, or `invalidJson` |
| HtmlCases.InsertedPlainInQuote | src/html.ts:286-303 | a non-empty plain string `v` there is stored as `x` + `v` + `y` |
| HtmlCases.SingleQuotedFamily | src/html.ts:286-289 | any `<a k='…` is rejected with `expectedQuote` |
| HtmlCases.SingleQuoted | tests/html.test.ts:38-42 | the test's template `<h1 id='123' data1="123"></h1>` is rejected with `expectedQuote` |
| HtmlCases.SelfClosing | src/html.ts:147-217 | `<a />` gives one element with no attributes and no children |
| HtmlCases.InvalidTagChar | src/html.ts:178-190 | for every valid name `a`, every character `x` outside `[a-zA-Z0-9-]`, white space and `>`, and anything after it in any number of fragments, `<a` + `x` is rejected with `invalidCharacterInTagName(x)` |
| HtmlCases.SlashInA | src/html.ts:189-190 | `<a/>` in particular is rejected with `invalidCharacterInTagName("/")` |
| HtmlCases.InsertedTagName | src/html.ts:132-187 | a first fragment `<a`, with `a` any valid name, is rejected with `noInsertInTagNames` whatever follows: by `consume` when `a` is empty, by the tag loop otherwise |
| HtmlCases.EmptyAttrName | src/html.ts:211-223 | an `=` with no attribute name before it is rejected with `expectedAttrName`, whatever follows |
| HtmlCases.InsertedAttrName | src/html.ts:220-229 | a fragment ending inside an attribute name is rejected with `noInsertInAttrNames`, whatever follows |
| HtmlCases.SlashNotClosing | src/html.ts:214-216 | a `/` among the attributes followed by a character that is neither white space nor `>` is rejected with `expectedTagClosing` |
| HtmlCases.NotAnOpening | src/html.ts:132-137 | a template whose first fragment is white space and then a character that is neither `<` nor white space is rejected with `expectedTagOpening`, whatever follows |
| HtmlCases.EmptyFirst | src/html.ts:132-137 | a template whose first fragment is empty is rejected with `expectedTagOpening` |
| HtmlCases.RejectedFrom | src/html.ts:132-137 | inside a fragment, white space and then a character that is neither `<` nor white space is rejected at the top level |
| HtmlCases.AfterElement | src/html.ts:123-141 | after a complete element `<a />`, white space and then a character that is neither `<` nor white space is rejected with `expectedTagOpening` |
| HtmlCases.OnlySpace | src/html.ts:123-141 | a template gives no elements exactly when every fragment is non-empty white space |
| HtmlCases.AttrInsertion | src/html.ts:234-238 | when `=` ends a fragment, the attribute's value is the insertion's string; a falsy insertion fails with the null dereference |
| HtmlCases.ChildInsertion | src/html.ts:309-338 | an interpolation after `<a>` adds the argument's child as `addArgToChildren` does |
| HtmlCases.ChildString | src/html.ts:352-354 | a non-empty string interpolated as a child becomes that text child |
| HtmlCases.ChildState | src/html.ts:356-358 | a state interpolated as a child leaves no child |
| HtmlCases.Nested | src/html.ts:319-325 | `<a><b>x</b></a>` gives `a` whose only child is a one-element list holding `b` |
| JsText.TrimStartSpec | src/html.ts:320 | `trimStart` drops exactly the leading white space and keeps the rest verbatim |
| JsText.TrimEndSpec | src/html.ts:268 | `trimEnd` drops exactly the trailing white space and keeps the rest verbatim |
| JsText.TrimSpec | src/utilities/css.ts:10-12 | `trim` leaves no white space at either end |
| JsText.ToUpper | src/css.ts:15 | a lower-case ASCII letter maps to its upper-case letter, 32 code points lower, and every other character to itself |
| JsText.ToLower | src/css.ts:16 | an upper-case ASCII letter maps to its lower-case letter, 32 code points higher, and every other character to itself |
| JsText.NatToString | src/html.ts:353 | a number's decimal text is non-empty, made of digits, and has no leading zero |
| JsText.NatToStringValue | src/html.ts:353 | the digits written denote the number: reading them back gives it |
| JsText.IntToString | src/html.ts:353 | an integer's text is never empty |
| JsonString.Decode | src/html.ts:302 | a decoded JSON string body is never longer than the body |
| JsonString.DecodePlain | src/html.ts:302 | a body without quotes, backslashes or control characters decodes to itself |
| JsonString.EscapedQuoteIn | src/html.ts:296-302 | for all bodies `x` and `y` without quotes, backslashes or control characters, `x\"y` decodes to `x"y` |
| JsonString.EscapedQuote | src/html.ts:296-302 | `"a\"b"` decodes to `a"b` |
| JsonString.RawQuoteRejected | src/html.ts:302 | a raw `"` inside the body makes `JSON.parse` fail |
| JsonString.ControlCharRejected | src/html.ts:302 | a raw control character (below U+0020) inside the body makes `JSON.parse` fail |
| Structure.IsVe | src/vdom/structure.ts:17-19 | true exactly for elements |
| Structure.IsVf | src/vdom/structure.ts:28-30 | true exactly for fragments |
| Structure.IsVtn | src/vdom/structure.ts:53-55 | true exactly for text nodes |
| Structure.CreateVf | src/vdom/structure.ts:35-44 | a fragment with exactly the given children and subscribable, and no other kind |
| Structure.CreateVtn | src/vdom/structure.ts:60-69 | a text node with exactly the given data and subscribable, and no other kind |
| Structure.AtMostOneKind | src/vdom/structure.ts:71-75 | at most one kind test holds for an item, and none holds exactly for `null` |
| Routes.Split | src/routes.ts:42-43 | `split("/")` yields at least one segment |
| Routes.SplitJoin | src/routes.ts:42-43 | joining the segments with `/` gives the string back |
| Routes.SplitNoSlash | src/routes.ts:42-43 | no segment contains `/` |
| Routes.Route | src/routes.ts:36-69 | the loop computes exactly the match outcome: the handler is called at most once, with the captured parameters |
| Routes.MatchFrom | src/routes.ts:46-68 | a call keeps every parameter captured before it, and each parameter it adds is non-empty |
| Routes.MatchPassed | src/routes.ts:46-63 | passing accepted segments only accumulates captured parameters |
| Routes.CaptureLiterals | src/routes.ts:60-62 | literal segments capture nothing |
| Routes.CaptureParam | src/routes.ts:52-55 | the last `:name` segment captures the decoded path segment at its index, which is never empty |
| Routes.CaptureKeeps | src/routes.ts:52-55 | a parameter is kept until a later segment of the same name overwrites it |
| Routes.LiteralRoute | src/routes.ts:60-65 | with no `:` or `*` segments the handler is called, with no parameters, exactly when the decoded path equals the pattern segment for segment |
| Routes.FirstMismatch | src/routes.ts:60-62 | the first index where a literal pattern and the path differ, with everything before it equal |
| Routes.Wildcard | src/routes.ts:56-59 | reaching `*` calls the handler at once, with only the parameters captured before it |
| Routes.EmptyParam | src/routes.ts:52-53 | an empty path segment at a `:param` means no call |
| Routes.FullMatch | src/routes.ts:52-68 | a path that passes every segment of a pattern of the same length calls the handler with each captured parameter |
| Routes.LengthMismatch | src/routes.ts:47-65 | without a `*` reached, paths and patterns of different lengths never call the handler, even when the pattern's extra segment is `*` |
| Css.PieceCases | src/css.ts:15-19 | a lower-case letter is copied; every other character becomes `-` and its lower-case form |
| Css.GetName | src/css.ts:7-29 | the loop computes the property name for the key |
| Css.KebabAppend | src/css.ts:11-22 | the conversion works character by character, so it distributes over concatenation |
| Css.KebabCons | src/css.ts:11-22 | the first character converts alone, in front of the rest |
| Css.CamelKebab | src/css.ts:11-22 | the conversion loses nothing: undoing the dashes gives the key back |
| Css.KebabNoUpper | src/css.ts:15-16 | the converted text has no upper-case ASCII letter |
| Css.KebabLowerPrefix | src/css.ts:24 | the converted text starts with a lower-case prefix exactly when the key does |
| Css.KebabLower | src/css.ts:11-22 | an all-lower-case key converts to itself |
| Css.WebkitPrefix | src/css.ts:24-28 | a `webkit…` key gets exactly one `-` in front, other keys none, and no name has an upper-case ASCII letter |
| Css.FontSize | src/css.ts:7-29 | `fontSize` becomes `font-size` |
| Css.Renamed | src/css.ts:54-55 | each entry's key is converted and its value kept, in order |
| Css.ObjectForm | src/css.ts:51-58 | the object form concatenates `name: value;` per entry in order, with converted names, and `{}` gives `""` |
| Css.TemplateForm | src/css.ts:44-50 | the template form is the trimmed template text followed by `undefined` |
| Css.TemplateAlwaysDiffers | src/css.ts:47-49 | for every template the `inner` text differs from the trimmed template text, and `color: red;` gives `color: red;undefined` |
| Css.Css | src/css.ts:40-60 | the template form is the `css` of the utility; the object form is its object form over the entries with converted keys; both come wrapped in a `CSSPaper` |
| CssUtil.ReducedInterleave | src/utilities/css.ts:10-11 | the reduction spells the template with `args[idx]` after each fragment, `undefined` after the last |
| CssUtil.TrimStartAppend | src/utilities/css.ts:12 | trimming a text that ends in non-space characters keeps those characters |
| CssUtil.TemplateForm | src/utilities/css.ts:9-12 | the result is the template text, trimmed at the start, followed by `undefined`; it has no leading white space |
| CssUtil.TemplateQuirk | src/utilities/css.ts:9-12 | the template `color: red;` gives `color: red;undefined`, where the trimmed text is `color: red;` |
| CssUtil.IntendedTemplateCss | src/utilities/css.ts:9-12 | the trimmed template text, with no white space at either end |
| CssUtil.TemplateAlwaysDiffers | src/utilities/css.ts:9-12 | for every template, the result differs from the trimmed template text |
| CssUtil.Css | src/utilities/css.ts:5-19 | the template form has no white space at either end; `{}` gives `""`; a non-empty object form ends with `;` |
| CssUtil.DeclarationsAppend | src/utilities/css.ts:14-17 | the declarations of joined entry lists are the declarations of each, in order |
| CssUtil.ObjectForm | src/utilities/css.ts:13-18 | `{}` gives `""`, one entry gives `k: v;` with the key verbatim, and entries concatenate in order |
| Unescape.EntityAt | src/utilities/unescape.ts:10-18 | an entity is found exactly when the text starts with one of the table's five, and then it is that one; a text not starting with `&` has none |
| Unescape.ReplaceEntities | src/utilities/unescape.ts:26-29 | the replacement never lengthens the text |
| Unescape.Unescape | src/utilities/unescape.ts:24-31 | the result is never longer than the text, and a text without any entity comes back unchanged |
| Unescape.UnescapeIsScan | src/utilities/unescape.ts:24-31 | the guard changes nothing: a text without any of the five entities, `""` included, comes back unchanged, and no result is longer than its input |
| Unescape.Entities | src/utilities/unescape.ts:10-16 | each of the five entities becomes its character |
| Unescape.SinglePass | src/utilities/unescape.ts:18-29 | `&amp;lt;` becomes `&lt;`, and a second call gives `<`: one pass, not idempotent |
| Unescape.OtherEntity | src/utilities/unescape.ts:18 | `&nbsp;` is left untouched |
| Unescape.ReplaceNoAmp | src/utilities/unescape.ts:26-29 | a text without `&` is copied |
| Unescape.UnescapeEscape | src/utilities/unescape.ts:10-16 | unescaping inverts the escaping the table undoes, for every string |
| Subscribable.CallsCount | src/subscribable.ts:62 | each subscriber is called as many times as it occurs in the registry |
| Subscribable.AddedSpec | src/subscribable.ts:52-54 | subscribing keeps the registry duplicate-free, is idempotent, and leaves a present subscriber in its place |
| Subscribable.Removed | src/subscribable.ts:56-58 | after removal exactly the other subscribers remain |
| Subscribable.RemovedAbsent | src/subscribable.ts:56-58 | removing an absent subscriber changes nothing |
| Subscribable.RemovedOne | src/subscribable.ts:56-58 | removing a subscriber keeps the others in order |
| Subscribable.RemovedNoDuplicates | src/subscribable.ts:56-58 | removal keeps the registry duplicate-free |
| Subscribable.AddedRemoved | src/subscribable.ts:52-58 | subscribing a new subscriber and unsubscribing it restores the registry |
| Subscribable.BaseSubscribable.constructor | src/subscribable.ts:47-50 | the value is the initial one and there are no subscribers |
| Subscribable.BaseSubscribable.Subscribe | src/subscribable.ts:52-54 | the registry gains the subscriber at the end unless present, and the value is unchanged |
| Subscribable.BaseSubscribable.Unsubscribe | src/subscribable.ts:56-58 | the registry loses exactly that subscriber, and the value is unchanged |
| Subscribable.BaseSubscribable.SetValue | src/subscribable.ts:5-9 | assigning the value changes no subscriber and makes no call |
| Subscribable.BaseSubscribable.Emit | src/subscribable.ts:60-63 | one call per subscriber, in subscription order, each with the value read when `emit` began |
| Dependent.Dependent.constructor | src/dependent.ts:10-20 | the value is `gen(source.value)`, there are no subscribers, and the handler is appended to the source's subscribers, the only change to the source |
| Dependent.Dependent.Value | src/dependent.ts:22-24 | the value read is `gen` of the source value last seen |
| Dependent.Dependent.OnSourceChange | src/dependent.ts:15-19 | the value becomes `gen(current)` and every subscriber, in push order, is called with it |
| Dependent.Dependent.Subscribe | src/dependent.ts:26-28 | the subscriber is appended, duplicates included |
| Dependent.DuplicateSubscriber | src/dependent.ts:18-28 | a subscriber pushed twice is called twice more per notification |
| State.State.constructor | src/state.ts:15-17 | the value is the default value |
| State.State.Update | src/state.ts:9-24 | a non-function sets the value; a function sets it to the function of the previous value |
| Internals.Maybe.constructor | src/_internals.ts:7-10 | the box holds the given flag and value |
| Internals.Maybe.Unwrap | src/_internals.ts:12-17 | an error exactly when the box is empty, otherwise the stored value |
| Internals.Maybe.IsNone | src/_internals.ts:19-21 | true exactly when `unwrap()` fails |
| Internals.Maybe.Replace | src/_internals.ts:23-26 | whatever the state before, the box is full and `unwrap()` gives the new value |
| Internals.Maybe.MakeNone | src/_internals.ts:28-30 | `Maybe.none()` is empty and `unwrap()` fails on it |
| Internals.Maybe.MakeSome | src/_internals.ts:32-34 | `Maybe.some(v).unwrap()` gives `v` |

## Left out

- src/html.ts never calls `unescape`, so text children are kept as written.
- The `"true"` attribute default of src/html.ts:246-248 is unreachable. `consumeWhitespace` never returns a white-space character, so the branch for white space after a name never runs. The attribute loop stores names only before `=`.
- `JSON.parse` of a quoted value is modelled as a decoder of JSON string bodies. A `\u` escape that names a surrogate code point fails, because Dafny characters cannot hold one.
- JsonString.Decode: its own contract only bounds the length of the result. Exact results are proved for bodies with no quote, backslash or control character (`DecodePlain`), for an escaped quote (`EscapedQuoteIn`), and for rejection at a raw quote or control character (`RawQuoteRejected`, `ControlCharRejected`).
- HtmlGrammar.ParseError.Message: the four errors the source raises through the JavaScript engine carry V8's texts. For `InvalidJson` the text is a stand-in: `JSON.parse` names the offending token and its position, which the model does not compute.
- `toString()` of an object argument is an input (`shown`). `toString()` of a number is modelled for integers only. Floating-point numbers, `NaN` and `-0` are not modelled.
- JsText.IntToString: holds for integers below 1e21 in magnitude only; JavaScript writes larger ones in exponent form (`1e+21`), which the model does not.
- Strings are sequences of Unicode scalar values, not of UTF-16 code units. A character outside the Basic Multilingual Plane is one character here, but two in JavaScript. So `getName` (src/css.ts:11-12) converts it as one, and `next()` (src/html.ts:101-102) reads it as one step, so that `invalidCharacterInTagName` names the whole character rather than its first half.
- The key `__proto__` is not special. A plain JavaScript object ignores an assignment to it, as in the attribute map (src/html.ts:237) and the route parameters (src/routes.ts:55), while the model's maps store it.
- `\s` is the ECMAScript set of white space and line terminators. Case mapping (`toUpperCase`, `toLowerCase`) is ASCII only: other letters map to themselves.
- Routes: `window.location.pathname` and `decodeURIComponent` are inputs. A decoder failure becomes the `UriError` outcome. `ensureWindow` is a runtime check and is not modelled. The handler becomes the outcome it is called with.
- The `ExtractRouteParams` type of src/routes.ts exists only at compile time and is not modelled.
- `Object.entries` order is taken as the order of the entry list given to `css`.
- The `CSSPaper` tag `__p` is not modelled: the result is the `inner` string in a `CssPaper` value.
- Subscribers are abstract identities. A notification is the returned sequence of calls, so callbacks do not run, and re-entrant subscribing or unsubscribing during `emit` is not modelled.
- `gen` of Dependent is a pure function. The source of a Dependent is a `BaseSubscribable`: src/state.ts's `State` has no `subscribe`, yet src/dependent.ts:15 calls it.
- `DependentLater` and `dependent.later` (src/dependent.ts:75-128) resolve promises and are not modelled. The `_dependent`/`dependent` entry functions only call the constructor.
- State.State.Update: `Set(v)` stands for a non-function argument, and `Dispatch(f)` for a function, which is always read as an updater. When `T` is itself a function type the model could still store one by `Set`. The source never can, and the model does not rule this out.
- `isPostact` and `PostactIdentifier` are imported from src/_internals.ts, which does not define them in this snapshot. The kind tests of `Structure` compare the `__p` tag.
- src/vdom/client.ts, src/transcribe.ts, src/utilities.ts, src/utilities/select.ts and src/later.ts drive the live DOM or promises and are not part of this model.
- The `expectedTagClosing` check of src/html.ts:254-255 (an end tag without `/`) cannot fire after the children, because they stop only where `seek()` sees `/`. `HtmlProperties.EndTagAfterChildren` proves this.
- The fifth HTML test (tests/html.test.ts:38-42) expects the text `'`. The parser rejects the template with `expectedQuote`; `HtmlCases.SingleQuoted` proves this.

## Findings

| source | as written | input that shows it | evidently intended | confidence | as-written member | corrected member |
|---|---|---|---|---|---|---|
| src/utilities/css.ts:10-11 | the reduction appends `args[idx]` after every fragment, so after the last one it appends `args[n]`, which does not exist and reads as `undefined` | css`color: red;` | the trimmed template text `color: red;` | not executed | CssUtil.TemplateQuirk | CssUtil.IntendedTemplateCss |
| src/css.ts:47-49 | the exported `css` repeats that reduction, so its `inner` also ends in `undefined` | css`color: red;` | the trimmed template text `color: red;` | not executed | Css.TemplateAlwaysDiffers | CssUtil.IntendedTemplateCss |
