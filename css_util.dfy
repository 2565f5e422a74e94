/** The plain-string `css` helper of src/utilities/css.ts: a tagged template is
    concatenated and trimmed, a style object becomes `key: value;` declarations. */
module CssUtil {
  import opened JsText

  /** The first argument of `css`: a style object, as its `Object.entries` in order, or the
      fragments of a tagged template (an array, so `Array.isArray` picks this form). */
  datatype CssArg = Styles(entries: seq<(string, string)>) | Fragments(strings: seq<string>)

  /** `args[idx]` spliced into a string: past the end it is `undefined`. */
  function ArgText(args: seq<string>, idx: nat): string {
    if idx < |args| then args[idx] else "undefined"
  }

  /** `strings.reduce((accu, current, idx) => accu + current + args[idx], "")`, over the first
      `n` fragments. */
  function Reduced(strings: seq<string>, args: seq<string>, n: nat): string
    requires n <= |strings|
  {
    if n == 0 then "" else Reduced(strings, args, n - 1) + strings[n - 1] + ArgText(args, n - 1)
  }

  /** One declaration, `${k}: ${v};`. */
  function Declaration(k: string, v: string): string {
    k + ": " + v + ";"
  }

  /** `entries.reduce((acc, [k, v]) => acc + `${k}: ${v};`, "")`. */
  function Declarations(entries: seq<(string, string)>): string {
    if entries == [] then ""
    else
      var last := entries[|entries| - 1];
      Declarations(entries[..|entries| - 1]) + Declaration(last.0, last.1)
  }

  /** `css(arg0, ...args)`: a template gives text without white space at either end, an
      object nothing for no entries and otherwise text that ends with `;`. */
  function Css(arg0: CssArg, args: seq<string>): (r: string)
    ensures arg0.Fragments? ==> r == [] || (!IsSpaceChar(r[0]) && !IsSpaceChar(r[|r| - 1]))
    ensures arg0 == Styles([]) ==> r == ""
    ensures arg0.Styles? && arg0.entries != [] ==> r != [] && r[|r| - 1] == ';'
  {
    match arg0
    case Fragments(strings) =>
      TrimSpec(Reduced(strings, args, |strings|));
      Trim(Reduced(strings, args, |strings|))
    case Styles(entries) => Declarations(entries)
  }

  /** What a template literal `f0${a0}f1…${an-1}fn` spells: fragments and arguments
      alternating, starting and ending with a fragment. */
  function Interleave(strings: seq<string>, args: seq<string>): string
    requires |strings| == |args| + 1
    decreases |args|
  {
    if args == [] then strings[0]
    else Interleave(strings[..|strings| - 1], args[..|args| - 1]) + args[|args| - 1] + strings[|strings| - 1]
  }

  /** The reduction over the first `n` fragments spells the template up to fragment `n - 1`
      followed by `args[n - 1]`, which is `undefined` for the last fragment. */
  lemma {:induction false} ReducedInterleave(strings: seq<string>, args: seq<string>, n: nat)
    requires |strings| == |args| + 1 && 1 <= n <= |strings|
    ensures Reduced(strings, args, n) == Interleave(strings[..n], args[..n - 1]) + ArgText(args, n - 1)
  {
    if n == 1 {
      assert Reduced(strings, args, 0) == "";
      assert strings[..1][0] == strings[0];
    } else {
      ReducedInterleave(strings, args, n - 1);
      var s, a := strings[..n], args[..n - 1];
      assert s[..|s| - 1] == strings[..n - 1];
      assert a[..|a| - 1] == args[..n - 2];
      assert Interleave(s, a) == Interleave(strings[..n - 1], args[..n - 2]) + args[n - 2] + strings[n - 1];
    }
  }

  /** `trimStart` stops at a non-space character and keeps everything after it. */
  lemma {:induction false} TrimStartAppend(x: string, u: string)
    requires u != [] && !IsSpaceChar(u[0])
    ensures TrimStart(x + u) == TrimStart(x) + u
    decreases |x|
  {
    if x == [] {
      assert x + u == u;
    } else if IsSpaceChar(x[0]) {
      assert (x + u)[1..] == x[1..] + u;
      TrimStartAppend(x[1..], u);
    } else {
      assert (x + u)[0] == x[0];
    }
  }

  /** A tagged-template call, whose rest arguments are one fewer than its fragments, yields
      the trimmed template text with `undefined` appended, so trailing white space inside
      the template is never removed and the result always ends in `undefined`. */
  lemma TemplateForm(strings: seq<string>, args: seq<string>)
    requires |strings| == |args| + 1
    ensures var r := Css(Fragments(strings), args);
      && r == TrimStart(Interleave(strings, args)) + "undefined"
      && EndsWith(r, "undefined")
      && !IsSpaceChar(r[0])
  {
    ReducedInterleave(strings, args, |strings|);
    assert strings[..|strings|] == strings && args[..|strings| - 1] == args;
    var x := Interleave(strings, args);
    TrimStartAppend(x, "undefined");
    var r := TrimStart(x) + "undefined";
    assert r[|r| - 1] == 'd';
    TrimSpec(x + "undefined");
  }

  /** What the template form evidently intends: the template text, trimmed. */
  function IntendedTemplateCss(strings: seq<string>, args: seq<string>): (r: string)
    requires |strings| == |args| + 1
    ensures r == [] || (!IsSpaceChar(r[0]) && !IsSpaceChar(r[|r| - 1]))
  {
    TrimSpec(Interleave(strings, args));
    Trim(Interleave(strings, args))
  }

  /** The two differ for every template call: the result of `css` is longer than the
      trimmed text. */
  lemma TemplateAlwaysDiffers(strings: seq<string>, args: seq<string>)
    requires |strings| == |args| + 1
    ensures Css(Fragments(strings), args) != IntendedTemplateCss(strings, args)
  {
    TemplateForm(strings, args);
    var x := Interleave(strings, args);
    assert |Trim(x)| <= |TrimStart(x)|;
  }

  /** For instance, `css` of the one-fragment template `color: red;` is
      `color: red;undefined`. */
  lemma TemplateQuirk()
    ensures Css(Fragments(["color: red;"]), []) == "color: red;undefined"
    ensures IntendedTemplateCss(["color: red;"], []) == "color: red;"
  {
    var s := "color: red;";
    TemplateForm([s], []);
    assert Interleave([s], []) == s;
    assert s[0] == 'c' && s[|s| - 1] == ';';
    assert TrimStart(s) == s;
    assert TrimEnd(s) == s;
  }

  /** The declarations of two entry lists one after the other are those of the joined list. */
  lemma {:induction false} DeclarationsAppend(a: seq<(string, string)>, b: seq<(string, string)>)
    ensures Declarations(a + b) == Declarations(a) + Declarations(b)
    decreases |b|
  {
    if b == [] {
      assert a + b == a;
    } else {
      var b', last := b[..|b| - 1], b[|b| - 1];
      var d := Declaration(last.0, last.1);
      assert (a + b)[..|a + b| - 1] == a + b' && (a + b)[|a + b| - 1] == last;
      assert Declarations(a + b) == Declarations(a + b') + d;
      assert Declarations(b) == Declarations(b') + d;
      DeclarationsAppend(a, b');
      assert Declarations(a) + Declarations(b') + d == Declarations(a) + (Declarations(b') + d);
    }
  }

  /** The object form: `""` for no entries, `k: v;` for one, keys verbatim, and the
      declarations of the entries in their order. */
  lemma ObjectForm(k: string, v: string, a: seq<(string, string)>, b: seq<(string, string)>, args: seq<string>)
    ensures Css(Styles([]), args) == ""
    ensures Css(Styles([(k, v)]), args) == k + ": " + v + ";"
    ensures Css(Styles(a + b), args) == Css(Styles(a), args) + Css(Styles(b), args)
  {
    assert [(k, v)][..0] == [];
    DeclarationsAppend(a, b);
  }
}
