/** The `css` of src/css.ts: like the plain helper, but style-object keys are turned from
    camelCase into CSS property names, and the result is tagged as a CSS paper. */
module Css {
  import opened JsText
  import CssUtil

  // ---------------------------------------------------------------------------------
  // Property names

  /** What one key character becomes: a character equal to its upper-case form (an
      upper-case letter, but also a digit or `-`) is written `-` and lower-cased. */
  function Piece(c: char): string {
    if c == ToUpper(c) then "-" + [ToLower(c)] else [c]
  }

  /** A lower-case letter is copied, anything else is written `-` and lower-cased. */
  lemma PieceCases(c: char)
    ensures IsAsciiLower(c) ==> Piece(c) == [c]
    ensures !IsAsciiLower(c) ==> Piece(c) == ['-', ToLower(c)]
  {
    if IsAsciiLower(c) {
      assert ToUpper(c) != c;
    }
  }

  /** The text the loop of `getName` builds from the characters of `key`, in order. */
  function Kebab(key: string): string {
    if key == [] then "" else Kebab(key[..|key| - 1]) + Piece(key[|key| - 1])
  }

  /** `getName(key)`: the converted text, with one `-` in front when it starts with `webkit`. */
  function PropertyName(key: string): string {
    var text := Kebab(key);
    if StartsWith(text, "webkit") then "-" + text else text
  }

  /** `getName`, with its `while` loop. */
  method GetName(key: string) returns (name: string)
    ensures name == PropertyName(key)
  {
    var text := "";
    var idx := 0;
    while idx < |key|
      invariant 0 <= idx <= |key|
      invariant text == Kebab(key[..idx])
    {
      var c := key[idx];
      if c == ToUpper(c) {
        text := text + "-" + [ToLower(c)];
      } else {
        text := text + [c];
      }
      assert key[..idx + 1][..idx] == key[..idx];
      idx := idx + 1;
    }
    assert key[..idx] == key;
    if StartsWith(text, "webkit") {
      return "-" + text;
    } else {
      return text;
    }
  }

  /** Converting two pieces of a key one after the other converts the whole key. */
  lemma {:induction false} KebabAppend(a: string, b: string)
    ensures Kebab(a + b) == Kebab(a) + Kebab(b)
    decreases |b|
  {
    if b == [] {
      assert a + b == a;
    } else {
      assert (a + b)[..|a + b| - 1] == a + b[..|b| - 1];
      KebabAppend(a, b[..|b| - 1]);
    }
  }

  /** Key characters convert one at a time, front to back: a lower-case letter is copied,
      anything else becomes `-` and its lower-case form. */
  lemma KebabCons(c: char, s: string)
    ensures Kebab([c] + s) == (if IsAsciiLower(c) then [c] else ['-', ToLower(c)]) + Kebab(s)
  {
    KebabAppend([c], s);
    KebabOne(c);
    PieceCases(c);
  }

  lemma KebabOne(c: char)
    ensures Kebab([c]) == Piece(c)
  {
    assert [c][..0] == [];
  }

  /** Undoes the conversion: `-x` stands for the upper-case form of `x`. */
  function Camel(text: string): string
    decreases |text|
  {
    if text == [] then ""
    else if text[0] == '-' && |text| >= 2 then [ToUpper(text[1])] + Camel(text[2..])
    else [text[0]] + Camel(text[1..])
  }

  /** The conversion loses nothing: the key can be read back from the converted text, so
      distinct keys get distinct texts. */
  lemma {:induction false} CamelKebab(key: string)
    ensures Camel(Kebab(key)) == key
    decreases |key|
  {
    if key != [] {
      var c, rest := key[0], key[1..];
      assert key == [c] + rest;
      KebabCons(c, rest);
      CamelKebab(rest);
      if IsAsciiLower(c) {
        assert ([c] + Kebab(rest))[1..] == Kebab(rest);
      } else {
        var t := ['-', ToLower(c)] + Kebab(rest);
        assert t[2..] == Kebab(rest);
        assert ToUpper(ToLower(c)) == c;
      }
    }
  }

  /** The converted text holds no upper-case ASCII letter. */
  lemma {:induction false} KebabNoUpper(key: string)
    ensures forall i :: 0 <= i < |Kebab(key)| ==> !IsAsciiUpper(Kebab(key)[i])
    decreases |key|
  {
    if key != [] {
      KebabNoUpper(key[..|key| - 1]);
      var a, p := Kebab(key[..|key| - 1]), Piece(key[|key| - 1]);
      assert forall i :: 0 <= i < |p| ==> !IsAsciiUpper(p[i]);
      assert forall i :: 0 <= i < |a + p| ==> (a + p)[i] == if i < |a| then a[i] else p[i - |a|];
    }
  }

  /** A lower-case prefix survives the conversion exactly when the key starts with it. */
  lemma {:induction false} KebabLowerPrefix(p: string, key: string)
    requires forall i :: 0 <= i < |p| ==> IsAsciiLower(p[i])
    ensures StartsWith(Kebab(key), p) <==> StartsWith(key, p)
    decreases |p|
  {
    if p != [] && key != [] {
      var c, rest := key[0], key[1..];
      assert key == [c] + rest;
      KebabCons(c, rest);
      if IsAsciiLower(c) {
        KebabLowerPrefix(p[1..], rest);
        var t := [c] + Kebab(rest);
        assert StartsWith(t, p) <==> c == p[0] && StartsWith(Kebab(rest), p[1..]) by {
          if StartsWith(t, p) {
            assert t[1..][..|p| - 1] == t[..|p|][1..];
          }
          if c == p[0] && StartsWith(Kebab(rest), p[1..]) {
            assert t[..|p|] == [c] + Kebab(rest)[..|p| - 1];
          }
        }
        assert StartsWith(key, p) <==> c == p[0] && StartsWith(rest, p[1..]) by {
          if StartsWith(key, p) {
            assert key[1..][..|p| - 1] == key[..|p|][1..];
          }
          if c == p[0] && StartsWith(rest, p[1..]) {
            assert key[..|p|] == [c] + rest[..|p| - 1];
          }
        }
      } else {
        assert Kebab(key)[0] == '-' != p[0];
        assert key[0] != p[0];
      }
    }
  }

  /** `getName` puts exactly one `-` in front of a key that starts with `webkit`, and none
      in front of any other key (a key starting `Webkit` already converts to `-webkit`). */
  lemma WebkitPrefix(key: string)
    ensures StartsWith(key, "webkit") ==> PropertyName(key) == "-" + Kebab(key) && PropertyName(key)[1] == 'w'
    ensures !StartsWith(key, "webkit") ==> PropertyName(key) == Kebab(key)
    ensures forall i :: 0 <= i < |PropertyName(key)| ==> !IsAsciiUpper(PropertyName(key)[i])
  {
    WebkitPrefixed(key);
    NameNoUpper(key);
  }

  lemma WebkitPrefixed(key: string)
    ensures StartsWith(key, "webkit") ==> PropertyName(key) == "-" + Kebab(key) && PropertyName(key)[1] == 'w'
    ensures !StartsWith(key, "webkit") ==> PropertyName(key) == Kebab(key)
  {
    var text := Kebab(key);
    assert StartsWith(text, "webkit") <==> StartsWith(key, "webkit") by {
      WebkitLower();
      KebabLowerPrefix("webkit", key);
    }
    if StartsWith(text, "webkit") {
      StartsWithFirst(text, "webkit");
      assert ("-" + text)[1] == text[0];
    }
  }

  lemma StartsWithFirst(s: string, p: string)
    requires p != [] && StartsWith(s, p)
    ensures s[0] == p[0]
  {
    assert s[..|p|][0] == s[0];
  }

  lemma NameNoUpper(key: string)
    ensures forall i :: 0 <= i < |PropertyName(key)| ==> !IsAsciiUpper(PropertyName(key)[i])
  {
    KebabNoUpper(key);
    DashNoUpper(Kebab(key));
  }

  /** `webkit` is written in lower-case letters. */
  lemma WebkitLower()
    ensures forall i :: 0 <= i < |"webkit"| ==> IsAsciiLower("webkit"[i])
  {
  }

  /** A `-` in front adds no upper-case letter; the character after it is the first one
      of the text. */
  lemma DashNoUpper(text: string)
    requires forall i :: 0 <= i < |text| ==> !IsAsciiUpper(text[i])
    ensures forall i :: 0 <= i < |"-" + text| ==> !IsAsciiUpper(("-" + text)[i])
    ensures text != [] ==> ("-" + text)[1] == text[0]
  {
    assert forall i :: 1 <= i < |"-" + text| ==> ("-" + text)[i] == text[i - 1];
  }

  /** A key of lower-case letters only is copied unchanged. */
  lemma {:induction false} KebabLower(key: string)
    requires forall i :: 0 <= i < |key| ==> IsAsciiLower(key[i])
    ensures Kebab(key) == key
    decreases |key|
  {
    if key != [] {
      KebabLower(key[..|key| - 1]);
      PieceCases(key[|key| - 1]);
      assert key == key[..|key| - 1] + [key[|key| - 1]];
    }
  }

  /** A string whose first character differs from that of `p` does not start with `p`. */
  lemma NotStartsWith(s: string, p: string)
    requires p != [] && (s == [] || s[0] != p[0])
    ensures !StartsWith(s, p)
  {
    if |p| <= |s| {
      assert s[..|p|][0] == s[0];
    }
  }

  /** The conversion of `fontSize`, piece by piece. */
  lemma FontSizeText()
    ensures Kebab("font" + ("S" + "ize")) == "font" + ("-s" + "ize")
  {
    KebabAppend("font", "S" + "ize");
    KebabLower("font");
    SizeText();
  }

  lemma SizeText()
    ensures Kebab("S" + "ize") == "-s" + "ize"
  {
    KebabCons('S', "ize");
    KebabLower("ize");
    assert ToLower('S') == 's';
    assert ['-', 's'] == "-s";
  }

  /** `css({ fontSize: "20px" })` in index.ts:38 relies on `fontSize` becoming `font-size`. */
  lemma FontSize()
    ensures PropertyName("fontSize") == "font-size"
  {
    assert "fontSize" == "font" + ("S" + "ize");
    FontSizeText();
    assert "font" + ("-s" + "ize") == "font-size";
    NotStartsWith("font-size", "webkit");
  }

  // ---------------------------------------------------------------------------------
  // css

  /** A `CSSPaper`: the `__p` tag is the constructor, `inner` the style text. */
  datatype CssPaper = CssPaper(inner: string)

  /** The entries with each key converted by `getName`. */
  function Renamed(entries: seq<(string, string)>): (r: seq<(string, string)>)
    ensures |r| == |entries|
    ensures forall i :: 0 <= i < |r| ==> r[i] == (PropertyName(entries[i].0), entries[i].1)
  {
    seq(|entries|, i requires 0 <= i < |entries| => (PropertyName(entries[i].0), entries[i].1))
  }

  /** `css(arg0, ...args)`: the template form is that of the plain helper; the object form
      writes `getName(k): v;` for each entry, so it is the plain helper on the renamed
      entries. */
  function Css(arg0: CssUtil.CssArg, args: seq<string>): (r: CssPaper)
    ensures arg0.Fragments? ==> r.inner == CssUtil.Css(arg0, args)
    ensures arg0.Styles? ==> r.inner == CssUtil.Css(CssUtil.Styles(Renamed(arg0.entries)), args)
  {
    match arg0
    case Fragments(strings) => CssPaper(CssUtil.Css(CssUtil.Fragments(strings), args))
    case Styles(entries) => CssPaper(CssUtil.Declarations(Renamed(entries)))
  }

  /** The object form: `""` for no entries, `getName(k): v;` for one, and the declarations
      of the entries in their order. */
  lemma ObjectForm(k: string, v: string, a: seq<(string, string)>, b: seq<(string, string)>, args: seq<string>)
    ensures Css(CssUtil.Styles([]), args).inner == ""
    ensures Css(CssUtil.Styles([(k, v)]), args).inner == PropertyName(k) + ": " + v + ";"
    ensures Css(CssUtil.Styles(a + b), args).inner
            == Css(CssUtil.Styles(a), args).inner + Css(CssUtil.Styles(b), args).inner
  {
    RenamedAppend(a, b);
    RenamedOne(k, v);
    CssUtil.ObjectForm(PropertyName(k), v, Renamed(a), Renamed(b), args);
  }

  lemma RenamedAppend(a: seq<(string, string)>, b: seq<(string, string)>)
    ensures Renamed(a + b) == Renamed(a) + Renamed(b)
  {
    var l, r := Renamed(a + b), Renamed(a) + Renamed(b);
    forall i | 0 <= i < |l| ensures l[i] == r[i] {
      if i < |a| {
        assert (a + b)[i] == a[i];
      } else {
        assert (a + b)[i] == b[i - |a|];
      }
    }
  }

  lemma RenamedOne(k: string, v: string)
    ensures Renamed([(k, v)]) == [(PropertyName(k), v)]
  {
    assert Renamed([(k, v)])[0] == (PropertyName(k), v);
  }

  /** The template form keeps the plain helper's trailing `undefined`. */
  lemma TemplateForm(strings: seq<string>, args: seq<string>)
    requires |strings| == |args| + 1
    ensures var r := Css(CssUtil.Fragments(strings), args).inner;
      && r == TrimStart(CssUtil.Interleave(strings, args)) + "undefined"
      && !IsSpaceChar(r[0])
  {
    CssUtil.TemplateForm(strings, args);
  }

  /** The template form of `css` never gives the trimmed template text it evidently
      intends, and the one-fragment template `color: red;` gives `color: red;undefined`. */
  lemma TemplateAlwaysDiffers(strings: seq<string>, args: seq<string>)
    requires |strings| == |args| + 1
    ensures Css(CssUtil.Fragments(strings), args).inner != CssUtil.IntendedTemplateCss(strings, args)
    ensures Css(CssUtil.Fragments(["color: red;"]), []).inner == "color: red;undefined"
  {
    CssUtil.TemplateAlwaysDiffers(strings, args);
    CssUtil.TemplateQuirk();
  }
}
