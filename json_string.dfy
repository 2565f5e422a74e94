/** Decoding of a JSON string literal (section 7 of RFC 8259), the only use the
    template parser makes of `JSON.parse`. */
module JsonString {
  import opened Wrappers

  /** A character that may stand for itself inside a JSON string. */
  predicate IsUnescaped(c: char) {
    c >= ' ' && c != '"' && c != '\\'
  }

  /** The character denoted by a one-letter escape `\x`, if `x` is one. */
  function SimpleEscape(e: char): Option<char> {
    match e
    case '"' => Some('"')
    case '\\' => Some('\\')
    case '/' => Some('/')
    case 'b' => Some('\U{0008}')
    case 'f' => Some('\U{000C}')
    case 'n' => Some('\n')
    case 'r' => Some('\r')
    case 't' => Some('\t')
    case _ => None
  }

  function HexDigit(c: char): Option<nat> {
    if '0' <= c <= '9' then Some(c as int - '0' as int)
    else if 'a' <= c <= 'f' then Some(c as int - 'a' as int + 10)
    else if 'A' <= c <= 'F' then Some(c as int - 'A' as int + 10)
    else None
  }

  /** The value of four hexadecimal digits. */
  function Hex4(s: string): (r: Option<nat>)
    requires |s| == 4
    ensures r.Some? ==> r.value < 0x1_0000
  {
    match (HexDigit(s[0]), HexDigit(s[1]), HexDigit(s[2]), HexDigit(s[3]))
    case (Some(a), Some(b), Some(c), Some(d)) =>
      if a < 16 && b < 16 && c < 16 && d < 16 then Some(((a * 16 + b) * 16 + c) * 16 + d) else None
    case _ => None
  }

  /** The characters denoted by the body of a string literal, or None when the body is
      not valid JSON (an unescaped quote or control character, a bad escape). */
  function Decode(body: string): (r: Option<string>)
    ensures r.Some? ==> |r.value| <= |body|
    decreases |body|
  {
    if body == [] then Some([])
    else if IsUnescaped(body[0]) then
      Prepend(body[0], Decode(body[1..]))
    else if body[0] == '\\' && |body| >= 2 then
      match SimpleEscape(body[1])
      case Some(c) => Prepend(c, Decode(body[2..]))
      case None =>
        if body[1] == 'u' && |body| >= 6 then
          match Hex4(body[2..6])
          case Some(code) =>
            // a surrogate half has no `char` of its own
            if 0xD800 <= code <= 0xDFFF then None else Prepend(code as char, Decode(body[6..]))
          case None => None
        else None
    else None
  }

  function Prepend(c: char, rest: Option<string>): (r: Option<string>)
    ensures r.Some? <==> rest.Some?
    ensures r.Some? ==> r.value == [c] + rest.value
  {
    match rest
    case Some(s) => Some([c] + s)
    case None => None
  }

  /** `JSON.parse(literal)` for text that starts and ends with a double quote. */
  function ParseLiteral(literal: string): Option<string>
  {
    if |literal| >= 2 && literal[0] == '"' && literal[|literal| - 1] == '"'
    then Decode(literal[1..|literal| - 1])
    else None
  }

  /** A string body with no character that needs an escape: no quote, no backslash and
      no control character. */
  predicate Plain(body: string) {
    forall i :: 0 <= i < |body| ==> IsUnescaped(body[i])
  }

  /** A plain body decodes to itself. */
  lemma {:induction false} DecodePlain(body: string)
    requires Plain(body)
    ensures Decode(body) == Some(body)
  {
    if body != [] {
      assert forall i :: 0 <= i < |body[1..]| ==> body[1..][i] == body[i + 1];
      DecodePlain(body[1..]);
      assert [body[0]] + body[1..] == body;
    }
  }

  /** An escaped quote between two plain bodies stands for a quote. */
  lemma {:induction false} EscapedQuoteIn(x: string, y: string)
    requires Plain(x) && Plain(y)
    ensures Decode(x + "\\\"" + y) == Some(x + "\"" + y)
    decreases |x|
  {
    if x == [] {
      EscapedQuoteHead(y);
      assert x + "\\\"" + y == "\\\"" + y && x + "\"" + y == "\"" + y;
    } else {
      assert forall i :: 0 <= i < |x[1..]| ==> x[1..][i] == x[i + 1];
      EscapedQuoteIn(x[1..], y);
      assert x + "\\\"" + y == [x[0]] + (x[1..] + "\\\"" + y);
      PlainHeadStep(x[0], x[1..] + "\\\"" + y);
      assert [x[0]] + (x[1..] + "\"" + y) == x + "\"" + y;
    }
  }

  /** A body that starts with an escaped quote. */
  lemma EscapedQuoteHead(y: string)
    requires Plain(y)
    ensures Decode("\\\"" + y) == Some("\"" + y)
  {
    var body := "\\\"" + y;
    DecodePlain(y);
    assert body[0] == '\\' && body[1] == '"' && body[2..] == y;
  }

  /** A body that starts with a plain character decodes that character, then the rest. */
  lemma PlainHeadStep(c: char, rest: string)
    requires IsUnescaped(c)
    ensures Decode([c] + rest) == Prepend(c, Decode(rest))
  {
    assert ([c] + rest)[1..] == rest;
  }

  /** An escaped quote stands for a quote: `a\"b` decodes to `a"b`. */
  lemma EscapedQuote()
    ensures ParseLiteral("\"a\\\"b\"") == Some("a\"b")
  {
    assert Plain("a") && Plain("b");
    EscapedQuoteIn("a", "b");
    var literal := "\"a\\\"b\"";
    assert |literal| == 6 && literal[0] == '"' && literal[5] == '"';
    assert literal[1..5] == "a" + "\\\"" + "b";
    assert "a" + "\"" + "b" == "a\"b";
  }

  /** An unescaped quote inside the body is a syntax error. */
  lemma {:induction false} RawQuoteRejected(body: string, k: nat)
    requires k < |body| && body[k] == '"'
    requires forall i :: 0 <= i < k ==> IsUnescaped(body[i])
    ensures Decode(body) == None
  {
    if k > 0 {
      RawQuoteRejected(body[1..], k - 1);
    }
  }

  /** A raw control character inside the body, a tab or a line break say, is a syntax
      error too: JSON demands `\t` or `\n` there. */
  lemma {:induction false} ControlCharRejected(body: string, k: nat)
    requires k < |body| && body[k] < ' '
    requires forall i :: 0 <= i < k ==> IsUnescaped(body[i])
    ensures Decode(body) == None
  {
    if k > 0 {
      ControlCharRejected(body[1..], k - 1);
    }
  }
}
