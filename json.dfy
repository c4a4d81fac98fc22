/**
 * JSON text as serde_json writes it for strings and for a map of strings to
 * strings (section 7 of RFC 8259 for string literals, section 4 for
 * objects), and a decoder for that text, the partner that the round-trip
 * lemmas go through.
 */
module Json {
  import opened Wrappers

  const HEX_DIGITS: string := "0123456789abcdef"

  /** A control character, U+0000 to U+001F, which a string literal may not hold raw. */
  predicate IsControl(c: char) {
    c as int < 0x20
  }

  /**
   * serde_json's escape of one character: quotation mark and reverse solidus
   * get a backslash, the five control characters with a short form use it,
   * the other control characters become `\u00xx` with lower-case hex digits,
   * and everything else is written as it is.
   */
  function EscapeChar(c: char): (e: string)
    ensures e != [] && e[0] != '"'
    ensures forall i :: 0 <= i < |e| ==> !IsControl(e[i]) && (i > 0 ==> e[i] != '"' || e == "\\\"")
  {
    var n := c as int;
    if c == '"' then "\\\""
    else if c == '\\' then "\\\\"
    else if n == 0x08 then "\\b"
    else if n == 0x09 then "\\t"
    else if n == 0x0A then "\\n"
    else if n == 0x0C then "\\f"
    else if n == 0x0D then "\\r"
    else if n < 0x20 then ['\\', 'u', '0', '0', HEX_DIGITS[n / 16], HEX_DIGITS[n % 16]]
    else [c]
  }

  /** The escaped body of a string literal: no raw control character survives. */
  function Escape(s: string): (e: string)
    ensures forall i :: 0 <= i < |e| ==> !IsControl(e[i])
    ensures |e| >= |s|
  {
    if s == [] then [] else EscapeChar(s[0]) + Escape(s[1..])
  }

  /** Escaping works character by character. */
  lemma {:induction false} EscapeConcat(a: string, b: string)
    ensures Escape(a + b) == Escape(a) + Escape(b)
  {
    if a != [] {
      assert (a + b)[1..] == a[1..] + b;
      EscapeConcat(a[1..], b);
    } else {
      assert a + b == b;
    }
  }

  /** Text without quotation marks, reverse solidi or control characters is written as it is. */
  lemma {:induction false} EscapePlain(s: string)
    requires forall i :: 0 <= i < |s| ==> s[i] != '"' && s[i] != '\\' && !IsControl(s[i])
    ensures Escape(s) == s
  {
    if s != [] {
      EscapePlain(s[1..]);
      assert [s[0]] + s[1..] == s;
    }
  }

  /** `serde_json::to_string` of a string: the escaped text between quotation marks. */
  function Quote(s: string): string {
    "\"" + Escape(s) + "\""
  }

  /** One `"key":"value"` member of an object. */
  function Member(p: (string, string)): string {
    Quote(p.0) + ":" + Quote(p.1)
  }

  /** The members of an object, separated by commas. */
  function Members(m: seq<(string, string)>): (r: string)
    requires m != []
    ensures r != [] && r[0] == '"'
  {
    if |m| == 1 then Member(m[0]) else Member(m[0]) + "," + Members(m[1..])
  }

  /** `serde_json::to_string` of a map: compact, members in iteration order. */
  function Object(m: seq<(string, string)>): string {
    if m == [] then "{}" else "{" + Members(m) + "}"
  }

  // The decoder.

  /** The value of a hexadecimal digit, either case. */
  function HexValue(c: char): Option<nat> {
    if '0' <= c <= '9' then Some(c as int - '0' as int)
    else if 'a' <= c <= 'f' then Some(c as int - 'a' as int + 10)
    else if 'A' <= c <= 'F' then Some(c as int - 'A' as int + 10)
    else None
  }

  /** The value of four hexadecimal digits. */
  function Hex4(t: string): (r: Option<nat>)
    requires |t| == 4
    ensures r.Some? ==> r.value < 0x10000
  {
    match (HexValue(t[0]), HexValue(t[1]), HexValue(t[2]), HexValue(t[3]))
    case (Some(a), Some(b), Some(c), Some(d)) =>
      assert a < 16 && b < 16 && c < 16 && d < 16;
      Some(((a * 16 + b) * 16 + c) * 16 + d)
    case _ => None
  }

  /**
   * The character an escape stands for, given the text after the backslash,
   * and the number of characters the escape takes after the backslash. A
   * `\u` escape of a surrogate code unit is refused.
   */
  function DecodeEscape(t: string): (r: Option<(char, nat)>)
    ensures r.Some? ==> 1 <= r.value.1 <= |t|
  {
    if t == [] then None
    else if t[0] == '"' then Some(('"', 1))
    else if t[0] == '\\' then Some(('\\', 1))
    else if t[0] == '/' then Some(('/', 1))
    else if t[0] == 'b' then Some((0x08 as char, 1))
    else if t[0] == 'f' then Some((0x0C as char, 1))
    else if t[0] == 'n' then Some(('\n', 1))
    else if t[0] == 'r' then Some(('\r', 1))
    else if t[0] == 't' then Some(('\t', 1))
    else if t[0] == 'u' && |t| >= 5 then
      match Hex4(t[1..5])
      case Some(n) => if 0xD800 <= n < 0xE000 then None else Some((n as char, 5))
      case None => None
    else None
  }

  /**
   * The characters of a string literal after its opening quotation mark, up
   * to and including the closing one: the decoded text and what follows.
   */
  function DecodeChars(t: string): (r: Option<(string, string)>)
    ensures r.Some? ==> |r.value.1| < |t|
    decreases |t|
  {
    if t == [] then None
    else if t[0] == '"' then Some(([], t[1..]))
    else if t[0] == '\\' then
      match DecodeEscape(t[1..])
      case None => None
      case Some((c, k)) =>
        match DecodeChars(t[1 + k..])
        case None => None
        case Some((v, rest)) => Some(([c] + v, rest))
    else if IsControl(t[0]) then None
    else
      match DecodeChars(t[1..])
      case None => None
      case Some((v, rest)) => Some(([t[0]] + v, rest))
  }

  /** A string literal at the start of `t`: its value and what follows. */
  function DecodeString(t: string): (r: Option<(string, string)>)
    ensures r.Some? ==> |r.value.1| < |t|
  {
    if t != [] && t[0] == '"' then DecodeChars(t[1..]) else None
  }

  /** A `"key":"value"` member at the start of `t`. */
  function DecodeMember(t: string): (r: Option<((string, string), string)>)
    ensures r.Some? ==> |r.value.1| < |t|
  {
    match DecodeString(t)
    case None => None
    case Some((k, r1)) =>
      if r1 == [] || r1[0] != ':' then None
      else
        match DecodeString(r1[1..])
        case None => None
        case Some((v, r2)) => Some(((k, v), r2))
  }

  /** Members separated by commas, up to and including the closing brace. */
  function DecodeMembers(t: string): (r: Option<(seq<(string, string)>, string)>)
    ensures r.Some? ==> |r.value.1| < |t|
    decreases |t|
  {
    match DecodeMember(t)
    case None => None
    case Some((p, rest)) =>
      if rest == [] then None
      else if rest[0] == '}' then Some(([p], rest[1..]))
      else if rest[0] == ',' then
        match DecodeMembers(rest[1..])
        case None => None
        case Some((ps, r)) => Some(([p] + ps, r))
      else None
  }

  /** An object at the start of `t`, written without whitespace between its tokens. */
  function DecodeObject(t: string): Option<(seq<(string, string)>, string)> {
    if |t| >= 2 && t[0] == '{' && t[1] == '}' then Some(([], t[2..]))
    else if t != [] && t[0] == '{' then DecodeMembers(t[1..])
    else None
  }

  /** The whitespace that JSON text may carry around its value (section 2 of RFC 8259). */
  predicate IsJsonWhitespace(c: char) {
    c == ' ' || c == '\t' || c == '\n' || c == '\r'
  }

  /** A document holding one object and nothing after it but whitespace. */
  function Decode(doc: string): Option<seq<(string, string)>> {
    match DecodeObject(doc)
    case None => None
    case Some((m, rest)) =>
      if forall i :: 0 <= i < |rest| ==> IsJsonWhitespace(rest[i]) then Some(m) else None
  }

  // Round trips.

  lemma HexDigitValue(k: nat)
    requires k < 16
    ensures HexValue(HEX_DIGITS[k]) == Some(k)
  {
  }

  /** The control characters without a short escape, written as `\u00xx`. */
  predicate HasUnicodeEscape(c: char) {
    var n := c as int;
    n < 0x20 && n != 0x08 && n != 0x09 && n != 0x0A && n != 0x0C && n != 0x0D
  }

  /** Two zeros and the two digits of `n` are four hex digits worth `n`. */
  lemma Hex4Byte(n: nat)
    requires n < 0x20
    ensures Hex4(['0', '0', HEX_DIGITS[n / 16], HEX_DIGITS[n % 16]]) == Some(n)
  {
    HexDigitValue(n / 16);
    HexDigitValue(n % 16);
  }

  lemma DecodeUnicodeEscape(c: char, more: string)
    requires HasUnicodeEscape(c)
    ensures DecodeEscape((EscapeChar(c) + more)[1..]) == Some((c, 5))
  {
    var n := c as int;
    var digits := ['0', '0', HEX_DIGITS[n / 16], HEX_DIGITS[n % 16]];
    assert EscapeChar(c) == ['\\', 'u'] + digits;
    var t := (EscapeChar(c) + more)[1..];
    assert t == ['u'] + digits + more;
    assert t[1..5] == digits;
    Hex4Byte(n);
    assert (n as char) == c;
  }

  lemma DecodeShortEscape(c: char, more: string)
    requires |EscapeChar(c)| == 2
    ensures DecodeEscape((EscapeChar(c) + more)[1..]) == Some((c, 1))
  {
  }

  /** Decoding an escaped character gives the character back, whatever follows it. */
  lemma DecodeEscapeChar(c: char, more: string)
    ensures DecodeChars(EscapeChar(c) + more) ==
      match DecodeChars(more)
      case None => None
      case Some((v, rest)) => Some(([c] + v, rest))
  {
    var e := EscapeChar(c);
    var t := e + more;
    if |e| == 1 {
      assert t[1..] == more;
    } else if HasUnicodeEscape(c) {
      DecodeUnicodeEscape(c, more);
      assert t[6..] == more;
    } else {
      DecodeShortEscape(c, more);
      assert t[2..] == more;
    }
  }

  /** The escaped text followed by a quotation mark decodes to the original text. */
  lemma {:induction false} DecodeEscaped(s: string, rest: string)
    ensures DecodeChars(Escape(s) + "\"" + rest) == Some((s, rest))
  {
    if s == [] {
      assert Escape(s) + "\"" + rest == "\"" + rest;
    } else {
      var more := Escape(s[1..]) + "\"" + rest;
      assert Escape(s) + "\"" + rest == EscapeChar(s[0]) + more;
      DecodeEscaped(s[1..], rest);
      DecodeEscapeChar(s[0], more);
      assert [s[0]] + s[1..] == s;
    }
  }

  /**
   * Solver hint, not a property of the program: the first character and
   * the rest of a quoted string followed by more text. Dafny proves it
   * from the definitions alone; stating it as one step keeps the proofs
   * that call it small.
   */
  lemma QuoteOpen(s: string, rest: string)
    ensures var t := Quote(s) + rest; t != [] && t[0] == '"' && t[1..] == Escape(s) + "\"" + rest
  {
    var e := Escape(s);
    assert Quote(s) + rest == ['"'] + (e + "\"" + rest);
  }

  /**
   * Solver hint, not a property of the program: one unfolding of
   * `DecodeString`. Dafny proves it from the definitions alone; stating it
   * as one step keeps the proofs that call it small.
   */
  lemma DecodeStringOpen(t: string)
    requires t != [] && t[0] == '"'
    ensures DecodeString(t) == DecodeChars(t[1..])
  {
  }

  /** A quoted string decodes to the original string, whatever follows it. */
  lemma DecodeQuoted(s: string, rest: string)
    ensures DecodeString(Quote(s) + rest) == Some((s, rest))
  {
    QuoteOpen(s, rest);
    DecodeStringOpen(Quote(s) + rest);
    DecodeEscaped(s, rest);
  }

  /** A member decodes once its key and its value, each followed by the rest, do. */
  lemma DecodeMemberParts(k: string, v: string, qk: string, qv: string, more: string)
    requires DecodeString(qk + (":" + qv + more)) == Some((k, ":" + qv + more))
    requires DecodeString(qv + more) == Some((v, more))
    ensures DecodeMember(qk + ":" + qv + more) == Some(((k, v), more))
  {
    var after := ":" + qv + more;
    assert qk + ":" + qv + more == qk + after;
    assert after[1..] == qv + more;
  }

  lemma DecodeMemberOf(p: (string, string), more: string)
    ensures DecodeMember(Member(p) + more) == Some((p, more))
  {
    DecodeQuoted(p.0, ":" + Quote(p.1) + more);
    DecodeQuoted(p.1, more);
    DecodeMemberParts(p.0, p.1, Quote(p.0), Quote(p.1), more);
  }

  lemma DecodeLastMember(t: string, p: (string, string), rest: string)
    requires t == Member(p) + ("}" + rest)
    ensures DecodeMembers(t) == Some(([p], rest))
  {
    var after := "}" + rest;
    DecodeMemberOf(p, after);
    assert after[1..] == rest;
  }

  lemma DecodeNextMember(t: string, p: (string, string), tail: string, ps: seq<(string, string)>, rest: string)
    requires t == Member(p) + ("," + tail)
    requires DecodeMembers(tail) == Some((ps, rest))
    ensures DecodeMembers(t) == Some(([p] + ps, rest))
  {
    var after := "," + tail;
    DecodeMemberOf(p, after);
    assert after[1..] == tail;
  }

  /**
   * Solver hint, not a property of the program: regrouping a
   * concatenation. Dafny proves it from the definitions alone; stating it
   * as one step keeps the proofs that call it small.
   */
  lemma ConcatAround(x: string, a: string, sep: string, b: string, r: string)
    requires x == a + sep + b
    ensures x + "}" + r == a + (sep + (b + "}" + r))
  {
  }

  /**
   * Solver hint, not a property of the program: associativity of
   * concatenation. Dafny proves it from the definitions alone; stating it
   * as one step keeps the proofs that call it small.
   */
  lemma ConcatAfter(a: string, b: string, r: string)
    ensures a + b + r == a + (b + r)
  {
  }

  lemma MembersSplit(m: seq<(string, string)>, rest: string)
    requires m != []
    ensures |m| == 1 ==> Members(m) + "}" + rest == Member(m[0]) + ("}" + rest)
    ensures |m| > 1 ==> Members(m) + "}" + rest == Member(m[0]) + ("," + (Members(m[1..]) + "}" + rest))
  {
    var x := Members(m);
    if |m| == 1 {
      assert x == Member(m[0]);
      ConcatAfter(x, "}", rest);
    } else {
      assert x == Member(m[0]) + "," + Members(m[1..]);
      ConcatAround(x, Member(m[0]), ",", Members(m[1..]), rest);
    }
  }

  lemma DecodeOneMember(m: seq<(string, string)>, rest: string)
    requires |m| == 1
    ensures DecodeMembers(Members(m) + "}" + rest) == Some((m, rest))
  {
    MembersSplit(m, rest);
    DecodeLastMember(Members(m) + "}" + rest, m[0], rest);
    assert [m[0]] == m;
  }

  lemma DecodeMoreMembers(m: seq<(string, string)>, rest: string)
    requires |m| > 1 && DecodeMembers(Members(m[1..]) + "}" + rest) == Some((m[1..], rest))
    ensures DecodeMembers(Members(m) + "}" + rest) == Some((m, rest))
  {
    var t, tail, h, ps := Members(m) + "}" + rest, Members(m[1..]) + "}" + rest, m[0], m[1..];
    assert [h] + ps == m;
    MembersSplit(m, rest);
    assert t == Member(h) + ("," + tail);
    DecodeNextMember(t, h, tail, ps, rest);
  }

  lemma {:induction false} DecodeMembersOf(m: seq<(string, string)>, rest: string)
    requires m != []
    ensures DecodeMembers(Members(m) + "}" + rest) == Some((m, rest))
    decreases |m|
  {
    if |m| == 1 {
      DecodeOneMember(m, rest);
    } else {
      DecodeMembersOf(m[1..], rest);
      DecodeMoreMembers(m, rest);
    }
  }

  /**
   * Solver hint, not a property of the program: regrouping a braced text.
   * Dafny proves it from the definitions alone; stating it as one step
   * keeps the proofs that call it small.
   */
  lemma Braced(b: string, ws: string)
    ensures ("{" + b + "}") + ws == "{" + (b + "}" + ws)
  {
  }

  lemma ObjectSplit(m: seq<(string, string)>, ws: string)
    requires m != []
    ensures var t := Object(m) + ws;
      t[0] == '{' && t[1] == '"' && t[1..] == Members(m) + "}" + ws
  {
    Braced(Members(m), ws);
  }

  /** Decoding what `Object` writes, followed by whitespace, gives back the pairs in order. */
  lemma DecodeObjectText(m: seq<(string, string)>, ws: string)
    requires forall i :: 0 <= i < |ws| ==> IsJsonWhitespace(ws[i])
    ensures Decode(Object(m) + ws) == Some(m)
  {
    var t := Object(m) + ws;
    if m == [] {
      assert t[2..] == ws;
    } else {
      ObjectSplit(m, ws);
      DecodeMembersOf(m, ws);
    }
  }
}
