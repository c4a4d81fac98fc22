/**
 * The three output formats of src/formatters.rs. The env and shell formats
 * write one line per entry, in map order, with the value as a JSON string
 * literal; the JSON format writes the whole map as one JSON object and a
 * newline.
 */
module Formatters {
  import opened Wrappers
  import opened Str
  import opened Json
  import opened IndexMaps
  import opened Seqs

  /** `KEY="value"`: the key, an equals sign and the value as a JSON string literal. */
  function Assignment(p: (string, string)): string {
    p.0 + "=" + Quote(p.1)
  }

  /** One line of the env format. */
  function EnvLine(p: (string, string)): string {
    Assignment(p) + "\n"
  }

  /** One line of the shell format: the env line behind `export `. */
  function ShellLine(p: (string, string)): (l: string)
    ensures l == "export " + EnvLine(p)
  {
    "export " + p.0 + "=" + Quote(p.1) + "\n"
  }

  /** The text of the env format: the lines of the entries, in order. */
  function EnvText(m: IndexMap<string, string>): string {
    if m == [] then "" else EnvLine(m[0]) + EnvText(m[1..])
  }

  /** The text of the shell format. */
  function ShellText(m: IndexMap<string, string>): string {
    if m == [] then "" else ShellLine(m[0]) + ShellText(m[1..])
  }

  lemma {:induction false} EnvTextSnoc(m: IndexMap<string, string>, p: (string, string))
    ensures EnvText(m + [p]) == EnvText(m) + EnvLine(p)
  {
    if m != [] {
      var h, t := EnvLine(m[0]), m[1..];
      assert (m + [p])[0] == m[0] && (m + [p])[1..] == t + [p];
      assert EnvText(m + [p]) == h + EnvText(t + [p]);
      EnvTextSnoc(t, p);
      ConcatAfter(h, EnvText(t), EnvLine(p));
    } else {
      assert EnvText([p]) == EnvLine(p) + EnvText([]);
    }
  }

  lemma {:induction false} ShellTextSnoc(m: IndexMap<string, string>, p: (string, string))
    ensures ShellText(m + [p]) == ShellText(m) + ShellLine(p)
  {
    if m != [] {
      var h, t := ShellLine(m[0]), m[1..];
      assert (m + [p])[0] == m[0] && (m + [p])[1..] == t + [p];
      assert ShellText(m + [p]) == h + ShellText(t + [p]);
      ShellTextSnoc(t, p);
      ConcatAfter(h, ShellText(t), ShellLine(p));
    } else {
      assert ShellText([p]) == ShellLine(p) + ShellText([]);
    }
  }

  lemma EnvTextStep(m: IndexMap<string, string>, i: nat)
    requires i < |m|
    ensures EnvText(m[..i + 1]) == EnvText(m[..i]) + EnvLine(m[i])
  {
    assert m[..i + 1] == m[..i] + [m[i]];
    EnvTextSnoc(m[..i], m[i]);
  }

  /** `EnvFormatter::format`: one `push_str` per entry. */
  method EnvFormat(entries: IndexMap<string, string>) returns (output: string)
    ensures output == EnvText(entries)
    ensures entries == [] ==> output == ""
  {
    output := "";
    var i := 0;
    while i < |entries|
      invariant 0 <= i <= |entries|
      invariant output == EnvText(entries[..i])
    {
      EnvTextStep(entries, i);
      output := output + EnvLine(entries[i]);
      i := i + 1;
    }
    assert entries[..i] == entries;
  }

  lemma ShellTextStep(m: IndexMap<string, string>, i: nat)
    requires i < |m|
    ensures ShellText(m[..i + 1]) == ShellText(m[..i]) + ShellLine(m[i])
  {
    assert m[..i + 1] == m[..i] + [m[i]];
    ShellTextSnoc(m[..i], m[i]);
  }

  /** `ShellFormatter::format`: one `push_str` per entry. */
  method ShellFormat(entries: IndexMap<string, string>) returns (output: string)
    ensures output == ShellText(entries)
    ensures entries == [] ==> output == ""
  {
    output := "";
    var i := 0;
    while i < |entries|
      invariant 0 <= i <= |entries|
      invariant output == ShellText(entries[..i])
    {
      ShellTextStep(entries, i);
      output := output + ShellLine(entries[i]);
      i := i + 1;
    }
    assert entries[..i] == entries;
  }

  /** `JsonFormatter::format`: the map as a JSON object, then a newline; it decodes back to the map. */
  function JsonFormat(entries: IndexMap<string, string>): (output: string)
    ensures Decode(output) == Some(entries)
    ensures output[|output| - 1] == '\n'
  {
    var output := Object(entries) + "\n";
    DecodeObjectText(entries, "\n");
    output
  }

  // What the line formats promise.

  /** No line break inside a key. */
  ghost predicate SingleLineKeys(m: IndexMap<string, string>) {
    forall i :: 0 <= i < |m| ==> '\n' !in m[i].0
  }

  /** A string literal never holds a raw line break: the value cannot end the line early. */
  lemma QuoteSingleLine(v: string)
    ensures '\n' !in Quote(v)
  {
    var q := Quote(v);
    assert q == "\"" + Escape(v) + "\"";
    forall i | 0 <= i < |q|
      ensures q[i] != '\n'
    {
      if 0 < i < |q| - 1 {
        assert q[i] == Escape(v)[i - 1];
      }
    }
  }

  lemma SplitFirstLine(x: string, rest: string)
    requires '\n' !in x
    ensures Split(x + "\n" + rest, '\n') == [x] + Split(rest, '\n')
  {
    var s := x + "\n" + rest;
    IndexOfIs(s, '\n', |x|);
    assert s[..|x|] == x && s[|x| + 1..] == rest;
  }

  /** The `KEY="value"` texts of the entries, in order. */
  function Assignments(m: IndexMap<string, string>): (ls: seq<string>)
    ensures |ls| == |m|
    ensures forall i :: 0 <= i < |m| ==> ls[i] == Assignment(m[i])
  {
    if m == [] then [] else [Assignment(m[0])] + Assignments(m[1..])
  }

  lemma AssignmentSingleLine(p: (string, string))
    requires '\n' !in p.0
    ensures '\n' !in Assignment(p)
  {
    QuoteSingleLine(p.1);
  }

  lemma EnvFirstLine(m: IndexMap<string, string>)
    requires m != [] && '\n' !in m[0].0
    ensures Split(EnvText(m), '\n') == [Assignment(m[0])] + Split(EnvText(m[1..]), '\n')
  {
    var x, tail := Assignment(m[0]), EnvText(m[1..]);
    AssignmentSingleLine(m[0]);
    assert EnvText(m) == x + "\n" + tail;
    SplitFirstLine(x, tail);
  }

  /** The env text split at line breaks: one `KEY="value"` line per entry, in order, then the empty tail. */
  lemma {:induction false} EnvTextLines(m: IndexMap<string, string>)
    requires SingleLineKeys(m)
    ensures Split(EnvText(m), '\n') == Assignments(m) + [""]
  {
    if m != [] {
      EnvFirstLine(m);
      EnvTextLines(m[1..]);
      assert Assignments(m) + [""] == [Assignment(m[0])] + (Assignments(m[1..]) + [""]);
    }
  }

  lemma ShellFirstLine(m: IndexMap<string, string>)
    requires m != [] && '\n' !in m[0].0
    ensures Split(ShellText(m), '\n') == ["export " + Assignment(m[0])] + Split(ShellText(m[1..]), '\n')
  {
    var x, tail := "export " + Assignment(m[0]), ShellText(m[1..]);
    AssignmentSingleLine(m[0]);
    assert '\n' !in x by {
      assert x == "export " + Assignment(m[0]);
    }
    ConcatAfter("export ", Assignment(m[0]), "\n");
    assert ShellText(m) == x + "\n" + tail;
    SplitFirstLine(x, tail);
  }

  /** The shell text split at line breaks: each line is the env line behind `export `. */
  lemma {:induction false} ShellTextLines(m: IndexMap<string, string>)
    requires SingleLineKeys(m)
    ensures var ls := Split(ShellText(m), '\n');
      && |ls| == |m| + 1 && ls[|m|] == ""
      && forall i :: 0 <= i < |m| ==> ls[i] == "export " + Assignment(m[i])
  {
    if m != [] {
      ShellFirstLine(m);
      ShellTextLines(m[1..]);
    }
  }

  /** After the key and the equals sign, each line holds a string literal that decodes to the value. */
  lemma AssignmentValue(p: (string, string))
    ensures var l := Assignment(p);
      l[..|p.0|] == p.0 && l[|p.0|] == '=' && DecodeString(l[|p.0| + 1..]) == Some((p.1, ""))
  {
    var l := Assignment(p);
    assert l[|p.0| + 1..] == Quote(p.1) + "";
    DecodeQuoted(p.1, "");
  }

  /** A quotation mark inside a value is written `\"`. */
  lemma EscapeInnerQuote(a: string, b: string)
    ensures Escape(a + "\"" + b) == Escape(a) + "\\\"" + Escape(b)
  {
    EscapeConcat(a, "\"" + b);
    EscapeConcat("\"", b);
    assert a + "\"" + b == a + ("\"" + b);
    assert Escape("\"") == "\\\"";
  }
}
