/**
 * The parts of src/main.rs that compute: splitting a `KEY=value` argument,
 * collecting the `--var` pairs into an insertion-ordered map, and choosing
 * the formatter for the requested output format.
 */
module App {
  import opened Wrappers
  import opened Seqs
  import opened Str
  import opened IndexMaps
  import opened Json
  import opened Formatters

  const KEY_VALUE_ERROR: string := "Key value pairs should be of the form key=value"

  /**
   * `parse_key_val` as written: the first two segments of `split("=")`. The
   * first segment always exists, so only a missing second one is an error;
   * a value is cut at its first `=`.
   */
  function ParseKeyVal(s: string): (r: Result<(string, string), string>)
    ensures r.Failure? ==> r.error == KEY_VALUE_ERROR
  {
    var parts := Split(s, '=');
    if |parts| < 2 then Failure(KEY_VALUE_ERROR) else Success((parts[0], parts[1]))
  }

  /** The text before the first `=`, and the text after it. */
  function BeforeFirst(s: string, c: char): string
    requires c in s
  {
    s[..IndexOf(s, c)]
  }

  function AfterFirst(s: string, c: char): string
    requires c in s
  {
    s[IndexOf(s, c) + 1..]
  }

  /**
   * What `parse_key_val` accepts and returns: it succeeds exactly when `s`
   * holds an `=`; the key is the (possibly empty) text before the first
   * `=`; the value is the text after it up to the next `=`, if any.
   */
  lemma ParseKeyValSpec(s: string)
    ensures ParseKeyVal(s).Success? <==> '=' in s
    ensures ParseKeyVal(s).Failure? ==> ParseKeyVal(s) == Failure(KEY_VALUE_ERROR)
    ensures '=' in s ==> ParseKeyVal(s).value.0 == BeforeFirst(s, '=')
    ensures '=' in s ==>
      var rest := AfterFirst(s, '=');
      ParseKeyVal(s).value.1 == (if '=' in rest then BeforeFirst(rest, '=') else rest)
  {
    if '=' in s {
      var i := IndexOf(s, '=');
      assert s == s[..i] + ['='] + s[i + 1..];
      var parts := Split(s, '=');
      assert parts == [s[..i]] + Split(s[i + 1..], '=');
    }
  }

  /** Joining a key and a value: `parse_key_val` gives them back only when the value has no `=`. */
  lemma ParseKeyValJoined(k: string, v: string)
    requires '=' !in k
    ensures ParseKeyVal(k + "=" + v).Success?
    ensures ParseKeyVal(k + "=" + v) == Success((k, v)) <==> '=' !in v
  {
    var s := k + "=" + v;
    IndexOfIs(s, '=', |k|);
    assert s[..|k|] == k && s[|k| + 1..] == v;
    ParseKeyValSpec(s);
    if '=' in v {
      var j := IndexOf(v, '=');
      assert v[..j] != v;
    }
  }

  /** A value is cut at a second `=`: `k=v=w` gives `(k, v)`, and `w` is lost. */
  lemma ParseKeyValTruncates(k: string, v: string, w: string)
    requires '=' !in k && '=' !in v
    ensures ParseKeyVal(k + "=" + v + "=" + w) == Success((k, v))
  {
    var rest := v + "=" + w;
    var s := k + "=" + rest;
    assert s == k + "=" + v + "=" + w;
    IndexOfIs(s, '=', |k|);
    assert s[..|k|] == k && s[|k| + 1..] == rest;
    IndexOfIs(rest, '=', |v|);
    assert rest[..|v|] == v;
    ParseKeyValSpec(s);
  }

  /** `--var KEY=a=b` sets `KEY` to `a`. */
  lemma ParseKeyValDropsTail()
    ensures ParseKeyVal("KEY=a=b") == Success(("KEY", "a"))
  {
    assert "KEY=a=b" == "KEY" + "=" + "a" + "=" + "b";
    ParseKeyValTruncates("KEY", "a", "b");
  }

  /** The split the form `key=value` asks for: at the first `=`, the value keeping any later `=`. */
  function ParseKeyValWhole(s: string): (r: Result<(string, string), string>)
    ensures r.Success? <==> '=' in s
    ensures r.Failure? ==> r.error == KEY_VALUE_ERROR
    ensures r.Success? ==> r.value.0 + "=" + r.value.1 == s && '=' !in r.value.0
  {
    if '=' in s then
      var i := IndexOf(s, '=');
      assert s == s[..i] + "=" + s[i + 1..];
      Success((s[..i], s[i + 1..]))
    else Failure(KEY_VALUE_ERROR)
  }

  /** Every key without `=` and every value come back from their `key=value` text. */
  lemma ParseKeyValWholeJoined(k: string, v: string)
    requires '=' !in k
    ensures ParseKeyValWhole(k + "=" + v) == Success((k, v))
  {
    var s := k + "=" + v;
    IndexOfIs(s, '=', |k|);
    assert s[..|k|] == k && s[|k| + 1..] == v;
  }

  /**
   * The `vars` map: the `--var` pairs, if any, collected into an IndexMap,
   * so each key appears once, at its first position, with its last value.
   */
  function CollectVars(vars: Option<seq<(string, string)>>): (m: IndexMap<string, string>)
    ensures var ps := vars.GetOr([]);
      && UniqueKeys(m)
      && (forall k :: k in Keys(m) <==> k in Keys(ps))
      && InFirstSeenOrder(Keys(m), Keys(ps))
      && (forall i :: 0 <= i < |ps| && IsLastFor(ps, i) ==> Get(m, ps[i].0) == Some(ps[i].1))
  {
    var ps := vars.GetOr([]);
    FromPairsSpec(ps);
    assert Keys(FromPairs(ps))[0..] == Keys(FromPairs(ps));
    FromPairs(ps)
  }

  /** The `--format` values. */
  datatype Format = Env | Shell | Json

  /** The formatter the requested format selects, applied to the entries. */
  method Render(format: Format, entries: IndexMap<string, string>) returns (output: string)
    ensures format == Env ==> output == EnvText(entries)
    ensures format == Shell ==> output == ShellText(entries)
    ensures format == Json ==> output == JsonFormat(entries) && Decode(output) == Some(entries)
  {
    match format
    case Env => output := EnvFormat(entries);
    case Shell => output := ShellFormat(entries);
    case Json => output := JsonFormat(entries);
  }
}
