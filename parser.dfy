/**
 * The entry builder of src/parser.rs: what `parse` does with the tree that
 * the generated grammar produces. The grammar itself is not modelled; its
 * output is the input here, a sequence of file items each of which is a
 * declaration (an optional directive, an identifier and a value node) or the
 * end-of-input marker.
 */
module Parser {
  import opened Wrappers
  import opened Errors
  import opened Str
  import opened IndexMaps
  import opened Seqs

  // The entries `parse` returns.

  datatype SecretProviderConfig = AwsSm(id: string) | AwsPs(id: string)

  datatype SecretConfig = SecretConfig(required: bool, providerConfig: SecretProviderConfig)

  datatype EnvEntry = EnvEntry(key: string, value: Option<string>, secret: Option<SecretConfig>)

  // The grammar's parse tree.

  /** The four value rules: unquoted, double-quoted, single-quoted, backtick-quoted. */
  datatype ValueRule = Raw | DQuote | SQuote | Tick

  /** A value node: its rule and the text the rule matched, without the quotes. */
  datatype PairValue = PairValue(rule: ValueRule, text: string)

  datatype DirectiveRule = AwsSmDirective | AwsPsDirective

  /** A `# @aws-sm id` or `# @aws-ps id` comment, possibly followed by `@optional`. */
  datatype Directive = Directive(rule: DirectiveRule, id: string, optionalMarker: bool)

  datatype Declaration = Declaration(directive: Option<Directive>, ident: string, value: PairValue)

  datatype FileItem = DeclarationItem(decl: Declaration) | EndOfInput

  // Converting one declaration.

  /** The delimiter of a quoted value rule. */
  function Delimiter(rule: ValueRule): char
    requires rule != Raw
  {
    match rule
    case DQuote => '"'
    case SQuote => '\''
    case Tick => '`'
  }

  /** The escape sequence of a delimiter: a backslash followed by it. */
  function EscapeSequence(q: char): string {
    ['\\', q]
  }

  /**
   * A quoted value with each escaped delimiter turned into the delimiter; a
   * value without one is taken as it is.
   */
  function Unescape(text: string, q: char): string {
    if Contains(text, EscapeSequence(q)) then Replace(text, EscapeSequence(q), [q]) else text
  }

  /** The text of a value node after unescaping or trimming. */
  function ConvertValue(v: PairValue): string {
    match v.rule
    case Raw => Trim(v.text)
    case DQuote => Unescape(v.text, '"')
    case SQuote => Unescape(v.text, '\'')
    case Tick => Unescape(v.text, '`')
  }

  /** An empty value is no value. */
  function DefaultOf(v: string): (r: Option<string>)
    ensures r.None? <==> v == []
    ensures r.Some? ==> r.value == v
  {
    if v == [] then None else Some(v)
  }

  function ToSecretConfig(d: Directive): (c: SecretConfig)
    ensures c.required <==> !d.optionalMarker
    ensures c.providerConfig.id == d.id
    ensures c.providerConfig.AwsSm? <==> d.rule == AwsSmDirective
  {
    var config := match d.rule
      case AwsSmDirective => AwsSm(d.id)
      case AwsPsDirective => AwsPs(d.id);
    SecretConfig(!d.optionalMarker, config)
  }

  /** The entry a declaration stands for. */
  function ToEntry(d: Declaration): (e: EnvEntry)
    ensures e.key == d.ident
    ensures e.value == DefaultOf(ConvertValue(d.value))
    ensures e.secret.None? <==> d.directive.None?
    ensures d.directive.Some? ==> e.secret == Some(ToSecretConfig(d.directive.value))
  {
    var secret := match d.directive
      case None => None
      case Some(directive) => Some(ToSecretConfig(directive));
    EnvEntry(d.ident, DefaultOf(ConvertValue(d.value)), secret)
  }

  // What the value conversion promises.

  /** What a writer puts between the delimiters: a backslash before each delimiter. */
  function EscapeDelimiter(s: string, q: char): (e: string)
    ensures |e| >= |s|
    ensures e != [] && q != '\\' ==> e[0] != q
  {
    if s == [] then []
    else if s[0] == q then EscapeSequence(q) + EscapeDelimiter(s[1..], q)
    else [s[0]] + EscapeDelimiter(s[1..], q)
  }

  lemma {:induction false} ReplaceEscaped(s: string, q: char)
    requires q != '\\'
    ensures Replace(EscapeDelimiter(s, q), EscapeSequence(q), [q]) == s
  {
    if s != [] {
      var e := EscapeDelimiter(s, q);
      var rest := EscapeDelimiter(s[1..], q);
      ReplaceEscaped(s[1..], q);
      if s[0] == q {
        assert e[..2] == EscapeSequence(q) && e[2..] == rest;
      } else {
        assert e == [s[0]] + rest;
        assert e[1..] == rest;
        if |e| >= 2 {
          assert e[..2] != EscapeSequence(q);
        }
      }
      assert [s[0]] + s[1..] == s;
    }
  }

  /**
   * Each quoted rule undoes exactly the escaping of its own delimiter: a
   * writer's escaped text converts back to the original value, whatever
   * else (backslashes, the other quotes, whitespace) it holds.
   */
  lemma UnescapeRoundTrip(rule: ValueRule, s: string)
    requires rule != Raw
    ensures ConvertValue(PairValue(rule, EscapeDelimiter(s, Delimiter(rule)))) == s
  {
    var q := Delimiter(rule);
    var e := EscapeDelimiter(s, q);
    ReplaceEscaped(s, q);
    if !Contains(e, EscapeSequence(q)) {
      ReplaceAbsent(e, EscapeSequence(q), [q]);
    }
  }

  /** A quoted value without an escaped delimiter is taken verbatim, spaces included. */
  lemma QuotedVerbatim(rule: ValueRule, text: string)
    requires rule != Raw && !Contains(text, EscapeSequence(Delimiter(rule)))
    ensures ConvertValue(PairValue(rule, text)) == text
  {
  }

  /** Unescaping a value that has an escaped delimiter is the same `replace`. */
  lemma UnescapeIsReplace(text: string, q: char)
    ensures Unescape(text, q) == Replace(text, EscapeSequence(q), [q])
  {
    if !Contains(text, EscapeSequence(q)) {
      ReplaceAbsent(text, EscapeSequence(q), [q]);
    }
  }

  // Building the entries.

  /** The declarations of the file, in order (the end-of-input marker dropped). */
  function Declarations(items: seq<FileItem>): (ds: seq<Declaration>)
    ensures |ds| <= |items|
  {
    if items == [] then []
    else
      var init := Declarations(items[..|items| - 1]);
      match items[|items| - 1]
      case DeclarationItem(d) => init + [d]
      case EndOfInput => init
  }

  /** The pairs `parse` inserts, one per declaration: its identifier and its entry. */
  function KeyedEntries(ds: seq<Declaration>): (ps: seq<(string, EnvEntry)>)
    ensures |ps| == |ds|
    ensures forall i :: 0 <= i < |ds| ==> ps[i] == (ds[i].ident, ToEntry(ds[i]))
  {
    seq(|ds|, i requires 0 <= i < |ds| => (ds[i].ident, ToEntry(ds[i])))
  }

  function Idents(ds: seq<Declaration>): (ks: seq<string>)
    ensures |ks| == |ds|
    ensures forall i :: 0 <= i < |ds| ==> ks[i] == ds[i].ident
  {
    seq(|ds|, i requires 0 <= i < |ds| => ds[i].ident)
  }

  function EntryKeys(es: seq<EnvEntry>): (ks: seq<string>)
    ensures |ks| == |es|
    ensures forall i :: 0 <= i < |es| ==> ks[i] == es[i].key
  {
    seq(|es|, i requires 0 <= i < |es| => es[i].key)
  }

  /** No later declaration has the same identifier as declaration `i`. */
  ghost predicate IsLastDeclaration(ds: seq<Declaration>, i: nat)
    requires i < |ds|
  {
    forall j :: i < j < |ds| ==> ds[j].ident != ds[i].ident
  }

  /**
   * The entries `parse` returns for the declarations `ds`: one per distinct
   * identifier, in the order in which the identifiers first occur, each the
   * entry of the last declaration of that identifier.
   */
  ghost predicate BuiltFrom(es: seq<EnvEntry>, ds: seq<Declaration>) {
    && (forall i, j :: 0 <= i < j < |es| ==> es[i].key != es[j].key)
    && (forall k :: k in EntryKeys(es) <==> k in Idents(ds))
    && InFirstSeenOrder(EntryKeys(es), Idents(ds))
    && (forall i :: 0 <= i < |ds| && IsLastDeclaration(ds, i) ==> ToEntry(ds[i]) in es)
  }

  /** Every pair of the map the loop builds is keyed by its entry's key. */
  lemma MapKeyedByEntry(ds: seq<Declaration>)
    ensures EntryKeys(Values(FromPairs(KeyedEntries(ds)))) == Keys(FromPairs(KeyedEntries(ds)))
  {
    var ps := KeyedEntries(ds);
    var m := FromPairs(ps);
    ExtendPairsFrom([], ps);
    forall i | 0 <= i < |m|
      ensures m[i].1.key == m[i].0
    {
      assert m[i] in m;
    }
  }

  /** The entry of the last declaration of an identifier is in the map the loop builds. */
  lemma LastEntryPresent(ds: seq<Declaration>, i: nat)
    requires i < |ds| && IsLastDeclaration(ds, i)
    ensures ToEntry(ds[i]) in Values(FromPairs(KeyedEntries(ds)))
  {
    var ps := KeyedEntries(ds);
    var m := FromPairs(ps);
    ExtendLastWins([], ps, i);
    var j := IndexOf(Keys(m), ds[i].ident);
    assert Values(m)[j] == ToEntry(ds[i]);
  }

  /** The map the loop builds, read as its entries, has the shape `BuiltFrom` describes. */
  lemma EntriesBuiltFrom(ds: seq<Declaration>)
    ensures BuiltFrom(Values(FromPairs(KeyedEntries(ds))), ds)
  {
    var ps := KeyedEntries(ds);
    var m := FromPairs(ps);
    var es := Values(m);
    ExtendKeys([], ps);
    assert Keys(ps) == Idents(ds);
    assert Keys(m)[0..] == Keys(m);
    MapKeyedByEntry(ds);
    assert EntryKeys(es) == Keys(m);
    forall i | 0 <= i < |ds| && IsLastDeclaration(ds, i)
      ensures ToEntry(ds[i]) in es
    {
      LastEntryPresent(ds, i);
    }
  }

  lemma DeclarationsStep(items: seq<FileItem>, i: nat)
    requires i < |items|
    ensures Declarations(items[..i + 1]) ==
      Declarations(items[..i]) + (if items[i].DeclarationItem? then [items[i].decl] else [])
  {
    assert items[..i + 1][..i] == items[..i];
  }

  lemma KeyedEntriesSnoc(ds: seq<Declaration>, d: Declaration)
    ensures KeyedEntries(ds + [d]) == KeyedEntries(ds) + [(d.ident, ToEntry(d))]
  {
  }

  /** One more file item: a declaration adds one insert, the end-of-input marker none. */
  lemma BuildStep(items: seq<FileItem>, i: nat)
    requires i < |items|
    ensures items[i].DeclarationItem? ==>
      FromPairs(KeyedEntries(Declarations(items[..i + 1])))
      == Insert(FromPairs(KeyedEntries(Declarations(items[..i]))), items[i].decl.ident, ToEntry(items[i].decl))
    ensures items[i].EndOfInput? ==>
      Declarations(items[..i + 1]) == Declarations(items[..i])
  {
    DeclarationsStep(items, i);
    if items[i].DeclarationItem? {
      var ds := Declarations(items[..i]);
      KeyedEntriesSnoc(ds, items[i].decl);
      ExtendSnoc([], KeyedEntries(ds), (items[i].decl.ident, ToEntry(items[i].decl)));
    }
  }

  /**
   * `parse`: a grammar error is returned as a parsing error with no entries;
   * otherwise each declaration is converted and inserted under its
   * identifier, so a repeated identifier keeps its first position and takes
   * the later declaration's entry.
   */
  method Parse(tree: Result<seq<FileItem>, GrammarError>) returns (r: Result<seq<EnvEntry>, Error>)
    ensures tree.Failure? ==> r == Failure(ParsingError(tree.error))
    ensures tree.Success? ==> r.Success? && BuiltFrom(r.value, Declarations(tree.value))
  {
    if tree.Failure? {
      return Failure(ParsingError(tree.error));
    }
    var items := tree.value;
    var entries: IndexMap<string, EnvEntry> := [];
    var i := 0;
    while i < |items|
      invariant 0 <= i <= |items|
      invariant entries == FromPairs(KeyedEntries(Declarations(items[..i])))
    {
      BuildStep(items, i);
      if items[i].DeclarationItem? {
        var decl := items[i].decl;
        entries := Insert(entries, decl.ident, ToEntry(decl));
      }
      i := i + 1;
    }
    assert items[..|items|] == items;
    EntriesBuiltFrom(Declarations(items));
    return Success(Values(entries));
  }

  // The cases the tests in src/parser.rs pin down.

  /** `KEY1 =   value1`: the raw value is trimmed. */
  lemma RawValueExample()
    ensures ConvertValue(PairValue(Raw, "   value1  ")) == "value1"
  {
    assert "   value1  " == "   " + "value1" + "  ";
    TrimPadded("   ", "value1", "  ");
  }

  lemma {:induction false} EscapeDelimiterConcat(a: string, b: string, q: char)
    ensures EscapeDelimiter(a + b, q) == EscapeDelimiter(a, q) + EscapeDelimiter(b, q)
  {
    if a != [] {
      assert (a + b)[0] == a[0] && (a + b)[1..] == a[1..] + b;
      EscapeDelimiterConcat(a[1..], b, q);
    } else {
      assert a + b == b;
    }
  }

  lemma {:induction false} EscapeDelimiterPlain(s: string, q: char)
    requires q !in s
    ensures EscapeDelimiter(s, q) == s
  {
    if s != [] {
      EscapeDelimiterPlain(s[1..], q);
      assert [s[0]] + s[1..] == s;
    }
  }

  /**
   * `KEY1="val\"ue1"`, `KEY2='val\'ue2'`, `` KEY3=`val\`ue3` ``, generalised:
   * an escaped delimiter between text without that delimiter becomes the
   * plain delimiter.
   */
  lemma EscapedDelimiterInside(rule: ValueRule, a: string, b: string)
    requires rule != Raw && Delimiter(rule) !in a && Delimiter(rule) !in b
    ensures ConvertValue(PairValue(rule, a + EscapeSequence(Delimiter(rule)) + b)) == a + [Delimiter(rule)] + b
  {
    var q := Delimiter(rule);
    EscapeDelimiterConcat(a + [q], b, q);
    EscapeDelimiterConcat(a, [q], q);
    EscapeDelimiterPlain(a, q);
    EscapeDelimiterPlain(b, q);
    assert EscapeDelimiter([q], q) == EscapeSequence(q);
    UnescapeRoundTrip(rule, a + [q] + b);
  }

  /** Two entries under the same key are a repeated key. */
  lemma SameKeyRepeats(es: seq<EnvEntry>, k: string)
    requires forall i :: 0 <= i < |es| ==> es[i].key == k
    ensures |es| >= 2 ==> exists i, j :: 0 <= i < j < |es| && es[i].key == es[j].key
  {
    if |es| >= 2 {
      assert es[0].key == es[1].key;
    }
  }

  lemma AtMostOneWithKey(es: seq<EnvEntry>, k: string)
    requires forall i, j :: 0 <= i < j < |es| ==> es[i].key != es[j].key
    requires forall i :: 0 <= i < |es| ==> es[i].key == k
    ensures |es| <= 1
  {
    SameKeyRepeats(es, k);
  }

  lemma IdentsAllSame(ds: seq<Declaration>, k: string)
    requires forall i :: 0 <= i < |ds| ==> ds[i].ident == k
    ensures forall x :: x in Idents(ds) ==> x == k
  {
  }

  /** Declarations that all share one identifier leave exactly one entry: the last one's. */
  lemma OneIdentifierOneEntry(es: seq<EnvEntry>, ds: seq<Declaration>)
    requires BuiltFrom(es, ds) && ds != []
    requires forall i :: 0 <= i < |ds| ==> ds[i].ident == ds[0].ident
    ensures es == [ToEntry(ds[|ds| - 1])]
  {
    var k := ds[0].ident;
    assert IsLastDeclaration(ds, |ds| - 1);
    assert ToEntry(ds[|ds| - 1]) in es;
    IdentsAllSame(ds, k);
    forall i | 0 <= i < |es|
      ensures es[i].key == k
    {
      assert EntryKeys(es)[i] in Idents(ds);
    }
    AtMostOneWithKey(es, k);
  }

  /** The input of the test at src/parser.rs:555-571: `KEY1=value1` then `KEY1=overridden`. */
  function DuplicateKeyItems(): seq<FileItem> {
    [ DeclarationItem(Declaration(None, "KEY1", PairValue(Raw, "value1"))),
      DeclarationItem(Declaration(None, "KEY1", PairValue(Raw, "overridden"))),
      EndOfInput ]
  }

  lemma DuplicateKeyDeclarations()
    ensures Declarations(DuplicateKeyItems()) ==
      [Declaration(None, "KEY1", PairValue(Raw, "value1")), Declaration(None, "KEY1", PairValue(Raw, "overridden"))]
  {
    var items := DuplicateKeyItems();
    assert items[..2] == items[..3][..2];
    assert items[..2][..1] == [items[0]];
    assert items[..2][..1][..0] == [];
  }

  lemma OverriddenEntry()
    ensures ToEntry(Declaration(None, "KEY1", PairValue(Raw, "overridden"))) == EnvEntry("KEY1", Some("overridden"), None)
  {
    assert "overridden" == [] + "overridden" + [];
    TrimPadded([], "overridden", []);
  }

  /** Two declarations of one identifier leave one entry: the second one's. */
  lemma SecondDeclarationWins(es: seq<EnvEntry>, d1: Declaration, d2: Declaration)
    requires d1.ident == d2.ident && BuiltFrom(es, [d1, d2])
    ensures es == [ToEntry(d2)]
  {
    OneIdentifierOneEntry(es, [d1, d2]);
  }

  /** What `parse` returns for that input: one entry, with the later value. */
  lemma DuplicateKeyEntries(es: seq<EnvEntry>)
    requires BuiltFrom(es, Declarations(DuplicateKeyItems()))
    ensures es == [EnvEntry("KEY1", Some("overridden"), None)]
  {
    var d1 := Declaration(None, "KEY1", PairValue(Raw, "value1"));
    var d2 := Declaration(None, "KEY1", PairValue(Raw, "overridden"));
    DuplicateKeyDeclarations();
    SecondDeclarationWins(es, d1, d2);
    OverriddenEntry();
  }

  /**
   * The test at src/parser.rs:555-571 stated of `Parse`: the verifier proves
   * that on that input `Parse` returns the single overriding entry.
   */
  method DuplicateKeyExample() {
    var r := Parse(Success(DuplicateKeyItems()));
    DuplicateKeyEntries(r.value);
    assert r.value == [EnvEntry("KEY1", Some("overridden"), None)];
  }
}
