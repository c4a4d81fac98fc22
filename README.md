# awsm-env in Dafny

A verified model of the computing core of awsm-env. The tool reads an
`.env`-like file whose entries may carry `# @aws-sm id` or `# @aws-ps id`
secret directives. It fetches the secrets, applies `--var` overrides and
prints the result as `.env` lines, `export` lines or a JSON object.

The model covers four parts of the program. Each part is proved against
specification functions.

- **Parser** (src/parser.rs) is what `parse` does with the grammar's parse
  tree. Each value node is converted by its rule:
  - a raw value is trimmed;
  - a quoted value has its own escaped delimiter unescaped;
  - an empty value becomes no value.

  A directive becomes a `SecretConfig`, and the entries are inserted into
  an insertion-ordered map. `Parse` is a method with the source's loop.
  Its contract is `BuiltFrom`:
  - one entry per distinct identifier;
  - in first-seen order;
  - each entry the one built from that identifier's last declaration.
- **Lib** (src/lib.rs) is `process_entries`:
  - it collects the secret ids;
  - it zips the fetched values back into the entries that asked for them
    (the `MergeSecrets` loop);
  - it keeps the entries that have a value;
  - it extends the map with the overrides (the `ProcessEntries` loop).

  The fetch is a function parameter. This file comes from another revision
  of the program: its entries carry an optional secret id (`Lib.Entry`),
  not the parser's `SecretConfig`, so the model follows it as written.
- **Formatters** (src/formatters.rs) holds the three output formats. The env
  and shell formatters are methods with the source's `push_str` loops. The
  JSON formatter is a function. Values are written as JSON string literals
  the way serde_json writes them (section 7 of RFC 8259), and the `Json`
  module holds both that writer and a decoder. Through the decoder the
  model proves:
  - the JSON output decodes back to the map;
  - each env or shell line's value decodes back to the entry's value.
- **App** (src/main.rs) holds:
  - `parse_key_val`, with a characterisation of what it accepts and returns;
  - the collection of `--var` pairs into an IndexMap;
  - the choice of formatter for the `--format` value.

Supporting modules:
- `Wrappers` holds `Option` and `Result`.
- `Errors` holds the crate's error type.
- `Seqs` finds an element's first position.
- `Str` models the Rust `str` methods the program uses: `trim` (Unicode
  White_Space), `contains`, `replace` and `split` by a character.
- `IndexMaps` models `IndexMap` as a sequence of pairs. `insert` keeps an
  existing key's position and replaces its value, and appends a new key.
  `extend` and `collect` are repeated inserts.

`process_entries` in src/lib.rs does not deduplicate secret ids. It does not
expand placeholders, and it applies no required/optional policy to
secrets that are not found. The model follows that code. The fetch
receives one id per entry that has one, in entry order, with duplicates
kept (`Lib.SecretIdAt`, `Lib.SecretIdOrigin`).

## Model

| member | source | states |
|---|---|---|
| IndexMaps.Insert | src/parser.rs:166 | `IndexMap::insert`: the key then holds the new value and every other key keeps its value. An existing key keeps its position; a new key is appended. Unique keys stay unique. |
| IndexMaps.ExtendLastWins | src/lib.rs:41-45 | After `extend`, a key holds the value of its last pair among the new pairs. |
| IndexMaps.ExtendUntouched | src/lib.rs:41-45 | `extend` leaves the value of a key that no new pair names. |
| IndexMaps.ExtendKeys | src/lib.rs:41-45 | After `extend`, the old keys keep their positions. The new keys follow, each once, in the order of their first pair. |
| IndexMaps.FromPairsSpec | src/lib.rs:36-39 | `collect` into an IndexMap: each key once, in the order of its first pair, holding the value of its last pair. |
| IndexMaps.ExtendKeepsPosition | src/lib.rs:41-45 | `extend` leaves each key already in the map at its position. |
| Str.TrimSpec | src/parser.rs:113 | `trim` returns the text between leading and trailing whitespace, and that text neither starts nor ends with whitespace. |
| Str.TrimPadded | src/parser.rs:113 | Trimming text padded with whitespace gives back exactly the text. With `Str.TrimSpec`, `trim` has one possible result. |
| Str.ReplaceAbsent | src/parser.rs:104-112 | `replace` with a pattern that does not occur returns the text unchanged. |
| Str.SplitSpec | src/main.rs:38 | `split` yields at least one segment. The segments joined by the separator give the text, and none holds the separator. There is more than one segment exactly when the separator occurs, and the first segment runs up to its first occurrence. |
| Parser.DefaultOf | src/parser.rs:120-124 | An empty converted value gives `None`; a non-empty one gives `Some` of that value. |
| Parser.ToSecretConfig | src/parser.rs:126-154 | `required` holds exactly when there is no `@optional` marker. The provider is `AwsSm` exactly for an `@aws-sm` directive, and it carries the directive's id. |
| Parser.ToEntry | src/parser.rs:156-160 | The entry's key is the identifier and its value is the converted value with empty mapped to `None`. Its secret is absent exactly when there is no directive, and otherwise is the directive's config. |
| Parser.UnescapeRoundTrip | src/parser.rs:103-112 | Each quoted rule undoes exactly the escaping of its own delimiter. Any text, once every delimiter is escaped, converts back to itself, whatever backslashes, other quotes or whitespace it holds. |
| Parser.ReplaceEscaped | src/parser.rs:105 | Replacing the escape sequence with the delimiter inverts the escaping of that delimiter. |
| Parser.UnescapeIsReplace | src/parser.rs:104-112 | The `contains` guard does not change the result: unescaping is the `replace` of the escape sequence. |
| Parser.EscapedDelimiterInside | src/parser.rs:469-498 | For each quote rule, an escaped delimiter between texts that lack that delimiter becomes the plain delimiter. This generalises `\"`, `\'` and the escaped backtick. |
| Parser.QuotedVerbatim | src/parser.rs:114-116 | A quoted value without an escaped delimiter is taken verbatim, inner and outer spaces included (the test at src/parser.rs:573-602). |
| Parser.RawValueExample | src/parser.rs:353-372 | The raw value `   value1  ` converts to `value1`. |
| Parser.BuildStep | src/parser.rs:81-170 | One parse-tree item changes the map by one insert under the identifier for a declaration, and by nothing for the end-of-input marker. |
| Parser.EntriesBuiltFrom | src/parser.rs:173 | The map's values, in order, satisfy `BuiltFrom` for the declarations. |
| Parser.Parse | src/parser.rs:74-174 | A grammar error is returned as a parsing error with no entries. Otherwise the entries satisfy `BuiltFrom`: keys unique and the same set as the identifiers, in first-seen order, each last declaration's entry present. |
| Parser.OneIdentifierOneEntry | src/parser.rs:162-166 | Declarations that all share one identifier leave exactly one entry, the last declaration's. |
| Parser.SecondDeclarationWins | src/parser.rs:162-166 | Two declarations of one identifier leave only the second one's entry. |
| Parser.DuplicateKeyEntries | src/parser.rs:555-571 | `KEY1=value1` then `KEY1=overridden` gives the single entry `KEY1` = `overridden`, with no secret. |
| Lib.SecretIdAt | src/lib.rs:22-27 | An entry with a secret id asks for it at its rank, its position among the entries that have one. |
| Lib.SecretIdOrigin | src/lib.rs:22-27 | Each requested id is the id of the entry at that rank, so no id is added, dropped or deduplicated. |
| Lib.SecretIdsPrefix | src/lib.rs:22-27 | The ids asked for by the first `n` entries are the first ids of the request. |
| Lib.MergedAt | src/lib.rs:30-34 | The entry with the k-th secret id takes the k-th fetched value while there is one, and otherwise keeps its default. An entry without a secret id keeps its value. Keys and secret ids are unchanged. |
| Lib.MergedTail | src/lib.rs:33 | Once the fetched values run out, the remaining entries are unchanged: `zip` stops at the shorter side. |
| Lib.MergeSecrets | src/lib.rs:30-34 | The in-place zip produces `Merged`, the entries with their fetched values. |
| Lib.Present | src/lib.rs:38 | A pair is collected exactly when it is the key and value of an entry that has a value. |
| Lib.PresentAt | src/lib.rs:38 | The entry at index `i` that has a value yields its key and value as the pair at its rank: the number of valued entries before it. |
| Lib.PresentOrigin | src/lib.rs:38 | Each collected pair at position `k` is the key and value of the valued entry of rank `k`, so no pair is invented. |
| Lib.PresentInOrder | src/lib.rs:38 | Of two valued entries, the earlier one yields the earlier pair: `filter_map` keeps entry order, one pair per valued entry. |
| Lib.CollectOrder | src/lib.rs:36-39 | Of two entries each the first valued one for its key, the earlier entry's key comes first among the collected keys. |
| Lib.ResolveEntryOrder | src/lib.rs:36-45 | That entry order carries through `extend` with the overrides: the earlier first-valued entry's key stays first in the result. |
| Lib.CollectLastWins | src/lib.rs:36-39 | A key holds the value of its last entry that has a value. |
| Lib.CollectDropsEmpty | src/lib.rs:36-39 | A key none of whose entries has a value is not collected. |
| Lib.ProcessEntries | src/lib.rs:18-48 | A failed fetch of the secret ids is returned as the same error, with no partial map. Otherwise the result is `Resolve`: the merged entries with values, collected, then extended by the overrides. |
| Lib.OverrideWins | src/lib.rs:41-45 | Every override key maps to its override value in the result. |
| Lib.EntryValueKept | src/lib.rs:30-45 | A key without an override maps to the value of its last entry that has a value after the merge. |
| Lib.EntryDropped | src/lib.rs:36-45 | A key without an override, none of whose merged entries has a value, is absent from the result. |
| Lib.ResolveKeyOrder | src/lib.rs:36-45 | The collected keys are in the order of their first valued entry. Override keys already present keep their place, and new ones follow in override order. |
| Json.EscapeChar | src/formatters.rs:29 | The escape of one character is non-empty, does not start with a quotation mark and holds no control character. |
| Json.Escape | src/formatters.rs:29 | An escaped string holds no raw control character and is no shorter than the input. |
| Json.EscapeConcat | src/formatters.rs:29 | Escaping works character by character: the escape of a concatenation is the concatenation of the escapes. |
| Json.EscapePlain | src/formatters.rs:29 | Text without quotation marks, reverse solidi or control characters is written as it is. |
| Json.DecodeEscapeChar | src/formatters.rs:29 | Decoding an escaped character gives the character back, whatever text follows. |
| Json.DecodeQuoted | src/formatters.rs:29 | A string literal as written decodes to the original string and leaves the text after it. |
| Json.DecodeMembersOf | src/formatters.rs:75 | The object's members, as written, decode to the original pairs in order. |
| Json.DecodeObjectText | src/formatters.rs:75 | An object as written, followed by JSON whitespace, decodes to the original pairs in order. |
| Formatters.ShellLine | src/formatters.rs:52-56 | A shell line is `export ` followed by the env line of the same entry. |
| Formatters.EnvTextSnoc | src/formatters.rs:25-31 | One more entry appends exactly its line to the env text. |
| Formatters.ShellTextSnoc | src/formatters.rs:51-57 | One more entry appends exactly its line to the shell text. |
| Formatters.EnvFormat | src/formatters.rs:20-35 | The env formatter's loop produces the env lines of the entries in map order, and an empty map gives the empty string. |
| Formatters.ShellFormat | src/formatters.rs:46-61 | The shell formatter's loop produces the shell lines of the entries in map order, and an empty map gives the empty string. |
| Formatters.JsonFormat | src/formatters.rs:72-77 | The JSON output decodes back to the map and ends with a newline (the test at src/formatters.rs:108-121). |
| Formatters.QuoteSingleLine | src/formatters.rs:29 | A value's string literal never holds a raw line break. |
| Formatters.EnvTextLines | src/formatters.rs:23-33 | If no key holds a line break, the env text split at line breaks is one `KEY="value"` line per entry in order, then the empty tail. |
| Formatters.ShellTextLines | src/formatters.rs:49-59 | If no key holds a line break, the shell text split at line breaks is one `export KEY="value"` line per entry in order, then the empty tail. |
| Formatters.AssignmentValue | src/formatters.rs:26-30 | Each line is the key, `=`, then a string literal that decodes to the value with nothing after it. |
| Formatters.EscapeInnerQuote | src/formatters.rs:84-92 | A quotation mark inside a value is written as `\"` and the text around it is escaped as it is. |
| App.ParseKeyVal | src/main.rs:37-47 | The only failure is the `key=value` error message. |
| App.ParseKeyValSpec | src/main.rs:37-47 | `parse_key_val` succeeds exactly when the text holds `=`, so the key branch never fails. The key is the text before the first `=` and may be empty. The value is the text after it, up to a second `=` if there is one. |
| App.ParseKeyValJoined | src/main.rs:37-47 | A key without `=` and a value come back from `key=value` exactly when the value holds no `=`. |
| App.ParseKeyValTruncates | src/main.rs:42-46 | `k=v=w` gives `(k, v)`, so `w` is lost. |
| App.ParseKeyValDropsTail | src/main.rs:42-46 | `KEY=a=b` gives `("KEY", "a")`. |
| App.ParseKeyValWhole | src/main.rs:37-47 | The split at the first `=` succeeds exactly when there is one, and its key and value joined by `=` give the input. |
| App.ParseKeyValWholeJoined | src/main.rs:37-47 | With the split at the first `=`, every key without `=` and every value come back from their `key=value` text. |
| App.CollectVars | src/main.rs:60-64 | The `vars` map has each `--var` key once, in first-seen order, with its last value. No `--var` gives the empty map. |
| App.Render | src/main.rs:96-100 | `Env` selects the env text and `Shell` the shell text. `Json` selects the JSON text, which decodes back to the map. |

## Left out

- The pest grammar (`env.pest`, `EnvParser::parse`) is not part of this model. Its output, a sequence of declarations and an end-of-input marker, is the input to `Parser.Parse`, and its error is an abstract `GrammarError`.
- src/providers.rs is not part of this model. The AWS SDK calls, the chunking of ids by 20 and the network are one abstract `fetch` function passed to `Lib.ProcessEntries`.
- src/error.rs is reduced to its variants. Display texts and the SDK error payloads are left out; the source makes those payloads compare equal whatever they hold.
- I/O is left out: clap argument parsing, file reading and writing, standard output and every `eprintln!` report. That includes the duplicate-declaration warning at src/parser.rs:163, which only prints.
- The `placeholders` map (src/main.rs:66-70) is left out. It is collected and passed as a third argument that `process_entries` in src/lib.rs, from another revision, does not take.
- The pipeline `main` runs (parse, then process, then format) is not composed. The parser's entries and the entries `process_entries` reads have different shapes in these revisions of src/parser.rs and src/lib.rs.
- The `Cow` borrowed/owned distinction and the lifetimes are left out; every value is a plain string.
- `async` is left out: the awaited fetch is the function call.
- `expect` panics inside the formatters cannot happen for strings and are not modelled.
- Json.DecodeObjectText: the decoder accepts only the compact form serde_json writes (no whitespace between tokens). It refuses `\u` escapes of surrogates, which the writer never produces.
- Lib.OverrideWins: it assumes unique override keys, which holds because the overrides are an `IndexMap`.

## Findings

| source | as written | input that shows it | evidently intended | confidence | as-written member | corrected member |
|---|---|---|---|---|---|---|
| src/main.rs:42-46 | `parse_key_val` takes only the second segment of `split("=")` as the value, so everything after a second `=` is silently dropped | `--var KEY=a=b` sets `KEY` to `a` | split at the first `=` only, keeping `a=b` as the value (the form `key=value` the error message asks for) | medium; not executed | App.ParseKeyValDropsTail | App.ParseKeyValWholeJoined |
