/** The command-line assembly of `nbpandoc.py`: `replace_underscore_with_hyphen`,
    `apppend_pandoc_arguments` and the part of `convert_to_pdf` that builds the
    argument list handed to pandoc. Reading the notebook, writing the temporary
    metadata file and running pandoc are outside the model: their results are
    parameters. */
module Nbpandoc {
  import opened Wrappers
  import opened PyStr
  import opened PyJson

  /** Default value of the `--flags` command-line option. */
  const DefaultFlags: string := "--pdf-engine=xelatex"

  // ------------------------------------------------ replace_underscore_with_hyphen

  /** `key.replace("_", "-")` */
  function Hyphen(key: string): string {
    ReplaceChar(key, '_', '-')
  }

  /** `{key.replace("_", "-"): value for key, value in options.items()}`.
      The comprehension stores its entries one after the other, so when two keys
      hyphenate to the same key the later value overwrites the earlier one at the
      earlier one's position. */
  function Hyphenate<V>(options: seq<(string, V)>): seq<(string, V)>
    decreases |options|
  {
    if options == [] then []
    else
      var (key, value) := options[|options| - 1];
      Insert(Hyphenate(options[..|options| - 1]), Hyphen(key), value)
  }

  /** The hyphenated keys of `options`, one per entry, in order. */
  function HyphenKeys<V>(options: seq<(string, V)>): seq<string> {
    seq(|options|, i requires 0 <= i < |options| => Hyphen(options[i].0))
  }

  /** The entries of `options` with their keys hyphenated, one per entry. */
  function HyphenEntries<V>(options: seq<(string, V)>): seq<(string, V)> {
    if options == [] then []
    else
      var (key, value) := options[|options| - 1];
      HyphenEntries(options[..|options| - 1]) + [(Hyphen(key), value)]
  }

  /** The value of the last entry of `options` whose key hyphenates to `k`. */
  function LastValue<V>(options: seq<(string, V)>, k: string): Option<V> {
    if options == [] then None
    else if Hyphen(options[|options| - 1].0) == k then Some(options[|options| - 1].1)
    else LastValue(options[..|options| - 1], k)
  }

  /** The keys of the hyphenated dict are the hyphenated keys of `options`, each
      once, in order of first occurrence. */
  lemma {:induction false} HyphenateKeys<V>(options: seq<(string, V)>)
    ensures Keys(Hyphenate(options)) == Dedup(HyphenKeys(options))
    decreases |options|
  {
    if options != [] {
      var n := |options| - 1;
      HyphenateKeys(options[..n]);
      assert HyphenKeys(options)[..n] == HyphenKeys(options[..n]);
    }
  }

  /** The hyphenated dict is a dict (no key twice) and no key holds `_`. */
  lemma HyphenateWellFormed<V>(options: seq<(string, V)>)
    ensures DistinctKeys(Hyphenate(options))
    ensures forall k :: k in Keys(Hyphenate(options)) ==> '_' !in k
  {
    HyphenateKeys(options);
    forall k | k in Keys(Hyphenate(options)) ensures '_' !in k {
      assert k in HyphenKeys(options);
      var i :| 0 <= i < |options| && k == Hyphen(options[i].0);
      ReplaceCharRemoves(options[i].0, '_', '-');
    }
  }

  /** Under each hyphenated key the new dict holds the value of the last entry
      whose key hyphenates to it; no other key is present. */
  lemma {:induction false} HyphenateGet<V>(options: seq<(string, V)>, k: string)
    ensures Get(Hyphenate(options), k) == LastValue(options, k)
    decreases |options|
  {
    if options != [] {
      var n := |options| - 1;
      HyphenateGet(options[..n], k);
      InsertGet(Hyphenate(options[..n]), Hyphen(options[n].0), options[n].1, k);
    }
  }

  lemma HyphenPrefix<V>(options: seq<(string, V)>, n: nat)
    requires n <= |options|
    ensures HyphenKeys(options[..n]) == HyphenKeys(options)[..n]
  {
  }

  /** When no two keys hyphenate to the same key, every entry is kept, in order,
      with its value. */
  lemma {:induction false} HyphenateNoCollision<V>(options: seq<(string, V)>)
    requires Distinct(HyphenKeys(options))
    ensures Hyphenate(options) == HyphenEntries(options)
    decreases |options|
  {
    if options != [] {
      var n := |options| - 1;
      var prefix := options[..n];
      var k := Hyphen(options[n].0);
      assert Distinct(HyphenKeys(prefix)) && k !in HyphenKeys(prefix) by {
        HyphenPrefix(options, n);
        DistinctSnoc(HyphenKeys(options));
      }
      HyphenateNoCollision(prefix);
      assert k !in Keys(Hyphenate(prefix)) by {
        HyphenateKeys(prefix);
      }
      InsertFresh(Hyphenate(prefix), k, options[n].1);
    }
  }

  /** Entries whose keys hold no underscore keep their keys. */
  lemma {:induction false} HyphenEntriesFixed<V>(d: seq<(string, V)>)
    requires forall i :: 0 <= i < |d| ==> '_' !in d[i].0
    ensures HyphenEntries(d) == d
    decreases |d|
  {
    if d != [] {
      var n := |d| - 1;
      HyphenEntriesFixed(d[..n]);
      ReplaceCharAbsent(d[n].0, '_', '-');
      assert d[..n] + [d[n]] == d;
    }
  }

  /** A dict whose keys hold no underscore is its own hyphenation. */
  lemma HyphenateFixed<V>(d: seq<(string, V)>)
    requires DistinctKeys(d)
    requires forall k :: k in Keys(d) ==> '_' !in k
    ensures Hyphenate(d) == d
  {
    assert forall i :: 0 <= i < |d| ==> '_' !in d[i].0 by {
      forall i | 0 <= i < |d| ensures '_' !in d[i].0 {
        assert d[i].0 == Keys(d)[i];
      }
    }
    assert HyphenKeys(d) == Keys(d) by {
      forall i | 0 <= i < |d| ensures HyphenKeys(d)[i] == Keys(d)[i] {
        ReplaceCharAbsent(d[i].0, '_', '-');
      }
    }
    HyphenateNoCollision(d);
    HyphenEntriesFixed(d);
  }

  /** Hyphenating twice is hyphenating once. */
  lemma HyphenateIdempotent<V>(options: seq<(string, V)>)
    ensures Hyphenate(Hyphenate(options)) == Hyphenate(options)
  {
    HyphenateWellFormed(options);
    HyphenateFixed(Hyphenate(options));
  }

  // ------------------------------------------------ apppend_pandoc_arguments

  /** Library formatting the program delegates to: `json.dumps(v, ensure_ascii=False)`
      and Python's `repr`, which is what `str` gives for a list or a dict. */
  datatype Renderer = Renderer(jsonDumps: Json -> string, repr: Json -> string)

  /** `f"{v}"`, that is `str(v)`. */
  function Str(render: Renderer, v: Json): string {
    match v
    case JNull => "None"
    case JBool(b) => if b then "True" else "False"
    case JNum(r) => r
    case JStr(s) => s
    case _ => render.repr(v)
  }

  /** The token a dict entry of `pandoc_args` becomes: `--key=value`, a list value
      written as JSON. */
  function OptionToken(render: Renderer, key: string, value: Json): string {
    "--" + key + "=" + (if value.JList? then render.jsonDumps(value) else Str(render, value))
  }

  function OptionTokens(render: Renderer, options: seq<(string, Json)>): seq<string> {
    seq(|options|, i requires 0 <= i < |options| => OptionToken(render, options[i].0, options[i].1))
  }

  /** Index of the first item that is not a string, or the length. */
  function FirstNonString(items: seq<Json>): (n: nat)
    ensures n <= |items|
    ensures forall j :: 0 <= j < n ==> items[j].JStr?
    ensures n < |items| ==> !items[n].JStr?
  {
    if items == [] || !items[0].JStr? then 0 else 1 + FirstNonString(items[1..])
  }

  /** The tokens of a list of strings: each item split on whitespace, in order. */
  function Words(items: seq<Json>): seq<string>
    requires forall j :: 0 <= j < |items| ==> items[j].JStr?
  {
    if items == [] then [] else Words(items[..|items| - 1]) + Split(items[|items| - 1].s)
  }

  /** What a call appends to the command list, and the list item it raises
      `ValueError` for, if any. */
  datatype Appended = Appended(tokens: seq<string>, failure: Option<Json>)

  /** The effect of `apppend_pandoc_arguments(pandoc_args, command)`: a dict gives
      one `--key=value` token per entry of its hyphenated form; a string gives its
      whitespace-split pieces; a list gives the pieces of its string items up to the
      first item that is not a string, which is rejected; anything else gives nothing. */
  function PandocArgs(render: Renderer, args: Json): Appended {
    match args
    case JObj(fields) => Appended(OptionTokens(render, Hyphenate(fields)), None)
    case JStr(s) => Appended(Split(s), None)
    case JList(items) =>
      var n := FirstNonString(items);
      Appended(Words(items[..n]), if n < |items| then Some(items[n]) else None)
    case _ => Appended([], None)
  }

  /** The dict branch of `apppend_pandoc_arguments`: one `--key=value` token per
      entry of the already hyphenated `options`, in order. */
  method AppendOptions(render: Renderer, options: seq<(string, Json)>, command: seq<string>)
    returns (result: seq<string>)
    ensures result == command + OptionTokens(render, options)
  {
    result := command;
    var i := 0;
    while i < |options|
      invariant 0 <= i <= |options|
      invariant result == command + OptionTokens(render, options[..i])
    {
      var key, value := options[i].0, options[i].1;
      var cliKey := "--" + key;
      if value.JList? {
        result := result + [cliKey + "=" + render.jsonDumps(value)];
      } else {
        result := result + [cliKey + "=" + Str(render, value)];
      }
      assert OptionTokens(render, options[..i + 1]) == OptionTokens(render, options[..i]) + [OptionToken(render, key, value)];
      i := i + 1;
    }
    assert options[..i] == options;
  }

  /** The list branch of `apppend_pandoc_arguments`: the split pieces of each
      string item, in order, up to the first item that is not a string, which is
      reported; `result` is then what the caller's list already holds. */
  method AppendItems(items: seq<Json>, command: seq<string>)
    returns (result: seq<string>, failure: Option<Json>)
    ensures result == command + Words(items[..FirstNonString(items)])
    ensures failure == if FirstNonString(items) < |items| then Some(items[FirstNonString(items)]) else None
  {
    result, failure := command, None;
    var i := 0;
    while i < |items|
      invariant 0 <= i <= |items|
      invariant forall j :: 0 <= j < i ==> items[j].JStr?
      invariant result == command + Words(items[..i])
    {
      if !items[i].JStr? {
        failure := Some(items[i]);
        return;
      }
      assert items[..i + 1][..i] == items[..i];
      result := result + Split(items[i].s);
      i := i + 1;
    }
    assert items[..i] == items;
  }

  /** `apppend_pandoc_arguments`: extends `command` with the tokens of
      `pandocArgs`. On a list item that is not a string it stops and reports the
      item; `result` is then what the caller's list already holds. */
  method AppendPandocArgs(render: Renderer, pandocArgs: Json, command: seq<string>)
    returns (result: seq<string>, failure: Option<Json>)
    ensures result == command + PandocArgs(render, pandocArgs).tokens
    ensures failure == PandocArgs(render, pandocArgs).failure
  {
    result, failure := command, None;
    match pandocArgs
    case JObj(fields) =>
      result := AppendOptions(render, Hyphenate(fields), command);
    case JStr(s) =>
      result := command + Split(s);
    case JList(items) =>
      result, failure := AppendItems(items, command);
    case _ =>
  }

  // ------------------------------------------------ convert_to_pdf: the command list

  /** The exception that ends the conversion. */
  datatype Error = InvalidPandocArgsItem(item: Json)

  /** `filename.lower().endswith(".ipynb")` */
  predicate IsNotebook(filename: string) {
    EndsWithIgnoreCase(filename, ".ipynb")
  }

  /** `metadata.get("output") == None`: no `output` key, or a JSON `null` under it. */
  predicate OutputUnset(metadata: seq<(string, Json)>) {
    var output := Get(metadata, "output");
    output.None? || output.value.JNull?
  }

  /** The `--metadata-file=` flag, present when the metadata is not empty. */
  function MetadataFileFlag(metadata: seq<(string, Json)>, metadataFile: string): seq<string> {
    if metadata != [] then ["--metadata-file=" + metadataFile] else []
  }

  /** `--to=pdf --output={base}.pdf`, present when the metadata names no output. */
  function OutputFlags(filename: string, metadata: seq<(string, Json)>): seq<string> {
    if OutputUnset(metadata) then ["--to=pdf", "--output=" + SplitExt(filename).0 + ".pdf"] else []
  }

  /** The tokens of `metadata["pandoc_args"]`, processed only when it is truthy. */
  function MetadataPandocArgs(render: Renderer, metadata: seq<(string, Json)>): Appended {
    var args := Get(metadata, "pandoc_args");
    if args.Some? && Truthy(args.value) then PandocArgs(render, args.value) else Appended([], None)
  }

  /** The argument list `convert_to_pdf` hands to pandoc, or the error it raises.
      `metadata` is what was read from the notebook (empty on any read error) and
      `metadataFile` the path of the temporary file it was written to. */
  function Command(render: Renderer, filename: string, flags: string,
                   metadata: seq<(string, Json)>, metadataFile: string): Result<seq<string>, Error>
  {
    var head := ["pandoc", filename] + Split(flags);
    if !IsNotebook(filename) then Ok(head)
    else
      var extra := MetadataPandocArgs(render, metadata);
      if extra.failure.Some? then Err(InvalidPandocArgsItem(extra.failure.value))
      else Ok(head + MetadataFileFlag(metadata, metadataFile) + OutputFlags(filename, metadata) + extra.tokens)
  }

  /** The command-building steps of `convert_to_pdf`, up to the call of pandoc. */
  method BuildCommand(render: Renderer, filename: string, flags: string,
                      metadata: seq<(string, Json)>, metadataFile: string)
    returns (r: Result<seq<string>, Error>)
    ensures r == Command(render, filename, flags, metadata, metadataFile)
  {
    var base := SplitExt(filename).0;
    var command := ["pandoc", filename];
    if flags != [] {
      command := command + Split(flags);
    }
    ghost var head := command;
    assert head == ["pandoc", filename] + Split(flags);
    if IsNotebook(filename) {
      if metadata != [] {
        command := command + ["--metadata-file=" + metadataFile];
      }
      ghost var withMeta := command;
      assert withMeta == head + MetadataFileFlag(metadata, metadataFile);
      var outputFile := Get(metadata, "output");
      if outputFile.None? || outputFile.value.JNull? {
        command := command + ["--to=pdf"];
        command := command + ["--output=" + base + ".pdf"];
      }
      assert command == withMeta + OutputFlags(filename, metadata);
      var pandocArgs := Get(metadata, "pandoc_args");
      if pandocArgs.Some? && Truthy(pandocArgs.value) {
        var failure;
        command, failure := AppendPandocArgs(render, pandocArgs.value, command);
        if failure.Some? {
          return Err(InvalidPandocArgsItem(failure.value));
        }
      }
      assert command == withMeta + OutputFlags(filename, metadata) + MetadataPandocArgs(render, metadata).tokens;
    }
    r := Ok(command);
  }
}
