/** What the command builder of `nbpandoc.py` promises, proved about the model in
    module Nbpandoc. */
module NbpandocProps {
  import opened Wrappers
  import opened PyStr
  import opened PyJson
  import opened Nbpandoc

  // ------------------------------------------------ pandoc_args given as a dict

  /** A dict `pandoc_args` never fails and gives one `--key=value` token per distinct
      hyphenated key, in order of first occurrence, carrying the value of the last
      entry whose key hyphenates to it; no key of a token holds an underscore. */
  lemma DictPandocArgs(render: Renderer, fields: seq<(string, Json)>)
    ensures var out := PandocArgs(render, JObj(fields));
      var keys := Dedup(HyphenKeys(fields));
      && out.failure.None?
      && |out.tokens| == |keys|
      && forall i :: 0 <= i < |keys| ==>
           && '_' !in keys[i]
           && LastValue(fields, keys[i]).Some?
           && out.tokens[i] == OptionToken(render, keys[i], LastValue(fields, keys[i]).value)
  {
    var h := Hyphenate(fields);
    HyphenateKeys(fields);
    HyphenateWellFormed(fields);
    forall i | 0 <= i < |h|
      ensures LastValue(fields, h[i].0) == Some(h[i].1)
    {
      GetAt(h, i);
      HyphenateGet(fields, h[i].0);
    }
  }

  /** A list value under a dict key is written with `json.dumps`, any other value
      with `str`; a string value appears verbatim. */
  lemma OptionTokenValue(render: Renderer, key: string, value: Json)
    ensures value.JList? ==> OptionToken(render, key, value) == "--" + key + "=" + render.jsonDumps(value)
    ensures value.JStr? ==> OptionToken(render, key, value) == "--" + key + "=" + value.s
  {
  }

  // ------------------------------------------------ pandoc_args given as a string

  /** A string `pandoc_args` gives exactly its whitespace-split pieces: none is
      empty or holds whitespace, together they hold every other character in order,
      joining them with single spaces gives back the string exactly when its
      whitespace was already normalized, and that join splits into the same pieces. */
  lemma StringPandocArgs(render: Renderer, s: string)
    ensures var out := PandocArgs(render, JStr(s));
      && out.failure.None?
      && out.tokens == Split(s)
      && AllWords(out.tokens)
      && Concat(out.tokens) == NonSpace(s)
      && (JoinSpaces(out.tokens) == s <==> Normalized(s))
      && Normalized(JoinSpaces(out.tokens))
      && Split(JoinSpaces(out.tokens)) == out.tokens
  {
    SplitKeepsText(s);
    SplitJoinIdentity(s);
    JoinIsNormalized(Split(s));
    SplitJoin(Split(s));
  }

  // ------------------------------------------------ pandoc_args given as a list

  /** The texts of a list of strings. */
  function Texts(items: seq<Json>): seq<string>
    requires forall j :: 0 <= j < |items| ==> items[j].JStr?
  {
    seq(|items|, i requires 0 <= i < |items| => items[i].s)
  }

  lemma {:induction false} JoinSpacesSnoc(ws: seq<string>, w: string)
    requires ws != []
    ensures JoinSpaces(ws + [w]) == JoinSpaces(ws) + " " + w
  {
    if |ws| > 1 {
      assert (ws + [w])[1..] == ws[1..] + [w];
      JoinSpacesSnoc(ws[1..], w);
    }
  }

  /** Splitting each string of a list gives the same tokens as splitting the
      strings joined by single spaces. */
  lemma {:induction false} WordsJoin(items: seq<Json>)
    requires forall j :: 0 <= j < |items| ==> items[j].JStr?
    ensures Words(items) == Split(JoinSpaces(Texts(items)))
    decreases |items|
  {
    if items != [] {
      var n := |items| - 1;
      var prefix := items[..n];
      assert Texts(items) == Texts(prefix) + [items[n].s];
      if n == 0 {
        assert Texts(items) == [items[0].s];
      } else {
        WordsJoin(prefix);
        JoinSpacesSnoc(Texts(prefix), items[n].s);
        SplitAtSpace(JoinSpaces(Texts(prefix)), ' ', items[n].s);
        assert JoinSpaces(Texts(prefix)) + " " + items[n].s == JoinSpaces(Texts(prefix)) + [' '] + items[n].s;
      }
    }
  }

  /** A list `pandoc_args` fails exactly when some item is not a string, and then
      names the first such item; the tokens are those of the string items before
      it, the same as splitting those strings joined by single spaces. */
  lemma ListPandocArgs(render: Renderer, items: seq<Json>)
    ensures var out := PandocArgs(render, JList(items));
      && (out.failure.None? <==> forall j :: 0 <= j < |items| ==> items[j].JStr?)
      && (out.failure.Some? ==>
            exists j :: && 0 <= j < |items|
                        && !items[j].JStr?
                        && out.failure == Some(items[j])
                        && (forall k :: 0 <= k < j ==> items[k].JStr?)
                        && out.tokens == Split(JoinSpaces(Texts(items[..j]))))
      && (out.failure.None? ==> out.tokens == Split(JoinSpaces(Texts(items))))
  {
    var n := FirstNonString(items);
    WordsJoin(items[..n]);
    if n == |items| {
      assert items[..n] == items;
    }
  }

  // ------------------------------------------------ values that add nothing

  /** The truthiness test before the call never changes the outcome: a falsy
      value, processed, would append nothing and raise nothing. */
  lemma FalsyPandocArgs(render: Renderer, v: Json)
    requires !Truthy(v)
    ensures PandocArgs(render, v) == Appended([], None)
  {
    match v
    case JObj(fields) =>
      assert Hyphenate(fields) == [];
    case JList(items) =>
      assert FirstNonString(items) == 0;
    case _ =>
  }

  /** `null`, a boolean or a number under `pandoc_args` leaves the command as if
      the key were absent. */
  lemma ScalarPandocArgsIgnored(render: Renderer, filename: string, flags: string,
                                metadata: seq<(string, Json)>, metadataFile: string)
    requires IsNotebook(filename)
    requires var a := Get(metadata, "pandoc_args"); a.None? || a.value.JNull? || a.value.JBool? || a.value.JNum?
    ensures Command(render, filename, flags, metadata, metadataFile)
         == Ok(["pandoc", filename] + Split(flags) + MetadataFileFlag(metadata, metadataFile) + OutputFlags(filename, metadata))
  {
    var extra := MetadataPandocArgs(render, metadata);
    assert extra == Appended([], None);
    var cmd := ["pandoc", filename] + Split(flags) + MetadataFileFlag(metadata, metadataFile) + OutputFlags(filename, metadata);
    assert cmd + extra.tokens == cmd;
  }

  // ------------------------------------------------ the whole command

  /** The default `--flags` value is one token. */
  lemma DefaultFlagsToken()
    ensures Split(DefaultFlags) == [DefaultFlags]
  {
    assert IsWord(DefaultFlags);
    SplitJoin([DefaultFlags]);
  }

  /** Every command begins with `pandoc`, the file name and the split `--flags`, in
      that order; for a file that is not a notebook nothing follows them. */
  lemma CommandHead(render: Renderer, filename: string, flags: string,
                    metadata: seq<(string, Json)>, metadataFile: string)
    ensures var r := Command(render, filename, flags, metadata, metadataFile);
      && (r.Ok? ==> |r.value| >= 2 + |Split(flags)| && r.value[0] == "pandoc" && r.value[1] == filename
                    && r.value[2..2 + |Split(flags)|] == Split(flags))
      && (!IsNotebook(filename) ==> r == Ok(["pandoc", filename] + Split(flags)))
  {
    var r := Command(render, filename, flags, metadata, metadataFile);
    if r.Ok? {
      assert r.value[..2 + |Split(flags)|] == ["pandoc", filename] + Split(flags);
    }
  }

  /** For a notebook, the token after the flags is `--metadata-file=<path>` exactly
      when the metadata is not empty. */
  lemma MetadataFileFlagIff(render: Renderer, filename: string, flags: string,
                            metadata: seq<(string, Json)>, metadataFile: string)
    requires IsNotebook(filename)
    requires Command(render, filename, flags, metadata, metadataFile).Ok?
    ensures var cmd := Command(render, filename, flags, metadata, metadataFile).value;
      var h := 2 + |Split(flags)|;
      |cmd| > h && (cmd[h] == "--metadata-file=" + metadataFile <==> metadata != [])
  {
    var h := 2 + |Split(flags)|;
    var cmd := Command(render, filename, flags, metadata, metadataFile).value;
    var meta := MetadataFileFlag(metadata, metadataFile);
    assert cmd == (["pandoc", filename] + Split(flags)) + meta + OutputFlags(filename, metadata)
                  + MetadataPandocArgs(render, metadata).tokens;
    if metadata == [] {
      assert OutputUnset(metadata);
      assert cmd[h] == "--to=pdf";
      assert ("--metadata-file=" + metadataFile)[2] == 'm';
    } else {
      assert cmd[h] == meta[0];
    }
  }

  /** Where the three parts of a concatenation sit in it. */
  lemma ConcatParts<T>(front: seq<T>, middle: seq<T>, back: seq<T>)
    ensures var all := front + middle + back;
      && |all| == |front| + |middle| + |back|
      && all[|front|..|front| + |middle|] == middle
      && all[|front| + |middle|..] == back
  {
    var all := front + middle + back;
    assert all[|front|..|front| + |middle|] == middle by {
      assert forall i :: 0 <= i < |middle| ==> all[|front| + i] == middle[i];
    }
  }

  /** For a notebook, `--to=pdf` and `--output=<root>.pdf` follow the metadata-file
      flag exactly when the metadata names no output, and the `pandoc_args` tokens
      come last, after both. */
  lemma OutputFlagsPlacement(render: Renderer, filename: string, flags: string,
                             metadata: seq<(string, Json)>, metadataFile: string)
    requires IsNotebook(filename)
    requires Command(render, filename, flags, metadata, metadataFile).Ok?
    ensures var cmd := Command(render, filename, flags, metadata, metadataFile).value;
      var m := 2 + |Split(flags)| + (if metadata != [] then 1 else 0);
      var extra := MetadataPandocArgs(render, metadata).tokens;
      && (OutputUnset(metadata) ==>
            |cmd| == m + 2 + |extra|
            && cmd[m] == "--to=pdf"
            && cmd[m + 1] == "--output=" + SplitExt(filename).0 + ".pdf"
            && cmd[m + 2..] == extra)
      && (!OutputUnset(metadata) ==> |cmd| == m + |extra| && cmd[m..] == extra)
  {
    var cmd := Command(render, filename, flags, metadata, metadataFile).value;
    var front := ["pandoc", filename] + Split(flags) + MetadataFileFlag(metadata, metadataFile);
    var out := OutputFlags(filename, metadata);
    var extra := MetadataPandocArgs(render, metadata).tokens;
    assert cmd == front + out + extra;
    ConcatParts(front, out, extra);
    var m := |front|;
    if OutputUnset(metadata) {
      assert cmd[m..m + 2] == out;
      assert cmd[m] == cmd[m..m + 2][0] && cmd[m + 1] == cmd[m..m + 2][1];
    }
  }

  /** The command fails exactly for a notebook whose `pandoc_args` is a list with
      an item that is not a string, and the error names the first such item. */
  lemma CommandFailure(render: Renderer, filename: string, flags: string,
                       metadata: seq<(string, Json)>, metadataFile: string)
    ensures var r := Command(render, filename, flags, metadata, metadataFile);
      var a := Get(metadata, "pandoc_args");
      && (r.Err? <==> IsNotebook(filename) && a.Some? && a.value.JList?
                      && exists j :: 0 <= j < |a.value.items| && !a.value.items[j].JStr?)
      && (r.Err? ==> r.error == InvalidPandocArgsItem(a.value.items[FirstNonString(a.value.items)]))
  {
    var a := Get(metadata, "pandoc_args");
    if a.Some? && a.value.JList? {
      var items := a.value.items;
      if exists j :: 0 <= j < |items| && !items[j].JStr? {
        assert items != [];
      }
    } else if a.Some? && !Truthy(a.value) {
      FalsyPandocArgs(render, a.value);
    }
  }

  /** The last six characters of a notebook name: a dot, then five letters. */
  lemma NotebookSuffix(filename: string)
    requires IsNotebook(filename)
    ensures |filename| >= 6
    ensures forall i :: |filename| - 6 <= i < |filename| ==>
      filename[i] != '/' && (filename[i] == '.' <==> i == |filename| - 6)
  {
    var n := |filename|;
    var suffix := ".ipynb";
    forall i | n - 6 <= i < n
      ensures filename[i] != '/'
      ensures filename[i] == '.' <==> i == n - 6
    {
      assert AsciiLower(filename[i]) == suffix[i - (n - 6)];
      AsciiLowerPunctuation(filename[i]);
    }
  }

  /** In a notebook name the last dot is the one of the suffix, and the last
      separator comes before it. */
  lemma NotebookDots(filename: string)
    requires IsNotebook(filename)
    ensures LastIndexOf(filename, '.') == |filename| - 6
    ensures LastIndexOf(filename, '/') < |filename| - 6
  {
    NotebookSuffix(filename);
    var n := |filename|;
    var dot := LastIndexOf(filename, '.');
    assert dot >= n - 6 by {
      assert filename[n - 6] == '.';
    }
    var sep := LastIndexOf(filename, '/');
    assert sep >= 0 ==> filename[sep] == '/';
  }

  /** `os.path.splitext` of a notebook name strips the `.ipynb` suffix, whatever
      its case, unless the last path component has nothing but dots before it. */
  lemma NotebookRoot(filename: string)
    requires IsNotebook(filename)
    ensures LastIndexOf(filename, '/') < |filename| - 6
    ensures var stem := filename[LastIndexOf(filename, '/') + 1 .. |filename| - 6];
      SplitExt(filename).0 == if AllDots(stem) then filename else filename[..|filename| - 6]
  {
    NotebookDots(filename);
  }
}
