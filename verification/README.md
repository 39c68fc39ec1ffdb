# nbpandoc: the pandoc command line, modelled in Dafny

`nbpandoc` converts a Jupyter notebook (or a Markdown file) to PDF by running
`pandoc`. Before it runs pandoc it builds the argument list: `pandoc`, the input
file name, the whitespace-split `--flags` string (default `--pdf-engine=xelatex`),
and, for a file whose name ends in `.ipynb` in any letter case, a
`--metadata-file=<path>` flag when the notebook metadata is not empty,
`--to=pdf --output=<root>.pdf` when the metadata names no `output`, and the tokens
of the metadata's `pandoc_args` value. `pandoc_args` may be a dict (each entry,
with `_` in its key turned into `-`, becomes `--key=value`, list values written as
JSON), a string (split on whitespace) or a list of strings (each split on
whitespace); a list item that is not a string raises `ValueError`.

This project models that assembly and proves what it promises.

- `wrappers.dfy`: `Option` and `Result`.
- `pystr.dfy` (module `PyStr`): the Python string operations the builder relies on:
  `str.split()` with its whitespace set, `str.replace` of one character,
  `lower().endswith(".ipynb")` and `os.path.splitext`, with their properties
  (split pieces are whitespace-free words, splitting loses only whitespace, split
  and single-space join are inverse on normalized strings, and so on).
- `pyjson.dfy` (module `PyJson`): parsed JSON values, Python truthiness, and Python
  dicts as ordered entry sequences with `get` and item assignment.
- `nbpandoc.dfy` (module `Nbpandoc`): `replace_underscore_with_hyphen` as the
  function `Hyphenate`; `apppend_pandoc_arguments` as the method
  `AppendPandocArgs`, proved against the specification function `PandocArgs`; the
  list-building part of `convert_to_pdf` as the method `BuildCommand`, proved
  against the specification function `Command`.
- `nbpandoc_props.dfy` (module `NbpandocProps`): the properties of `PandocArgs` and
  `Command`.

Seams: the notebook metadata is a parameter (the already-parsed dict; an empty
one stands for every read or parse error), the temporary metadata file is a path
parameter, and the pandoc run is not modelled. `json.dumps` and Python's `repr` of
lists and dicts are the two fields of a `Renderer` parameter; `str` of strings,
numbers, booleans and `None` is modelled exactly (a number carries its Python
`repr`).

In the modelled part the only error is the `ValueError` for a `pandoc_args` list
item that is not a string (nbpandoc.py:165-170).

Checking `.lower().endswith(".ipynb")` with ASCII-only lowering is exact: no
character other than `I`, `P`, `Y`, `N`, `B` and their lower-case forms lowers to
a string ending in one of the letters of `ipynb`, and only `.` lowers to `.`.

## Model

| member | source | states |
|---|---|---|
| PyStr.Split | nbpandoc.py:162-163 | every piece of `str.split()` is non-empty and free of whitespace |
| PyStr.SplitKeepsText | nbpandoc.py:162-163 | the pieces, concatenated, are exactly the non-whitespace characters of the string in order |
| PyStr.SplitEmpty | nbpandoc.py:213-214 | a string splits into no pieces exactly when it is all whitespace, so the `if flags:` guard changes nothing |
| PyStr.SplitAtSpace | nbpandoc.py:165-168 | splitting at a whitespace character splits the two sides independently |
| PyStr.SplitJoin | nbpandoc.py:162-163 | words joined by single spaces split back into the same words |
| PyStr.JoinIsNormalized | nbpandoc.py:162-163 | words joined by single spaces give a string whose only whitespace is single inner spaces |
| PyStr.JoinSplit | nbpandoc.py:162-163 | a normalized string is recovered by joining its pieces with single spaces |
| PyStr.SplitJoinIdentity | nbpandoc.py:162-163 | joining the pieces with single spaces gives back the string if and only if it is normalized |
| PyStr.ReplaceChar | nbpandoc.py:114 | `key.replace("_", "-")` has the key's length, turns each `_` into `-` and keeps every other character |
| PyStr.ReplaceCharRemoves | nbpandoc.py:114 | no `_` is left in a hyphenated key |
| PyStr.ReplaceCharAbsent | nbpandoc.py:114 | a key without `_` is unchanged |
| PyStr.LastIndexOf | nbpandoc.py:194 | the index found holds the character and no later index does; -1 when it does not occur |
| PyStr.SplitExtParts | nbpandoc.py:194 | root and extension of `os.path.splitext` concatenate to the path; a non-empty extension starts with its only dot and holds no separator |
| PyJson.Get | nbpandoc.py:226 | `dict.get` gives `None` exactly when the key is absent |
| PyJson.Insert | nbpandoc.py:114 | item assignment keeps the keys in place when the key is present and adds it at the end otherwise |
| PyJson.InsertGet | nbpandoc.py:114 | after item assignment the key maps to the new value and every other key to its old one |
| PyJson.InsertDistinct | nbpandoc.py:114 | item assignment never makes a key occur twice |
| PyJson.Dedup | nbpandoc.py:114 | the keys of a dict built entry by entry: no repeats, and the same members as the input |
| PyJson.FirstIndex | nbpandoc.py:114 | the index found holds the element and no earlier index does |
| PyJson.DedupOrder | nbpandoc.py:114 | the elements kept come in the order of their first occurrences in the input |
| PyJson.InsertFresh | nbpandoc.py:114 | assigning a key the dict lacks appends one entry |
| PyJson.GetAt | nbpandoc.py:151 | in a dict, looking up an entry's key finds that entry's value |
| Nbpandoc.HyphenateWellFormed | nbpandoc.py:96-114 | the hyphenated dict has distinct keys and no key holds `_` |
| Nbpandoc.HyphenateKeys | nbpandoc.py:114 | its keys are the hyphenated input keys, each once, in order of first occurrence |
| Nbpandoc.HyphenateGet | nbpandoc.py:114 | each key maps to the value of the last input entry whose key hyphenates to it |
| Nbpandoc.HyphenateNoCollision | nbpandoc.py:114 | when no two keys hyphenate alike, every entry is kept with its value, in order |
| Nbpandoc.HyphenEntriesFixed | nbpandoc.py:114 | entries whose keys hold no `_` keep their keys under hyphenation |
| Nbpandoc.HyphenateFixed | nbpandoc.py:114 | a dict without `_` in its keys is its own hyphenation |
| Nbpandoc.HyphenateIdempotent | nbpandoc.py:114 | hyphenating twice equals hyphenating once |
| Nbpandoc.FirstNonString | nbpandoc.py:166-170 | the index returned is the first list item that is not a string, or the length when all are strings |
| Nbpandoc.AppendOptions | nbpandoc.py:149-160 | the loop over a hyphenated dict appends exactly one `--key=value` token per entry, in order, after the given command |
| Nbpandoc.AppendItems | nbpandoc.py:164-170 | the loop over a list appends the split pieces of the string items before the first non-string item and reports that item, or none |
| Nbpandoc.AppendPandocArgs | nbpandoc.py:117-172 | the returned list is the given command followed by exactly the tokens `PandocArgs` specifies, and the rejected item is the one it specifies: tokens are only appended |
| Nbpandoc.BuildCommand | nbpandoc.py:194-235 | the list built step by step, or the `ValueError`, is the one `Command` specifies |
| NbpandocProps.DictPandocArgs | nbpandoc.py:149-160 | a dict gives one `--key=value` token per distinct hyphenated key, in first-occurrence order, with the last value for that key, and never fails |
| NbpandocProps.StringPandocArgs | nbpandoc.py:162-163 | a string gives exactly its split pieces: non-empty, whitespace-free, all its other characters, rejoinable to the string iff it is normalized |
| NbpandocProps.WordsJoin | nbpandoc.py:165-168 | a list of strings gives the same tokens as the single string of its items joined by spaces |
| NbpandocProps.ListPandocArgs | nbpandoc.py:165-170 | a list fails iff some item is not a string, naming the first, after the tokens of the strings before it |
| NbpandocProps.FalsyPandocArgs | nbpandoc.py:233-235 | a falsy value would add nothing and raise nothing, so skipping it is harmless |
| NbpandocProps.ScalarPandocArgsIgnored | nbpandoc.py:148-172 | `null`, a boolean or a number under `pandoc_args` leaves the command as if the key were absent |
| NbpandocProps.DefaultFlagsToken | nbpandoc.py:175 | the default `--flags` value is a single token |
| NbpandocProps.CommandHead | nbpandoc.py:204-217 | every command starts with `pandoc`, the file name and the split flags; a non-notebook gets nothing more |
| NbpandocProps.MetadataFileFlagIff | nbpandoc.py:217-222 | for a notebook, the token after the flags is `--metadata-file=<path>` iff the metadata is non-empty |
| NbpandocProps.OutputFlagsPlacement | nbpandoc.py:224-235 | `--to=pdf` then `--output=<root>.pdf` follow iff no `output` is set (absent or `null`), and the `pandoc_args` tokens come last |
| NbpandocProps.CommandFailure | nbpandoc.py:165-170 | the command fails iff the notebook's `pandoc_args` is a list with a non-string item, and names the first such item |
| NbpandocProps.NotebookSuffix | nbpandoc.py:217 | a notebook name ends in a dot and five letters, none of them a separator |
| NbpandocProps.NotebookDots | nbpandoc.py:194 | in a notebook name the last dot is the one of the suffix and the last separator comes before it |
| NbpandocProps.NotebookRoot | nbpandoc.py:194 | the root of a notebook name drops its `.ipynb` suffix in any case, unless only dots precede it in the last component |

## Left out

- Reading and parsing the notebook (`extract_notebook_metadata`): file I/O and JSON parsing; its result is the `metadata` parameter, empty on any error.
- Metadata that parses to something other than a JSON object (a non-empty list, say): `metadata.get` would raise `AttributeError`; the parameter is always a dict here.
- Writing the temporary metadata file (`write_metadata_to_file`): file-system I/O; its path is the `metadataFile` parameter.
- Running pandoc and the messages printed around it: a subprocess call. The success message reads `output_file`, which is never bound for a non-notebook input; that failure happens after pandoc has run and is outside the command list.
- Argument parsing in `main`: only its default for `--flags` is kept, as `DefaultFlags`.
- The exact text of `json.dumps` and of Python's `repr` for lists and dicts: library formatting, supplied by the `Renderer` parameter.
- The message text of the `ValueError`: the error carries the offending item instead.
- `os.path.splitext` is the POSIX variant; the Windows variant also treats `\` as a separator.
- The command list is a value: `AppendPandocArgs` returns the extended list, which on failure is what the caller's list holds at the moment of the exception; aliasing of the list is not modelled.
- Metadata with a repeated key: the `metadata` parameter stands for the dict `json.load` returns, so its keys are distinct; an entry sequence that repeats a key is not such a dict (`Get` would read its first entry where `json.load` keeps the last value), and the model promises nothing about it.
- JSON numbers are modelled by their Python `repr`; the non-standard constants `NaN` and `Infinity`, which the parser accepts and which `str` and `json.dumps` print differently, are not modelled.
