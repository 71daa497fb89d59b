# openscad-makefile parameter sets, modelled in Dafny

The repository drives an OpenSCAD build from named parameter sets. A
collection maps a set name to a parameter set, and a parameter set maps a
parameter key to a string value. Collections are stored in versioned JSON
store files: `{fileFormatVersion: "1", parameterSets: …}`. Three scripts use
them:

- `parameter_generator.py` builds a sweep of sets (`variation_1` ..
  `variation_9`). It defines a per-set write to `./variants/<name>.json` that
  writes a set only when the set differs from what that file holds, and a
  function that strips a `.scad` extension from a model name. Its own driver
  calls neither of them: it compares the whole collection with the main store
  and writes it there.
- `parameter_variants.py` does the same per-set write, with an optional
  forced overwrite.
- `parameter_html.py` turns set and project names into titles. It also splits
  the parameters into those that are the same in every set (listed once as
  "Common Parameters") and those that vary (listed beside each set).

The model has four modules:

- `ParameterSets` (`parameter_sets.dfy`) holds what the scripts share:
  - the collection types;
  - the forward-only change check, as a quantified predicate `Changed` and as
    the loop `HasChanged`, proved equal to it;
  - the store file `Store` and the file system `FileSystem`, a class with one
    field `files: map<string, Store>` that holds store files by path;
  - the write-if-changed decision `Decide`, with outcomes `NotFound`, `Updated`
    and `Unchanged`.
- `ParameterGenerator` (`parameter_generator.dfy`) holds the unforced per-set
  write, the extension stripping and the sweep.
- `ParameterVariants` (`parameter_variants.dfy`) holds the per-set write with
  `forceWrite`. It also has a client method, `VariantScenario`, that performs a
  sequence of calls on an empty directory and asserts each outcome. The
  verifier proves these assertions from the contracts alone.
- `ParameterHtml` (`parameter_html.dfy`) holds `variableNameToTitle` and
  friends, the constant/variable detection loop and the two selection rules of
  the page.

The change check (lines 10-23) and `get_current_parametric_json`
(lines 25-36) are identical in `parameter_generator.py` and
`parameter_variants.py`, so each is modelled once. `write_parametric_json` is
identical too (lines 38-45). `parameter_html.py:13-24` is the same loader
again.

"Changed" is forward-only. A new set name, a new key, or a key with a
different value is a change. Sets and keys that exist only in the old
collection never are. The model proves this as `ChangedIffNotCovered`: a
change exists exactly when some new set is not a sub-map of the old set with
the same name. `ExtraOldEntriesIgnored` proves that extending the old side
never turns "unchanged" into "changed".

Saving and loading are modelled on the abstract `Store` value. The JSON text
is not modelled, so loading a saved file gives back what was saved
(`FileSystem.Save` states this). A path with no file loads as an empty store
with version "1".

Three behaviours of the code worth noting:

- The loader falls back to the empty default whenever the file cannot be
  opened (`IOError`, which in Python 3 is any `OSError`: a missing file, a
  permission error, a directory). Contents that cannot be decoded (invalid
  JSON, invalid UTF-8) raise instead. `Load` models "no file at that path"
  as the default and does not model undecodable contents.
- Only the variants script's per-set write has `forceWrite`. The generator's
  per-set write always compares (`ParameterGenerator.WriteSingle`).
- Comparing a collection with itself gives "unchanged" for every collection,
  the empty one included (`UnchangedAgainstItself`).

## Model

| member | source | states |
|---|---|---|
| `ParameterSets.HasChanged` | parameter_generator.py:10-23 | The nested loop with its three early `True` returns gives exactly `Changed(new, old)`: some new set name is missing from old, or one of its keys is missing from the old set or has a different value there. The same code is at parameter_variants.py:10-23. |
| `ParameterSets.ChangedIffNotCovered` | parameter_generator.py:11-23 | The result is "changed" exactly when some new set is absent from old, or its (key, value) pairs are not all among the old set's pairs (forward-only, both directions). |
| `ParameterSets.UnchangedAgainstItself` | parameter_generator.py:13-23 | A collection compared with itself is never changed. |
| `ParameterSets.UnchangedWhenNewEmpty` | parameter_generator.py:13-23 | An empty new collection is never changed, whatever the old one is. |
| `ParameterSets.ChangedOnNewSetName` | parameter_generator.py:14-22 | A new set name that is absent from old makes the result "changed". |
| `ParameterSets.ChangedOnEntry` | parameter_generator.py:15-20 | A key of a new set that is missing from the old set of the same name, or present there with another value, makes the result "changed". |
| `ParameterSets.ExtraOldEntriesIgnored` | parameter_generator.py:12-23 | If new is unchanged against old, it stays unchanged against any old collection with more sets or more keys. Entries found only in old never count as changes. |
| `ParameterSets.ChangedIffSomeSingleChanged` | parameter_variants.py:50-52 | A collection has changed exactly when one of its sets, taken alone as the single-entry collection the per-set write builds, has changed. |
| `ParameterSets.VariantPath` | parameter_variants.py:49 | The path is the prefix `./variants/`, then the set name, then `.json`, so the set name can be read back from the path. |
| `ParameterSets.VariantPathInjective` | parameter_variants.py:49 | Different set names give different path strings. The model keys files by these strings, so each set has its own baseline. |
| `ParameterSets.Decide` | parameter_variants.py:47-59 | The outcome is `NotFound` exactly when the name is absent. It is `Updated` exactly when the name is present and either `forceWrite` is set or the set differs from the baseline (a missing set name, a missing key or a different value). Otherwise it is `Unchanged`. |
| `ParameterSets.FirstWriteUpdates` | parameter_generator.py:31-36 | Against the default baseline of a missing file, the first unforced write of an existing set reports "updated". |
| `ParameterSets.RewriteIsNoChange` | parameter_generator.py:49-57 | Once the per-set file holds exactly that set, a second unforced write reports "no change". |
| `ParameterSets.ForcedWriteUpdates` | parameter_variants.py:52-55 | A forced write of an existing set reports "updated", whatever the baseline. |
| `ParameterSets.FileSystem.Load` | parameter_generator.py:25-36 | The store at the path when a file is there. Otherwise version "1" with no parameter sets. |
| `ParameterSets.FileSystem.Save` | parameter_generator.py:38-45 | The file at the path now holds version "1" and exactly the given sets, and loading it gives them back. Every other path is unchanged. |
| `ParameterGenerator.WriteSingle` | parameter_generator.py:47-59 | The outcome is the unforced `Decide` against the current per-set file. On `Updated`, `./variants/<name>.json` alone changes, to version "1" and the single entry `{name: sets[name]}`. Otherwise no file changes. |
| `ParameterVariants.WriteSingle` | parameter_variants.py:47-59 | The same as the generator's version, with `forceWrite` short-circuiting the comparison. A forced write of a present name always overwrites the per-set file. An absent name touches nothing. |
| `ParameterGenerator.LastDot` | parameter_generator.py:63 | Finds the position `rsplit(".", 1)` splits at: the last '.', with no '.' after it. None exactly when there is no '.'. |
| `ParameterGenerator.RemoveScadExtension` | parameter_generator.py:61-66 | No result (the source's out-of-range index) exactly when the name has no '.'. Otherwise the name minus its final ".scad" when it ends in ".scad" (the text after the last dot is then exactly "scad"), and the name unchanged when it does not. |
| `ParameterGenerator.RemoveScadExtensionRestores` | parameter_generator.py:61-66 | The result is the name itself, or the name with ".scad" taken off its end. |
| `ParameterGenerator.DecimalString` | parameter_generator.py:93 | `f"{i}"`: decimal digits with no leading zero that denote `i` (their value is `i`). A number below 10 is its single digit, so the sweep's `RODCOUNT` values are "1" .. "9". |
| `ParameterGenerator.DecimalStringInjective` | parameter_generator.py:93 | Different numbers give different decimal strings. |
| `ParameterGenerator.VariationName` | parameter_generator.py:91 | `f"variation_{i}"`: the prefix `variation_` followed by `DecimalString(i)`. `VariationNameInjective` proves that distinct indices give distinct names. |
| `ParameterGenerator.VariationNameInjective` | parameter_generator.py:91 | Different sweep indices give different set names, so no sweep entry overwrites another. |
| `ParameterGenerator.GenerateSweep` | parameter_generator.py:89-94 | The sets are exactly `variation_1` .. `variation_9`. Set `variation_i` is `{"$fn": "40", "RODCOUNT": str(i)}`. |
| `ParameterHtml.Replace` | parameter_html.py:7 | `s.replace(a, b)` for single characters: same length, with every `a` turned into `b` and every other character kept. |
| `ParameterHtml.ReplaceSeparators` | parameter_html.py:7 | After both replaces, every '-' and '_' has become a space and every other character is where it was. |
| `ParameterHtml.SplitFrom` | parameter_html.py:8 | `split()` yields only non-empty words without whitespace, and without separators when the input had none. Where words end is fixed by `SplitAtSpace` and `SplitAcrossWord`. |
| `ParameterHtml.Words` | parameter_html.py:8 | `s.split()`. Its promises are carried by `SplitFrom`'s contract and by `WordsAtSpace`, `WordsOfRun` and `WordsKeepCharacters`, which together fix the words of every input. |
| `ParameterHtml.SplitAtSpace` | parameter_html.py:8 | Every whitespace character, not only ' ', ends the word under construction: splitting `s + [c] + t` gives the split of `s` followed by the split of `t`. |
| `ParameterHtml.WordsAtSpace` | parameter_html.py:8 | The words of `s + [c] + t`, for whitespace `c`, are the words of `s` followed by the words of `t`. |
| `ParameterHtml.WordsOfRun` | parameter_html.py:8 | A non-empty run without whitespace is exactly one word. |
| `ParameterHtml.SplitKeepsCharacters` | parameter_html.py:8 | The split loses and reorders nothing: its words, glued together, are the word under construction followed by the input with its whitespace taken out. |
| `ParameterHtml.WordsKeepCharacters` | parameter_html.py:8 | The words of `s.split()`, glued together, are `s` without its whitespace. |
| `ParameterHtml.SplitAcrossWord` | parameter_html.py:8 | The split reads a run of non-whitespace as part of one word. |
| `ParameterHtml.SplitJoin` | parameter_html.py:8-11 | Splitting `' '.join(ws)` gives back `ws` when the words are non-empty and contain no whitespace. |
| `ParameterHtml.Join` | parameter_html.py:11 | `' '.join(ws)`. `SplitJoin` proves that splitting the join of proper words gives them back, and `JoinShape` that the join is single-spaced and trimmed. |
| `ParameterHtml.JoinShape` | parameter_html.py:11 | `' '.join` of such words starts and ends with a word character. Its only whitespace is single spaces between words. It has no separator when no word has one. |
| `ParameterHtml.CapitalizeSpec` | parameter_html.py:11 | `capitalize()` gives a capitalized word (first character not lower-case, the others not upper-case). It equals the input up to case and adds no whitespace or separators. It is the identity exactly on capitalized words. |
| `ParameterHtml.Capitalize` | parameter_html.py:11 | `str.capitalize` on ASCII letters. `CapitalizeSpec` proves that the result is capitalized, equals the input up to case, and is the input itself exactly when the input is capitalized. |
| `ParameterHtml.MapCapitalize` | parameter_html.py:11 | The same number of words, each capitalized and equal to its original word up to case. |
| `ParameterHtml.Title` | parameter_html.py:6-11 | `variableNameToTitle`. `TitleOfEmpty`, `TitleShape` and `TitleIdempotent` state its promises: "" for "", no separators, single inner spaces, capitalized words equal to the input's words up to case, and a fixed point on titles. |
| `ParameterHtml.TitleOfEmpty` | parameter_html.py:9-10 | The title of "" is "". |
| `ParameterHtml.TitleShape` | parameter_html.py:6-11 | The title has no '-' or '_'. Its whitespace is only single spaces strictly between words. Every word is capitalized. Its words are the input's words (split at whitespace, '-' and '_'), in order and equal up to case. |
| `ParameterHtml.TitleIdempotent` | parameter_html.py:6-11 | Taking the title of a title changes nothing. |
| `ParameterHtml.VariesAppend` | parameter_html.py:33-39 | How one more entry changes whether a key takes two different values: only its own key can change, and only when its value differs from an earlier one. |
| `ParameterHtml.AllEntriesSnoc` | parameter_html.py:32-33 | The entries scanned after one more set are the earlier entries followed by that set's entries, in order. |
| `ParameterHtml.ScanStep` | parameter_html.py:34-39 | One entry keeps the scan state. A new key records its value, a known key with another value is marked variable, and a known key with the same value changes nothing. |
| `ParameterHtml.DetectConstants` | parameter_html.py:29-39 | `firstSetValues` has exactly the keys of all sets. Each key maps to the value of its first occurrence, in iteration order. A key is in `setValuesIsVariable` exactly when two entries hold different values for it. Every such key is also in `firstSetValues`. |
| `ParameterHtml.CommonParameters` | parameter_html.py:72-73 | The common list holds the recorded keys that are not marked variable, with their recorded values. |
| `ParameterHtml.VariableParameters` | parameter_html.py:103-104 | The list beside a set holds only entries of that set whose key is variable, and every such entry. |
| `ParameterHtml.VariableParametersAppend` | parameter_html.py:103-104 | The list follows the set's order: the list of two runs of entries is the first run's list followed by the second's. |
| `ParameterHtml.VariableParametersSingle` | parameter_html.py:104 | One entry is listed, once, exactly when its key is variable. |
| `ParameterHtml.EntryOfSomeSet` | parameter_html.py:32-33 | Every scanned entry belongs to one of the sets. |
| `ParameterHtml.EntryInAll` | parameter_html.py:32-33 | Every entry of every set is scanned. |
| `ParameterHtml.FirstOccurrenceExists` | parameter_html.py:34-37 | Every scanned key has a first occurrence. |
| `ParameterHtml.ConstantOrVariable` | parameter_html.py:72-104 | Every key seen in any set is either in the common list or in some set's list, never both. |
| `ParameterHtml.CommonValueEverywhere` | parameter_html.py:68-76 | A common parameter has its listed value in every set that contains it. |

## Left out

- JSON encoding and decoding (`json.load`, `json.dumps` with sorted keys and an indent of 4) are library calls. Store files are abstract `Store` values, so saving and then loading gives back the same collection. Because of this, the model does not check that the canonical serialisation is byte-for-byte stable.
- Real file I/O and its exceptions. `Load` models the `IOError` fallback as "no file at that path". A file whose contents cannot be decoded (invalid JSON, invalid UTF-8), or JSON without `parameterSets`, raises in the source and is not modelled. Write failures are not modelled either.
- Parameter values are strings, as the scripts write them. A JSON file with numbers, lists or `null` as values is not modelled. A `null` value would also hit the `prevValue == None` test at parameter_html.py:35.
- Printing. The status lines "… updated", "… no change" and "… does not exist" become the returned `Outcome`.
- The `__main__` drivers and `argparse` handling of all three scripts are not modelled. This includes the generator's choice to regenerate, always-write and write-if-changed for the main store (parameter_generator.py:80-103) and the `--PrintTargets` output.
- The write-all loop at parameter_variants.py:84-85 calls `write_single_parametric_json` without its required `forceWrite` argument. It would raise `TypeError`, so it is not modelled as working.
- The HTML templating and the final file write of `write_parametric_html` (parameter_html.py:42-123) are not modelled. The selection rules these lines apply at 72-73 and 103-104 are modelled.
- Dictionary iteration order is not modelled for the change check, whose result does not depend on it. The detection loop takes the sets as a sequence of (name, entries) pairs in iteration order. `CommonParameters` is a map, so the order of the common list on the page (first-occurrence order) is not modelled.
- `remove_scad_filename_extension` and `write_single_parametric_json` are defined in the generator but never called by its driver. Each is modelled on its own.
- Paths are compared as strings. Two different set names can reach the same file on a real file system, for example a name containing `/` or `..` (`"../main"` gives `./variants/../main.json`, the default main store), or names that differ only in case on a case-insensitive file system. The model does not capture this aliasing.
- ParameterHtml.CapitalizeSpec: models Python's case mapping for ASCII letters only. Other letters are left unchanged, whereas Python would change their case too. Its clause "the identity exactly on capitalized words", and `ParameterHtml.TitleIdempotent` built on it, hold only under this ASCII mapping. Python's full Unicode mapping is not idempotent: `"ŉ".capitalize()` (U+0149) is `"ʼN"`, and the title of `"ʼN"` is `"ʼn"`.
- ParameterHtml.TitleIdempotent: holds for the ASCII case mapping only, for the reason given on the line above.
- ParameterHtml.TitleShape: `split()` is modelled with the whitespace characters for which Python's `str.isspace()` holds, as a fixed list of code points.
