# fq_manifestor, modelled and verified in Dafny

`fq_manifestor` builds the tab-separated manifest that QIIME 2 needs to import paired-end
FASTQ reads. It works in five steps:

1. It collects the read files found for each extension, in order.
2. It keeps the paths that contain an optional filter substring.
3. For each kept file:
   - its sample id is the base name up to the first split character;
   - it is classified as a forward or reverse read by two patterns, forward first;
   - its path goes into the sample's `[forward, reverse]` slot pair.
4. It checks that every sample has both reads and emits one line per sample, in first-discovery
   order, below a fixed header.
5. When verbose, it warns if the number of records is not half the number of kept files.

The manifest is written only when no `ValueError` was raised.

The project has four parts:

- **Specification functions** (`ManifestSpec`). Each step is one pure function, and the whole
  result is `Manifest`, the file text or the error.
- **Imperative model** (`Manifestor`). It keeps the loops of the Python function: the extension
  loop, the main loop that updates the slot dictionary in place and raises at the first unusable
  file, and the second loop that appends lines and raises at the first incomplete sample. The
  model proves that these loops compute exactly `Manifest` and `Warns`.
- **Properties** (`ManifestProps`): filtering, how sample ids and directions are derived,
  first-discovery order, last-write-wins slots, a round trip through a manifest reader, and the
  meaning of the count warning.
- **Support modules**: the string operations used (`Text`: split, join, basename) and the
  patterns (`Patterns`: literals and the `.` wildcard).

Modules and files:

- `Wrappers` (`wrappers.dfy`): `Option`.
- `Text` (`text.dfy`): `os.path.basename`, splitting on one character, and joining.
- `Patterns` (`patterns.dfy`): the read patterns and `re.search` over them.
- `ManifestSpec` (`manifest_spec.dfy`): the data model and the specification functions.
- `Manifestor` (`manifestor.dfy`): the imperative methods.
- `ManifestProps` (`manifest_props.dfy`): the lemmas.

Some things are inputs or outputs rather than modelled behaviour:

- The directory search is an input. `globbed` holds one list of paths per entry of
  `fq_extensions`, each in the order the search returned them.
- The configuration (`split_pattern`, the two read patterns, `filter_pattern`, `verbose`) is a
  `Config` value. `Defaults` holds the function's default arguments.
- Each of the four `ValueError`s is an `Err(kind, name)`. `name` is the file path or the sample
  id that the message names.
- Whether the warning is printed is a boolean result.

Python's `/` in the warning test is float division, so `(len(lines) - 1) != n / 2` holds exactly
when `2 * (len(lines) - 1) != n`. The model uses that integer form.

## Model

| member | source | states |
|---|---|---|
| Manifestor.Discover | Step2_ImportingData/fq-manifestor.py:22-25 | the loop over the extensions yields `Flatten(globbed)`, the per-extension results one after the other |
| ManifestSpec.Flatten | Step2_ImportingData/fq-manifestor.py:22-25 | `fq_filepaths` after the extension loop; no contract of its own: `FlattenMember` and `FlattenAppend` give its meaning, and `Manifestor.Discover` is proved equal to it |
| ManifestProps.FlattenMember | Step2_ImportingData/fq-manifestor.py:22-25 | a path is found exactly when it was found for some extension |
| ManifestProps.FlattenAppend | Step2_ImportingData/fq-manifestor.py:22-25 | searching two groups of extensions in turn lists the first group's paths, then the second's |
| ManifestProps.FlattenOne | Step2_ImportingData/fq-manifestor.py:22-25 | a single extension's search results are the whole found list |
| Text.IsSubstring | Step2_ImportingData/fq-manifestor.py:27 | `filter_pattern in fp`: the filter occurs at some position of the path; a predicate defined by that condition, used by the contract of `ManifestSpec.Filter` |
| ManifestSpec.Filter | Step2_ImportingData/fq-manifestor.py:26-27 | with no filter the list is unchanged; with one, a path survives exactly when it holds the filter as a substring |
| ManifestProps.FilterKeepsOrder | Step2_ImportingData/fq-manifestor.py:26-27 | filtering distributes over concatenation, so kept paths keep their relative order |
| ManifestProps.FilterCons | Step2_ImportingData/fq-manifestor.py:26-27 | the comprehension keeps the first path once if it holds the filter and drops it otherwise, then filters the rest |
| ManifestProps.FilterOne | Step2_ImportingData/fq-manifestor.py:26-27 | a single path is kept exactly once when it holds the filter and dropped otherwise; with `FilterKeepsOrder` this fixes the filtered list, multiplicities included |
| Text.Basename | Step2_ImportingData/fq-manifestor.py:35 | `os.path.basename`; no contract of its own: `BasenameSpec` and `BasenameAfterSlash` give its meaning |
| Text.BasenameSpec | Step2_ImportingData/fq-manifestor.py:35 | the base name has no '/', is a suffix of the path, and is preceded by '/' when shorter than the path |
| Text.BasenameAfterSlash | Step2_ImportingData/fq-manifestor.py:35 | the base name of `dir/name` is `name` when `name` has no '/' |
| Text.BasenameNoSlash | Step2_ImportingData/fq-manifestor.py:35 | a path without '/' is its own base name |
| Text.FirstIndex | Step2_ImportingData/fq-manifestor.py:36 | the result is the position of the first occurrence of the character |
| Text.FirstIndexAt | Step2_ImportingData/fq-manifestor.py:36 | an occurrence with no earlier occurrence is the first one |
| Text.Split | Step2_ImportingData/fq-manifestor.py:36 | splitting always yields at least one field |
| Text.SplitHead | Step2_ImportingData/fq-manifestor.py:36-41 | the split yields exactly one field iff the separator is absent; otherwise the first field is the text before its first occurrence |
| Text.SplitFields | Step2_ImportingData/fq-manifestor.py:36 | no field contains the separator |
| Text.SplitJoin | Step2_ImportingData/fq-manifestor.py:81 | splitting a join of separator-free parts gives the parts back |
| Text.JoinSplit | Step2_ImportingData/fq-manifestor.py:36 | joining the fields of a split with the separator gives the text back |
| Text.JoinTrailing | Step2_ImportingData/fq-manifestor.py:81-82 | writing the joined lines and then one more separator is the join with one more empty piece |
| ManifestSpec.Parse | Step2_ImportingData/fq-manifestor.py:35-50 | the body of the main loop up to the slot update; no contract of its own: `ParseSampleId`, `ParseDirection` and `DefaultsParse` give its meaning |
| ManifestProps.ParseSampleId | Step2_ImportingData/fq-manifestor.py:35-41 | "Sample ID not found" naming the path exactly when the base name lacks the split character; otherwise the sample id is the separator-free prefix of the base name that ends at the first split character |
| ManifestProps.SampleIdAt | Step2_ImportingData/fq-manifestor.py:35-41 | when the first split character of the base name is at position k, a successful parse has the sample id `name[..k]` |
| ManifestProps.ParseAt | Step2_ImportingData/fq-manifestor.py:35-50 | a base name whose first split character is at k and that the patterns classify as direction d parses to the entry (`name[..k]`, d, the whole path) |
| Patterns.Compile | Step2_ImportingData/fq-manifestor.py:14-15 | the pattern has one atom per character, with `.` a wildcard and every other character a literal |
| Patterns.Search | Step2_ImportingData/fq-manifestor.py:43-46 | `bool(re.search(p, name))`; no contract of its own: `SearchCorrect` proves it true exactly when the pattern matches somewhere |
| Patterns.SearchCorrect | Step2_ImportingData/fq-manifestor.py:43-50 | the left-to-right search succeeds exactly when the pattern matches at some position of the name |
| Patterns.ShiftMatch | Step2_ImportingData/fq-manifestor.py:43-46 | a match in the tail of a name is a match one position later in the name, and conversely |
| ManifestProps.ParseDirection | Step2_ImportingData/fq-manifestor.py:43-50 | forward iff the forward pattern matches, even when the reverse one matches too; reverse iff only the reverse one matches; "Forward/reverse patterns not found" naming the path iff neither does (given a sample id) |
| ManifestProps.WildcardForward | Step2_ImportingData/fq-manifestor.py:43-45 | with '_' as split character and the default forward pattern, for a sample id without '_' and a sample id and rest without '/', the base name `<sid>_10_2<rest>` is classified as a forward read of sample `<sid>`, because `.` matches the '0'; only the forward pattern is fixed, the reverse one may be anything |
| ManifestProps.DefaultAt | Step2_ImportingData/fq-manifestor.py:43-47 | '_', then '1' (or '2'), then any character but a newline is a match of the default forward (or reverse) pattern |
| ManifestSpec.Gather | Step2_ImportingData/fq-manifestor.py:34-50 | all values when every file parses; otherwise the error of the first file that fails, all earlier files having parsed |
| ManifestSpec.GatherStops | Step2_ImportingData/fq-manifestor.py:38-50 | an error after an all-`Ok` prefix is the result of the whole list, whatever follows it |
| ManifestSpec.Parsed | Step2_ImportingData/fq-manifestor.py:34-50 | there is one parse result per path |
| ManifestSpec.ParsedPrefix | Step2_ImportingData/fq-manifestor.py:34-50 | parsing a prefix of the paths gives the same prefix of the results |
| ManifestProps.ParsedAt | Step2_ImportingData/fq-manifestor.py:34-50 | the i-th parse result is the parse of the i-th path |
| ManifestProps.ParseAllSpec | Step2_ImportingData/fq-manifestor.py:34-50 | the main loop either parses every path, entry i being path i's, or stops with the error of the first path that fails |
| ManifestSpec.ParseAll | Step2_ImportingData/fq-manifestor.py:34-50 | the main loop's parsing, every path in order and stopping at the first failure; no contract of its own: `ParseAllSpec` gives its meaning |
| ManifestSpec.ParseAllStops | Step2_ImportingData/fq-manifestor.py:38-50 | once a prefix parses, the first failing path decides the outcome of the loop over every longer prefix |
| ManifestSpec.Prior | Step2_ImportingData/fq-manifestor.py:52-55 | the sample's current slot pair, or `[None, None]` when the sample has no key yet; no contract of its own: the contract of `Assign` states how it is used |
| ManifestSpec.Assign | Step2_ImportingData/fq-manifestor.py:52-61 | a forward file sets only slot 0 of its sample and a reverse file only slot 1; the other slot and every other sample are unchanged; a new sample starts from `[None, None]` and is appended to the key order; the key invariant is kept |
| ManifestSpec.Collect | Step2_ImportingData/fq-manifestor.py:32-61 | after the loop every key appears once in the order, and the order holds exactly the keys |
| ManifestProps.CollectOrder | Step2_ImportingData/fq-manifestor.py:32-61 | the keys are exactly the sample ids of the entries, each in first-discovery order |
| ManifestProps.CollectSeenStep | Step2_ImportingData/fq-manifestor.py:52-61 | one more file adds its sample id to the keys and nothing else |
| ManifestProps.CollectOrderStep | Step2_ImportingData/fq-manifestor.py:52-61 | one more file keeps the keys in first-discovery order |
| ManifestProps.CollectSlot | Step2_ImportingData/fq-manifestor.py:52-61 | a sample's slot for a direction is empty iff no file of that sample and direction was seen; otherwise it holds the last such file (last write wins) |
| ManifestSpec.Rows | Step2_ImportingData/fq-manifestor.py:64-71 | it succeeds iff every sample has both reads, giving one row (sid, forward, reverse) per sample in order; otherwise it reports the first incomplete sample, as a missing forward read if its forward slot is empty and a missing reverse read if not |
| ManifestSpec.RowsStops | Step2_ImportingData/fq-manifestor.py:64-69 | after a complete prefix, the first incomplete sample's error is the result |
| ManifestSpec.RowsSnoc | Step2_ImportingData/fq-manifestor.py:64-71 | after a complete prefix, a complete sample adds its row (sid, forward path, reverse path) |
| ManifestSpec.Lines | Step2_ImportingData/fq-manifestor.py:63-71 | the lines are the fixed header followed by one tab-separated line per row, in order |
| ManifestSpec.RowLine | Step2_ImportingData/fq-manifestor.py:71 | `'%s\t%s\t%s' % (sid, fwd, rev)`; no contract of its own: `RowLineSplit` proves that it splits back on tabs into its three fields when they hold no tab or newline |
| Manifestor.ScanReads | Step2_ImportingData/fq-manifestor.py:32-61 | the main loop over the kept paths ends with the slot table `Collect` of the parsed entries, or raises the error of the first unusable file |
| Manifestor.ManifestLines | Step2_ImportingData/fq-manifestor.py:63-71 | the second loop produces `Lines` of the rows when every sample is complete, or raises the first incomplete sample's error |
| Manifestor.FqManifestor | Step2_ImportingData/fq-manifestor.py:10-82 | the file text equals `Manifest` of the found paths, so nothing is written on an error, and the warning flag equals `Warns` |
| ManifestProps.RowLineSplit | Step2_ImportingData/fq-manifestor.py:71 | a data line splits back on tabs into its sample id, forward path and reverse path |
| ManifestProps.LinesClean | Step2_ImportingData/fq-manifestor.py:63-71 | no line of the manifest holds a newline when no field does |
| ManifestProps.HeaderOneLine | Step2_ImportingData/fq-manifestor.py:63 | the header holds no newline |
| ManifestProps.ReadLines | Step2_ImportingData/fq-manifestor.py:63-71 | reading the data lines back recovers the rows |
| Text.Join | Step2_ImportingData/fq-manifestor.py:81 | `sep.join(parts)`; no contract of its own: `SplitJoin`, `JoinSplit` and `JoinTrailing` give its meaning |
| ManifestSpec.Render | Step2_ImportingData/fq-manifestor.py:80-82 | the text written: the lines joined with newlines, then one more newline; no contract of its own: `RenderRoundTrip` gives its meaning |
| ManifestProps.RenderRoundTrip | Step2_ImportingData/fq-manifestor.py:63-82 | when no field holds a tab or a newline, a reader gets back exactly the rows, in order. The reader splits on '\n', requires the header first and an empty last piece, and splits each line between them into three tab-separated fields |
| ManifestProps.ParseClean | Step2_ImportingData/fq-manifestor.py:35-41 | the sample id is a piece of the path, so it holds no tab or newline when the path holds none |
| ManifestProps.CollectClean | Step2_ImportingData/fq-manifestor.py:52-61 | keys and filled slots hold no tab or newline when no entry's sample id or path does |
| ManifestProps.ManifestRoundTrip | Step2_ImportingData/fq-manifestor.py:34-82 | when no kept path holds a tab or a newline, reading the written manifest gives back exactly its rows, one (sid, forward, reverse) per sample in first-discovery order |
| ManifestProps.RepeatedCount | Step2_ImportingData/fq-manifestor.py:52-61 | no file overwrites a filled slot iff no two files name the same sample and direction |
| ManifestProps.FilledComplete | Step2_ImportingData/fq-manifestor.py:64-71 | once every sample is complete, exactly two slots per sample are filled |
| ManifestProps.FilledAssign | Step2_ImportingData/fq-manifestor.py:52-61 | each file adds one filled slot exactly when its slot was empty |
| ManifestProps.CollectCount | Step2_ImportingData/fq-manifestor.py:34-61 | filled slots plus overwriting files equal the number of files |
| ManifestSpec.Warns | Step2_ImportingData/fq-manifestor.py:73-78 | the warning condition after a successful run; no contract of its own: `WarnsSpec` gives its meaning |
| ManifestProps.WarnsSpec | Step2_ImportingData/fq-manifestor.py:73-78 | on success there are at most half as many records as kept files. The warning fires iff verbose and two kept files name the same sample and direction, the later one having silently replaced the earlier |
| ManifestSpec.Build | Step2_ImportingData/fq-manifestor.py:26-71 | the rows of the manifest or the first error; no contract of its own: `ParseAllSpec`, `CollectOrder`, `CollectSlot`, the contract of `Rows` and `DefaultsPair` give its meaning |
| ManifestSpec.Manifest | Step2_ImportingData/fq-manifestor.py:26-82 | the written text on success, else the error; no contract of its own: `Manifestor.FqManifestor` is proved equal to it, and `ManifestRoundTrip` and `VerboseNoEffect` give its meaning |
| ManifestProps.DefaultsParse | Step2_ImportingData/fq-manifestor.py:35-50 | with the default arguments, `<dir>/<sid>_1<tail>` is a forward read and `<dir>/<sid>_2<tail>` a reverse read of `<sid>`, when the sample id and tail hold no '_' or '/', the tail is non-empty and its first character is not a newline (the pattern's `.` needs a character other than a newline after the digit) |
| ManifestProps.PairParseAll | Step2_ImportingData/fq-manifestor.py:34-50 | two paths that both parse give both entries, in order |
| ManifestProps.PairRows | Step2_ImportingData/fq-manifestor.py:52-71 | a forward then a reverse file of one sample give exactly one row holding both paths |
| ManifestProps.PairCollect | Step2_ImportingData/fq-manifestor.py:52-61 | a forward then a reverse file of one sample give one key whose slots hold both paths |
| ManifestProps.DefaultsPair | Step2_ImportingData/fq-manifestor.py:10-71 | with the default arguments, `<dir>/<sid>_1.fastq.gz` and `<dir>/<sid>_2.fastq.gz` give the single row (sid, forward path, reverse path) |
| ManifestProps.VerboseNoEffect | Step2_ImportingData/fq-manifestor.py:73-82 | `verbose` only decides the warning: the written text and the error are the same whatever its value |

## Left out

- Directory search, `os.path.abspath` and the file write (Step2_ImportingData/fq-manifestor.py:19-25, 80-82) are filesystem I/O.
  - The per-extension glob results are an input.
  - The written text is the `Ok` value of the result.
  - The `**/*.<ext>` glob matching and its OS-dependent order are not modelled.
- The progress `print`s are left out. Only the warning's condition is modelled.
- `re.split` and `re.search` are not modelled as a general regex engine.
  - `split_pattern` is one literal character.
  - A read pattern is a sequence of literal characters and `.` wildcards, where `.` matches any character except a newline. The defaults `'_1.'` and `'_2.'` have this form.
  - Patterns that use other regex syntax are outside the model.
- The command-line block (Step2_ImportingData/fq-manifestor.py:85-129) is left out. It handles argument checks, the "output exists" skip and the `qiime tools import` subprocess, which are process and I/O plumbing.
- The other scripts of the repository are left out: the QIIME 2 stage scripts, their artifact-saving helpers, the classifier download and the metadata transformer. They are thin wrappers around external plugin calls and libraries.
- The Python function is one function with three loops. Here each loop is a method of its own (`Discover`, `ScanReads`, `ManifestLines`), called in sequence by `FqManifestor`.
- The dictionary is a `map` plus the sequence of its keys in insertion order. The per-sample list `[fwd, rev]` is the value `Slots`, replaced on each update. Aliasing of that list is not modelled, and none is observable because each list belongs to one key.
