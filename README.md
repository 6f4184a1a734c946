# TNM reader: result extraction, grouping and layer building

A Dafny model of the logic in the QGIS plugin's `TNMReader.read_tnm_file`
and `create_results_layer` (`tnm_reader.py`). The plugin reads a TNM noise
report (an XML file of receivers, each with a point and a list of
`ReceiverResult` entries). It keeps the calculated entries and derives a
level key from each result name by splitting on `"_level_"`. It strips
`"_level_<key>"` from the name and groups the results in an
insertion-ordered dict keyed by level. Then it builds one point layer per
key: "Results" for the key `additional`, "Results Level <key>" otherwise.

Modules, one per file:

- `Wrappers` (`wrappers.dfy`): `Option` and `Result`.
- `Text` (`text.dfy`): Python's `in`, `str.split`, `str.replace(pat, "")`,
  `"".join`, `sep.join` and ASCII `str.lower`. Containment, splitting and
  removal are built on one left-to-right, non-overlapping scan, `FindFrom`,
  which is `str.find`.
- `TnmData` (`tnm_data.dfy`): the parsed report, the result records, the
  three error messages, and the features and layers.
- `Naming` (`naming.dfy`): level key, display name and layer title.
- `Extraction` (`extraction.dfy`): which entries are kept, which ones make
  the read raise, and the records built from the kept ones.
- `Grouping` (`grouping.dfy`): the `levels` dict as a map plus its key
  order. `GroupSpec` is the declarative dict: keys in first-appearance
  order, each key's results in document order. `Add` is one step of the
  Python loop.
- `Layers` (`layers.dfy`): the feature loop of `create_results_layer` and
  the layers built from a dict.
- `Reader` (`reader.dfy`): `Read` is what a read produces. `ReadTnmFile`
  is proved to produce exactly `Read`. The methods it calls are the nested
  loops of `read_tnm_file`: the grouping loops are proved to end with
  `GroupSpec` of the kept records, the layer loops with `LayersOf`.
- `ReaderProperties` (`properties.dfy`): what a whole read promises.

The input is an already-parsed document (`Input`). A missing file and XML
that does not parse are their own cases. An element whose absence makes
Python raise (`.text` on `None`) is a `None` or `hasName == false`. A number
that `float()` cannot read is a `None`. Every exception inside the `try`
becomes the one error `ReadFailed`.

The key is the last piece of `split("_level_")`. When markers overlap this
is not the text after the rightmost `"_level_"`: `Naming.OverlappingMarkerKey`
shows that `"x_level_level_additional"` gets the key `"level_additional"`,
although it ends in `"_level_additional"`. `Naming.MarkerKey` shows that
overlap is the only exception: when the part before the last marker does
not end in `"_level"`, the key is the text after that marker, however many
markers come earlier.

## Model

| member | source | states |
|---|---|---|
| Text.FindFrom | tnm_reader.py:126-127 | a found index is the first occurrence at or after the start; no result means no occurrence at or after the start |
| Text.LastPiece | tnm_reader.py:127 | when the separator occurs, the split has at least two pieces, the last piece holds no separator, and the string ends with separator + last piece |
| Text.RemoveEveryOccurrence | tnm_reader.py:130 | `replace(pat, "")` removes every occurrence the scan finds: the string is the split pieces joined by `pat`, the result is the same pieces joined by nothing, and no piece contains `pat` |
| Text.LowerIsTrue | tnm_reader.py:116 | the lower-cased flag equals "true" exactly when the text is four letters t/T, r/R, u/U, e/E |
| Naming.LevelKey | tnm_reader.py:125-127 | when the name holds `"_level_"`, the key holds no `"_level_"` and the name ends with `"_level_"` + key |
| Naming.UnmarkedName | tnm_reader.py:125-130 | a name without `"_level_"` has key "additional", keeps its name unchanged, and lands in the layer "Results" |
| Naming.SoleMarker | tnm_reader.py:125-130 | for `p + "_level_" + k` with no other marker, the key is `k` and the display name is `p` |
| Naming.MarkerKey | tnm_reader.py:125-127 | for `p + "_level_" + k` where `k` holds no marker and `p` does not end in `"_level"`, the key is `k`, whatever markers `p` holds |
| Naming.EmptyKey | tnm_reader.py:125-148 | a name `p + "_level_"` where `p` does not end in `"_level"` has the empty key and the title "Results Level "; when `p` holds no marker either, the display name is `p` |
| Naming.AdditionalSuffixMerges | tnm_reader.py:125-148 | a name `p + "_level_additional"` where `p` does not end in `"_level"` gets key "additional" and the title "Results" of the unmarked results; when `p` holds no marker either, the display name is `p` |
| Naming.OverlappingMarkerKey | tnm_reader.py:125-127 | "x_level_level_additional" ends in `"_level_additional"` yet its key is "level_additional", not "additional" |
| Naming.DisplayName | tnm_reader.py:130 | `name.replace("_level_" + key, "")`; `Text.RemoveEveryOccurrence` states what the removal leaves, `Naming.SoleMarker` and `Naming.UnmarkedName` the display names it gives |
| Naming.LayerTitle | tnm_reader.py:145-148 | the title is "Results" exactly for the key "additional"; `Naming.LayerTitleInjective` shows distinct keys get distinct titles |
| Naming.LayerTitleInjective | tnm_reader.py:145-148 | distinct keys give distinct layer titles |
| Extraction.KeptCarriesPoint | tnm_reader.py:107-137 | a receiver's entries yield no more records than there are entries, and every record carries that receiver's x, y and z |
| Extraction.EntryBroken | tnm_reader.py:116-123 | reading an entry raises when its flag text is missing, or when it is calculated and a name or level is missing or not a number; `ReaderProperties.UnreadableLevelAborts` and `Reader.AddReceiverResults` tie it to the failed read |
| Extraction.HeaderBroken | tnm_reader.py:104-109 | reading a receiver raises when its name or a coordinate is missing or not a number; `ReaderProperties.UnreadablePointAborts` and `Reader.AddReceiver` tie it to the failed read |
| Extraction.KeptEntry | tnm_reader.py:115-137 | the record for one entry: none when it is not calculated, else the key, display name, receiver point and three levels; `Extraction.KeptCarriesPoint` and `Reader.AddReceiverResults` pin it down |
| Extraction.PruneEntries | tnm_reader.py:115-118 | the pruned entries are exactly the entries that are not marked not-calculated |
| Extraction.UncalculatedIgnored | tnm_reader.py:115-118 | removing every not-calculated entry changes neither whether the read fails nor any record built |
| Grouping.Add | tnm_reader.py:139-142 | the Python step on a dict: create the list on first sight of the key, then append; `Grouping.GroupStep` and `Grouping.AddSum` state what it preserves |
| Grouping.FirstSeen | tnm_reader.py:139-140 | the dict's key order holds every key that appears, each once |
| Grouping.GroupSpec | tnm_reader.py:139-142 | the declarative dict has the same keys in its order and its map, with no key twice |
| Grouping.GroupStep | tnm_reader.py:139-142 | grouping one more record is one Python step: create the list on first sight of the key, then append |
| Grouping.FirstSeenOrder | tnm_reader.py:139-144 | keys come out in the order of their first appearance in the document |
| Grouping.AddSum | tnm_reader.py:139-142 | one Python step keeps the dict well formed and adds one to the sum of group sizes |
| Grouping.GroupSizesSum | tnm_reader.py:139-142 | the group sizes add up to the number of kept records |
| Grouping.MemberOfOwnGroup | tnm_reader.py:139-142 | each record is in the group of its own key, appended after the earlier records with that key |
| Grouping.MembersPrefix | tnm_reader.py:142 | the group built from a prefix of the records is a prefix of the final group, so groups keep document order |
| Layers.ToFeature | tnm_reader.py:183-190 | the feature for one result: a point at (x, y) and the attributes [name, with_barrier, no_barrier, noise_reduction]; `Layers.CreateResultsLayer` is proved against it |
| Layers.LayersOf | tnm_reader.py:144-150 | one layer per key in dict order, titled after the key; `Layers.LayersHoldAllResults`, `Layers.DistinctTitles` and `Reader.BuildLayers` state its properties |
| Layers.CreateResultsLayer | tnm_reader.py:181-191 | the layer has the given title and one feature per result, in order, at (x, y) with attributes [name, with_barrier, no_barrier, noise_reduction] |
| Layers.LayersHoldAllResults | tnm_reader.py:144-150 | the layers hold as many features as the groups hold results |
| Layers.DistinctTitles | tnm_reader.py:144-148 | layers of a dict with distinct keys have pairwise distinct titles |
| Reader.Read | tnm_reader.py:87-160 | what a read produces: the three errors in the source's order, else the layers of the grouped kept records; `Reader.ReadTnmFile` is proved equal to it and the `ReaderProperties` lemmas state its properties |
| Reader.AppendToLevel | tnm_reader.py:139-142 | the dict after the update is `Add` of the dict before it |
| Reader.AddReceiverResults | tnm_reader.py:115-142 | the entry loop fails exactly when some entry is unreadable; otherwise the dict becomes the grouping of everything before plus this receiver's kept records |
| Reader.AddReceiver | tnm_reader.py:104-142 | one receiver fails exactly when it is unreadable; otherwise it adds exactly its kept records |
| Reader.CollectLevels | tnm_reader.py:103-142 | the receiver loop fails exactly when some receiver is unreadable; otherwise it ends with the grouping of all kept records |
| Reader.BuildLayers | tnm_reader.py:144-150 | one layer per key in dict order, titled after the key, holding that key's results |
| Reader.ReadTnmFile | tnm_reader.py:87-160 | the outcome is exactly `Read(input)`: the three errors in the source's order, else the layers of the grouped kept records |
| ReaderProperties.NoReceiversElement | tnm_reader.py:87-98 | a missing file and a document without `receivers` give their errors and no layer |
| ReaderProperties.UnreadableLevelAborts | tnm_reader.py:121-123 | a calculated entry with an unreadable level makes the whole read fail with no layer (the handler at lines 159-160) |
| ReaderProperties.UnreadablePointAborts | tnm_reader.py:104-109 | a receiver with an unreadable coordinate makes the read fail, even without results |
| ReaderProperties.ReceiverWithoutResults | tnm_reader.py:111-113 | a readable receiver without `ReceiverResults` changes nothing: no error, no record |
| ReaderProperties.UncalculatedNeverShown | tnm_reader.py:116-118 | taking every not-calculated entry out of the report leaves the read's outcome unchanged |
| ReaderProperties.OneLayerPerKey | tnm_reader.py:139-150 | a read that does not fail builds one layer per distinct key, with distinct titles, holding all kept records between them |
| ReaderProperties.SingleResultReport | tnm_reader.py:103-191 | one receiver at (10, 20, 0) with the calculated result "Pt_level_5" reads as the layer "Results Level 5" with one feature at (10, 20): "Pt", 45.2, 50.1, 4.9 |

## Left out

- Plugin glue is not modelled: `__init__`, `initGui`, `unload`, `add_action`, `run` and `tr`, the dialog, and `__init__.py`. It is GUI and host API.
- XML parsing and `os.path.exists` are not modelled. Their outcomes are the `Input` cases `Missing`, `Unparsable` and `Parsed`. The file path from the dialog is not modelled.
- Float parsing and float semantics are not modelled. Each `float()` is a success carrying a `real`, or a failure (`None`). Numbers are only carried through.
- Layer construction and registration are not modelled: the CRS lookup, `QgsVectorLayer`, the field list, `addMapLayer`, extent and refresh. These are calls into the host. The model also does not capture a host failure part-way through adding layers, which in the source leaves the earlier layers registered.
- Message texts are not modelled. Every exception inside the `try`, including its text, becomes `ReadFailed`.
- Text.Lower: covers ASCII letters only. Python's `lower()` also maps non-ASCII letters, which cannot produce "true".
- The debug `print` calls and the unused list `additional` (line 101) are left out.
- The receiver's `name` text is read but never used, so only whether it is present is modelled (`hasName`).
