# Chunked REDCap export and English/Spanish merge, modelled in Dafny

Two batch scripts are modelled here.

`adc_export.py` exports the forms of a REDCap data project to CSV files:

- The catalog of forms comes from a bootstrap project (`form_selection`).
- The distinct record ids are requested in slices of at most 50 (`chunks`, `csv_chunks`).
- The CSV chunks are written to one file per form, keeping only the first chunk's header line (`export_form`).
- The output file is `<dest_dir>/<stem of file_name>.csv` (`main`): `with_suffix('.csv')` replaces an existing suffix of the file name.

`combine_eng_esp.py` merges the English and Spanish exports of a study:

- It labels the files of `temp/English` and `temp/Spanish` by exact file-name match (`classify_files`).
- Label 1 means an English file with a Spanish partner, 2 means English only, 3 means Spanish only.
- It then combines each pair and copies every other file (`handle_file_list`); the merged file's path is computed in `combine_files`.

The files:

- `paths.dfy` (module `Paths`): the pathlib operations both scripts use.
  - A path is a sequence of components.
  - The modelled operations are `.name`, `.parent` and `/` with one component.
- `seqs.dfy` (module `Seqs`): three facts about sequence concatenation that both sides use.
- `adc_export.dfy` (module `AdcExport`): the export side.
  - The remote project is abstract. A reply is either data or `RedcapError`.
  - A chunked request is a function from an id list to a reply.
  - The generator `csv_chunks` is modelled by what its consumer sees: the texts yielded, and whether it then raised.
  - `export_form` is a method with the `header_written` flag and a loop. Its result is the file's text plus how the call ended.
- `combine_eng_esp.dfy` (module `CombineEngEsp`): the merge side.
  - `classify_files` is a method over the two lists and the dictionary. The dictionary is a list of entries in insertion order.
  - The method iterates as Python's list iterator does: by an index into the list as it is at that moment.
  - So when a pair is found and both files are removed, the English file that moves into the current slot is never compared. The model keeps this behaviour.
  - `MatchLabels` describes the resulting labels from the original lists alone, and `ClassifyFiles` is proved against it.
  - `handle_file_list` becomes a list of planned `Combine` and `Copy` actions.

What the code does, as modelled:

- `csv_chunks` skips an empty reply, and the next slice is requested.
- The merged file goes into `export_dir.parent`, three levels above the English file.
- Files are copied without checking whether the target exists.
- `classify_files` does remove from the lists it iterates over. Its consequences are proved; see Findings.

## Model

| member | source | states |
|---|---|---|
| Paths.Join | adc_export.py:29 | `p / seg` with a proper component has `seg` as its name and `p` as its parent; `""` and `"."` leave `p` unchanged |
| Paths.Parent | combine_eng_esp.py:33 | `.parent` drops exactly the last component; the root and `Path('.')` are their own parents |
| AdcExport.Split | adc_export.py:45 | `split(',')` gives at least one piece and no piece contains the separator |
| AdcExport.JoinSplit | adc_export.py:45 | joining the pieces of `split(sep)` with `sep` gives the string back |
| AdcExport.SplitJoin | adc_export.py:45 | splitting a join of separator-free pieces gives the pieces back |
| AdcExport.SplitOnce | adc_export.py:58 | `split('\n', 1)` has one piece exactly when there is no newline; otherwise the two pieces are the text before the first newline and the text after it |
| AdcExport.SelectForm | adc_export.py:42-47 | `formname` carries over; an empty `fieldnames` becomes `[def_field]`, else the field list joins back to `fieldnames` and no field contains a comma; `file_name` is `filename` unless it is empty, then `formname` |
| AdcExport.FormSelection | adc_export.py:40-48 | one triple per bootstrap record, in record order |
| AdcExport.ChunksFrom | adc_export.py:90-93 | from start index `i`: every slice is non-empty with at most `n` items, all but the last have exactly `n`, and there are ceil((len-i)/n) slices |
| AdcExport.Chunks | adc_export.py:90-93 | `chunks(items, n)`: slices of 1 to `n` items, all full but the last, ceil(len/n) of them, and concatenated in order they are `items` |
| AdcExport.Dedup | adc_export.py:71 | `list(set(ids))` has no duplicates, exactly the members of `ids`, and is no longer |
| AdcExport.IdSlicesPartition | adc_export.py:70-74 | the requested id lists have no repeats, are pairwise disjoint, together hold exactly the fetched ids, hold 1 to 50 ids each, and there are ceil(distinct/50) of them |
| AdcExport.NonEmpty | adc_export.py:81-82 | only non-empty replies are yielded, and an empty one is skipped without losing any text |
| AdcExport.NonEmptyOne | adc_export.py:81-82 | one reply yields its text exactly when the text is non-empty |
| AdcExport.NonEmptyAppend | adc_export.py:74-82 | the yield of consecutive replies is the yield of the first ones followed by that of the rest; with `NonEmptyOne` the yield is exactly the non-empty texts, one item per reply, in reply order |
| AdcExport.NonEmptyAll | adc_export.py:81-82 | when no reply is empty, every reply's text is yielded, in order |
| AdcExport.Drain | adc_export.py:74-87 | the stream raises exactly when some reply is a `RedcapError`, after yielding the non-empty texts before the first one |
| AdcExport.CsvChunks | adc_export.py:67-87 | a failing id request raises before anything is yielded; nothing empty is yielded; the stream raises exactly when some chunked request fails; what is yielded is `NonEmpty` of the replies before the first failing one; without a failure the yielded texts concatenate to all replies in order |
| AdcExport.Requested | adc_export.py:74-80 | the id lists requested are a prefix of the slices; every one but the last succeeds; the last fails exactly when the stream raises; without a failure every slice is requested |
| AdcExport.CsvExportHeaderOnce | adc_export.py:54-82 | when every chunked request answers the same header line and its rows, the stream does not raise and the file is the header once followed by all rows in slice order |
| AdcExport.Exported | adc_export.py:54-61 | no chunks give an empty, complete file; the write completes exactly when every chunk after the first contains a newline |
| AdcExport.HeaderOnce | adc_export.py:56-61 | chunks that all start with the same header line give a file with that header once, followed by every chunk's rows in order |
| AdcExport.ExportForm | adc_export.py:51-61 | the `header_written` loop writes `Exported(chunks)`, returns normally exactly when all chunks were written and the stream did not raise, and raises `IndexError` exactly when a later chunk has no newline |
| AdcExport.BrokenPrefix | adc_export.py:58 | once a chunk fails the split, later chunks change nothing in the file |
| AdcExport.Suffix | adc_export.py:29 | `.suffix` is empty or a dot followed by dot-free text, shorter than the name and ending it; it is non-empty exactly when a character after the first is a dot and the last character is not |
| AdcExport.WithSuffix | adc_export.py:29 | `with_suffix` fails exactly for an invalid suffix (one with `/`, or non-empty without a leading dot, or `.` alone) or an empty name; otherwise the result stays in the same directory with the stem followed by the new suffix as its name |
| AdcExport.Destination | adc_export.py:29 | for a proper file name the destination lies in `dest_dir` and is named the stem of the name followed by `.csv` |
| AdcExport.DestinationInDir | adc_export.py:29 | `(dest_dir / file_name).with_suffix('.csv')` for a proper name lies in `dest_dir`, keeps the stem, has suffix `.csv`, and renaming it again changes nothing |
| AdcExport.DestinationEmptyName | adc_export.py:29 | with a file name `""` or `"."` the destination is `dest_dir` itself with the suffix replaced, or none when `dest_dir` has no name |
| CombineEngEsp.Assign | combine_eng_esp.py:18 | `d[f] = kind` appends a new key, or changes only the kind of an existing key in its place; keys stay unique |
| CombineEngEsp.RemoveFirst | combine_eng_esp.py:19-20 | `list.remove(x)` drops exactly the first occurrence of `x` |
| CombineEngEsp.Without | combine_eng_esp.py:20 | the files whose name is not among those removed, and no more of them |
| CombineEngEsp.WithoutAppend | combine_eng_esp.py:20 | removing by name from consecutive parts removes from each part and keeps the parts in order |
| CombineEngEsp.PickAppend | combine_eng_esp.py:19-23 | picking the files of one label from consecutive parts picks from each part and keeps the parts in order |
| CombineEngEsp.WithoutRemove | combine_eng_esp.py:20 | with unique names, removing one more name removes exactly that one file |
| CombineEngEsp.WithoutCount | combine_eng_esp.py:16-20 | each paired name takes exactly one Spanish file with it |
| CombineEngEsp.MatchFile | combine_eng_esp.py:16-20 | the inner loop pairs `f` exactly when some Spanish file has its name; with unique names it removes `f` and the first such file and labels `f` with 1; otherwise nothing changes |
| CombineEngEsp.AssignAll | combine_eng_esp.py:22-26 | labelling distinct new keys appends them in order; entries of other labels are untouched |
| CombineEngEsp.MatchLabels | combine_eng_esp.py:15-20 | one label per English file from offset `k` on, each 1 or 2 |
| CombineEngEsp.EnglishLabels | combine_eng_esp.py:15-20 | one label per English file, each 1 or 2 |
| CombineEngEsp.ClassifiedShape | combine_eng_esp.py:11-28 | labels are 1 to 3; labels 1 and 2 are English files, a label 1 file has a same-named Spanish file, labels 3 are Spanish files |
| CombineEngEsp.ClassifyFiles | combine_eng_esp.py:11-28 | keys are unique with labels 1 to 3; every label 1 is an English file with a same-named Spanish file; for directory listings no ValueError occurs, `eng_files` ends as the label-2 files, `esp_files` as the label-3 files, both in original order, and the dictionary is `Classified` |
| CombineEngEsp.EnglishLabelsMeaning | combine_eng_esp.py:15-20 | label 1 implies a partner, no partner implies label 2, the file after a label-1 file is label 2, and a label-2 file with a partner follows a label-1 file |
| CombineEngEsp.ClassifiedEnglish | combine_eng_esp.py:15-23 | every English file is a key with label 1 or 2 |
| CombineEngEsp.ClassifiedSpanish | combine_eng_esp.py:25-26 | a Spanish file whose name was paired is never a key; every other one is a key with label 3 |
| CombineEngEsp.ClassifiedKeys | combine_eng_esp.py:11-28 | the keys are exactly the English files and the Spanish files left over |
| CombineEngEsp.ClassifiedCount | combine_eng_esp.py:11-28 | for directory listings, 2·#label1 + #label2 + #label3 = len(eng) + len(esp) |
| CombineEngEsp.SkipExample | combine_eng_esp.py:15-23 | English `[a, b]` and Spanish `[a, b]` give `a -> 1`, `b -> 2` and the Spanish `b -> 3`, although `b` has a partner |
| CombineEngEsp.LookupShape | combine_eng_esp.py:15-26 | the dictionary of pairing by lookup labels as `Classified` does: 1 to 3, 1 and 2 English, 1 with a partner, 3 Spanish |
| CombineEngEsp.LookupPairsAll | combine_eng_esp.py:15-20 | pairing by name lookup labels 1 every English file with a partner, consumes every partnered Spanish file, and keeps the counting identity |
| CombineEngEsp.LookupExample | combine_eng_esp.py:15-23 | on the same example, lookup pairs both `a` and `b` |
| CombineEngEsp.MergedPath | combine_eng_esp.py:33-38 | the merged file is named `No_merged_<name>` and lies in the directory three levels above the English file |
| CombineEngEsp.MergedPathLayout | combine_eng_esp.py:33-38 | for `<export_dir>/English/<name>` the merged file is `No_merged_<name>` directly in `export_dir.parent` |
| CombineEngEsp.Dispatch | combine_eng_esp.py:42-51 | a label-1 key gives one combine of the English file with `export_dir/Spanish/<name>` into `No_merged_<name>` three levels above the English file; a label-2 or label-3 key gives one copy into `export_dir.parent`; any other label gives nothing |
| CombineEngEsp.PlannedActions | combine_eng_esp.py:40-51 | the actions of the whole dictionary are at most one per key |
| CombineEngEsp.HandleFileList | combine_eng_esp.py:40-51 | the loop over the dictionary issues exactly the planned actions, in key order |
| CombineEngEsp.PlannedActionsShape | combine_eng_esp.py:42-51 | with labels 1 to 3 each key gives one action: label 1 combines with `export_dir/Spanish/<name>`, labels 2 and 3 copy into `export_dir.parent` |
| CombineEngEsp.DispatchLayout | combine_eng_esp.py:45-51 | on real listings each combine uses the English file's actual Spanish partner and writes `No_merged_<name>` to `export_dir.parent`; each copy goes to that same directory |
| CombineEngEsp.LookupDispatchLayout | combine_eng_esp.py:45-51 | the same holds for the dictionary that pairing by lookup produces |

## Left out

- Configuration and logging (`get_config`, `configparser`, `_set_logging`, `_script`, the `log.*` calls): they do not affect the data.
- The REDCap service (`redcap.Project`, `export_records`): it is abstract. The id request is a `Fetched` value and the chunked request is a function parameter.
- Failures inside the service other than `RedcapError` are not modelled.
- Directory listing (`get_files_to_export`): the two file lists are inputs.
- The `main` of `combine_eng_esp.py`: it only wires these steps together. The layout it builds appears as the `Listed` precondition.
- `shutil.copy` and the pandas work in `combine_files` (`read_csv`, `append(sort=True)`, `to_csv`): they are foreign libraries. A copy and a combine become planned actions; only the merged file's path is computed.
- The `main` loop of `adc_export.py` (lines 27-30): it only calls `export_form` per triple. Its destination (line 29) is `Destination`.
- The UTF-8 encoding in `export_form` and Python 2's `xrange`: they are runtime details. Chunk texts are strings.
- A missing key in a catalog record (`KeyError`): records are a datatype with the three fields.
- The dictionary `comb_file_list` is a list of entries in insertion order, as in Python 3.7 and later. `HandleFileList` issues its actions in that order, so when an English and a Spanish file of the same name are both copied into `export_dir.parent` (the skip in Findings), the later copy (the Spanish one) is the one that remains.
- Dedup: Python's `set` order depends on hashing. The model keeps first occurrences, and no property proved depends on the order.
- Chunks: requires `n > 0`. The only caller passes 50; `xrange` with step 0 raises and a negative step yields nothing, both left out.
- Paths are component lists, and `'{}/{}'.format(...)` is modelled as `/`.
  - File names with `/` in them are not modelled.
  - Absolute file names that replace the directory in a join are not modelled.
- ClassifyFiles: on a `ValueError` (only possible when two Spanish files share a name) the model returns the partial state with `valueError` set, while Python raises. The exact partial dictionary is not specified.
- ClassifyFiles: nothing is stated, apart from unique keys and valid labels, when a list has repeated names or the two lists share a path; directory listings never do.

## Findings

| source | as written | input that shows it | evidently intended | confidence | as-written member | corrected member |
|---|---|---|---|---|---|---|
| combine_eng_esp.py:15-20 | a pair is removed from the lists being iterated, so the English file after a paired one is never compared and stays label 2 | English `[a, b]`, Spanish `[a, b]` | every English file with a same-named Spanish file is paired | not executed | CombineEngEsp.SkipExample | CombineEngEsp.LookupPairsAll |

`LookupClassified` pairs by name lookup. `HandleFileList` takes any dictionary. `PlannedActionsShape` needs every label to be 1, 2 or 3. `DictionaryLayout` also needs every label-1 key to be an English file with a same-named Spanish file, and every other key to be one of the listed files. `LookupDispatchLayout` proves the layout of the dispatch for the corrected pairing.
