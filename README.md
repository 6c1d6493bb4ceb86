# StarDict bundle decoder, modelled in Dafny

A StarDict dictionary is a directory bundle of files:

- `.ifo` holds metadata: a title line, a `version=` line, then `key=value` lines.
- `.idx` is the word index: records `word NUL offset size`, with a big-endian 32- or 64-bit offset and a 32-bit size.
- `.syn` (optional) maps synonyms to index positions.
- `.dict` holds the definition data.

A word's definition is the window `(offset, size)` of the `.dict` data that its index record points at. The window holds typed fields. Their types are fixed by `sametypesequence` when the metadata sets it. Otherwise each field carries its own type byte.

The project models these parts:

- the four file readers of `stardict.py`;
- the bundle discovery of `dictutils.py` and `get_all_filenames_in`;
- the application layer of `app.py`:
  - the settings files, which are sorted by their order column and filtered on their enabled column;
  - definition lookup, which merges direct hits with hits reached through synonyms;
  - lookup across the enabled dictionaries;
  - the sorted search index.

Readers that the source updates in place are classes: `IfoFileReader`, `IdxFileReader`, `SynFileReader`, `DictFileReader`, `DictionarySettings` and `StarDict`. Their loops are methods with invariants. Each method is proved against a specification function over the file's bytes, such as `IdxFile.Parse`, `SynFile.Parse`, `DictFile.Decode`, `IfoFile.ReadIfo` or `Settings.GetSettings`. Lemmas then prove what the format promises about those functions:

- encode-then-parse round trips for `.idx`, `.syn` and both `.dict` layouts;
- last-write-wins and trimming for `.ifo`;
- the word map lists exactly a word's record positions, in file order;
- the settings sort is sorted, a permutation, and stable;
- the search index is sorted, has no duplicates, and is exactly the union of the headwords.

Every failure the source raises as an exception is an explicit `Err` value. Words and field data are byte strings (`seq<byte>`). Metadata and settings lines are strings, each with its line terminator as Python's file iteration yields it. The file system is passed in as parameters: a directory's listing, whether a path is a directory or a file, and each file's contents.

Where the code and the written description of the format disagree, the model follows the code:

- A `.syn` file ending in a partial record is an error, not silently truncated.
- A free-form definition stops once the window is consumed, without checking for an overrun past the window.
- `IdxFileReader.__next__` numbers records from 1, but record positions (`get_index_by_num`, the word map) count from 0.

Nine source lines cannot do what their surroundings evidently intend. Each is listed under "## Findings". `Findings` models each one as written, next to the corrected reading that the rest of the model uses.

Modules: `Wrappers`, `ByteCodec`, `Grouping`, `Lexicographic`, `IfoFile`, `IdxFile`, `SynFile`, `DictFile`, `DictUtils`, `Settings`, `App` and `Findings`. There is one file per module.

## Model

| member | source | states |
|---|---|---|
| ByteCodec.FindNul | stardict.py:143 | the result is the first NUL at or after the start, and `None` exactly when there is none |
| ByteCodec.BigEndianBound | stardict.py:160-163 | an unsigned big-endian field of n bytes is below 256^n |
| ByteCodec.DecodeEncode | stardict.py:160-163 | decoding the n-byte big-endian encoding of a value gives the value back |
| ByteCodec.EncodeDecode | stardict.py:160-163 | encoding a decoded field gives the same bytes back, so the codec is a bijection on n-byte fields |
| Grouping.GroupIsSelect | stardict.py:111-122 | the word-to-positions map built record by record has a key exactly when some record carries it, and its list is the values paired with that key, in order |
| Grouping.SelectAppend | stardict.py:114-122 | recording one more pair extends only that key's list, by that value at the end |
| Lexicographic.LessIrreflexive | app.py:69 | Python's sequence ordering is irreflexive |
| Lexicographic.LessTransitive | app.py:69 | Python's sequence ordering is transitive |
| Lexicographic.LessTrichotomy | app.py:69 | any two sequences are equal or ordered one way, never both ways |
| Lexicographic.ByteCodesInjective | app.py:69 | distinct byte strings have distinct codes, so byte-string order is total |
| Lexicographic.StrCodesInjective | app.py:90 | distinct strings have distinct codes, so string order is total |
| IfoFile.Strip | stardict.py:46-47 | `strip` leaves no whitespace at either end |
| IfoFile.StripPadded | stardict.py:46-47 | `strip` removes exactly the surrounding whitespace, so it is idempotent and keeps the inner text |
| IfoFile.PartitionSplits | stardict.py:45 | `partition("=")` gives a key without `=`; key, `=` and value rebuild the line; a line without `=` is all key |
| IfoFile.Lookup | stardict.py:66-76 | the value is present exactly when the key is stored, and is the stored value |
| IfoFile.StoreLastWrite | stardict.py:57-61 | the value stored for a key is the one on the last line carrying that key |
| IfoFile.StoreUntouched | stardict.py:57-61 | a key no line carries keeps its earlier presence and value |
| IfoFile.StoreTrimmed | stardict.py:57-61 | storing trimmed pairs keeps every stored key and value trimmed |
| IfoFile.StoreKeys | stardict.py:57-61 | after storing the lines, a key is present exactly when it was before or some line carries it |
| IfoFile.Metadata | stardict.py:43-64 | rejected exactly when the version line's key is not `version` or its value is neither 2.4.2 nor 3.0.0; otherwise the title is present |
| IfoFile.MetadataKeys | stardict.py:43-64 | in accepted metadata every key but `version` is present exactly when it is the title's or some later line carries it |
| IfoFile.ReadIfo | stardict.py:34-64 | a file's lines are rejected exactly when the second line's key is not `version` or its value is neither 2.4.2 nor 3.0.0; a loaded file always holds the title |
| IfoFile.IfoTrimmed | stardict.py:43-61 | in a loaded file every key except the title is trimmed, and so is its value |
| IfoFile.VersionKept | stardict.py:49-64 | a file keeps its version when no later line redefines it: a 2.4.2 file always, a 3.0.0 file when no line sets `idxoffsetbits` |
| IfoFile.VersionDropped | stardict.py:62-64 | a 3.0.0 file that sets `idxoffsetbits` loses `version`, and keeps `idxoffsetbits` and the title |
| IfoFile.IfoFileReader.Load | stardict.py:34-64 | loading fails exactly when the second line's key is not `version` or the version is neither 2.4.2 nor 3.0.0; otherwise the reader holds `ReadIfo` of the lines |
| IfoFile.IfoFileReader.StoreLines | stardict.py:57-61 | the reader's map afterwards is the one before with every line stored in order, a later line overwriting an earlier one |
| IfoFile.IfoFileReader.GetIfo | stardict.py:66-76 | the value stored under the key, or `None` (the source's `False`) |
| IdxFile.ReadRecord | stardict.py:135-169 | a record read fails as unterminated exactly when no NUL follows the cursor; it succeeds only for a supported offset width, within the data, and the bytes it consumed are exactly the encoding of the record it returns |
| IdxFile.ReadEncodedRecord | stardict.py:142-164 | a record written at any position reads back as the same word, offset and size, with the cursor just past it |
| IdxFile.ParseEncodedFrom | stardict.py:110-122 | scanning encoded records from any record boundary yields the remaining records |
| IdxFile.ParseEncoded | stardict.py:110-122 | round trip: parsing the bytes of a record list gives the same list, for 32- and 64-bit offsets |
| IdxFile.ParseFrom | stardict.py:110-122 | a successful scan from the cursor needs a supported offset width when any data is left, and writing its records back out gives exactly the data from the cursor on |
| IdxFile.Parse | stardict.py:86-127 | round trip in the other direction: writing back the records of a parsed `.idx` file gives the file, so no byte is skipped or misread |
| IdxFile.PositionsOf | stardict.py:111-122 | the positions recorded for a word are exactly the positions of the records carrying it, ascending, and their windows are the reference lookup `Windows` |
| IdxFile.IndexedAppend | stardict.py:112-122 | recording one more record extends the word map by its position under its word |
| IdxFile.WindowsEmptyIffAbsent | stardict.py:194-195 | a word lookup finds nothing exactly when no record carries the word |
| IdxFile.IdxFileReader.Next | stardict.py:135-169 | at the end it reports `Stop`; otherwise it returns the record at the cursor, numbered one past the count, and moves the cursor past it, or reports the failure and leaves the cursor |
| IdxFile.IdxFileReader.Build | stardict.py:86-127 | the reader holds exactly the parsed records in file order with a consistent word map, or the scan's first error |
| IdxFile.IdxFileReader.Append | stardict.py:112-122 | the record goes at the end of the list, and the word map stays the grouping of the list |
| IdxFile.IdxFileReader.GetIndexByNum | stardict.py:171-183 | the record at that position, a negative position counting from the end; an error exactly when the position is out of range |
| IdxFile.IdxFileReader.GetIndexByWord | stardict.py:185-203 | `None` exactly when no record carries the word; otherwise the windows of every record carrying it, in file order |
| IdxFile.IdxFileReader.GetAllWords | app.py:67 | a word is listed exactly when some record carries it |
| SynFile.ReadSynonym | stardict.py:223-229 | a synonym record read moves the cursor past the synonym, its NUL and its 4-byte index, within the data, and the bytes it consumed are exactly the encoding of the pair it returns |
| SynFile.ReadEncodedRecord | stardict.py:223-229 | a synonym record written at any position reads back as the same synonym and index |
| SynFile.ParseEncodedFrom | stardict.py:222-237 | scanning encoded synonym records from any record boundary yields the remaining records |
| SynFile.ParseEncoded | stardict.py:222-237 | round trip: parsing the bytes of a synonym list gives the same list |
| SynFile.ParseFrom | stardict.py:222-237 | writing the records of a successful scan back out gives exactly the data from the cursor on |
| SynFile.Parse | stardict.py:213-237 | round trip in the other direction: writing back the records of a parsed `.syn` file gives the file |
| SynFile.SynFileReader.Append | stardict.py:230-237 | the pair is recorded at the end, and the synonym map stays the grouping of the records |
| SynFile.SynFileReader.Load | stardict.py:213-237 | the reader holds exactly the parsed records with a consistent map, or the scan's first error |
| SynFile.SynFileReader.GetSyn | stardict.py:239-249 | `None` exactly when no record names the synonym; otherwise its indexes, in file order |
| DictFile.LayoutOf | stardict.py:290-297 | the fixed layout is chosen exactly when `sametypesequence` is present and non-empty, and its types are that string |
| DictFile.NullTrail | stardict.py:351-355 | a text field is the bytes up to the next NUL, which hold no NUL, and the cursor moves just past it; it fails exactly when no NUL follows |
| DictFile.SizedField | stardict.py:357-365 | a sized field is the given number of bytes, or, without a size, a 4-byte length and then that many bytes; the cursor ends after them |
| DictFile.FreeField | stardict.py:322-328 | a free-form field read always moves the cursor forward, within the data |
| DictFile.NullTrailAt | stardict.py:351-355 | a text field written with its NUL reads back exactly |
| DictFile.SizedAt | stardict.py:357-361 | a length-prefixed field reads back exactly |
| DictFile.FixedFieldAt | stardict.py:335-348 | one fixed-layout field reads back, and decoding goes on just past it |
| DictFile.FixedRoundTripFrom | stardict.py:331-349 | fixed-layout fields written from any field on decode to their map, ending at the end of the window |
| DictFile.FixedRoundTrip | stardict.py:331-349 | round trip: a fixed-layout window written at any offset of the data decodes to its fields under their types, ending exactly at the window's end |
| DictFile.SingleTypeTakesWindow | stardict.py:337-346 | with one type in `sametypesequence`, its field is the whole window |
| DictFile.FreeFieldAt | stardict.py:322-328 | a free-form field written with its type byte reads back with its type, and the cursor moves past it |
| DictFile.FreeRoundTripFrom | stardict.py:318-329 | free-form fields written from any field on decode to their map, ending at the end of the window |
| DictFile.FreeRoundTrip | stardict.py:318-329 | round trip: a free-form window decodes to its fields under their types, ending exactly at the window's end |
| DictFile.FixedFrom | stardict.py:331-349 | a fixed-layout decode never moves the cursor back, and ends at the window's end when the last type is known |
| DictFile.FixedKeys | stardict.py:331-349 | a fixed-layout decode holds exactly the fields it started with plus the known types still to read |
| DictFile.FreeFrom | stardict.py:318-329 | a free-form decode stops only once the whole window is consumed, keeping every field read before |
| DictFile.Decode | stardict.py:291-297 | a decoded window never moves the cursor back; a free-form one consumes the whole window; a fixed one ends at the window's end when its last type is known |
| DictFile.DecodeKeys | stardict.py:331-349 | a fixed-layout window decodes to exactly the known types of its layout |
| DictFile.UnknownTypesSkipped | stardict.py:337-348 | types outside `mlgtxykwhnr` and `WP` read nothing: when only such types remain, the fields and the cursor stay as they are |
| DictFile.UnknownLastLeavesRest | stardict.py:337-348 | with a text type followed by an unknown last type, the decode ends just past the text's NUL and the rest of the window is never read |
| DictFile.DecodeAll | stardict.py:291-298 | a successful decode of the word's windows gives one entry per window |
| DictFile.DecodeAllOk | stardict.py:291-298 | decoding a word's windows succeeds exactly when every window decodes, and otherwise fails with the error of the first window that does not |
| DictFile.DecodeAllPrefixErr | stardict.py:291-297 | a decoding failure in one window fails the whole lookup with that error |
| DictFile.DecodeAllEach | stardict.py:291-298 | a successful lookup gives one entry per window, each that window's decoding |
| DictFile.DictFileReader.GetEntryFieldNullTrail | stardict.py:351-355 | returns `NullTrail` at the cursor and moves the cursor past the NUL, or fails with its error |
| DictFile.DictFileReader.GetEntryFieldSize | stardict.py:357-365 | returns `SizedField` at the cursor and moves the cursor past the field, or fails with its error |
| DictFile.DictFileReader.GetEntrySameTypeSequence | stardict.py:331-349 | the fixed-layout decoding of the window at the cursor, with the cursor left after it |
| DictFile.DictFileReader.GetEntry | stardict.py:318-329 | the free-form decoding of the window at the cursor, with the cursor left after it |
| DictFile.DictFileReader.DefinitionsByWord | stardict.py:275-298 | `None` exactly when no index record carries the word; otherwise one decoded entry per window of the word, in order; it fails exactly when some window of the word does not decode, with the first such window's error |
| DictFile.DictFileReader.DefinitionByIndex | stardict.py:300-316 | an out-of-range position fails; otherwise the decoding of that record's window |
| DictFile.DictFileReader.DecodeWindow | stardict.py:292-297 | decodes a window under the bundle's layout and leaves the cursor after it |
| DictFile.DictFileReader.GetDictByWord | stardict.py:275-298 | the loop over the word's windows returns `DefinitionsByWord` |
| DictFile.DictFileReader.GetDictByIndex | stardict.py:300-316 | returns `DefinitionByIndex` |
| DictUtils.SplitExt | dictutils.py:15 | `splitext` puts the name back together, and its extension starts with a dot not preceded by dots only |
| DictUtils.SplitExtOf | dictutils.py:15 | the extension of `base + ".ext"` is `.ext` |
| DictUtils.StripCompression | dictutils.py:12-18 | the real extension is never `.dz` or `.gz` and is empty or starts with a dot; compression is reported exactly when the name's own extension is `.dz` or `.gz` |
| DictUtils.StripCompressionSuffixes | dictutils.py:12-18 | stripping `.dz`/`.gz` suffixes finds the base name's own extension, and reports compression exactly when a suffix was there |
| DictUtils.RealExtension | dictutils.py:12-18 | the suffix-stripping loop computes `StripCompression` |
| DictUtils.Classify | dictutils.py:20-31 | a file without a role changes nothing; a file with one records its path under that role and leaves every other role's path as it was |
| DictUtils.ClassifyAll | dictutils.py:10-31 | every recorded path is the joined path of a listed file that has that role |
| DictUtils.ClassifyOne | dictutils.py:20-31 | a file changes only its own role's path and compression flag |
| DictUtils.ClassifyLastWins | dictutils.py:10-31 | of the files with one role, the last one listed is recorded, with its compression flag |
| DictUtils.ClassifyAbsent | dictutils.py:10-31 | a role no listed file has stays empty |
| DictUtils.PresentIffListed | dictutils.py:10-31 | a role's path is recorded exactly when some listed file has that role |
| DictUtils.BundleIffRoles | dictutils.py:33-37 | a directory holds a bundle exactly when it is a directory with an `.ifo`, an `.idx` and a `.dict` file |
| DictUtils.BundleAt | dictutils.py:4-37 | a bundle is found only in a directory and is complete; each of its roles is filled exactly when some listed file has that role |
| DictUtils.FindDictionaryFilepaths | dictutils.py:4-37 | the loop returns the bundle the listing describes, or `None` |
| DictUtils.GetAllFilenamesIn | stardict.py:386-417 | a result exactly for a directory; each role is present exactly when listed; for a complete bundle it equals `find_dictionary_filepaths` |
| DictUtils.InstalledMembers | dictutils.py:40-52 | a path is installed exactly when some listed entry that is not a plain file holds a bundle there |
| DictUtils.Installed | dictutils.py:40-52 | no more installed paths than listed entries, and each one holds a bundle |
| DictUtils.FindInstalledDictionariesPaths | dictutils.py:40-52 | the loop returns, in listing order, every non-file entry holding a bundle, and nothing outside a directory |
| Settings.SplitJoin | app.py:88 | splitting on single spaces loses nothing: the pieces, joined, give the line, and no piece holds a space |
| Settings.InsertPermutes | app.py:90 | inserting adds exactly the new tuple |
| Settings.InsertSorted | app.py:90 | inserting keeps tuples sorted by their third field |
| Settings.InsertWithKey | app.py:90 | an inserted tuple goes before the tuples of equal key, and the tuples of every other key are as they were |
| Settings.SortByKey | app.py:90 | the sort keeps the number of tuples; `SortByKeySorted` and `SortByKeyStable` prove it sorted, a permutation and stable |
| Settings.SortByKeySorted | app.py:90 | the sort orders tuples by their third field and is a permutation |
| Settings.SortByKeyStable | app.py:90 | tuples with equal keys keep their relative order |
| Settings.EnabledNames | app.py:121-126 | no more enabled names than tuples |
| Settings.EnabledNamesAll | app.py:121-126 | there are as many enabled names as tuples exactly when no tuple is disabled with `0` |
| Settings.Tuples | app.py:88 | one tuple per line, each the line split on single spaces (`SplitJoin` proves the split loses nothing) |
| Settings.EnabledNamesMembers | app.py:121-126 | a name is enabled exactly when some tuple carries it with a second field other than `0` |
| Settings.ShortLine | app.py:88-90 | it finds a line exactly when some line splits into fewer than three fields |
| Settings.GetSettings | app.py:79-114 | a missing file gives no tuples; a file fails exactly when some line has no third field; otherwise every tuple has three fields |
| Settings.GetSettingsOrdered | app.py:79-114 | the tuples read are one per line, sorted by the third field, a permutation of the file's tuples, and stable |
| Settings.DictionarySettings.LoadSettings | app.py:116-126 | succeeds exactly when all three files do; then holds their sorted tuples and the three enabled lists derived from them |
| Settings.DictionarySettings.FindEnabledDictionaries | app.py:128-136 | a name is in the result exactly when one of the three enabled lists holds it |
| Settings.DictionarySettings.EnabledIffSetting | app.py:121-136 | a name is enabled exactly when one of the three settings lists carries it with a second field other than `0` |
| App.SynonymsOf | app.py:49-50 | no synonyms without a synonym file; otherwise the indexes recorded for the word, in file order |
| App.SynonymDefinitionsEach | app.py:51-53 | resolving synonyms gives one definition per index, each the one recorded at that index |
| App.SynonymDefinitionsPrefixErr | app.py:51-53 | a failing synonym definition fails the whole resolution with that error |
| App.SynonymDefinitions | app.py:51-53 | resolving synonyms successfully gives one definition per index |
| App.SynonymDefinitionsOk | app.py:51-53 | resolving synonyms succeeds exactly when every index resolves, and otherwise fails with the error of the first index that does not |
| App.Merged | app.py:47-55 | the merge is empty exactly when there are neither direct nor synonym definitions |
| App.DefinitionsOrder | app.py:47-55 | a lookup lists the direct definitions first, then one definition per synonym record, each the one recorded at its index |
| App.DefinitionsMerged | app.py:47-55 | a successful lookup is the merge of the direct definitions with those reached through synonyms |
| App.DefinitionsOfOk | app.py:47-55 | a lookup succeeds exactly when the direct lookup does and every synonym resolves; it finds nothing exactly when no index record and no synonym record carries the word; a failure is the direct lookup's, or else the first unresolved synonym's |
| App.DefinitionsStable | app.py:47-55 | a lookup's result does not depend on the definition reader's cursor |
| App.InsertUnique | app.py:68-69 | inserting into a strictly sorted list keeps it strictly sorted and adds exactly the word |
| App.SortedUnique | app.py:63-69 | `sorted(set(words))` is strictly sorted and holds exactly the words |
| App.StrictlySortedUnique | app.py:63-69 | a strictly sorted list is determined by its elements, so the index does not depend on the order of the union |
| App.StarDict.LoadDictionary | app.py:21-27 | a loaded dictionary is stored under its name, replacing any earlier one; a failed load changes nothing |
| App.StarDict.GetDefinitions | app.py:47-55 | the method returns `DefinitionsOf`, changing only the definition reader's cursor |
| App.StarDict.ResolveSynonyms | app.py:50-53 | the synonym loop returns the definition at each index, in order, or the first failure |
| App.StarDict.GetDefinitionsFromEnabledDictionaries | app.py:29-41 | succeeds exactly when every enabled name of the mode is loaded and its lookup succeeds; then one `(dictionary, definitions)` pair per name, in order |
| App.StarDict.DefinitionsFromEach | app.py:35-41 | the loop gives one pair per name, in order, from the definitions as they stood before it, and changes nothing a lookup reads |
| App.StarDict.GetDefinitionsFromOneDictionary | app.py:43-45 | an unknown name fails; otherwise that dictionary's lookup |
| App.StarDict.BuildSearchIndex | app.py:62-69 | succeeds exactly when every index-group name is loaded; then the index is strictly sorted and holds exactly the headwords of those dictionaries; a failure leaves the index as it was |
| Findings.ReadOffsetAsWritten | stardict.py:147-158 | the offset field as written moves the cursor 8 bytes for a 64-bit index and 4 for a 32-bit one |
| Findings.Offset64AsWritten | stardict.py:149-152 | as written, a 64-bit offset is read only when exactly four bytes are left |
| Findings.Offset64Record | stardict.py:149-152 | every record of a 64-bit index fails at its offset as written, while `IdxFile.ReadRecord` returns it |
| Findings.SynLoadAsWritten | stardict.py:222-228 | as written, a synonym file loads only when it is empty |
| Findings.SynLoadFails | stardict.py:223-229 | any synonym file with a record fails as written, while `SynFile.Parse` returns its records |
| Findings.GetSynAsWritten | app.py:50 | as written, the synonym map is keyed by byte strings and searched with a decoded string, so it never answers |
| Findings.SynonymLookupMisses | stardict.py:224-237 | no synonym is ever found for a decoded word as written, while the lookup on the word's bytes finds every record carrying them |
| Findings.GetEntryAsWritten | stardict.py:318-329 | as written, a free-form window decodes only when it is empty |
| Findings.FreeFormFails | stardict.py:322-327 | any free-form window holding a field fails as written, while `DictFile.Decode` returns its fields |
| Findings.SizedFieldAsWritten | stardict.py:357-365 | as written, a sized field is read only when its size is given |
| Findings.SizedFieldFails | stardict.py:358-361 | a length-prefixed field fails as written, while `DictFile.SizedField` returns its bytes |
| Findings.NulFieldAsWritten | stardict.py:351-355 | with a NUL ahead, the field as written is the bytes up to it and the cursor moves forward |
| Findings.MissingNul | stardict.py:143-145 | without a NUL ahead, the field as written loses its last byte and the cursor returns to 0, while `DictFile.NullTrail` and `IdxFile.ReadRecord` report the unterminated field |
| Findings.MissingNulExample | stardict.py:352-354 | the blob `abc` read from position 1 gives the field `b` and the cursor 0 as written |
| Findings.GetDefinitionsAsWritten | app.py:47-55 | as written, a bundle without a synonym file returns the direct definitions, a word with no synonym raises, and a word reached only through a synonym raises |
| Findings.AsWrittenAgreesWhenItReturns | app.py:47-55 | whenever the code as written returns, it agrees with `App.Merged` |
| Findings.GetDefinitionsFails | app.py:49-53 | concrete failing lookups as written, next to the merged definitions the corrected lookup returns |

## Left out

- File reading, `gzip` decompression of `.idx.gz` and `.dict.dz`, `os.path.abspath`, `os.path.isdir`, `os.path.exists` and `os.listdir`: each file is given as its bytes or lines, and each file-system answer as a parameter.
- UTF-8 decoding of headwords: stardict.py:144 decodes each headword, while stardict.py:225 keeps each synonym as bytes. The model keeps both as byte strings, so a lookup uses the same bytes for both, and a headword that is not valid UTF-8 loads here, where stardict.py:144 raises `UnicodeDecodeError` and the index fails to load; the key mismatch of the code as written is a finding. For valid UTF-8, byte order is code-point order, so the search index sorts the way `sorted` on the decoded strings does.
- The cleanup `del self._content` and friends at the end of `IdxFileReader.__init__`, and `__iter__`: they free memory and change no observable result.
- `IfoFileException`'s message text: the two rejections are the values of `IfoFile.IfoError`.
- `load_dict` (stardict.py:368-383) and the `Dictionary` class that app.py:2 imports but the source does not define. `App.Dictionary` stands for a loaded bundle, and `App.StarDict.LoadDictionary` takes the constructed dictionary, or `None` when construction raised.
- `StarDict.__init__` and `_load_dictionaries` (app.py:8-19): they only join paths and call `_load_dictionary` on dictionaries built by that missing class.
- `install_dictionary` (app.py:57-60 and 138-166): it appends lines to settings files and prints; reloading the settings is `LoadSettings`.
- `print` output everywhere.
- DictFile.SizedField: a field whose given size runs past the data is `FieldTruncated`, while Python's slice returns the shorter tail. A negative remaining size (earlier fields overran the window) is also `FieldTruncated`, while Python returns an empty field and moves the cursor back.
- DictFile.NullTrail: a missing NUL is `FieldNotTerminated`; the code as written is modelled in `Findings`.
- DictFile.FreeFrom: the free-form loop stops once `size` bytes are consumed and does not reject a last field that runs past the window, as in the code.
- DictFile.DictFileReader.GetEntry: the cursor after a failed decode is not specified.
- App.StarDict.GetDefinitions: the definition reader's cursor after the call is not specified; no lookup reads it (`App.DefinitionsStable`).
- App.StarDict.GetDefinitionsFromEnabledDictionaries: a decoding failure in any dictionary fails the whole call, as the source's exception does. The postcondition is stated in the state after the call, where every lookup has the value it had before.
- Settings.DictionarySettings.LoadSettings: the fields after a failed load are not specified, where the source raises part-way through.
- Settings.DictionarySettings.FindEnabledDictionaries: it returns the set of names, since the source's `list(set)` has no defined order.
- IdxFile.IdxFileReader.GetAllWords: app.py:67 calls `get_all_words`, which `IdxFileReader` does not define. It is modelled as the headwords of the index in file order.
- DictUtils.FindInstalledDictionariesPaths: as in the code, the plain-file test is asked of the bare entry name rather than of its path in the dictionaries directory.

## Findings

| source | as written | input that shows it | evidently intended | confidence | as-written member | corrected member |
|---|---|---|---|---|---|---|
| stardict.py:149-152 | a 64-bit offset is sliced to 8 bytes but unpacked with the 32-bit format `!I` | any record of an index read with `idxoffsetbits` 64, e.g. word `a`, offset 0, size 0 | unpack the 8 bytes as a 64-bit big-endian value | not executed | Findings.Offset64Record | IdxFile.ParseEncoded |
| stardict.py:224-228 | the index is read with `content[offset, offset + 4]`, a tuple subscript, from the NUL itself (`offset = end`) | any `.syn` file with one record | read the 4 bytes after the NUL | not executed | Findings.SynLoadFails | SynFile.ParseEncoded |
| stardict.py:323 | `struct.unpack("!c")` is given no buffer, so no type byte is read | any free-form window with one field | read the type byte at the cursor and move past it | not executed | Findings.FreeFormFails | DictFile.FreeRoundTrip |
| stardict.py:359-361 | the length prefix is unpacked into a 1-tuple and added to the cursor | a fixed layout with a `W` field that is not last, e.g. `sametypesequence=Wm` (a free-form window fails first at stardict.py:323) | unpack the length as a number | not executed | Findings.SizedFieldFails | DictFile.SizedAt |
| stardict.py:143-145 | with no NUL after the word, `find` gives -1, the word loses its last byte and the cursor returns to 0 | the `.idx` bytes `abc` | report an unterminated word | not executed | Findings.MissingNul | IdxFile.ReadRecord |
| stardict.py:352-354 | with no NUL after a text field, `find` gives -1, the field loses its last byte and the cursor returns to 0 | the blob `abc` read from position 1 | report an unterminated field | not executed | Findings.MissingNulExample | DictFile.NullTrail |
| app.py:50-51 | `get_syn`'s `False` for a word with no synonym record is iterated | a bundle with an empty `.syn` file (a non-empty one fails to load at stardict.py:227), looking up any word | treat `False` as no synonyms | not executed | Findings.GetDefinitionsFails | App.DefinitionsMerged |
| app.py:53 | `append` is called on `get_dict_by_word`'s `False` when the word is reached only through a synonym | latent: reached only once stardict.py:227 and stardict.py:225 are corrected, since until then line 51 raises first; then a bundle with a `.syn` file, looking up a synonym that is not itself a headword | start from an empty list | not executed | Findings.GetDefinitionsFails | App.DefinitionsMerged |
| stardict.py:225 | synonyms are stored under their undecoded `bytes`, each with a 1-tuple from `struct.unpack` as its index (stardict.py:227), while app.py:50 looks them up with the decoded `str` headword | latent: any non-empty `.syn` file fails to load at stardict.py:227, so no entry is ever stored; once that subscript is corrected, a `.syn` file with a record for the word `a`, looking up `a` | store decoded synonyms, or look up the word's bytes, with plain integer indexes | not executed | Findings.SynonymLookupMisses | App.SynonymsOf |
