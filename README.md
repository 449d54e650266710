# Nuclei-GUI core logic, modelled in Dafny

Nuclei-GUI is a Tkinter desktop front-end for the `nuclei` vulnerability
scanner. Almost all of it builds widgets and starts `nuclei` in background
threads. This project models the small amount of self-contained logic inside
its `NucleiGUI` class and proves properties of that model:

- **The ANSI colour segmenter** (`parse_ansi_colors` with `ansi_color_map`),
  in `ansi.dfy`. It cuts a line of scanner output into `(text, colour)`
  fragments at every match of `ESC [ [0-9;]* [a-zA-Z]`. That pattern
  matches the ECMA-48 control sequences that start with `ESC [`, have only
  digits and `;` as parameters and end directly in a letter, such as
  `ESC[2K`. A sequence with a `:` sub-parameter (`ESC[38:5:196m`), a private
  marker (`ESC[?25l`), an intermediate byte or the 8-bit CSI does not match
  and stays in the text. Only a matched sequence whose final letter is `m`, the SGR sequence of ECMA-48 (section 8.3.117), changes
  the colour, and only for foreground codes 30-37 and 90-96. `re.finditer` is modelled as the pure scan
  `Matches`. The `for match in …` loop is the method `ParseAnsiColors`, and it
  is proved equal to the fold `Segments`.
- **The batch target list** (`self.batch_targets`), in `targets.dfy`. It is a
  class `TargetList` with a `seq<string>` field. Its methods are
  `add_single_url`, `load_batch_targets`, `delete_selected_targets` (a
  descending pop loop) and `clear_batch_list`. All of them keep the list free
  of duplicates and keep every entry starting with `http://` or `https://`.
- **The template lists**, in `templates.dfy`: the line filter over the output
  of `nuclei -tl`, the case-insensitive search over the official and custom
  lists, and `get_selected_templates`.
- **The scan command line**, in `scanargs.dfy`. This is the `cmd` list built by
  the scan workers. It has a parser as its inverse, which shows that the
  command line determines the request.
- **The template cache decision**, in `cache.dfy`: `is_cache_valid`,
  `load_templates_from_cache`, `save_templates_to_cache` and the start-up
  choice `load_template_list_from_cache`. The cache file is an abstract value
  and times are whole seconds.

`strings.dfy` gives the Python `str` operations the code relies on (`strip`,
`lower`, `startswith`, `endswith`, `in`, `split`), on ASCII. `lists.dfy`
holds the no-duplicates and subsequence predicates. `wrappers.dfy` holds an
`Option` type.

Behaviour of the code that is easy to misread:

- The `-tl` filter tests `startswith('[')` and `endswith('.yaml')` on the raw
  line, not on the trimmed one. Only the stored name is trimmed.
- `load_templates_from_cache` assigns both template lists before it parses the
  timestamp. A cache file with a bad timestamp therefore leaves the lists
  overwritten while the load reports failure. `LoadOutcome.TimestampFailed`
  and `Startup.Regenerate` carry those lists.
- The validity check and the load each read the cache file.
  `LoadTemplateListFromCache` takes the two reads as separate values.
  `StartupSameFile` states the decision when both reads find the same file.
- An SGR code `0` does not reset the colour (`ResetKeepsColor`).

## Model

| member | source | states |
|---|---|---|
| `Ansi.ParseAnsiColors` | Nuclei-GUI.py:310-336 | The loop of the segmenter computes `Segments(text)`. When no text is visible it returns exactly `[(text, "black")]`, escapes included. Otherwise every fragment is non-empty and the fragments concatenate to the input with every matched escape removed. Every colour is black or a value of the colour table. |
| `Ansi.ApplyCodes` | Nuclei-GUI.py:324-329 | The inner loop over the `;`-separated codes of an `m` command gives the colour of the first code found in the table, or the current colour when none is found. |
| `Ansi.SgrColor` | Nuclei-GUI.py:324-329 | An SGR sequence sets the colour to the table entry of its first known code. With no known code (`0`, the empty code, `1`, …) the colour is unchanged. The result is the current colour or a table value. |
| `Ansi.MatchAtIff` | Nuclei-GUI.py:312 | The scanner's match at a position agrees with the regular expression read literally. A match exists iff a letter follows a run of `[0-9;]` after `ESC [`. The maximal run is the only candidate. |
| `Ansi.MatchesSound` | Nuclei-GUI.py:317 | Every match the scan reports is the pattern's match at its own start. |
| `Ansi.MatchesLeftmost` | Nuclei-GUI.py:317 | No match starts in the text skipped before the first match found, or after the last one. An ESC with no letter after its parameters stays literal text. |
| `Ansi.MatchesOrdered` | Nuclei-GUI.py:317 | The matches come left to right and do not overlap. |
| `Ansi.NoMatchesIff` | Nuclei-GUI.py:317 | The scan finds nothing exactly when no escape matches at any position. |
| `Ansi.SegmentsShape` | Nuclei-GUI.py:317-336 | Output shape. If the visible text is empty, the result is the single raw fallback in black. Otherwise the fragments are non-empty and concatenate to the visible text. |
| `Ansi.SegmentsColors` | Nuclei-GUI.py:315-329 | Every emitted colour is black or a value of `ansi_color_map`. |
| `Ansi.SegmentsNoEscape` | Nuclei-GUI.py:333-336 | Input without a matching escape, including the empty string, comes back as exactly `[(s, "black")]`. |
| `Ansi.OnlyEscapeExample` | Nuclei-GUI.py:333-336 | `"\x1b[31m"` alone yields `[("\x1b[31m", "black")]`. |
| `Ansi.ResetKeepsColor` | Nuclei-GUI.py:324-329 | `ESC[31m a ESC[0m c` yields `[(a, red), (c, red)]`. Code `0` does not reset the colour, which carries across fragments. |
| `Strings.StripSpec` | Nuclei-GUI.py:358 | `strip()` removes exactly the leading and trailing whitespace. The result is empty iff the input is all whitespace. |
| `Strings.StripIdempotent` | Nuclei-GUI.py:394 | Stripping twice is stripping once. |
| `Strings.Split` | Nuclei-GUI.py:325 | `split(';')` gives at least one piece and no piece holds the separator. Joining the pieces gives back the input. |
| `Strings.SplitJoin` | Nuclei-GUI.py:325 | Splitting undoes joining for separator-free pieces. |
| `Targets.Normalize` | Nuclei-GUI.py:363-364 | An entry keeps its `http://`/`https://` scheme or gets `http://` put in front, so the result always has a scheme. |
| `Targets.NormalizeIdempotent` | Nuclei-GUI.py:363-364 | Normalising twice changes nothing. An entry is left alone iff it already has a scheme. |
| `Targets.TargetList.AddSingleUrl` | Nuclei-GUI.py:356-372 | A blank entry leaves the list unchanged. Otherwise the normalised URL is appended iff it is not already present, and the outcome says which case happened. A valid (duplicate-free, all-scheme) list stays valid. |
| `Targets.TargetList.LoadBatchTargets` | Nuclei-GUI.py:384-414 | A failed read changes nothing. Otherwise the old list is a prefix of the new list, the appended part is `Fresh(old, lines)`, and the count returned is its length. Validity is preserved. |
| `Targets.FreshNew` | Nuclei-GUI.py:393-406 | The URLs a load appends have a scheme, are not already in the list and do not repeat. |
| `Targets.FreshSound` | Nuclei-GUI.py:393-406 | Every appended URL is the normalised form of a non-blank, non-comment line of the file. |
| `Targets.FreshComplete` | Nuclei-GUI.py:393-406 | After a load, every non-blank, non-comment line's URL is in the list. |
| `Targets.FreshAppend` | Nuclei-GUI.py:393-406 | Appended entries follow file order. Loading `a` then `b` appends what loading `a + b` appends. |
| `Targets.FreshSkipsNonEntry` | Nuclei-GUI.py:395-396 | A blank or `#`-prefixed line contributes nothing, wherever it is. |
| `Targets.ExampleFile` | Nuclei-GUI.py:393-406 | The lines `example.com`, `#comment`, empty and `https://foo.bar` load as exactly `http://example.com` and `https://foo.bar`. |
| `Targets.TargetList.DeleteSelectedTargets` | Nuclei-GUI.py:429-443 | An empty selection changes nothing. Otherwise the list loses exactly the selected rows that are in range, the rest keep their order, and the count returned is the number of in-range indices. Validity is preserved. |
| `Targets.PopStep` | Nuclei-GUI.py:434-437 | With the higher indices already popped, an index is in range of the current list iff it is in range of the original. Popping it removes that original row. |
| `Targets.WithoutProperties` | Nuclei-GUI.py:431-441 | Removing the selected rows leaves a subsequence. Its length drops by the number of in-range indices, and it has no duplicates when the original had none. |
| `Targets.WithoutValid` | Nuclei-GUI.py:429-441 | Deleting rows keeps the list duplicate-free and every entry with a scheme. |
| `Targets.Largest` | Nuclei-GUI.py:433 | The next index the descending loop visits is the largest of the remaining selection. |
| `Targets.TargetList.ClearBatchList` | Nuclei-GUI.py:422-424 | The list becomes empty, which is trivially valid. |
| `Templates.TemplateLinesSpec` | Nuclei-GUI.py:701-706 | Every kept name is non-empty, trimmed and ends in `.yaml`. A name is kept exactly when some line passes the filter and trims to it. |
| `Templates.TemplateLineStripped` | Nuclei-GUI.py:705-706 | A line passing the filter still ends in `.yaml` once trimmed, and the stored name is trimmed. |
| `Templates.TemplateList` | Nuclei-GUI.py:701-706 | The names kept from the output of `nuclei -tl`, split at line breaks after `strip()`, are non-empty, trimmed `.yaml` names. There is exactly one name per output line that passes the filter, repeats included. |
| `Templates.TemplateLinesAppend` | Nuclei-GUI.py:704-706 | The filter works line by line. The names of two stretches of output are the names of the first followed by those of the second, so output order is kept. |
| `Templates.TemplateLinesCount` | Nuclei-GUI.py:704-706 | Every line that passes the filter contributes exactly one name, repeats included. |
| `Templates.MatchingSpec` | Nuclei-GUI.py:736-737 | The comprehension keeps an order-preserving sublist. It holds exactly the entries whose lower-case form contains the needle. |
| `Templates.MatchingCount` | Nuclei-GUI.py:736-737 | The comprehension keeps one entry for every position whose entry contains the needle, repeats included. |
| `Templates.Search` | Nuclei-GUI.py:729-737 | An empty term returns the whole list. Any other term returns an order-preserving sublist in which every entry contains the term, ignoring case. Its length is the number of positions whose entry contains the term, which makes it exactly the comprehension's result, repeats included. The same function serves `search_custom_templates` (lines 554-562). |
| `Templates.SearchIdempotent` | Nuclei-GUI.py:731-737 | Filtering the filtered list again with the same term changes nothing. |
| `Templates.SearchAppend` | Nuclei-GUI.py:736-737 | The filter distributes over concatenation. |
| `Templates.SearchIgnoresCase` | Nuclei-GUI.py:731 | A term and its lower-case form select the same entries. |
| `Templates.Pick` | Nuclei-GUI.py:750 | `[xs[i] for i in indices]` succeeds iff every index is in range. Position `k` then holds `xs[indices[k]]`. |
| `Templates.SelectedTemplates` | Nuclei-GUI.py:743-757 | The selected official rows come first, then the selected custom rows, in selection order. The result fails iff some index is out of range. |
| `ScanArgs.ProxyArg` | Nuclei-GUI.py:814-817 | No proxy is passed exactly when the checkbox is off or the entry is all whitespace. A proxy that is passed is the trimmed entry, non-empty and with no surrounding whitespace. |
| `ScanArgs.TemplateArgsAppend` | Nuclei-GUI.py:811-812 | The `-t` arguments of two template lists concatenate. |
| `ScanArgs.ParseCommandLine` | Nuclei-GUI.py:809-817 | Reading a command line back gives the request it was built from, so different requests give different command lines. |
| `ScanArgs.BuildCommand` | Nuclei-GUI.py:932-940 | The loop of `extend` calls builds `nuclei -o out (-u url / -l file) (-t t)* [-p proxy]`, and this parses back to the request. |
| `Cache.SaveTemplatesToCache` | Nuclei-GUI.py:586-601 | A write that fails at `open` leaves the file as it was. One that fails inside `json.dump` leaves a truncated file that no read accepts. A complete write stores a cache that is valid at the time of the save and loads back both lists. |
| `Cache.SaveFailureAtStartup` | Nuclei-GUI.py:595-596 | A valid cache survives a save that fails at `open`, and start-up still uses it. A save that fails during the dump destroys it, and start-up regenerates. |
| `Cache.LoadTemplatesFromCache` | Nuclei-GUI.py:603-626 | The load succeeds on exactly the files that `is_cache_valid` (lines 570-584) accepts at some moment, so the two agree on everything but the age. A failed read leaves the lists alone. Any other read overwrites both lists from the file, with `[]` for a missing key, even when the timestamp then fails. `Cache.SaveLoadRoundTrip` is the round trip with the save. |
| `Cache.LoadTemplateListFromCache` | Nuclei-GUI.py:628-635 | When both reads find the same file, the cached lists are used exactly when the cache is valid. Lists overwritten by a failed load are left behind only when the file changed between the validity check and the load. Otherwise start-up regenerates. |
| `Cache.StartupSameFile` | Nuclei-GUI.py:628-635 | When both reads see the same file, the cache is used iff it is valid, and the stored lists are what start-up uses. |
| `Cache.ExpiresAtExactly24Hours` | Nuclei-GUI.py:579-581 | The age test is strict: an age of exactly 24 × 3600 s is invalid and one second less is valid. |
| `Cache.ValidEarlier` | Nuclei-GUI.py:579-581 | A cache valid now was valid at every earlier moment. |
| `Cache.SaveLoadRoundTrip` | Nuclei-GUI.py:586-626 | After a successful save, loading returns the saved lists unchanged. The saved cache is valid exactly while less than 24 hours have passed. |
| `Cache.OneHourOld` | Nuclei-GUI.py:570-584 | A well-formed cache saved one hour ago is valid, and start-up uses its lists. |

## Left out

- All Tkinter widgets, list-box and text-widget updates, message boxes, file dialogs and status-bar text. These are user interface only. Selections from a list box are passed in as index sets or sequences.
- The dropping of whitespace-only fragments in `insert_colored_text`. This is a rendering choice made on top of the segmenter.
- Background threads and `root.after` scheduling. There is no synchronisation in the code to verify.
- Running `nuclei` (`-tl`, `-update-templates`, scans) and streaming its output. The output of `nuclei -tl` is a parameter of `TemplateList`.
- File I/O: reading and writing the JSON cache, reading the target file, `os.walk` over the custom template folder, the temporary target file, and deleting the cache (`clear_cache`). The cache file is an abstract `CacheFile` value, the outcome of a write is one of three cases, and the target file is its lines (or `None` when it cannot be read).
- The `.yaml`/`.yml` suffix test of the custom template scan, and `clear_custom_templates`. Both are outside the modelled core.
- Cache.Contents: a list in the cache file is either missing or a list of strings. JSON values of another type are not modelled. For example, `"templates": null` passes `is_cache_valid`, but the load then sets the list to `None`, fails at `len` and reports failure with the list overwritten; and a string value would be taken as a list of characters.
- `datetime.now()`, ISO-8601 parsing and float `total_seconds()`. Times are whole seconds passed in, and an unparsable timestamp is `None`. The hour count shown after a cache load is not modelled.
- Strings.Strip: only ASCII whitespace is stripped; Python's `strip()` also removes other Unicode whitespace such as U+0085 and U+00A0.
- Strings.Lower: only ASCII letters are lower-cased; Python's `lower()` follows full Unicode case mapping.
- Ansi.ParseAnsiColors: `re.finditer` is modelled by the function `Matches`, not as an imperative regex engine.
