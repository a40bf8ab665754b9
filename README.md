# Pirate user searcher: the search pipeline

`PirateSearcherApp` (in `PirateUserSearcherGUI.py`) is a desktop front end for
a torrent index. The user gives a mirror address, a comma-separated list of
uploaders and a comma-separated list of search terms. For every term the app
asks the search API for results and keeps the records uploaded by one of the
users. It chains and deduplicates those records, then probes each record's
torrent page on the mirror and drops the ones that answer 404. The remaining
list can be sorted, shuffled or filtered by title. When it is printed, the
first hundred records also show the lines of their description that hold a
link. A separate dialog saves the search inputs under a CSV file name.

This project models that pipeline in Dafny. The network answers are inputs:
- the search API pages, one per term;
- the outcome of each `check_urls` attempt;
- the detail API answers.

Every step becomes a function. The imperative parts of the source become
methods proved against those functions:
- the loops of `search`;
- the in-place writes of `check_urls`;
- the tag counter of `_print_results`.

Modules, one file each:

| module | file | models |
|---|---|---|
| `Wrappers` | wrappers.dfy | `Option` and `Result` |
| `Strings` | strings.dfy | the ASCII behaviour of `str.lower`, `capitalize`, `strip`, `split`, `splitlines`, `replace` and `in` |
| `Numbers` | numbers.dfy | `int()` applied to a string |
| `Seqs` | seqs.dfy | filtering, chaining, first-occurrence deduplication, and mapping that stops at the first failure |
| `Records` | records.dfy | torrent records as received and after coercion |
| `Endpoint` | endpoint.dfy | `_normalize_url` |
| `InputParsing` | inputparsing.dfy | `_process_input` |
| `Aggregation` | aggregation.dfy | the term/user loops, `int()` coercion and deduplication of `search` |
| `Liveness` | liveness.dfy | `check_urls` and the `working_list` filter |
| `Session` | session.dfy | `search` as a whole: the retry loop and the progress bar |
| `ResultView` | resultview.dfy | `sorter` and `refine` |
| `Links` | links.dfy | the link part of `_print_results` |
| `SaveName` | savename.dfy | the file-name rule of `save` |

Points where the code's behaviour is easy to misread. The model follows
the code:

- **`_normalize_url` removals.** It removes *every* `www.` when the address starts with one. It also removes every `index.html` when the address ends with one. Both happen because it uses `str.replace`. As a result it is not idempotent: `Endpoint.NotIdempotent` gives an address that changes on a second pass.
- **`int()` failures.** A record whose numeric field fails `int()` is not dropped. The exception escapes `search` (`Session.Outcome.BadNumber`).
- **Detail requests.** A failed detail request is not skipped. The exception ends `_print_results` (`Links.Listing.failedAt`).
- **Retries.** A retry is not triggered by "every probe failed". A failed probe is folded into the results by `gather(..., return_exceptions=True)` and gets code 404 unless it carries a status. In the source, any exception raised inside the `try` block at lines 995-1009 triggers a retry. The model retries only on an exception escaping `asyncio.run(self.check_urls(...))` (`Session.Attempt`); see `Session.Retry` under "## Left out".
- **Result of `_process_input`.** It returns `list(set(...))`, so the order is unspecified. It is modelled as a set.

## Model

| member | source | states |
|---|---|---|
| Endpoint.NormalizeUrl | PirateUserSearcherGUI.py:914-927 | the result always starts with `https://`; an address that already starts with `https://` and does not end with `index.html` comes back unchanged |
| Endpoint.AddScheme | PirateUserSearcherGUI.py:923-924 | after step 2 the address starts with `https://` |
| Endpoint.DropIndex | PirateUserSearcherGUI.py:925-926 | removing every `index.html` keeps the `https://` prefix |
| Endpoint.DropWww | PirateUserSearcherGUI.py:921-922 | step 1, no contract of its own: `EveryWwwRemoved` shows every `www.` goes, `WwwHostGainsScheme` and `WwwExample` that a leading `www.` goes before the scheme is added, `KeepsSchemePrefix` that an address with the scheme is left alone |
| Endpoint.SchemeSurvivesRemoval | PirateUserSearcherGUI.py:925-926 | removing every `index.html` from `https://` + t removes them from t only |
| Endpoint.BareHostGainsScheme | PirateUserSearcherGUI.py:914-927 | an address without `www.`, scheme or trailing `index.html` only gains `https://` |
| Endpoint.WwwHostGainsScheme | PirateUserSearcherGUI.py:921-924 | `www.` + a host in which no other `www.` occurs becomes `https://` + host |
| Endpoint.WwwExample | PirateUserSearcherGUI.py:914-927 | `www.example.com` becomes `https://example.com` |
| Endpoint.EveryWwwRemoved | PirateUserSearcherGUI.py:921-922 | every `www.` goes, not only the leading one: `www.a.www.b` becomes `https://a.b` |
| Endpoint.SchemeAndIndex | PirateUserSearcherGUI.py:925-926 | an address with the scheme that ends in `index.html` loses every `index.html` after the scheme |
| Endpoint.NotIdempotent | PirateUserSearcherGUI.py:914-927 | normalising `https://index.htmindex.htmllindex.html` gives `https://index.html`; normalising that again gives `https://` |
| InputParsing.ProcessInput | PirateUserSearcherGUI.py:695-709 | every entry is non-empty and has no whitespace at either end |
| InputParsing.Entries | PirateUserSearcherGUI.py:705-706 | the split, stripped, non-blank pieces, no contract of its own: `EntriesTrimmed` shows each is trimmed and non-empty, `ProcessInputExactly` that they are exactly the stripped non-blank pieces, `EntriesTwo` a two-piece instance |
| InputParsing.ProcessInputExactly | PirateUserSearcherGUI.py:705-709 | x is an entry iff some comma-separated piece is not blank and x is that piece stripped (and capitalised when asked) |
| InputParsing.ProcessInputNoComma | PirateUserSearcherGUI.py:705 | no entry contains a comma |
| InputParsing.ProcessInputBlank | PirateUserSearcherGUI.py:706 | all-whitespace input gives no entries |
| InputParsing.ProcessInputTwo | PirateUserSearcherGUI.py:705-709 | two comma-separated non-blank pieces give exactly their two stripped (capitalised) forms |
| InputParsing.ProcessInputExample | PirateUserSearcherGUI.py:705-709 | `"bob, Bob"` with capitalisation gives the single entry `"Bob"` |
| InputParsing.EntriesTrimmed | PirateUserSearcherGUI.py:706-708 | every stripped, cased piece is non-empty with no surrounding whitespace |
| Strings.CapitalizeProperties | PirateUserSearcherGUI.py:707-708 | `capitalize` is idempotent and keeps whitespace at both ends where it was |
| Strings.Strip | PirateUserSearcherGUI.py:706 | the result is the input minus its leading and trailing whitespace; it is empty iff the input is all whitespace |
| Strings.JoinSplit | PirateUserSearcherGUI.py:705 | joining the pieces of `split(",")` with commas gives the input back |
| Strings.SplitNoSeparator | PirateUserSearcherGUI.py:705 | no piece of `split(",")` contains a comma |
| Strings.SplitLinesNoBreaks | PirateUserSearcherGUI.py:1216 | no line of `splitlines()` contains a line break |
| Strings.SplitLinesJoin | PirateUserSearcherGUI.py:1216 | for text without `\r`, joining the lines with `\n` (plus a final break when there was one) gives the text back |
| Strings.RemoveAllChars | PirateUserSearcherGUI.py:615 | removing every occurrence of a pattern adds no character, and keeps every character that is not in the pattern |
| Numbers.ParseIntRoundTrip | PirateUserSearcherGUI.py:984-986 | `int()` of an integer's decimal text gives the integer back, for every integer of at most 4300 digits (CPython's default `sys.get_int_max_str_digits()`) |
| Numbers.ParseIntTooManyDigits | PirateUserSearcherGUI.py:984-986 | `int()` raises on decimal text of more than 4300 digits, with or without a minus sign |
| Numbers.ParseIntIgnoresSpace | PirateUserSearcherGUI.py:984-986 | `int(" 42\n")` is 42 |
| Numbers.ParseIntUnderscore | PirateUserSearcherGUI.py:984-986 | `int("1_000")` is 1000 |
| Numbers.ParseIntDoubleUnderscore | PirateUserSearcherGUI.py:984-986 | `int("1__0")` raises |
| Numbers.ParseIntRejectsLetters | PirateUserSearcherGUI.py:984-986 | `int("12a")` raises |
| Numbers.ParseIntBlank | PirateUserSearcherGUI.py:984-986 | `int()` of blank text raises |
| Numbers.ParseInt | PirateUserSearcherGUI.py:984-986 | `int()` on text, no contract of its own: `ParseIntRoundTrip` (decimal text of any integer of at most 4300 digits parses back), `ParseIntTooManyDigits` (longer text raises), `ParseIntIgnoresSpace`, `ParseIntUnderscore`, `ParseIntDoubleUnderscore`, `ParseIntRejectsLetters`, `ParseIntBlank` and `ParseIntHasDigit` state what it accepts and rejects |
| Numbers.ParseIntHasDigit | PirateUserSearcherGUI.py:984-986 | a successful `int()` saw at least one digit |
| Records.Coerce | PirateUserSearcherGUI.py:984-986 | coercion succeeds iff all three conversions succeed; it changes only `added`, `seeders` and `size`, to their converted values, and the record has no code yet |
| Records.CoerceAsReceived | PirateUserSearcherGUI.py:984-986 | coercing a record's received form (numbers as decimal text) gives the record back when each number has at most 4300 digits |
| Aggregation.MatchUser | PirateUserSearcherGUI.py:975 | a record is kept iff it is in the page and its uploader equals the user exactly |
| Aggregation.TermGroups | PirateUserSearcherGUI.py:974-976 | one group per user |
| Aggregation.Combined | PirateUserSearcherGUI.py:970-976 | `combined_data_list` holds one group per (term, user) pair |
| Aggregation.CombinedIndex | PirateUserSearcherGUI.py:970-976 | group `t·|users| + u` holds term t's records by user u |
| Aggregation.CombinedMembers | PirateUserSearcherGUI.py:970-976 | a record is in some group iff its uploader is a user and some page holds it |
| Aggregation.DictList | PirateUserSearcherGUI.py:981-982 | `dict_list`, no contract of its own: `DictListMembers` states that it holds exactly the records of the pages uploaded by one of the users |
| Aggregation.DictListMembers | PirateUserSearcherGUI.py:981-982 | a record is in `dict_list` iff its uploader is a user and some page holds it; dropping empty groups loses nothing |
| Aggregation.CoerceAllFirstFailure | PirateUserSearcherGUI.py:983-986 | the conversion loop succeeds iff every record converts; when it fails, it fails at the first record that does not convert |
| Aggregation.CoerceAll | PirateUserSearcherGUI.py:983-986 | the conversion loop as a function, no contract of its own: `CoerceAllFirstFailure` states when it fails and where, `CoerceFields` that the loop computes it |
| Aggregation.Aggregate | PirateUserSearcherGUI.py:970-988 | `unique_list` or the failing index, no contract of its own: `AggregateProperties` and `AggregateOrder` state its members, uniqueness and order |
| Aggregation.AggregateProperties | PirateUserSearcherGUI.py:983-988 | `unique_list` has no two equal records; each was uploaded by a user and has no code; it holds exactly the coerced records of `dict_list` |
| Aggregation.AggregateOrder | PirateUserSearcherGUI.py:987-988 | `unique_list` lists records in the order of their first occurrence in `dict_list` |
| Aggregation.CoerceFields | PirateUserSearcherGUI.py:983-986 | the loop returns the coerced list, or the index of the first record that fails (the partner lemma is `CoerceAllFirstFailure`) |
| Aggregation.Deduplicate | PirateUserSearcherGUI.py:987-988 | the append-if-absent loop computes first-occurrence deduplication (no duplicates, same members, first-occurrence order by `AggregateOrder`) |
| Seqs.Dedup | PirateUserSearcherGUI.py:987-988 | the deduplicated list has no duplicates and the same members |
| Seqs.DedupOrder | PirateUserSearcherGUI.py:987-988 | deduplication keeps elements in the order of their first occurrences |
| Seqs.FlattenDropsEmpty | PirateUserSearcherGUI.py:981-982 | chaining after dropping empty groups gives the same list as chaining them all |
| Seqs.MapAllErr | PirateUserSearcherGUI.py:983-986 | a failed conversion loop names the first element that fails |
| Liveness.AnnotateByIndex | PirateUserSearcherGUI.py:1258-1260 | record i gets the status of gathered result i, whatever the completion order, or 404 when that result has no `status` attribute (an exception carrying a status keeps it), and keeps every other field |
| Liveness.Annotate | PirateUserSearcherGUI.py:1259-1260 | the list after `check_urls` has the length of its input; `AnnotateByIndex` states what each record holds, `CheckUrls` that the in-place loop produces it |
| Liveness.WorkingKeeps | PirateUserSearcherGUI.py:1000 | an annotated record is kept iff its code is not 404; a 500 is kept |
| Liveness.Working | PirateUserSearcherGUI.py:1000 | a record is in `working_list` iff it is in `unique_list` and its code is not 404 |
| Liveness.WorkingConcat | PirateUserSearcherGUI.py:1000 | `working_list` keeps the order of `unique_list`: filtering two concatenated parts gives the kept records of the first followed by those of the second |
| Liveness.WorkingDropsDead | PirateUserSearcherGUI.py:1000 | no kept record has code 404; nothing is dropped iff no record has code 404 |
| Liveness.CheckUrls | PirateUserSearcherGUI.py:1251-1261 | one URL `endpoint/torrent/id` per record; the array afterwards holds the annotated records |
| Session.Retry | PirateUserSearcherGUI.py:994-1027 | a successful attempt comes after at most 3 failures; falling back keeps `unique_list` as it was; the loop never ends with a conversion error |
| Session.SearchOutcome | PirateUserSearcherGUI.py:983-1027 | the outcome of `search`, no contract of its own: `Search` is proved to end with it; `Retry`, `FirstSuccessWins`, `AllFailed` and `AtMostFourAttempts` state what it is after aggregation |
| Session.FirstSuccessWins | PirateUserSearcherGUI.py:999-1009 | the first attempt that gets through `gather` decides the outcome: the working records of its probes |
| Session.AllFailed | PirateUserSearcherGUI.py:1010-1022 | four failed attempts fall back to the unchecked `unique_list` |
| Session.AtMostFourAttempts | PirateUserSearcherGUI.py:1010-1012 | only the first four attempts affect the outcome |
| Session.Fraction | PirateUserSearcherGUI.py:978 | each progress value is between 0 and 1 while the step does not pass the total |
| Session.FractionMono | PirateUserSearcherGUI.py:967-1027 | a later step never gives a smaller progress value; a strictly later one gives a larger value |
| Session.StepsShape | PirateUserSearcherGUI.py:967-1027 | the steps start at 0, never decrease, never pass `len(search_terms)+3`, and reach it iff every attempt failed |
| Session.Steps | PirateUserSearcherGUI.py:967-1025 | every step shown on the bar, no contract of its own: `StepsShape` states its shape |
| Session.RetrySteps | PirateUserSearcherGUI.py:1001-1025 | the steps of the retry loop, no contract of its own: `CheckWithRetries` is proved to give the bar their fractions, `StepsShape` bounds them |
| Session.Progress | PirateUserSearcherGUI.py:963-1025 | the values given to the bar, no contract of its own: `ProgressShape` states their shape and `Search` that they are what `search` shows |
| Session.ProgressShape | PirateUserSearcherGUI.py:963-1025 | the progress bar starts at 0, never moves back, stays in [0, 1], and ends at 1.0 iff the records were shown unchecked |
| Session.FractionsShape | PirateUserSearcherGUI.py:967-1025 | sorted steps from 0 to the total give non-decreasing fractions in [0, 1] that end at 1 iff the last step is the total |
| Session.CollectTerms | PirateUserSearcherGUI.py:970-979 | the nested loops build `combined_data_list` and give the bar 0, 1/total, ..., terms/total |
| Session.CheckWithRetries | PirateUserSearcherGUI.py:994-1027 | the `while True` loop ends with the outcome `Retry` gives; the bar gets the current step once per failure that is retried, then one more step on success, or only 1.0 after the fourth failure |
| Session.Search | PirateUserSearcherGUI.py:946-1027 | `search` ends with `SearchOutcome` for its pages and attempts, and the progress values are those `ProgressShape` describes |
| ResultView.InsertPermutes | PirateUserSearcherGUI.py:1234-1243 | inserting a record adds exactly that record |
| ResultView.InsertSorted | PirateUserSearcherGUI.py:1234-1243 | inserting into a sorted list keeps it sorted |
| ResultView.SortPermutes | PirateUserSearcherGUI.py:1234-1243 | `sorted` orders by the key (descending with `reverse=True`) and is a permutation |
| ResultView.SortStable | PirateUserSearcherGUI.py:1234-1243 | records with equal keys keep their input order |
| ResultView.Sort | PirateUserSearcherGUI.py:1234-1243 | `sorted(..., key=..., reverse=...)` keeps the length; `SortPermutes` and `SortStable` state that it orders, permutes and is stable |
| ResultView.ShufflePermutes | PirateUserSearcherGUI.py:1244-1246 | whatever the random draws, the shuffle is a permutation |
| ResultView.ShuffleIdentity | PirateUserSearcherGUI.py:1244-1246 | when every draw picks its own position, nothing moves |
| ResultView.Shuffle | PirateUserSearcherGUI.py:1244-1246 | `random.shuffle` with the draws given, no contract of its own: `ShufflePermutes` and `ShuffleIdentity` |
| ResultView.SorterProperties | PirateUserSearcherGUI.py:1227-1249 | every choice gives a permutation; a sorting button orders by its key, descending for n/s/l and ascending for o/sm, and keeps equal keys in input order; an unknown value gives the input back |
| ResultView.Sorter | PirateUserSearcherGUI.py:1227-1249 | the list handed to `printer`, no contract of its own: `SorterProperties` and `NewestFirst` state it |
| ResultView.OrderingButtons | PirateUserSearcherGUI.py:1234-1243 | n: added descending, o: added ascending, s: seeders descending, l: size descending, sm: size ascending |
| ResultView.NewestFirst | PirateUserSearcherGUI.py:1234-1235 | after "n", `added` never increases along the list |
| ResultView.Refine | PirateUserSearcherGUI.py:1116-1135 | nothing is shown iff the dialog was closed or the query is empty |
| ResultView.RefineMatches | PirateUserSearcherGUI.py:1121-1131 | the refined list is exactly the in-order subsequence of results whose title contains the query, ignoring case |
| ResultView.Mentions | PirateUserSearcherGUI.py:1130 | `query.lower() in name.lower()`, a predicate; `RefineMatches` shows the refined list is the results whose title it holds for |
| Links.LinksFor | PirateUserSearcherGUI.py:1211-1214 | links are shown iff the index is below 100 and the detail request did not raise |
| Links.Shown | PirateUserSearcherGUI.py:1183-1225 | never more entries than records processed |
| Links.ShownEntries | PirateUserSearcherGUI.py:1183-1225 | entry i shows record i: its site URL, its magnet link, and its links when i < 100 |
| Links.ShownLength | PirateUserSearcherGUI.py:1183-1213 | without a failure every record is listed and no record below 100 had a failed detail request; a failure at k lists records 0..k, k < 100, k's detail request raised and no earlier one did |
| Links.ShownFirstFailure | PirateUserSearcherGUI.py:1211-1213 | the listing is complete iff no record below 100 had a failed detail request |
| Links.RelevantLinksProperties | PirateUserSearcherGUI.py:1214-1217 | the links are exactly the lines of `descr` containing `http`; each is one line; a missing `descr` gives none |
| Links.RelevantLinks | PirateUserSearcherGUI.py:1214-1217 | the lines shown as links, no contract of its own: `RelevantLinksProperties` states them and `ExtractLinks` that the loop computes them |
| Links.LinkCountAppend | PirateUserSearcherGUI.py:1182-1225 | one more entry adds its number of links to the tag count |
| Links.LinkCount | PirateUserSearcherGUI.py:1182-1225 | the number of tags used, no contract of its own: `LinkCountAppend` gives its step and `PrintResults` that the counter ends at it |
| Links.ExtractLinks | PirateUserSearcherGUI.py:1216-1225 | the loop shows exactly the lines containing `http`, in order, and the counter grows by one per line shown |
| Links.ShowRecord | PirateUserSearcherGUI.py:1184-1225 | one loop pass shows the record's entry, raises iff index < 100 and the request failed, and advances the counter by its links |
| Links.PrintResults | PirateUserSearcherGUI.py:1175-1225 | `_print_results` shows the listing `Shown` describes, and the counter ends at the total number of links shown |
| SaveName.CsvName | PirateUserSearcherGUI.py:615 | the cleaned name ends with `.csv` and has no upper-case letter |
| SaveName.CsvNameIllegal | PirateUserSearcherGUI.py:605-616 | the cleaned name holds a forbidden character iff the typed name does |
| SaveName.CsvFilesHas | PirateUserSearcherGUI.py:604 | a `.csv` name is among the CSV files iff it is in the directory |
| SaveName.CsvFiles | PirateUserSearcherGUI.py:604 | `csv_files`, no contract of its own: `CsvFilesHas` states which names it holds |
| SaveName.SaveVerdictProperties | PirateUserSearcherGUI.py:604-632 | an empty or closed dialog cancels; a name is refused for illegal characters iff the typed name has one; a legal name is refused as existing iff its cleaned form is in the directory, and is accepted otherwise; an accepted name is the cleaned name, ends in `.csv`, is lower-case, has no forbidden character and names no existing file |
| SaveName.SaveVerdict | PirateUserSearcherGUI.py:604-632 | one round of the dialog, no contract of its own: `SaveVerdictProperties` states each verdict exactly |
| SaveName.SaveExample | PirateUserSearcherGUI.py:615 | `Data.CSV` is saved as `data.csv` |

## Left out

- Widgets, layout, theming, tooltips, message boxes and the screen scale factor are user interface code, and the scale factor is floating point.
- HTTP is not modelled. The search API pages, the `check_urls` attempts and the detail API answers are inputs. Each input is an ordered list, aligned by index with what the source requests.
- The proxy checks (`proxy_checker`, `proxy_search_checker`) are not modelled. `Session.Search` models what `search` does once `lister` has seen `proxy_search_checker(url)` pass (lines 938-942); a failing check, which returns before any search, is not modelled.
- A failing search API request (`requests.get` or `.json()` raising at lines 972-973) is not modelled. Each term's page is given as a list of records.
- `asyncio`, the event-loop policy, the scheduling inside `gather` and `time.sleep(1)` are not modelled. Only the index correspondence of the responses and the number of attempts are kept.
- Session.Retry: an attempt that raises after `check_urls` has already written some codes is modelled as writing none. An exception raised later in the `try` block, for example by `_show_sort_buttons`, also causes a retry in the source; that is not modelled.
- Session.Search requires every attempt that gets through `gather` to give one response per record, as `gather` does.
- Session.Fraction: progress values are exact rationals (`real`). The source divides Python floats (lines 978, 991, 1002 and 1025), so its values may differ from these by rounding; the monotonicity and bounds stated hold for the exact values.
- The "Attempt n/3" messages and the result-box texts are not modelled.
- The in-place coercion of record dictionaries in `search` is modelled as building new records. The model does not capture aliasing between `dict_list` and `unique_list`, and no later code depends on it.
- `int()` is modelled on integers and on decimal text with optional sign, surrounding whitespace, single underscores and at most 4300 digits. Floats, other bases and a changed `sys.set_int_max_str_digits` are not modelled. The JSON decoder's own digit limit on numbers sent as JSON numbers is not modelled either, because `.json()` is not modelled.
- String operations are ASCII-only. Python's full Unicode case mapping and whitespace are not modelled. `splitlines` splits at `\n`, `\r` and `\r\n` only.
- `random.shuffle` is modelled as the Fisher-Yates passes CPython makes, with the random choices as an input `draws`. Only the permutation property is claimed for arbitrary draws.
- Links.PrintResults: for every record, the name, uploader, user status, size, date, seeders and hash lines (lines 1185-1195) are not modelled. `Links.Entry` keeps only the site URL, the magnet link and the links. Nor are the floating-point GB size, the `datetime` formatting, `webbrowser.open` or the tag bindings.
- Links.Detail: a detail answer whose `descr` is JSON null or not a string is not modelled. In the source it raises at `description.splitlines()` (line 1216), after "Relevant links:" was inserted (line 1215).
- CSV persistence is not modelled: pandas reads and writes, `eval` of stored lists, `os.listdir` (given as a set) and `os.remove`. The `save` dialog's `while True` loop is modelled one answer at a time (`SaveVerdict`).
- The global variables of the source (mirror address, users, terms) are passed as parameters.
- Records carry the other API fields as an opaque map `others`. These fields take part in equality, as in the dictionary comparison, but no operation reads them.
