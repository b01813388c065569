# tonies-owned: the reconciliation core, in Dafny

`generate_owned_json.py` downloads the tonies catalog and walks a local folder of NFC dumps. It
writes a `tonies.json` that keeps only the catalog records with a plausible figure model code,
and marks each of those as owned or not owned. A record is owned when some NFC file path,
grouped by language folder, fuzzy-matches "{language}\{series}\{episodes}.nfc". This project
models the three pieces of that reconciliation and proves their properties:

- `text.dfy` (module `Text`): the parts of Python's `str` the script uses:
  - `strip()` and `lower()`, restricted to the Latin-1 range;
  - `startswith()`;
  - `split()` and `join()` with a one-character separator.
- `umlauts.dfy` (module `Umlauts`): `replace_umlauts`.
  - It is written as the fold over the four-entry table that the source loops over.
  - It is proved equal to a one-pass, character-wise transliteration.
- `similarity.dfy` (module `Similarity`): the score.
  - The matcher takes any `Scorer`, a function from two strings into 0..100.
  - `IndelRatio` is one concrete scorer: the normalised indel ratio, rounded half to even.
- `ownership.dfy` (module `Ownership`): `is_item_owned`.
  - `LanguageName` resolves the locale code through the four-entry table.
  - The search key is built and lowered.
  - The prefix filter and the three-segment split are applied.
  - The inclusive threshold test decides a match.
  - The loop is the method `IsItemOwned`. It is proved to answer `Owned`, the "some path
    matches" predicate.
- `reconcile.dfy` (module `Reconcile`): the loop of `main`.
  - `Eligible` holds the model-code and category rules.
  - `FilterAndAnnotate` is the filter-and-append loop. It is proved to build `Reconciled`:
    the eligible records in order, each with its `owned` flag.

## Model

| member | source | states |
|---|---|---|
| `Text.Lower` | generate_owned_json.py:68 | `lower()` keeps the length and leaves no capital. Every other character stays in its place, and each capital becomes the small letter 0x20 above it. |
| `Text.Strip` | generate_owned_json.py:68 | `strip()` is defined as trimming whitespace from the left and then from the right. Its contract is `Text.StripSpec`. |
| `Text.StripSpec` | generate_owned_json.py:68 | `strip()` returns a contiguous piece of its input. It removes only whitespace, and neither end of the result is whitespace. |
| `Text.StripPadded` | generate_owned_json.py:93 | Whitespace added on either side never changes the result of `strip()`. |
| `Text.StartsWith` | generate_owned_json.py:72 | `str.startswith(prefix)`: the prefix is no longer than the string and equals its first characters. Its use on paths is stated by `Text.StartsWithBeforeSeparator`. |
| `Text.StartsWithBeforeSeparator` | generate_owned_json.py:72-73 | A prefix without the separator is a prefix of a string exactly when it is a prefix of the part before the first separator. |
| `Text.Split` | generate_owned_json.py:73 | `split("\\")` returns at least one part, and no part holds the separator. |
| `Text.JoinSplit` | generate_owned_json.py:73 | Joining the parts of a split with the separator gives back the input. |
| `Text.SplitJoin` | generate_owned_json.py:73 | Splitting parts joined by the separator gives the parts back, when no part holds the separator. |
| `Umlauts.Replace` | generate_owned_json.py:44 | `str.replace` with a one-character target. A text without the target comes back unchanged, and when the replacement does not hold the target, no occurrence of it is left. |
| `Umlauts.ReplaceOneChar` | generate_owned_json.py:44 | One character becomes the replacement when it is the target and stays itself otherwise. |
| `Umlauts.ReplaceAppend` | generate_owned_json.py:44 | The replacement works piecewise over concatenation. With `Umlauts.ReplaceOneChar`, every occurrence is replaced and every other character is kept, in order. |
| `Umlauts.ReplaceEach` | generate_owned_json.py:43-44 | The loop over the table reassigns the text once per entry, in table order. `Umlauts.ReplaceEachIsTransliterate` states what it computes. |
| `Umlauts.ReplaceUmlauts` | generate_owned_json.py:33-45 | The four global replacements equal the one-pass transliteration. No ä, ö, ü or ß is left, and the text grows by one character per replaced character. |
| `Umlauts.Transliterate` | generate_owned_json.py:37-42 | The reference transliteration leaves no umlaut. Its length is the input length plus the number of umlauts. |
| `Umlauts.ReplaceEachIsTransliterate` | generate_owned_json.py:43-44 | Applying the table entry by entry gives the same text as replacing each character independently. |
| `Umlauts.ReplaceUmlautsIdempotent` | generate_owned_json.py:33-45 | Applying `replace_umlauts` twice gives the same result as applying it once. |
| `Umlauts.ReplaceUmlautsKeepsOthers` | generate_owned_json.py:37-44 | A text without ä, ö, ü or ß comes back unchanged. Upper-case Ä, Ö and Ü are kept as they are. |
| `Umlauts.TransliterateAppend` | generate_owned_json.py:44 | The replacement works piecewise, so every other character keeps its place in the order. |
| `Umlauts.ReplaceUmlautsExample` | generate_owned_json.py:38-44 | "Blümchen" becomes "Bluemchen". |
| `Similarity.IndelDistance` | generate_owned_json.py:80 | A bound that keeps the ratio's arithmetic well-formed: the distance is at most the total length. It says nothing about the score itself. |
| `Similarity.IndelRatio` | generate_owned_json.py:80 | The concrete scorer: 100 times the share of characters common to both strings, rounded half to even, always in 0..100. Its properties are `Similarity.IndelRatioSelf` and `Similarity.IndelRatioSymmetric`. |
| `Similarity.RoundHalfEven` | generate_owned_json.py:80 | The rounded quotient is within half a unit of n / m. At a tie it is the even neighbour, as Python's `round()` gives. |
| `Similarity.IndelRatioSelf` | generate_owned_json.py:80 | A string scores 100 against itself. |
| `Similarity.IndelRatioSymmetric` | generate_owned_json.py:80 | The score does not depend on the order of its arguments. |
| `Ownership.LanguageName` | generate_owned_json.py:62-69 | The folder name is "", "german", "french" or "english". It is non-empty exactly when the lowered, stripped code is in the table. |
| `Ownership.LanguageNameTable` | generate_owned_json.py:53-56 | "de-de" gives "german", "fr-fr" gives "french", and both "en-gb" and "en-us" give "english". |
| `Ownership.LanguageNameOfKey` | generate_owned_json.py:62-69 | A code already in the table's form resolves to its own entry. |
| `Ownership.LanguageNameNormalizes` | generate_owned_json.py:68-69 | Case and surrounding whitespace of the locale code do not change the folder it resolves to. |
| `Ownership.LanguageNameExampleGerman` | generate_owned_json.py:62-69 | " DE-DE " resolves to "german". |
| `Ownership.LanguageNameExampleUnknown` | generate_owned_json.py:69 | A code outside the table, such as "xx-xx", resolves to "". |
| `Ownership.SearchKey` | generate_owned_json.py:71 | The search term is the lowered, stripped "{folder}\{series}\{episodes}.nfc". `Ownership.SearchKeyIsLowered` shows the strip is a no-op. |
| `Ownership.SearchKeyIsLowered` | generate_owned_json.py:71 | The search key needs no stripping: it is exactly the lowered "{folder}\{series}\{episodes}.nfc". |
| `Ownership.Segments` | generate_owned_json.py:73 | `path.lower().split("\\")`. Its contract is that of `Text.Split`, and `Text.JoinSplit` gives the lowered path back from it. |
| `Ownership.PassesLanguageFilter` | generate_owned_json.py:72 | The `filter` lets through a path whose lowered form starts with the folder name. `Ownership.UnknownLanguageMatchesEveryFolder` and `Ownership.ExtraSegmentsIgnored` state its effect. |
| `Ownership.CandidateKey` | generate_owned_json.py:73-78 | The path term splits back into exactly the first three lowered segments. It is a prefix of the lowered path, cut before the third backslash. |
| `Ownership.IsMatch` | generate_owned_json.py:72-82 | One path decides ownership when it passes the folder filter, has at least three segments, and scores at least the threshold. |
| `Ownership.Owned` | generate_owned_json.py:48-83 | The answer `is_item_owned` must give: some path of the list is a match for the item's folder and search key. |
| `Ownership.ThreeSegmentKeyIsPath` | generate_owned_json.py:73-78 | A path of exactly three segments is compared whole, lowered. |
| `Ownership.ExtraSegmentsIgnored` | generate_owned_json.py:73-78 | Appending segments after the third never changes the path term, or whether the path passes the filter and matches. |
| `Ownership.PathWithoutBackslashNeverMatches` | generate_owned_json.py:73-75 | A path with no backslash has one segment and never matches. |
| `Ownership.IsItemOwned` | generate_owned_json.py:48-83 | The loop with `continue` and early `return True` answers exactly "some path passes the filter, has at least three segments, and scores at least the threshold". |
| `Ownership.UnknownLanguageMatchesEveryFolder` | generate_owned_json.py:69-72 | An unknown locale code makes the filter let every path through. Any three-segment path that scores high enough then owns the item. |
| `Ownership.FilteredPathIrrelevant` | generate_owned_json.py:72-75 | Removing a path the filter drops, or one with fewer than three segments, never changes the answer. |
| `Ownership.AnyMatchSkips` | generate_owned_json.py:72-83 | Removing a non-matching path from the list never changes the answer. |
| `Ownership.OwnedIgnoresOrder` | generate_owned_json.py:72-83 | Only which paths are present matters, not their order or repetition. |
| `Ownership.OwnedIgnoresPermutation` | generate_owned_json.py:72-83 | A permutation of the path list gives the same answer. |
| `Ownership.OwnedThresholdMonotone` | generate_owned_json.py:81 | Lowering the threshold never turns owned into not owned. |
| `Ownership.ScoreAtThresholdOwns` | generate_owned_json.py:81-82 | The comparison is inclusive: a score equal to the threshold owns the item. |
| `Ownership.NoPathsNotOwned` | generate_owned_json.py:72-83 | With no paths, nothing is owned. |
| `Ownership.SearchKeySegments` | generate_owned_json.py:71-73 | For a series and episodes without backslashes, the search key splits into the folder, the series and the file name. |
| `Ownership.ExactPathOwned` | generate_owned_json.py:48-83 | With the indel ratio, for a series and episodes without backslashes, a file stored exactly at "{folder}\{series}\{episodes}.nfc", in any case, owns the item at every threshold up to 100. This holds whether the locale code is known or not. |
| `Reconcile.Render` | generate_owned_json.py:93 | `str()` of a field value: strings as they are, booleans as "True" and "False". |
| `Reconcile.Field` | generate_owned_json.py:93 | `str(item.get(key, ''))`: a missing field reads as the empty string. |
| `Reconcile.ModelEligible` | generate_owned_json.py:93-102 | The model-code rules. The code is non-empty and only digits and dashes. Without a dash it starts with "1". With a dash it starts with none of "09", "10" and "99". |
| `Reconcile.Eligible` | generate_owned_json.py:93-107 | A record is kept when its stripped model code passes the model rules and its stripped category is not exactly "creative-tonie". |
| `Reconcile.ItemOwned` | generate_owned_json.py:109-114 | The flag is `is_item_owned` on the stripped, umlaut-replaced series and episodes and the stripped language. |
| `Reconcile.WithOwned` | generate_owned_json.py:114 | Setting `owned` leaves every other field present, with the value it had. |
| `Reconcile.Reconciled` | generate_owned_json.py:91-115 | The output list: the eligible records, in order, each with its flag. Its contents are stated by `Reconcile.ReconciledIsEligibleInOrder`. |
| `Reconcile.FilterAndAnnotate` | generate_owned_json.py:91-115 | The loop builds `Reconciled`: the eligible records, flagged, in catalog order. |
| `Reconcile.ReconciledStep` | generate_owned_json.py:92-115 | One more record adds its flagged copy when it is eligible, and nothing otherwise. |
| `Reconcile.ReconciledIsEligibleInOrder` | generate_owned_json.py:91-115 | The j-th output is the record at the j-th eligible catalog position, with `owned` from `is_item_owned` on its stripped, umlaut-replaced series and episodes and its stripped language. The output is never longer than the catalog. |
| `Reconcile.ReconciledAppend` | generate_owned_json.py:92-115 | The output for two catalogs in sequence is the two outputs in sequence. |
| `Reconcile.EligibleIgnoresPadding` | generate_owned_json.py:93-107 | Whitespace around the model code or the category does not change eligibility. |
| `Reconcile.CreativeTonieExcluded` | generate_owned_json.py:104-107 | A "creative-tonie" category, padded or not, excludes the record whatever its model code. |
| `Reconcile.EmptyCategoryKept` | generate_owned_json.py:104-107 | An empty or missing category is kept. Only the model rules decide such a record. |
| `Reconcile.ModelRuleExamples` | generate_owned_json.py:93-102 | "123", "20-5" and "-" pass the model rules. "234", "09-1", "abc" and "" fail them. |
| `Reconcile.FilterMapAt` | generate_owned_json.py:91-115 | Filtering keeps exactly the accepted entries: the j-th result comes from the j-th accepted position. |
| `Reconcile.Positions` | generate_owned_json.py:92-107 | The accepted positions are in range, strictly increasing and complete. |

## Left out

- `fetch_tonies` (HTTP download and JSON parsing) is left out because it is network I/O. The catalog is an input sequence of records.
- `get_nfc_file_paths` (the `os.walk` traversal) is left out because it is filesystem I/O. The paths are an input sequence. On a POSIX host `os.path.relpath` separates with "/", and a path with no backslash in it never matches (`Ownership.PathWithoutBackslashNeverMatches`). A POSIX file or folder name that itself holds a backslash can still split into three segments. This host dependence is stated, not modelled further.
- `fuzz.ratio` comes from a library that is not part of this model. Its floating-point arithmetic is not modelled either. The matcher is proved for any scorer into 0..100. `Similarity.IndelRatio` is the normalised indel ratio with exact integer rounding, half to even; the library's own floating-point rounding is not reproduced.
- `str.lower()` and `str.strip()` are modelled on the Latin-1 range only:
  - upper-case A–Z and U+00C0–U+00DE, except U+00D7, are lowered;
  - whitespace is the characters U+0009–U+000D, U+001C–U+0020, U+0085 and U+00A0.
  - Characters outside Latin-1 are taken to be neither upper case nor whitespace.
- `str()` of a JSON value that is not a string or a boolean (a number, a list, null) is carried as a given rendering (`Reconcile.Value.Other`). Python's formatting of those values is not modelled.
- The in-place update `item['owned'] = ...` is modelled on values: the output holds updated copies. The model therefore does not capture that the downloaded catalog's own dicts are changed as well.
- The JSON serialisation, the write to `tonies.json`, and the final `print` are left out because they are output I/O.
- The global constants `TONIES_URL` and `NFC_REPO_PATH` are left out. `FUZZY_THRESHOLD` (80) is the default of `is_item_owned`'s threshold; here the threshold is a parameter of every member that compares against it.
- The docstring of `is_item_owned` says a score above the threshold owns the item. The code tests `score >= threshold`, and the model follows the code (`Ownership.ScoreAtThresholdOwns`).
- The comment above the category test says an empty category is excluded. The code excludes only "creative-tonie", and the model follows the code (`Reconcile.EmptyCategoryKept`).
