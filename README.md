# image-to-pdf: input selection and parameter logic

A Dafny model of the converter in `app.py`. The converter turns one image, or
every JPEG/PNG image in a directory, into a single multi-page PDF. Each page is
resized and recompressed on the way. The model covers the logic around the
image library:

- which files are selected and in which order (module `Selection`, with Python's
  string order and `sorted` in `Order` and `str.lower`/`str.endswith` in `Text`);
- the two ways a run stops early: the invalid-input exit (status 1) and the soft
  exit when nothing qualifies (plain return, status 0);
- the `-c` range check in `main` and the quality default of 95 (module `Quality`);
- the page loop and the final first-page-plus-appended-pages save (module `Converter`).

The filesystem is an input. `PathKind` says whether the input path is a
directory (with the names `os.listdir` returns, in that order), a file, or
neither. `os.path.join` is modelled as `Selection.Join`, following the POSIX
rules of `posixpath.join`. A page is an opaque `Page(source, scale, quality)`:
the file it was made from and the parameters that were applied to it.

Three details of the code that the model keeps:

- Directory entries are tested by name only, not by file type. A sub-directory
  named `x.jpg` is selected too, and `SelectFiles` selects it as well.
- The joined paths are sorted, not the bare entry names. `JoinKeepsNameOrder`
  proves that this is the order of the names, because directory entries never
  start with `/`.
- `compress_quality if compress_quality else 95` also turns an explicit `0`
  into 95. Any other value is passed through, even one outside [1, 100]. The
  help text of `-c` (app.py:72) mentions only the omitted case. Only a direct
  call of the function can pass such a value, because `main` rejects it
  first. `EffectiveQuality` follows the code.

## Model

| member | source | states |
|---|---|---|
| `Text.Lower` | app.py:15 | lower-casing keeps the length, leaves no ASCII capital, and changes a character only into the small letter of its capital |
| `Text.LowerIdempotent` | app.py:15 | lower-casing an already lower-cased name changes nothing |
| `Selection.ImageNameFromExtension` | app.py:15 | a name ending in any upper/lower-case variant of `.jpg`, `.jpeg` or `.png` qualifies |
| `Selection.ImageNameSplit` | app.py:15 | conversely, every qualifying name is a stem followed by a case variant of one of the three extensions |
| `Selection.ImageNameKeptExamples` | app.py:15 | `A.JPG` and `b.Png` are kept |
| `Selection.ImageNameDroppedExamples` | app.py:15 | `c.gif` and a bare `png` are dropped |
| `Selection.SelectFiles` | app.py:11-21 | the invalid-input error happens exactly when the path is neither a directory nor a file with a qualifying name; a qualifying file gives exactly `[input]`; a directory gives a sorted list that is a permutation of the joined qualifying entries |
| `Selection.ImagePathsMembers` | app.py:12-16 | a path is produced by the comprehension iff it is the directory joined with some qualifying entry |
| `Selection.ImagePathsEmpty` | app.py:12-16 | the comprehension is empty iff no entry qualifies |
| `Selection.ImagePathsAppend` | app.py:12-16 | filtering a concatenated listing is the concatenation of the filtered parts |
| `Selection.ImagePathsPermutation` | app.py:12-16 | a reordered listing yields the same joined paths, reordered |
| `Selection.ListingOrderIrrelevant` | app.py:12-16 | the selected list for a directory is the same for every order in which the directory is listed |
| `Selection.DirectorySelection` | app.py:11-25 | for a directory, a path is selected iff it joins the directory with a qualifying entry; the selection is empty (the soft exit) iff no entry qualifies |
| `Selection.JoinKeepsNameOrder` | app.py:12-13 | joining the same directory to two entry names keeps their order, so sorting full paths orders the files by name |
| `Order.SortCorrect` | app.py:12 | `sorted` returns an ascending list holding exactly the input elements |
| `Order.SortedUnique` | app.py:12 | two ascending lists with the same elements are equal |
| `Order.SortIgnoresOrder` | app.py:12 | `sorted` gives the same list for any permutation of its input |
| `Order.InsertSorted` | app.py:12 | inserting into an ascending list keeps it ascending |
| `Order.InsertPermutes` | app.py:12 | inserting adds exactly the inserted element |
| `Order.PrecedesTotal` | app.py:12 | any two strings are comparable under Python's string order |
| `Order.PrecedesAntisymmetric` | app.py:12 | two strings that each precede the other are equal |
| `Order.PrecedesTransitive` | app.py:12 | Python's string order is transitive |
| `Quality.AcceptedQualityInRange` | app.py:76-78 | after the `-c` check passes, the effective quality lies in [1, 100]: it is the supplied value when one was given and 95 otherwise |
| `Quality.CompressBoundaries` | app.py:76-78 | 1 and 100 are accepted, 0 and 101 are rejected, no value is accepted and gives 95 |
| `Quality.EffectiveQualityCases` | app.py:42 | the default 95 is used exactly when no value, 0, or 95 itself is given; any other non-zero value is used as given |
| `Converter.CollectPages` | app.py:27-48 | the loop yields one page per selected file, page k from file k, each with the same scale and the effective quality |
| `Converter.ResizeAndCompressToPdf` | app.py:7-61 | invalid input is reported iff selection fails; the soft exit happens iff the selection is empty; otherwise the PDF goes to the output path, its first page plus its appended pages are exactly one page per selected file in order, and the save uses the same effective quality as every page |
| `Converter.RunCli` | app.py:74-93 | an out-of-range `-c` ends the run with status 1 whatever the input; status 1 happens iff `-c` is out of range or the input is invalid; with an accepted `-c`, the soft exit happens iff the selection is empty, and a non-empty selection is always written; a written PDF goes to the `-o` path, has one page per selected file with page k from file k, and uses a quality in [1, 100], equal to `-c` when given and 95 otherwise, for every page and for the save |

## Left out

- Image decoding, the Lanczos resize, the RGB conversion, the in-memory JPEG round trip and the multi-page PDF encoding (app.py:29-47, app.py:55-61) are image-library calls. A page is an opaque value that records its source path, scale and quality.
- The new page size `int(w * scale)` (app.py:33) is floating-point arithmetic and is not modelled. The model only records that every page gets the same scale.
- Filesystem access (`os.path.isdir`, `os.path.isfile`, `os.listdir`, writing the output file) is replaced by the `PathKind` input. The written file is the `Pdf` value of the outcome.
- Failures inside the image library (a corrupt image, an unwritable output path, a selected sub-directory that cannot be opened) end the real program with an exception. The model has no such outcome.
- `os.listdir` can raise, for example `PermissionError` on an unreadable directory (app.py:13-14). The real run then ends with an exception and writes nothing. `Directory(entries)` always yields a listing, so the model has no such outcome.
- On POSIX, Python keeps file-name bytes that do not decode as lone surrogates (U+DC80 to U+DCFF). These are not Dafny characters, so such entry names, and their place in the code-point sort, cannot be represented.
- Windows path rules (`ntpath.join`, with `\` separators and drive letters) are not modelled. `Selection.Join` follows POSIX only.
- Argument parsing with `argparse`, including the scale default 0.8 and the two required flags, is not modelled. `RunCli` receives the parsed values.
- All console messages, and `os.path.basename`, which is used only in a message, are not modelled.
- `Text.Lower`: lower-cases ASCII letters only and keeps every other character. Python's `str.lower` also lower-cases other scripts, and a few non-ASCII characters (the Kelvin sign, for one) become ASCII letters. None of them becomes a character of `.jpg`, `.jpeg` or `.png`, so the image-name test gives the same answer.
