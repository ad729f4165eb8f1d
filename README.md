# Output names of download_image.py

`download_image.py` makes one request, with no retry, for the image at the URL
in `IMAGE_URL`. It stores the image twice under `out/`:

- a fixed copy, `image-latest.jpg`, overwritten on every run;
- a dated copy, named with the day's date (`%Y-%m-%d` in the Asia/Jakarta
  zone): `<base>_<date>.<ext>` when the URL's last segment (trailing `/`
  stripped) is `<base>.<ext>`, cut at its last `.`; and `image_<date>.jpg` when
  that segment is empty or has no `.`.

This project models how those two names are derived. The derivation is pure
string work, so it is written as Dafny functions over `string`, with lemmas for
the properties the naming promises. There are three modules:

- `PyStr` (`py_str.dfy`) gives the Python `str` operations the script uses,
  each for a one-character separator: `rstrip`, `split` (with `join` as its
  inverse), `split(c)[-1]` and `rsplit(c, 1)`.
- `DateStamp` (`date_stamp.dfy`) gives the `%Y-%m-%d` rendering of a date from
  its year, month and day, and a parser that reads a stamp back.
- `DownloadImage` (`download_image.dfy`) gives the fixed name, the URL tail and
  the dated name.

The dated name is built in two steps. `UrlTail` is line 26 of the script: strip
every trailing `/`, take the text after the last `/`, and fall back to
`image.jpg` when that text is empty. `StampedName` is lines 27-31: split the
tail at its last `.` and insert `_<stamp>` before the extension, or return
`image_<stamp>.jpg` when the tail has no `.`. `DatedName` composes the two.

## Model

| member | source | states |
|---|---|---|
| `DownloadImage.FixedName` | download_image.py:22 | The fixed name is non-empty and contains neither `/` nor `_`. |
| `DownloadImage.UrlTail` | download_image.py:26 | The tail is never empty and contains no `/`. A URL made only of `/` (or empty) gives `image.jpg`. Any other URL gives the text after the last `/` of the slash-stripped URL: a suffix of it, preceded by `/` or equal to all of it. |
| `DownloadImage.StampedName` | download_image.py:27-31 | The name always contains `_`. When neither the tail nor the stamp contains `/`, neither does the name. |
| `DownloadImage.StampedNameOfPlainTail` | download_image.py:30-31 | A tail with no `.` gives exactly `image_<stamp>.jpg`. |
| `DownloadImage.StampedNameOfDottedTail` | download_image.py:27-29 | Write the tail as `base + "." + ext` with no `.` in `ext`, so the cut is at the last dot. Then the name is `base + "_" + stamp + "." + ext`. |
| `DownloadImage.StampedNameOfDefaultTail` | download_image.py:26-29 | The fallback tail `image.jpg` gives `image_<stamp>.jpg`, the same name a tail without `.` gives. |
| `DownloadImage.StampedNameParts` | download_image.py:27-31 | Every name is `base + "_" + stamp + "." + ext`, where `ext` is exactly the text after the name's final `.` (so it has no `.`). |
| `DownloadImage.StampBeforeExtension` | download_image.py:28-31 | In every name the stamp is the text immediately before the final `.`, and a `_` comes just before it. |
| `DownloadImage.DatedName` | download_image.py:26-31 | The dated name always contains `_`. With a stamp that has no `/`, the dated name has no `/` either. |
| `DownloadImage.DatedNameIgnoresTrailingSlashes` | download_image.py:26 | Adding any number of `/` to the end of the URL does not change the dated name. |
| `DownloadImage.DatedNameOfSlashesOnly` | download_image.py:26-29 | A URL made only of `/` (or empty) gives `image_<stamp>.jpg`. |
| `DownloadImage.DatedNameEmbedsStamp` | download_image.py:16-31 | For every year up to 9999, month from 1 to 12 and day from 1 to 31, parsing the ten characters before the dated name's final `.` gives back that year, month and day. |
| `DownloadImage.DatedNameIsPathComponent` | download_image.py:26-31 | With a stamp that has no `/`, the dated name is non-empty, has no `/`, and is neither `.` nor `..`. So on POSIX, where `/` is the only separator, `out / dated_name` is a file directly inside `out`. |
| `DownloadImage.DatedNameDiffersFromFixed` | download_image.py:22-31 | The dated name is never `image-latest.jpg`, for any URL and any stamp. |
| `DownloadImage.DatedNamesOfDistinctDaysDiffer` | download_image.py:16-31 | For the same URL, two different dates give two different dated names. |
| `DateStamp.ZeroPad` | download_image.py:16 | The padded rendering has exactly the requested width and contains only digits. |
| `DateStamp.ZeroPadRoundTrip` | download_image.py:16 | Reading a zero-padded number back gives the number. |
| `DateStamp.DecimalValueRoundTrip` | download_image.py:16 | `w` digits denote a number below `10^w`. Padding that number back to `w` digits gives the same digits. |
| `DateStamp.Stamp` | download_image.py:16 | The stamp has length 10, has `-` at positions 4 and 7, and has digits everywhere else. |
| `DateStamp.StampAlphabet` | download_image.py:16 | The stamp contains no `/`, `.` or `_`. |
| `DateStamp.ParseStamp` | download_image.py:16 | Any text the parser accepts has a year of at most 9999, a month from 1 to 12 and a day from 1 to 31 (the same range for every month, so `2024-02-31` is accepted). Rendering that date again gives the same text. |
| `DateStamp.StampRoundTrip` | download_image.py:16 | Parsing the stamp of a date gives back that date. |
| `DateStamp.StampInjective` | download_image.py:16 | Different dates give different stamps. |
| `PyStr.RStrip` | download_image.py:26 | `rstrip(c)` returns a prefix of the input that does not end in `c`. Everything it removes is `c`. |
| `PyStr.RStripUnique` | download_image.py:26 | Any prefix of the input that does not end in `c` and is followed only by `c` is `rstrip(c)`: the contract of `RStrip` determines its result. |
| `PyStr.RStripEmpty` | download_image.py:26 | `rstrip(c)` is empty exactly when the input is made only of `c`. |
| `PyStr.RStripIgnoresTrailing` | download_image.py:26 | Adding `c` any number of times to the end of the input does not change `rstrip(c)`. |
| `PyStr.Split` | download_image.py:26 | `split(c)` returns at least one piece. No piece contains `c`. Joining the pieces with `c` gives back the input. |
| `PyStr.SplitUnique` | download_image.py:26 | Any non-empty list of `c`-free pieces whose join is the input is exactly what `split(c)` returns. |
| `PyStr.LastSegment` | download_image.py:26 | The result is a suffix of the input with no `c` in it. It is either the whole input or comes right after a `c`. |
| `PyStr.LastSegmentUnique` | download_image.py:26 | Any `c`-free suffix of the input that is the whole input or follows a `c` is `LastSegment`: the contract of `LastSegment` determines its result. |
| `PyStr.LastSegmentIsLastOfSplit` | download_image.py:26 | `LastSegment` is the last element of `split(c)`, i.e. Python's `split(c)[-1]`. |
| `PyStr.RSplitOnce` | download_image.py:28 | Without `c`, `rsplit(c, 1)` returns the input alone. With `c`, it returns two parts: joined by `c` they give the input, and the second part has no `c`. |
| `PyStr.RSplitOnceAtLast` | download_image.py:28 | Any way of writing the input as `base + c + ext` with no `c` in `ext` is the result of `rsplit(c, 1)`. |

## Left out

- Reading `IMAGE_URL` from the environment, and the exit with status 1 when it is missing (lines 9-12): the URL is a parameter of the model.
- Reading the wall clock and the Asia/Jakarta time zone (line 15): the date is given as a year, month and day.
- Creating `out/` and joining paths with `/` (lines 18-19, 23, 32): the model states only that the dated name is a single path component.
- The streamed HTTP GET with its 60-second timeout and status check (lines 37-38), the chunked write of the fixed file, the copy to the dated file, and the exit with status 2 on any exception (lines 40-51). These are network and file I/O. The fixed file is opened for writing before the download finishes, so a failed download can leave it truncated; the model has no files, so it does not capture this.
- Console output (lines 11, 34, 48, 50).
- DateStamp.Stamp: years below 1000 are zero-padded to four digits. C's `%Y` does not promise this on every platform; glibc prints such years without padding. The script only stamps the current date, so such years do not arise.
- The model's characters leave out surrogates, which a Python string can hold (`os.getenv` on POSIX decodes undecodable bytes to U+DC80-U+DCFF). The derivation only compares characters with `/` and `.`, so this changes no name. No normalisation is modelled.
