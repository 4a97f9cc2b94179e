# pitchextract — verified model of segmentation, table assembly and upload names

This project models, in Dafny, the discrete logic of the pitchextract audio
feature extractor:

- **Batch extraction** (`features/PitchExtrac.py`): a trimmed waveform of
  `len(y)` samples at sample rate `sr` is cut into `len(y) // sr` one-second
  segments `y[k*sr : k*sr + sr]`; the spectral library summarises each segment
  into seven aggregate arrays; these are gathered into a feature dictionary
  (with the keys `MFCC_1` .. `MFCC_20` added by a loop); the dictionary is
  flattened into the row `[second] + 12 chroma + RMS + centroid + bandwidth +
  rolloff + ZCR + MFCC_1..20`; the rows are checked against the fixed 38-name
  header by the table constructor; the table is written under the recording's
  name with `.flac` replaced by `.csv`. Only names ending in `.flac` are
  processed.
- **Upload checks** (`app.py`): `allowed_file` accepts a name when the text
  after its last `.`, lower-cased, is `wav`, `mp3` or `flac`; the converted
  recording is stored as the `os.path.splitext` root of the upload name
  followed by `.flac`.

Modules: `Wrappers` (Option, Result), `PyStrings` (the Python `str`
operations the code uses: `rfind`, `rsplit(sep, 1)`, `lower`, `endswith`,
`replace`, `str(n)`), `PosixPath` (`os.path.splitext`), `PitchExtrac` and
`App`.

The spectral library is a function parameter `analyse: (seq<T>, int) ->
Analysis` (segment and rate to the seven per-segment means); samples have an
arbitrary element type `T`. The loader (`librosa.load` followed by
`librosa.effects.trim`) is a parameter `load: string -> Waveform<T>`, and the
directory walk is the sequence of file names it yields. Feature values are
`real`; nothing is assumed about them. Two predicates state what librosa
guarantees about lengths: `YieldsMfccs` (at least the 20 coefficients the
MFCC loop reads) and `Shaped` (12 chroma bins, one value for each of the five
scalar features, 20 MFCCs).

The code of the segment loop (`SegmentRows`), of the MFCC-key loop
(`ExtractFeaturesSegment`) and of the walk (`ProcessAudioFiles`) are methods
with loops, proved against the functions `Rows`, `FeaturesOf` and
`FlacFiles`/`CsvFor`. The header, the row expression, the name derivations and
`allowed_file` are functions.

The segment features use librosa's default frame and hop sizes, which live
inside `analyse`; `compute_mfcc` in `app.py` divides by the standard deviation
without a guard (that normalisation is left out below).

## Model

| member | source | states |
|---|---|---|
| `PitchExtrac.TotalSeconds` | features/PitchExtrac.py:47-50 | `len(y) // sr` is the number of whole seconds: `t*sr <= len(y) < t*sr + sr` |
| `PitchExtrac.SegmentBounds` | features/PitchExtrac.py:56-61 | for every `k < len(y)//sr`, segment `k` ends at or before `(len(y)//sr)*sr <= len(y)`: every slice is in bounds |
| `PitchExtrac.Segment` | features/PitchExtrac.py:57-61 | segment `k` has exactly `sr` samples and its `i`-th sample is `y[k*sr + i]` |
| `PitchExtrac.Segments` | features/PitchExtrac.py:50-61 | the loop's slices are `len(y)//sr` segments of exactly `sr` samples each |
| `PitchExtrac.SegmentsCoverPrefix` | features/PitchExtrac.py:56-61 | the segments laid end to end are exactly `y[..(len(y)//sr)*sr]` |
| `PitchExtrac.ConcatSegmentsPrefix` | features/PitchExtrac.py:56-61 | the first `m` segments laid end to end are exactly `y[..m*sr]` (contiguity, by induction) |
| `PitchExtrac.OwnerUnique` | features/PitchExtrac.py:56-58 | second `i // sr` is the only one whose range `[k*sr, k*sr + sr)` holds sample `i` |
| `PitchExtrac.OwnerOffset` | features/PitchExtrac.py:57-61 | offset `r` of segment `q` is sample `q*sr + r` of the waveform |
| `PitchExtrac.SegmentOwner` | features/PitchExtrac.py:56-61 | every sample before the cut lies at offset `i % sr` of segment `i // sr`, and in no other segment's range (no overlap, no gap) |
| `PitchExtrac.RemainderDropped` | features/PitchExtrac.py:50-56 | the dropped tail is `len(y) % sr` samples, fewer than one second |
| `PitchExtrac.MfccKeyFresh` | features/PitchExtrac.py:28-29 | each new `MFCC_{i}` key is absent from the dictionary built so far, and adding it extends the run of MFCC keys by one |
| `PitchExtrac.AddMfcc` | features/PitchExtrac.py:28-29 | one turn of the MFCC loop adds exactly the entry `MFCC_{i}` `:=` `mfcc[i-1]` and keeps every earlier entry |
| `PitchExtrac.ExtractFeaturesSegment` | features/PitchExtrac.py:7-31 | the dictionary has exactly the six aggregate keys and `MFCC_1`..`MFCC_20`; each aggregate key holds its array and `MFCC_i` holds `mfcc[i-1]` |
| `PitchExtrac.MfccKeyNumber` | features/PitchExtrac.py:29 | `MFCC_{i}` is `MFCC_` followed by digits whose decimal value is `i` |
| `PitchExtrac.MfccKeyInjective` | features/PitchExtrac.py:28-29 | distinct indices give distinct `MFCC_{i}` keys, so no coefficient overwrites another |
| `PitchExtrac.MfccKeyNotAggregate` | features/PitchExtrac.py:18-29 | no `MFCC_{i}` key collides with an aggregate key |
| `PitchExtrac.RowData` | features/PitchExtrac.py:67-70 | the row is as long as the second plus the six arrays plus the 20 coefficients, and starts with the second |
| `PitchExtrac.RowDataMatchesAnalysis` | features/PitchExtrac.py:67-70 | the row read back from the dictionary is the second followed by the aggregates in schema order and `mfcc[0..20)` |
| `PitchExtrac.SegmentRowLayout` | features/PitchExtrac.py:67-70 | with librosa's shapes a row has 38 values: `Time` at 0, chroma bin `i` at `1+i`, RMS, centroid, bandwidth, rolloff, ZCR at 13..17, `mfcc[j]` at `18+j` |
| `PitchExtrac.Columns` | features/PitchExtrac.py:76-78 | the header has 38 names |
| `PitchExtrac.ColumnsLayout` | features/PitchExtrac.py:76-78 | the header has 38 names: `Time`, `Chromagram_1..12`, `RMS`, `Spectral_Centroid`, `Spectral_Bandwidth`, `Spectral_Rolloff`, `Zero_Crossing_Rate`, `MFCC_1..20`, in that order |
| `PitchExtrac.ColumnsEdges` | features/PitchExtrac.py:76-78 | the numbered runs start and end with the literal names `Chromagram_1`, `Chromagram_12`, `MFCC_1`, `MFCC_20` at positions 1, 12, 18, 37 |
| `PitchExtrac.ColumnsDistinct` | features/PitchExtrac.py:76-78 | the 38 header names are pairwise distinct |
| `PitchExtrac.Rows` | features/PitchExtrac.py:56-73 | one row per whole second, row `k` starting with `Time = k` and holding at least the 20 coefficients |
| `PitchExtrac.RowOfSecond` | features/PitchExtrac.py:61-70 | the row built from the dictionary of second `k` is row `k` of the table |
| `PitchExtrac.NoWholeSecond` | features/PitchExtrac.py:50 | fewer than `sr` samples give `len(y) // sr == 0` |
| `PitchExtrac.SegmentRows` | features/PitchExtrac.py:47-73 | the loop yields `len(y)//sr` rows in segment order, row `k` is built from segment `k` and starts with `Time = k`; a waveform shorter than `sr` yields no rows |
| `PitchExtrac.FirstMisfit` | features/PitchExtrac.py:81 | finds the first row whose width differs from the header's, or none when all fit |
| `PitchExtrac.MakeFrame` | features/PitchExtrac.py:81 | the table is built exactly when every row has as many values as the header names, and then holds the header and the rows unchanged |
| `PitchExtrac.RowsFitColumns` | features/PitchExtrac.py:67-81 | with librosa's shapes every row matches the 38-name header, so the table constructor succeeds |
| `PitchExtrac.ShortWaveformEmptyTable` | features/PitchExtrac.py:50-81 | a waveform shorter than one second gives a table with the header and no rows |
| `PitchExtrac.ThreeAndAHalfSeconds` | features/PitchExtrac.py:50-73 | 77175 samples at 22050 Hz give three rows with `Time` 0, 1 and 2 |
| `PitchExtrac.CsvFilename` | features/PitchExtrac.py:84 | a name ending in `.flac` is rewritten to a name ending in `.csv` |
| `PitchExtrac.ReplaceFlacSplit` | features/PitchExtrac.py:84 | `replace('.flac', '.csv')` rewrites every occurrence: on `a + ".flac" + b` it rewrites `a`, turns that `.flac` into `.csv` and rewrites `b` (`.flac` cannot overlap itself, so each occurrence is a match of the left-to-right scan) |
| `PitchExtrac.CsvFilenameSplit` | features/PitchExtrac.py:84 | the output name rewrites each `.flac` of the recording's name, wherever it occurs (`a.flac.b.flac` becomes `a.csv.b.csv`) |
| `PitchExtrac.ReplaceFlacSuffix` | features/PitchExtrac.py:84 | rewriting `p + ".flac"` rewrites `p` and turns the final `.flac` into `.csv` (the pattern cannot overlap itself) |
| `PitchExtrac.CsvFilenameOfFlac` | features/PitchExtrac.py:84 | the table of a `.flac` recording is written under a name ending in `.csv` |
| `PitchExtrac.ProcessAudioFile` | features/PitchExtrac.py:38-88 | one recording yields the `.csv` name and the table with the 38-name header and one 38-value row per whole second |
| `PitchExtrac.FlacFiles` | features/PitchExtrac.py:35-37 | the processed names are listed names ending in `.flac`, and every such listed name is processed |
| `PitchExtrac.FlacFilesAppend` | features/PitchExtrac.py:36-37 | filtering a listing split in two filters each part and keeps their order |
| `PitchExtrac.FlacFilesSingle` | features/PitchExtrac.py:37 | a single name is kept exactly when it ends in `.flac` |
| `PitchExtrac.ProcessAudioFiles` | features/PitchExtrac.py:35-89 | the walk writes one table per `.flac` name, in listing order, each as `ProcessAudioFile` describes, under a name ending in `.csv`; other files are skipped |
| `PyStrings.EndsWith` | features/PitchExtrac.py:37 | `endswith(suffix)` holds exactly when the name is some text followed by `suffix` |
| `PyStrings.EndsWithAppend` | features/PitchExtrac.py:37 | any text followed by `suffix` ends with it |
| `PyStrings.ReplaceAllAbsent` | features/PitchExtrac.py:84 | `replace` returns a name in which the pattern does not occur unchanged |
| `PyStrings.ReplaceAllMatch` | features/PitchExtrac.py:84 | a match at the front is replaced and the scan resumes after it |
| `PyStrings.ReplaceAllSkip` | features/PitchExtrac.py:84 | without a match at the front the first character is kept and the scan moves on by one |
| `PyStrings.ReplaceAllShort` | features/PitchExtrac.py:84 | a string shorter than the pattern is returned unchanged |
| `PyStrings.Lower` | app.py:25 | `lower()` keeps the length and lower-cases each character in place |
| `PyStrings.LowerIdempotent` | app.py:25 | lower-casing twice is lower-casing once, and dots stay where they are |
| `PyStrings.RFind` | app.py:25 | the last occurrence of the character, or -1; nothing after it is that character |
| `PyStrings.RFindPresent` | app.py:25 | `RFind` finds something exactly when the character occurs |
| `PyStrings.RSplitOnce` | app.py:25 | `rsplit('.', 1)` gives one part when there is no dot, else two parts that rejoin with the dot to the input, the second without a dot |
| `PyStrings.RFindLower` | app.py:25 | lower-casing does not move the last dot |
| `PyStrings.NatToString` | features/PitchExtrac.py:29 | `str(i)` is a non-empty run of digits without a leading zero, one digit exactly for `i < 10` |
| `PyStrings.NatToStringValue` | features/PitchExtrac.py:29 | the decimal digits of `str(i)` read back as `i` |
| `PyStrings.NatToStringInjective` | features/PitchExtrac.py:28-29 | different numbers print differently |
| `App.AllowedFile` | app.py:24-25 | an accepted name contains a dot |
| `App.AllowedFileLastExtension` | app.py:14-25 | `stem.ext` with `ext` dot-free is accepted exactly when `ext` lower-cased is `wav`, `mp3` or `flac`, whatever dots `stem` holds |
| `App.NoDotRejected` | app.py:25 | a name without a dot is rejected |
| `App.AllowedFileCaseInsensitive` | app.py:25 | a name and its lower-cased form are accepted or rejected together |
| `App.InnerDotIgnored` | app.py:25 | `a.tar.wav` is accepted |
| `App.EarlierExtensionIgnored` | app.py:25 | `a.wav.txt` is rejected |
| `App.UpperCaseAccepted` | app.py:25 | `X.WAV` is accepted |
| `App.MixedCaseAccepted` | app.py:25 | `x.Flac` is accepted |
| `App.TrailingDotRejected` | app.py:14-25 | a name ending in `.` has an empty extension and is rejected |
| `PosixPath.SplitExt` | app.py:74 | `splitext` splits the name into root and extension that rejoin to it; the extension is empty or a dot followed by text without `.` or `/`, and only follows a basename with a non-dot character |
| `PosixPath.SplitExtOfName` | app.py:74 | `stem.ext` (the last path component of `stem` has a non-dot character, `ext` has no `.` or `/`) splits into `stem` and `.ext` |
| `PosixPath.RFindAppendAbsent` | app.py:74 | appending text without the character leaves its last occurrence where it was |
| `PosixPath.SplitExtDoubleDot` | app.py:74 | `a..wav` splits into `a.` and `.wav` |
| `App.FlacFilename` | app.py:74 | the converted name ends in `.flac`, and its part before `.flac` followed by the dropped extension is the uploaded name |
| `App.FlacFilenameReplacesExtension` | app.py:74 | `stem.ext` converts to `stem.flac` whenever the last path component of `stem` has a non-dot character (`song.mp3` to `song.flac`, `a.tar.wav` to `a.tar.flac`, `a..wav` to `a..flac`) |
| `App.FlacFilenameNoDot` | app.py:74 | a name without a dot converts to the name followed by `.flac` |

## Left out

- The librosa feature calls (`chroma_stft`, `rms`, `spectral_centroid`, `spectral_bandwidth`, `spectral_rolloff`, `zero_crossing_rate`, `mfcc`, features/PitchExtrac.py:9-15) are floating-point signal processing in a foreign library: they are the parameter `analyse`, of which only the output lengths are stated.
- `librosa.effects.trim` (features/PitchExtrac.py:44) and `librosa.load` (features/PitchExtrac.py:41): the loader parameter returns the already trimmed waveform.
- `PitchExtrac.ProcessAudioFiles` takes a total `load`: every listed `.flac` name decodes, so the abort of the whole walk when `librosa.load` raises on an unreadable file (features/PitchExtrac.py:41, uncaught in 34-89) is not modelled.
- `os.walk`, `os.path.join`, `df.to_csv` and `print` (features/PitchExtrac.py:35-38, 85-89) are file-system I/O: the walk is the given sequence of names (one directory's worth, in the order the walk yields them), and writing is returning the name and the table.
- `compute_mfcc` and `plot_spectrogram` (app.py:28-56): pre-emphasis, MFCCs, mean/std normalisation and the mel spectrogram are floating-point numerics in libraries; the unguarded division by a zero standard deviation is therefore not modelled.
- The Flask route, upload saving, pydub transcoding, `os.remove`, the spectrogram file, flash messages, directory creation and the configuration constants other than the extension set (app.py:11-21, 59-107) are web and I/O plumbing.
- `secure_filename` (app.py:68) is a library call whose rules are not part of this model: `FlacFilename` is stated for any name, not for the sanitised one.
- The two `__main__` blocks (features/PitchExtrac.py:92-98) are configuration with fixed paths.
- `PitchExtrac.ProcessAudioFile` and `PitchExtrac.ProcessAudioFiles` require librosa's shapes for every segment, so the exception the table constructor would raise on a mis-shaped row, and its aborting the walk, are not modelled there; `MakeFrame` models that error on its own.
- `PitchExtrac.MakeFrame` refuses any row whose width differs from the header's; pandas pads rows shorter than the widest row with missing values, a case that cannot arise once every row has 38 values.
- `PitchExtrac.SegmentRows` and the rows use `real` for every cell, including `Time`; the integer dtype pandas gives that column is not modelled.
- `PyStrings.Lower` lower-cases ASCII letters only; no other character lower-cases to one of the letters in `wav`, `mp3` or `flac`, so the extension check is unaffected.
- `PosixPath.SplitExt` follows POSIX path rules (`/` as the only separator); the Windows variant, with `\` and drive letters, is not modelled.
