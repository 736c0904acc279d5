# Content fingerprinting and comparison

A model of the fingerprint-and-compare logic of `compare.py`. The `ContentFingerprint` class
does five things:

- It classifies a media file by its extension.
- For a video, it reads frames until the reader fails and hashes each frame with an average hash.
- For an audio file, it picks peaks from a decibel spectrogram with a 20x20 maximum filter.
- It compares two fingerprints position by position.
- It reports the score of the one modality it compared.

Modules, one per concern:

- `Outcome`: `Option`, `Result` and the three failures the code raises. Failures are values.
- `MediaKind`: extension classification (`compare.py:18-23`).
- `Comparator`: the position-wise score (`compare.py:92-95`).
- `ImageHash`: the average hash of a luma grid (`compare.py:69-72`).
- `PeakPicking`: the maximum filter, the peak mask, `np.where` and the swap to
  `(time, frequency)` (`compare.py:43-45`).
- `FrameReading`: the frame reader and the frames read before the first failure (`compare.py:49-56`).
- `ContentFingerprinting`: the class itself.
  - Its constructor, `Open`, takes the media type from the path (`compare.py:17-26`).
  - The two fingerprinting methods are loops over the reader and the frames (`compare.py:49-67`).
  - `Compare` builds the report (`compare.py:75-90`).

Notes on the model:

- **Decoding is a parameter.** The decoders (`VideoFileClip`, `librosa.load` followed by the
  STFT) become function parameters of the constructor. Frames arrive already converted to
  8-bit luma and resized. The spectrogram arrives as an integer matrix, one row per
  frequency bin and one column per time frame.
- **Failures are values.** Three of the code's exceptions become `Err` results:
  - `ValueError("Unsupported file format.")` becomes `UnsupportedFormat`.
  - A missing `'audio'` or `'video'` key in the other file's fingerprints becomes `MissingFingerprint`.
  - Dividing by `max(0, 0)` when both fingerprints are empty becomes `DivisionByZero`.
- **The filter is used but never imported.** `maximum_filter` is called at `compare.py:43` but
  never imported, so the file as written would stop there with a name error. The model gives
  the evident meaning: scipy's `maximum_filter` with `size=20` and its default `reflect` border.
  - The window of cell `i` runs from `i - 10` to `i + 9`.
  - `PeakPicking.ReflectBorderAgreesWithClipped` proves that a cell is a local maximum under
    the reflect border exactly when it is one under the window clipped to the array.
- **Peak order follows the code.** `np.where` on the frequency-by-time array lists peaks
  frequency-major: by frequency row, then by time column within a row. Each pair is then
  swapped to `(time, frequency)`. So the time values of the list are not non-decreasing
  across rows.
- **The frame reader is used as a pair but returns one value.** moviepy's
  `clip.reader.read_frame()` returns a single frame array, but `compare.py:52` and
  `compare.py:55` unpack it into `success, image`. As written, that unpacking fails on the
  first read, just as the missing import of `maximum_filter` fails. The model gives the
  evident meaning: a reader that reports success together with each frame and reports failure
  once no frame is left (`FrameReading.FrameReader.ReadFrame`).
- **The mean is exact.** The average hash compares each pixel with the mean. The model uses the
  exact integer form `pixel * count > sum` and proves it equivalent to the comparison with the
  real mean (`ImageHash.AboveMeanIff`). For the 32x32 byte grids the code hashes, the
  floating-point mean is exact as well.

## Model

| member | source | states |
|---|---|---|
| MediaKind.EndsWith | compare.py:18 | `str.endswith` with one suffix: the suffix fits and matches the last characters one by one, case-sensitively |
| MediaKind.EndsWithAny | compare.py:18-20 | `str.endswith` with a tuple, trying each suffix in turn: true exactly when some suffix of the tuple ends the path |
| MediaKind.Classify | compare.py:18-23 | video exactly when the path ends in .mp4/.avi/.mkv/.mov; audio exactly when it ends in .mp3/.wav/.flac/.aac; otherwise the UnsupportedFormat error |
| MediaKind.ExtensionsDisjoint | compare.py:18-21 | no path ends in both a video and an audio extension, so the order of the two tests decides nothing |
| MediaKind.UnrecognisedExtensionRejected | compare.py:18-23 | a path ending in any four-character extension other than the eight recognised ones is rejected |
| MediaKind.UpperCaseAndTextRejected | compare.py:18-23 | the match is case-sensitive: paths ending in ".MP4" or ".txt" are rejected |
| Outcome.OrZero | compare.py:88-89 | a present score is itself, an absent one reads as 0 |
| Comparator.Matches | compare.py:94 | the count of equal positions is at most either length |
| Comparator.MatchesSymmetric | compare.py:94 | the match count does not depend on argument order |
| Comparator.MatchesAllOfShorter | compare.py:94 | every position of the shorter sequence matches exactly when it is a prefix of the longer |
| Comparator.MatchesIgnoreTail | compare.py:94 | elements of the longer sequence past the shorter length never count |
| Comparator.FullMatch | compare.py:94-95 | the count reaches the longer length exactly when the sequences are equal |
| Comparator.Similarity | compare.py:92-95 | the score lies in [0, 1] and is 1 exactly when the two fingerprints are equal |
| Comparator.SimilaritySymmetric | compare.py:92-95 | the score is symmetric |
| Comparator.SelfSimilarity | compare.py:94-95 | a non-empty fingerprint scores 1 against itself |
| Comparator.PrefixSimilarity | compare.py:94-95 | a fingerprint against its own prefix of length k scores k / length |
| Comparator.TruncationExample | compare.py:94-95 | ten elements against their first five score 0.5 |
| Comparator.CompareFingerprints | compare.py:92-95 | fails with DivisionByZero exactly when both fingerprints are empty; otherwise the score, in [0, 1] |
| ImageHash.Flatten | compare.py:72 | `image.flatten()`: as many pixels as all the rows hold together (row-major placement is `FlattenAt`) |
| ImageHash.Mean | compare.py:71 | `np.mean`: the mean times the pixel count is the sum of the pixels |
| ImageHash.AboveMeanIff | compare.py:71-72 | pixel * count > sum exactly when the pixel exceeds the real mean |
| ImageHash.AverageHash | compare.py:69-72 | one character per pixel, each '0' or '1'; character i is '1' exactly when flattened pixel i exceeds the mean |
| ImageHash.FlattenLength | compare.py:72 | flattening an h-by-w image gives h * w pixels |
| ImageHash.FlattenAt | compare.py:72 | pixel (r, c) sits at the row's offset plus c in the flattened image |
| ImageHash.FlattenRowMajor | compare.py:72 | flattening is row-major: pixel (r, c) lands at r * width + c |
| ImageHash.HashLengthOfResizedFrame | compare.py:64-72 | a 32x32 grid hashes to 1024 characters |
| ImageHash.ConstantImageHashesToZeros | compare.py:71-72 | a uniform image hashes to all '0' |
| ImageHash.HashHasAZero | compare.py:71-72 | the hash of a non-empty image holds at least one '0' |
| ImageHash.HashIgnoresBrightnessShift | compare.py:71-72 | adding the same amount to every pixel leaves the hash unchanged |
| ImageHash.ShiftedBit | compare.py:71-72 | a pixel shifted by d is above the mean of the shifted pixels exactly when the original is above the original mean |
| PeakPicking.RowArgMax | compare.py:43 | the column chosen lies in the row segment searched |
| PeakPicking.RowArgMaxIsMax | compare.py:43 | no value of the segment exceeds the value at the chosen column |
| PeakPicking.BlockArgMax | compare.py:43 | the cell chosen lies in the block searched |
| PeakPicking.BlockArgMaxIsMax | compare.py:43 | no value of the block exceeds the value at the chosen cell |
| PeakPicking.MaxFilterAt | compare.py:43 | `maximum_filter(spectrogram_db, size=20)` at one cell: never below the cell's own value |
| PeakPicking.MaxFilterIsWindowMax | compare.py:43 | the filtered value bounds every cell of the clipped 20x20 neighbourhood and is held by one of them |
| PeakPicking.IsPeak | compare.py:43-44 | the cell test `(db > min_peak_height) & (filtered == db)`: above the floor and not below its filtered value |
| PeakPicking.PeakIffLocalMax | compare.py:43-44 | a cell passes the source's test exactly when it is above the floor and no neighbour is larger |
| PeakPicking.Reflect | compare.py:43 | the reflect border always reads an index inside the array |
| PeakPicking.ReflectStaysInClippedWindow | compare.py:43 | every index the reflecting filter reads lies in the clipped window |
| PeakPicking.ReflectBorderAgreesWithClipped | compare.py:43 | a cell is a local maximum under the reflect border exactly when it is one in the clipped window |
| PeakPicking.PeakIffReflectLocalMax | compare.py:43-44 | the peak test stated with the reflect border |
| PeakPicking.Where | compare.py:44 | the true cells of a mask, each exactly once, in strictly increasing row-major order |
| PeakPicking.WhereFrom | compare.py:44 | the true cells of the rows from r on, in row-major order |
| PeakPicking.WhereInRow | compare.py:44 | the true cells of one row from column c on, in column order |
| PeakPicking.MaskIsPeak | compare.py:43-44 | one cell of the peak mask is set exactly when that cell is a peak |
| PeakPicking.PeakMask | compare.py:43-44 | the mask holds true exactly at the cells passing the peak test |
| PeakPicking.Swapped | compare.py:45 | each (row, column) pair becomes (time = column, frequency = row), order kept |
| PeakPicking.SwappedCellsAreSet | compare.py:44-45 | every swapped pair names a true cell of the mask |
| PeakPicking.PeaksOfMaskSound | compare.py:43-45 | every pair naming a set cell of the peak mask names a peak |
| PeakPicking.PeaksOfMaskComplete | compare.py:43-45 | every peak is listed |
| PeakPicking.PeaksOfMaskCorrect | compare.py:43-45 | the swapped cells of the peak mask are exactly the peaks, strictly increasing frequency-major |
| PeakPicking.Peaks | compare.py:43-45 | every listed (t, f) is a peak, every peak is listed, and the list is strictly increasing frequency-major |
| PeakPicking.ReportedIffLocalMaxAboveFloor | compare.py:43-45 | (t, f) is reported exactly when value[f][t] is above the floor and no neighbour is larger, plateaus included |
| PeakPicking.IsolatedSpikeIsTheOnlyPeak | compare.py:43-45 | a single cell above the floor is the one and only peak |
| PeakPicking.SpikeIsListed | compare.py:43-45 | a cell above the floor with every other cell at or below the floor is listed |
| PeakPicking.NothingButTheSpikeIsListed | compare.py:43-45 | when only one cell is above the floor, every listed pair is that cell |
| PeakPicking.SortedListOfOnePeak | compare.py:44-45 | a strictly ordered peak list whose every entry is the same peak holds it once |
| FrameReading.TakeUntilFailure | compare.py:51-56 | the frames kept before the first failed read are never more than the reads |
| FrameReading.TakeUntilFailureStopsAtFirstFailure | compare.py:51-56 | the frames kept are the first reads in read order, and the next read failed |
| FrameReading.TakeAllWhenNoFailure | compare.py:51-56 | when every read succeeds, every frame is kept |
| FrameReading.ReadStep | compare.py:52-55 | one read either yields the next frame to keep or ends the reading |
| FrameReading.ReadAdvance | compare.py:53-55 | after a read, the frames still to keep are those after it, or none after a failure |
| FrameReading.FrameReader.constructor | compare.py:25 | a fresh reader at the first frame of the decoded stream |
| FrameReading.FrameReader.ReadFrame | compare.py:52 | each read advances by one; success exactly when a frame is there, and that frame is returned |
| ContentFingerprinting.VideoFingerprint | compare.py:61-67 | one average hash per frame, in frame order, each with one character per pixel |
| ContentFingerprinting.VideoFingerprintOfResizedFrames | compare.py:58-72 | 32x32 frames give one hash per frame, each 1024 characters of '0' and '1' |
| ContentFingerprinting.Report | compare.py:85-90 | only the compared modality's score is present, the other is None, and the overall score is their sum with None read as 0, which is the compared score |
| ContentFingerprinting.Score | compare.py:75-95 | errors when the other fingerprint is missing or both are empty; otherwise only the compared modality's score is present, and overall equals it, lies in [0, 1], and is the sum with None read as 0 |
| ContentFingerprinting.SelfComparisonScoresOne | compare.py:75-95 | a non-empty fingerprint compared with itself reports 1 for its modality and overall |
| ContentFingerprinting.ContentFingerprint.constructor | compare.py:18-26 | for a path classified as `kind`: a video gets a fresh reader over its decoded frames; an audio file gets its spectrogram |
| ContentFingerprinting.ContentFingerprint.Open | compare.py:17-26 | an unsupported extension yields the unsupported-format error and no object; otherwise a fresh object whose media type is the classification of the path, a video with a fresh reader at the start of its decoded frames, an audio file with its decoded spectrogram |
| ContentFingerprinting.ContentFingerprint.AudioFingerprints | compare.py:40-46 | exactly the cells above the floor (default 10) equal to their 20x20 neighbourhood maximum, frequency-major, as (time, frequency) |
| ContentFingerprinting.ContentFingerprint.ExtractKeyframes | compare.py:49-56 | the frames read before the first failed read, in read order; the reader has consumed them and the failed read |
| ContentFingerprinting.ContentFingerprint.GenerateVideoFingerprints | compare.py:58-67 | the average hash of each extracted frame, in frame order |
| ContentFingerprinting.ContentFingerprint.Compare | compare.py:75-90 | an audio file is scored on its peaks against the other's audio fingerprint; a video on its frame hashes against the other's video fingerprint, and its reader ends past the first failed read even when the other's fingerprint is missing |

## Left out

- Reading `compare.json` for the paths (`compare.py:11-15`) is file I/O. The path is a
  parameter of `Open`, and the output path is unused by the comparison.
- Decoding (`VideoFileClip`, `librosa.load` at 22050 Hz mono) is a foreign library call. The
  decoders are function parameters, and they are total: a decoding failure (the exception
  `VideoFileClip` or `librosa.load` raises on an unreadable file, `compare.py:25-26`, `31`) is
  not modelled.
- ContentFingerprinting.ContentFingerprint.Open: "fails before any decoding" rests on the body,
  which calls the constructor only for a supported extension. The contract cannot observe a
  call to a decoder; it states that an unsupported extension yields the error and no object.
- The STFT and `amplitude_to_db` (`compare.py:36-37`) are floating-point signal processing. The
  model takes the resulting decibel matrix, with integer entries, as input.
- `cv2.cvtColor` and the `INTER_AREA` resize (`compare.py:63-64`) are foreign image numerics.
  Frames arrive already as luma grids.
- `save_keyframes` (`compare.py:98-104`) creates directories and writes image files.
- The module-level example usage (`compare.py:107`) is a script side effect.
- `modifier.py` applies a fixed chain of moviepy effects and an encoder call. None of it is
  fingerprinting or comparison.
- ImageHash.AverageHash: compares with the exact real mean. For grids other than the 32x32 ones
  the code hashes, the floating-point mean could round differently; that rounding is not modelled.
- ContentFingerprinting.ContentFingerprint.ExtractKeyframes: the reader's outcomes are fixed in
  advance and finite, and every read past them fails. A reader that never reports failure, on
  which the source's loop would not end, is not represented. The reader returns a
  `(success, frame)` pair, as the code expects; moviepy's own reader does not (see above).
- Comparator.Similarity: the score is the exact ratio; Python's float division rounds it.
- Python's `None` results are `Option` values, and its exceptions are `Err` values. The model
  does not capture a stack trace or partially computed state.
