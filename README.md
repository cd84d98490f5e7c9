# ThreatSleuth core in Dafny

ThreatSleuth classifies an uploaded file as malicious or benign. Its backend reduces
the file to a feature vector `[file_size, entropy, imports_count]`. The third feature
is a secondary signal: the PE import count for executables, a composite score for zip
archives, and 0 otherwise. The backend then scores the vector, either with a trained
classifier or with a fixed rule table (the fallback scorer), and explains the verdict
as an ordered list of sentences. The browser client refuses oversized files and
unknown extensions before it uploads anything.

This project models that core and proves its properties:

- `wrappers.dfy` (module `Wrappers`): `Option`.
- `text.dfy` (module `Text`): ASCII lower-casing, the last occurrence of a character,
  the text after the last dot, and the extension part of POSIX `os.path.splitext`.
- `feature_extractor.dfy` (module `FeatureExtractor`): `extract_features` and its
  helpers in backend/feature_extractor.py.
  - Every call into the file system or a parsing library is an input of type
    `Outcome`: the value it returned, or `Raised` for an exception.
  - The loops are methods proved equal to reference functions: the chunked byte
    count, the import accumulation, the suspicious-member count and the
    string-pattern count.
- `app.dfy` (module `App`): from backend/app.py, `allowed_file`,
  `fallback_prediction` and `generate_explanation`, and the part of
  `predict_malware` that turns features into the label, confidence and explanation.
  - The fallback scorer is an imperative accumulator proved equal to a rule table.
  - The explanation builder appends step by step. It is proved equal to a
    reference explanation whose shape, order and completeness are lemmas.
- `file_upload.dfy` (module `FileUpload`): the validation and outcome logic of
  `onDrop` in frontend/src/components/FileUpload.js. It returns the sequence of
  callback calls it makes.
- `upload_rules.dfy` (module `UploadRules`): how the client's type check relates to
  the server's `allowed_file`.

Modelling choices:

- Scores, entropies and confidences are exact `real`s, and the score is an exact sum
  of the rule deltas. The code adds floats, so a sum such as 0.3 − 0.1 comes out a
  few binary digits away from its exact value. Such a difference never changes a
  comparison with the threshold 0.2, so labels are the same; a confidence can differ
  from the code's in its last binary digits.
- Python's `Counter` is 256 counts indexed by byte value.
- "5 MB" in the code is 5 · 1024 · 1024 = 5242880 bytes.

Two boundaries of the scorer, as the code writes them:

- The rule that subtracts 0.1 for a file without imports compares `file_size < 10000`
  strictly (backend/app.py:150). So a 10000-byte file without imports fires neither
  zero-import rule (`App.NoImportRuleAtTenThousand`).
- The +0.15 size bonus needs more than 5242880 bytes (backend/app.py:128). Since
  5000000 < 5242880, the training script's vector `[5000000, 7.8, 150]` gets no size
  bonus and scores 0.8 (`App.SampleScores`).

## Model

| member | source | states |
|---|---|---|
| App.AllowedFile | backend/app.py:38-41 | a name is accepted iff it has a '.' at a position after which there is no '.', and the text after that position, lower-cased, is one of exe, zip, txt, bin, dll |
| App.AllowedFileExamples | backend/app.py:38-41 | `a.tar.EXE` is accepted; `file.` and the dot-less `exe` are refused |
| App.FallbackPrediction | backend/app.py:116-157 | the accumulated score equals the rule table's score; the label is 0 or 1, and 1 exactly when the score exceeds 0.2; the confidence is `|score| + 0.5` clamped into [0.5, 0.95]; a malicious label comes with confidence above 0.7 |
| App.RuleExclusivity | backend/app.py:131-151 | at most one of the +0.5/+0.3/+0.1 entropy tiers fires, at most one of the two low-entropy penalties, and at most one of the three import rules |
| App.FiredCountOfThree | backend/app.py:145-151 | the number of firing rules in a three-rule chain is the sum of the three indicators |
| App.NoImportRuleAtTenThousand | backend/app.py:146-151 | with no imports and a size of exactly 10000 bytes, no import rule fires |
| App.LowEntropyCountedTwice | backend/app.py:123-143 | a file under 10000 bytes with entropy under 3 gets both the −0.4 and the −0.3 penalty, so its score is at most −0.4 |
| App.SmallLowEntropyFilesAreBenign | backend/app.py:123-154 | a file under 10000 bytes with entropy under 4 never scores above the 0.2 threshold |
| App.SampleScores | backend/app.py:116-157 | the four sample vectors score 0, 0.8, 0.5 and 0, with confidences 0.5, 0.95, 0.95 and 0.5; the 5000000-byte vector gets no size bonus |
| App.ExplanationShape | backend/app.py:163-193 | an explanation has two to five segments, starts with the header of its label and ends with the confidence segment |
| App.ExplanationMiddle | backend/app.py:165-191 | every segment between the header and the confidence segment comes from the entropy, import or size group, in that order |
| App.ExplanationJustified | backend/app.py:165-193 | every segment's condition holds for the features and the label |
| App.ExplanationOrdered | backend/app.py:165-193 | the segments come in strictly increasing group order (header, entropy, imports, size, confidence), so the two entropy lines and the two import lines exclude each other |
| App.ExplanationComplete | backend/app.py:165-191 | each rationale segment appears iff its condition holds, e.g. the benign import line iff `1 <= imports_count <= 50` |
| App.ExplanationMembers | backend/app.py:163-193 | a segment is in the explanation iff it is the header, in the entropy, import or size group's segments, or the confidence segment |
| App.EntropyLinesComplete | backend/app.py:165-185 | the very-high-entropy line appears iff the label is malicious and entropy > 7.5, the high-entropy line iff the label is malicious and 7.0 < entropy ≤ 7.5, the normal-entropy line iff the label is benign and entropy < 6.0 |
| App.ImportLinesComplete | backend/app.py:173-188 | the many-imports line appears iff the label is malicious and imports > 100, the no-imports line iff the label is malicious and imports are 0, the reasonable-imports line iff the label is benign and 1 ≤ imports ≤ 50 |
| App.SizeLinesComplete | backend/app.py:178-191 | the large-size line appears iff the label is malicious and the size exceeds 5 MB, the small-size line iff the label is benign and the size is under 1 MB |
| App.ExplanationFacts | backend/app.py:163-193 | all of the above, for a given segment list equal to the reference explanation |
| App.GenerateExplanation | backend/app.py:159-195 | the list appended step by step equals the reference explanation, with its length bounds, header, confidence tail, justification, order and completeness |
| App.PredictionLabel | backend/app.py:97 | the label is "malicious" iff the prediction is 1, and "benign" iff it is not |
| App.PredictMalware | backend/app.py:74-105 | the features are the extractor's; the label is "malicious" or "benign"; without a model the label is malicious iff the score exceeds 0.2 and the confidence lies in [0.5, 0.95]; with a model the label follows its prediction and the confidence is the larger class probability; without a model the confidence is `|score| + 0.5` clamped into [0.5, 0.95]; the explanation has 2 to 5 segments, its header matches the label, its last segment carries the confidence, and it equals the reference explanation for the features, the label's prediction and the confidence |
| FeatureExtractor.CountBytes | backend/feature_extractor.py:50-59 | reading in chunks of any positive size yields the histogram of the whole content, a total equal to its length, and counts that sum to the total |
| FeatureExtractor.HistogramSum | backend/feature_extractor.py:50-59 | the counts of a histogram add up to the content length |
| FeatureExtractor.SumIncrement | backend/feature_extractor.py:58 | incrementing one count increments the sum by one |
| FeatureExtractor.ZeroSum | backend/feature_extractor.py:50 | a fresh all-zero counter sums to zero |
| FeatureExtractor.CalculateEntropy | backend/feature_extractor.py:45-75 | the entropy is the log2 sum over the whole content's histogram, and 0 when the file cannot be read or is empty |
| FeatureExtractor.DirectoryImportsAppend | backend/feature_extractor.py:88-90 | the import total of two lists of directory entries is the sum of their totals |
| FeatureExtractor.NoImports | backend/feature_extractor.py:89-90 | entries without an `imports` attribute contribute nothing |
| FeatureExtractor.EntriesWithoutImportsAddNothing | backend/feature_extractor.py:89-90 | appending entries without `imports` leaves the total unchanged |
| FeatureExtractor.ExtractPeImportsCount | backend/feature_extractor.py:77-97 | the loop's count is the sum of the import-list lengths over the entries that carry one; 0 without PE support, when parsing raises, or without an import directory |
| FeatureExtractor.SuspiciousByLastExtension | backend/feature_extractor.py:107-113 | a member `root.e` is suspicious iff `.e`, lower-cased, is listed: only the last extension counts (`x.exe.txt` is not suspicious) and case does not matter (`dir/B.EXE` is) |
| FeatureExtractor.NoExtensionNotSuspicious | backend/feature_extractor.py:111-112 | a member whose name has no extension is not suspicious |
| FeatureExtractor.DotFileNotSuspicious | backend/feature_extractor.py:111 | a member named only by a dot and an extension (`.exe`, `dir/.exe`) is not suspicious |
| FeatureExtractor.SuspiciousCountBound | backend/feature_extractor.py:108-113 | no more members are suspicious than there are members |
| FeatureExtractor.SuspiciousCountAppend | backend/feature_extractor.py:110-113 | the suspicious counts of two member lists add up |
| FeatureExtractor.SuspiciousCountSnoc | backend/feature_extractor.py:110-113 | one more member adds exactly one to the suspicious count when it is suspicious and nothing otherwise |
| FeatureExtractor.ZipScoreBounds | backend/feature_extractor.py:104-116 | an archive of n members scores between n and 11·n, and 0 only when empty |
| FeatureExtractor.ExtractZipFeatures | backend/feature_extractor.py:99-120 | the loop computes members plus ten per suspicious member, and 0 when the archive cannot be read |
| FeatureExtractor.OccurrencesFit | backend/feature_extractor.py:135 | non-overlapping occurrences of a non-empty pattern fit in the content: count · length ≤ content length |
| FeatureExtractor.OccurrencesPositive | backend/feature_extractor.py:135 | a non-empty pattern is counted at least once iff it occurs somewhere |
| FeatureExtractor.TotalOccurrencesAppend | backend/feature_extractor.py:134-135 | the occurrence total over two pattern lists is the sum of their totals |
| FeatureExtractor.ExtractStringFeatures | backend/feature_extractor.py:122-141 | the loop sums the occurrence counts of the eight API names, and gives 0 when the file cannot be read |
| FeatureExtractor.ExtractFeatures | backend/feature_extractor.py:18-43 | the vector is size, entropy and the extension-chosen signal, and `[0, 0, 0]` when the size lookup raises |
| FeatureExtractor.DotPrefixedIn | backend/feature_extractor.py:31-33 | a dot in front of a word is in the dotted extension list iff the word is in the plain list |
| FeatureExtractor.DispatchByExtension | backend/feature_extractor.py:29-36 | for `root.e`, the third feature is the PE import count when `e` lower-cases to exe, dll or bin, the zip score for zip, and 0 for any other extension |
| FeatureExtractor.DotFileNotInspected | backend/feature_extractor.py:29-36 | a name like `uploads/.exe` has no extension, so its third feature is 0 |
| FeatureExtractor.NoExtensionNotInspected | backend/feature_extractor.py:29-36 | when the size lookup succeeds, a path without an extension gets third feature 0 |
| FeatureExtractor.NoDotNotInspected | backend/feature_extractor.py:29-36 | when the size lookup succeeds, a path whose final component holds no '.' (`uploads/README`) gets third feature 0 |
| Text.LastIndexOf | backend/app.py:41 | the result is -1 or a position of the character, and no later position holds it |
| Text.AfterLastDot | backend/app.py:41 | the result is the dot-free suffix after the last '.', or the whole string when there is none |
| Text.SplitextShape | backend/feature_extractor.py:29 | an extension is empty or a '.' followed by neither '.' nor '/', and it is a suffix of the path |
| Text.NoneAfterLast | backend/feature_extractor.py:29 | no position after the last occurrence of a character holds it |
| Text.LastIndexOfAppend | backend/feature_extractor.py:29 | appending text without the character does not move its last occurrence |
| Text.LeadingDotsAppend | backend/feature_extractor.py:29 | text after a component that is not all dots leaves its leading dots unchanged |
| Text.LastMarksOfExtension | backend/feature_extractor.py:29 | in `root.e`, with `e` free of '.' and '/', the last '.' is the one before `e` and the last '/' is that of `root` |
| Text.SplitextOfExtension | backend/feature_extractor.py:29 | `root.e`, with `e` free of '.' and '/' and a final root component that is not all dots, has extension `.e` |
| Text.BareDotFileHasNoExtension | backend/feature_extractor.py:29 | `.e` has no extension |
| Text.DotFileHasNoExtension | backend/feature_extractor.py:29 | `dir/.e` has no extension |
| Text.NoDotNoExtension | backend/feature_extractor.py:29 | a path whose final component holds no '.' has no extension |
| FileUpload.FileExtension | frontend/src/components/FileUpload.js:20 | the extension starts with '.'; a dot-less name gives '.' plus the whole name lower-cased; a dotted name gives the '.' at a position of the name followed by the lower-cased rest of the name after it, which holds no '.', so that '.' is the last one |
| FileUpload.ErrorMessage | frontend/src/components/FileUpload.js:43-49 | a response with a non-empty `error` shows that text, a missing or empty one shows 'Server error occurred', no response shows the connection message, anything else 'An unexpected error occurred' |
| FileUpload.OnDrop | frontend/src/components/FileUpload.js:7-50 | an empty drop makes no call; an oversized first file gets the size message whatever its type; a file of another type gets the type message; analysis starts iff both checks pass, and then comes first and once, followed by the request's result or error; never more than two calls |
| FileUpload.OnlyFirstFileExamined | frontend/src/components/FileUpload.js:8-10 | files after the first do not affect the outcome |
| FileUpload.SizeCapBoundary | frontend/src/components/FileUpload.js:13-16 | a file of exactly 50 MiB with an allowed name starts the analysis; one byte more gets the size message |
| FileUpload.ErrorMessageExamples | frontend/src/components/FileUpload.js:44 | the server's error text is shown, and an empty one is replaced by 'Server error occurred' |
| UploadRules.ClientTypeIffServerExtension | frontend/src/components/FileUpload.js:19 | the client's dotted types are exactly the server's extensions with a dot in front |
| UploadRules.AllowedFileByLastDot | backend/app.py:38-41 | the server accepts a name iff it has a dot and its lower-cased text after the last dot is whitelisted |
| UploadRules.ClientAgreesOnDottedNames | frontend/src/components/FileUpload.js:19-22 | every name the server accepts passes the client's type check, and a dotted name passes the client's check only if the server accepts it |
| UploadRules.DotlessNameChecksWholeName | frontend/src/components/FileUpload.js:19-22 | a dot-less name passes the client's type check iff the whole name, lower-cased, is an allowed extension, so a file named `EXE` passes |
| UploadRules.DotlessNameDiverges | frontend/src/components/FileUpload.js:20-22 | a file named `exe` passes the client's type check but is refused by `allowed_file` |

## Left out

- The log2 sum of `calculate_entropy` (backend/feature_extractor.py:64-71) is floating-point transcendental arithmetic. It is the parameter `shannon`, applied to the histogram and the byte total.
- Reading files, `os.path.getsize`, `pefile` and `zipfile` are foreign calls and I/O. Their results are inputs: the content, the PE import directory and the archive's name list, each of which may be `Raised`.
- `extract_string_features` is not called by `extract_features`, so the model does not call it either.
- The text of the explanation is not modelled. Segments are a datatype carrying their numbers. The `:.2f`, `:.1f` and `:.1%` formatting and the final `" ".join` are left out.
- Model training and loading (backend/model_trainer.py, backend/train_model.py) are foreign libraries. The trained classifier is an optional function from features to a label and two class probabilities.
- Flask routing, `secure_filename`, saving and removing the temporary file, and the error and statistics responses (backend/app.py:43-73, 106-114, 197-209) are framework plumbing and I/O.
- Lower-casing covers ASCII letters only. Python's `str.lower` and JavaScript's `toLowerCase` also fold other Unicode letters.
- Paths use '/' as the only separator, as POSIX `os.path.splitext` does. Windows separators are not modelled.
- In FileUpload.js, the axios request, the dropzone setup and rendering are network and UI code. The outcome of the request is an input. The callbacks are assumed not to throw. A response without a `data` object is not modelled.
- Rendering in frontend/src/App.js and ResultDisplay.js is UI code.
- The `print` logging (backend/app.py:34, 36 and backend/feature_extractor.py:41, 74, 96, 119, 140 in the `except` handlers) is console output only and is left out. `onDrop` is `async` (frontend/src/components/FileUpload.js:7): the model treats each drop on its own and does not capture the interleaving of callbacks from overlapping drops.
- FeatureExtractor.ExtractZipFeatures: its contract does not restate the [n, 11·n] bounds. `FeatureExtractor.ZipScoreBounds` proves them for the same function.
