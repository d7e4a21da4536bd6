# SimpleFacerec in Dafny

This project models the bookkeeping and matching logic of the `SimpleFacerec`
face recogniser. The recogniser holds a gallery of known faces: parallel lists
of face encodings and person names. It also holds a frame resize factor of one
quarter. It has two operations:

- **loading encoding images**: visit the image files of a folder in order and
  add one gallery entry per image that decodes and shows a face. The entry is
  the image's first face encoding, named after the file without its extension;
- **detecting known faces**: for each face found in a shrunken video frame,
  take the nearest gallery entry (ties go to the earliest). Name the face after
  that entry if that same entry's match flag is set, and "Unknown" otherwise.
  Then map the face boxes back to the full-size frame.

The face library (detection, encoding, distance, matching) is not modelled.
Its results enter the model as data:

- per image file, a `ReadOutcome`: `DecodeFailed`, or `Decoded(encodings)`;
- per frame, the boxes found in the shrunken frame;
- per face, a `FaceScores` value: one distance and one match flag per gallery entry.

Modules, one per concern of `simple_facerec.py`:

- `PathNames` (`path_names.dfy`): the file-name-to-label rule. It follows the
  POSIX rules of `os.path.basename` and `os.path.splitext`, including the rule
  that leading dots never start an extension.
- `KnownFaces` (`known_faces.dfy`): the gallery, the per-file rule `AddFile`,
  the load fold `Load`, and an independent filter-then-map description of
  what loading appends.
- `FaceMatch` (`face_match.dfy`): first-minimum selection (`argmin`) and the
  per-face label rule.
- `BoxScaling` (`box_scaling.dfy`): the resize factor as an exact fraction,
  and rescaling of boxes by division and truncation.
- `SimpleFacerec` (`simple_facerec.dfy`): the recogniser state and its two
  operations, written as loops that follow `simple_facerec.py`.
- `Scenarios` (`scenarios.dfy`): worked examples. A four-file gallery with
  the names `faces/alice.jpg` and `faces/bob.png`, three labelled faces, and
  one rescaled box.

## Model

| member | source | states |
|---|---|---|
| PathNames.LastIndexOf | simple_facerec.py:32-33 | the result is the position of the last occurrence of the character, or -1 exactly when the character does not occur; this is the `rfind` both path helpers rely on |
| PathNames.Basename | simple_facerec.py:32 | the base name contains no `/`, is a suffix of the path, and is preceded in the path by a `/` whenever it is shorter than the path |
| PathNames.SplitExt | simple_facerec.py:33 | root followed by extension gives back the input; the extension is empty, or it starts with the one dot it contains and has no `/` |
| PathNames.Label | simple_facerec.py:32-33 | the stored name of an image is a prefix of its base name with no `/` in it, and it is either the whole base name or followed there by a dot, where the removed extension starts |
| PathNames.LabelPlusExtensionIsBasename | simple_facerec.py:32-33 | a gallery label followed by the removed extension is exactly the file's base name, and the label has no directory part |
| PathNames.GlobbedNameLosesLastExtension | simple_facerec.py:20-33 | for every name the `*.*` glob can enumerate (it has a dot and does not start with one), the extension is non-empty and the label is exactly the text before the last dot, and that text is non-empty |
| PathNames.BasenameOfJoin | simple_facerec.py:20-32 | the base name of a folder joined with a separator-free file name is that file name, whatever the folder |
| PathNames.LabelOfJoin | simple_facerec.py:20-33 | a file the `*.*` glob finds in a folder is labelled with its name up to the last dot |
| PathNames.LabelOfDirStemExt | simple_facerec.py:20-33 | the path `folder/stem.ext`, with a dot-free extension and a stem that does not start with a dot, gets the label `stem` |
| KnownFaces.AddFile | simple_facerec.py:24-43 | a file that fails to decode or shows no face leaves the gallery unchanged in size; any other file adds exactly one entry after the existing ones, holding its first encoding and its label; the two lists stay the same length |
| KnownFaces.Load | simple_facerec.py:23-43 | loading keeps encodings and names the same length and adds at most one entry per file |
| KnownFaces.LoadExtends | simple_facerec.py:42-43 | loading never removes or reorders existing entries: the old encodings and names are prefixes of the new ones |
| KnownFaces.LoadCons | simple_facerec.py:23-43 | loading a file and then more files is considering the first file and loading the rest, in enumeration order |
| KnownFaces.LoadSkipsRejected | simple_facerec.py:25-39 | a file that fails to decode or shows no face leaves no trace; loading continues with the next file |
| KnownFaces.LoadAccepted | simple_facerec.py:36-43 | loading one file that decodes and shows a face appends its first encoding to the encodings and its label to the names |
| KnownFaces.LoadSingle | simple_facerec.py:23-43 | loading a one-file list is the per-file rule applied to that file |
| KnownFaces.AcceptedFiles | simple_facerec.py:24-39 | the files that survive both skip checks: every kept file is one of the enumerated files and decodes and shows at least one face, and every enumerated file that does so is kept |
| KnownFaces.EntriesOf | simple_facerec.py:41-43 | the entries a run of accepted files contributes: one encoding and one name per file, so the two lists have the same length as the run |
| KnownFaces.EntriesOfPointwise | simple_facerec.py:41-43 | in the entries a run of accepted files contributes, entry k holds the k-th file's first encoding under that file's label |
| KnownFaces.LoadAppendsAcceptedEntries | simple_facerec.py:23-43 | loading appends exactly the entries of the accepted files, in enumeration order, after the existing ones; with `EntriesOfPointwise`, new entry k holds the first encoding and the label of the k-th accepted file |
| KnownFaces.LoadCountsAcceptedFiles | simple_facerec.py:36-43 | the gallery grows by exactly the number of files that decode and show a face |
| KnownFaces.LoadConcatenation | simple_facerec.py:9-43 | calling the loader on two batches in turn gives the same gallery as loading both batches at once, because the lists persist on the object and are only appended to |
| KnownFaces.LoadOfRejectedFilesIsIdentity | simple_facerec.py:24-39 | a batch of only unreadable or faceless images leaves the gallery exactly as it was |
| FaceMatch.ArgMin | simple_facerec.py:68 | the result is the first position of the smallest distance: no distance is smaller, and every earlier one is strictly larger |
| FaceMatch.SelectLabel | simple_facerec.py:63-70 | with an empty gallery the label is "Unknown"; otherwise it is the name at the first minimum distance when that entry's own flag is set, and "Unknown" when it is not, whatever the other flags say; the label is always "Unknown" or a gallery name |
| FaceMatch.ThresholdedSelection | simple_facerec.py:63-70 | for any match flags that are "distance within tolerance" on the same distances, a face gets the nearest entry's name whenever any entry is within tolerance, and "Unknown" when none is |
| BoxScaling.RescaleCoord | simple_facerec.py:75-76 | a coordinate divided by the factor `num/den` and truncated: the result r satisfies r·num ≤ c·den < (r+1)·num |
| BoxScaling.RescaleBox | simple_facerec.py:75-76 | each of the four coordinates of a box is divided by the factor and truncated: r·num ≤ c·den < r·num + num for each coordinate c and its result r |
| BoxScaling.RescaleLocations | simple_facerec.py:75-76 | one rescaled box per detected box, in detection order |
| BoxScaling.RescaleByReciprocalIsExact | simple_facerec.py:75-76 | dividing by a factor 1/n and truncating is multiplying by n, with no rounding loss |
| BoxScaling.DefaultRescaleIsTimesFour | simple_facerec.py:13 | with the quarter factor, each rescaled box is four times the detected box, coordinate by coordinate |
| BoxScaling.RescaleCoordMonotonic | simple_facerec.py:75-76 | rescaling never swaps the order of two coordinates |
| BoxScaling.RescalePreservesWellFormed | simple_facerec.py:75-76 | a box with top ≤ bottom and left ≤ right keeps that shape after rescaling |
| SimpleFacerec.Init | simple_facerec.py:8-13 | a new recogniser has an empty gallery with parallel lists, and its factor rescales every coordinate to four times its value |
| SimpleFacerec.LoadEncodingImages | simple_facerec.py:15-45 | the loop over the files produces the gallery of the `Load` fold, keeps the resize factor and the parallel-list invariant, and adds exactly one entry per accepted file |
| SimpleFacerec.DetectKnownFaces | simple_facerec.py:47-76 | one label per face and one box per location, in order; each label is the label rule applied to that face's scores, and is "Unknown" or a gallery name; an empty gallery labels every face "Unknown"; each box is the rescaled detected box |
| Scenarios.ExampleGalleryShape | simple_facerec.py:23-43 | a file with two faces, an unreadable file, a faceless file and a file with one face give two entries: the first face of the first file and the face of the last file, under those files' labels |
| Scenarios.ExampleGallery | simple_facerec.py:15-45 | with the files `faces/alice.jpg` and `faces/bob.png` in those roles, the gallery names are "alice" and "bob" |
| Scenarios.ExampleLabelling | simple_facerec.py:61-72 | a face nearest to a matching entry gets that entry's name; a face matching nobody is "Unknown"; a face whose nearest entry does not match is "Unknown" even when another entry matches |
| Scenarios.ExampleRescale | simple_facerec.py:74-76 | the box (10, 50, 60, 5) found in the quarter-size frame is (40, 200, 240, 20) in the full frame |

## Left out

- Image decoding, colour conversion and frame resizing (`cv2.imread`, `cv2.cvtColor`, `cv2.resize`): they work on pixel buffers in a foreign library. A gallery image enters only as its `ReadOutcome`, and a frame only as the boxes and scores the library computes from it.
- Directory enumeration (`glob.glob`, `os.path.join`): filesystem I/O. The enumerated files are an input sequence in enumeration order. The `*.*` pattern appears only as the predicate `MatchesStarDotStar`: a premise of `GlobbedNameLosesLastExtension` and `LabelOfJoin`, and a conclusion of the helper `StemDotExt`.
- Face detection, encoding, distance and comparison (`face_recognition.face_locations`, `face_encodings`, `face_distance`, `compare_faces`): their internals belong to the face library. Distances and match flags are given per face. The tolerance behind the flags is hidden in the library; `ThresholdedSelection` takes "each flag is distance within tolerance" as a premise about the flags and covers that case.
- The alignment of the face library's outputs: `DetectKnownFaces` requires one score record per box, and one distance and one flag per gallery entry. These hold only by the face library's contract, so they are preconditions here rather than facts the model proves.
- Windows path handling (`ntpath`): the path rules modelled are the POSIX ones, with `/` as the only separator. On Windows, `glob` returns paths such as `faces\alice.jpg` and `ntpath` also splits on `\` and on drive prefixes, so labels there can differ from this model's.
- Progress and warning messages (`print`): console output with no effect on the result.
- Floating point: distances are exact reals, used only through their order. The resize factor is an exact fraction. For the quarter factor this matches the float computation exactly, since 0.25 is a power of two and `astype(int)` truncates non-negative values the same way as integer division. Other factors could differ from the float result by rounding.
- Box coordinates are natural numbers: the face library clips boxes to the image, so a negative coordinate, where truncation and floor would differ, does not arise.
- numpy array dtypes and shapes: the rescaled boxes are a sequence of four-field records.
