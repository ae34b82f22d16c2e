# archival_image_pipeline, modelled in Dafny

This project models the two scripts of an archival image pipeline. Both
consume the JSON file that a manual review of the scanned images produces.

- `create_pdfs.py` works in five steps:
  - It loads the review file. That file is either a bare rotation map, or an
    object holding `corrections`, `sectionBreaks` and `discards`.
  - It drops the discarded images of the sorted directory listing.
  - It pairs every survivor with its rotation.
  - It cuts the survivors into sections. Manual mode cuts at the review's
    section breaks. Automatic mode bin-packs by the estimated size
    `0.85 × bytes` against `max_size` MB.
  - It writes section N as `<prefix>_part<N>.pdf`. The PDF holds every image
    of the section that decodes, each turned by its correction. A section in
    which no image decodes writes no PDF (create_pdfs.py:62-78), and its part
    number is skipped.
- `apply_corrections.py` reads a rotation map. It rewrites every image the map
  names, turned by its angle, and copies or skips the others. It counts every
  image as rotated, copied, skipped or an error.

The model works on decoded JSON values (`PyJson.Value`). Python's behaviour on
those values is written out explicitly. This covers truthiness, `len()`,
`set()`, `in`, `.get` and the exceptions these raise on values of the wrong
kind. A raised exception is a `Result.Err` value at the point where the script
raises it.

Rotations are the group Z/4 (`Orientation.Turn`). `rotate_image` of both
scripts maps an angle into that group. The group acts on pixel positions.

Both section splits have their own spec function (`ManualSections`,
`AutoSections`). Each also has a declarative description of a correct split:
- a partition of the entries into non-empty sections;
- breaks open sections in manual mode;
- the size bound and the closing rule in automatic mode.

The spec function is proved to be the only split that meets its description.
Every modelled loop of the scripts is a method proved equal to its spec function:
- the discard filter;
- both split loops;
- `create_pdf`'s page loop;
- the part loop;
- the `stats` loop.

Four behaviours of the code are easy to misread. The model follows the code
in each:
- **Malformed review file.** A root that is not an object is not rejected.
  Any root that `len()` accepts loads as a legacy rotation map
  (create_pdfs.py:114-117), including a list or a string. Such a root raises
  only at `corrections.get` (create_pdfs.py:130), and only once an image
  survives the filter. A number, boolean or null root raises at `len()`
  (create_pdfs.py:117).
- **Missing corrections file.** `apply_corrections.py` prints a message and
  returns normally (apply_corrections.py:36-38,
  `ApplyCorrections.Outcome.MissingFile`). It raises nothing.
- **Output files.** `apply_corrections.py` writes only the rotated images
  (apply_corrections.py:74), and the copied ones when the copy flag is set
  (apply_corrections.py:82-85). A skipped or failed image gets no file. When
  a listed image raises at `corrections[filename]` (apply_corrections.py:65),
  the files already written stay (`ApplyCorrections.Outcome.Crashed` carries
  them).
- **Write failures.** In `create_pdf` an exception from `save`
  (create_pdfs.py:63-70) is not caught, so it ends the run (see Left out).

The two scripts also disagree with each other. `apply_corrections.py` reads its
whole file as a rotation map. Given a file in the current shape, it therefore
matches only an image named like one of the top-level keys (`corrections`,
`sectionBreaks`, `discards`), so in practice it rotates nothing
(`ApplyCorrections.CurrentShapeMatchesNothing`).

## Model

| member | source | states |
|---|---|---|
| PyJson.Truthy | create_pdfs.py:51 | `if rotation:`: a string, list or object is true iff its `len()` is not 0, a number iff it is not 0, and null is false. |
| PyJson.ToSet | create_pdfs.py:112-113 | `set(v)` succeeds exactly on strings, objects and lists of hashable values. A list gives its elements, an object its keys and a string one-character strings. Anything else raises. |
| PyJson.SubstringOccurs | apply_corrections.py:63 | The front-to-back substring search succeeds iff the name occurs as a contiguous run at some index. |
| PyJson.Contains | apply_corrections.py:63 | `filename in corrections`: for an object, the name is a key; for a list, some element is that string; for a string, the name occurs in it as a substring. |
| Orientation.Compose | apply_corrections.py:13-21 | Applying b and then a adds their counter-clockwise quarter turns modulo 4. |
| Orientation.Inverse | apply_corrections.py:13-21 | Every turn has a turn that undoes it from either side. |
| Orientation.Degrees | create_pdfs.py:22-30 | A turn's angle is one of 0, 90, 180 and 270 degrees. |
| Orientation.FromAngle | create_pdfs.py:22-30 | `rotate_image`: the value is 90 iff the turn is a counter-clockwise quarter turn, 180 iff a half turn, 270 iff a clockwise quarter turn. Every other value is no turn. |
| Orientation.AngleRoundTrip | apply_corrections.py:13-21 | Turns and the four review angles correspond one to one, in both directions. |
| Orientation.FalsyIsIdentity | create_pdfs.py:51-52 | Skipping `rotate_image` for a falsy rotation changes nothing, and an unknown number turns nothing. |
| Orientation.ComposeAngles | apply_corrections.py:13-21 | Applying two review angles in turn is applying their sum modulo 360. |
| Orientation.QuarterTurnCycles | apply_corrections.py:13-21 | Four 90s, 90 then 270, and 180 twice are each the identity. |
| Orientation.GroupLaws | apply_corrections.py:13-21 | Composition is associative and commutative, with the identity as unit. |
| Orientation.MoveUndo | apply_corrections.py:13-21 | Turning back by the inverse turn restores the width and height and takes every pixel back where it started, so each turn is a bijection on pixels. |
| Orientation.Move | apply_corrections.py:15-20 | A turn moves each pixel of a w×h image into the turned frame. |
| Orientation.QuarterTurnDirections | apply_corrections.py:15-20 | The counter-clockwise turn takes the top-right corner to the top-left. The clockwise turn takes the top-left corner to the top-right. |
| Orientation.MoveComposes | apply_corrections.py:13-21 | Moving pixels by b and then by a is moving them by their composition (a group action). |
| Listing.StrLessIrreflexive | create_pdfs.py:19 | Python's string order never puts a name before itself. |
| Listing.SortedDistinct | create_pdfs.py:19 | A strictly sorted listing repeats no name. |
| ReviewArtifact.Load | create_pdfs.py:102-117 | Three cases:<br>- no file gives no corrections, breaks or discards;<br>- an object with a `corrections` key loads iff both lists convert with `set()` and the corrections accept `len()`, and then gives its three parts, with a missing list empty;<br>- any other root loads iff `len()` accepts it, as the rotation map with no breaks or discards. |
| ReviewArtifact.LoadWellFormed | create_pdfs.py:110-113 | A current-shape file with an object of corrections and lists of names always loads. A name is a break (a discard) exactly when the file lists it there. |
| ReviewArtifact.LoadRejectsScalarRoot | create_pdfs.py:114-117 | A number, boolean or null root raises at `len()`. |
| CorrectionPipeline.Kept | create_pdfs.py:127-129 | The filter never lengthens the listing. |
| CorrectionPipeline.Prepare | create_pdfs.py:126-131 | Each survivor is paired with `corrections.get(name, 0)`, in order. It raises exactly when a file survives and the corrections are not an object. |
| CorrectionPipeline.FilterDiscards | create_pdfs.py:126-131 | The loop computes `Prepare`, including where it raises. |
| CorrectionPipeline.KeptMembers | create_pdfs.py:128-129 | A file survives iff it is in the listing and not discarded. |
| CorrectionPipeline.KeptLength | create_pdfs.py:126-131 | The output length is the input length minus the number of discarded files. |
| CorrectionPipeline.CountDiscardedIsIntersection | create_pdfs.py:126-131 | For a duplicate-free listing, the number of files removed is the size of names ∩ discards. |
| CorrectionPipeline.KeptSorted | create_pdfs.py:122-131 | Filtering keeps a sorted listing sorted, so the relative order is preserved. |
| Paginator.ManualFromValid | create_pdfs.py:142-152 | The manual split partitions its input into non-empty sections. Every section after the first opens with a break, and no other entry is a break. |
| Paginator.ManualFromUnique | create_pdfs.py:142-152 | Any split with those properties is the one the loop builds. |
| Paginator.ManualSections | create_pdfs.py:142-152 | The manual split is a correct one: a partition into non-empty sections, each after the first opening with a break and holding no other break. |
| Paginator.ManualSectionsCharacterised | create_pdfs.py:142-152 | A split is a correct manual split iff it equals `ManualSections`, so it is the only one. |
| Paginator.ManualFromCount | create_pdfs.py:145-152 | The number of sections is what has been opened plus one per break after the first entry. |
| Paginator.ManualSectionCount | create_pdfs.py:145-152 | There are 1 + (breaks among the non-first entries) sections. With no such break there is one section holding everything. |
| Paginator.SectionCount | create_pdfs.py:145-174 | Non-empty sections are never more than the entries they hold. |
| Paginator.SplitManual | create_pdfs.py:142-152 | The loop returns `ManualSections`, a correct manual split. |
| Paginator.AutoFromValid | create_pdfs.py:157-174 | The automatic split partitions its input into non-empty sections. Each section's estimate is within `max_bytes` or the section is a single entry. A section is closed only when the next entry would exceed the bound. |
| Paginator.AutoFromUnique | create_pdfs.py:157-174 | Any split with those properties is the one the loop builds. |
| Paginator.AutoSections | create_pdfs.py:157-174 | The automatic split is a correct one: a partition into non-empty sections, each within the bound or a single entry, each closed only when the next entry would exceed the bound. |
| Paginator.AutoSectionsCharacterised | create_pdfs.py:157-174 | A split is a correct automatic split iff it equals `AutoSections`, so it is the only one. |
| Paginator.SplitAuto | create_pdfs.py:157-174 | The loop, with its running `current_size`, returns `AutoSections`, a correct automatic split. |
| ArchiveWriter.Pages | create_pdfs.py:41-57 | A section yields at most one page per entry. |
| ArchiveWriter.CreatePdf | create_pdfs.py:33-78 | The count is the number of entries that decode. No document is written iff that count is 0, which includes empty input. Otherwise the document holds those pages in order. |
| ArchiveWriter.PagesAppend | create_pdfs.py:41-57 | The pages of two runs of entries are the pages of the first, then those of the second. |
| ArchiveWriter.PagesMembers | create_pdfs.py:41-60 | A page comes from an entry that decodes, and every such entry gives its page. |
| ArchiveWriter.PagesAllDecode | create_pdfs.py:41-57 | When every image decodes, page i comes from entry i and is turned by its correction. |
| ArchiveWriter.PagesNoneDecode | create_pdfs.py:59-78 | When no image decodes there is no page. |
| ArchiveWriter.Decimal | create_pdfs.py:186 | `f"{part_num}"`: one or more decimal digits, at least two from 10 on, and a leading zero only for 0 itself. |
| ArchiveWriter.DecimalRoundTrip | create_pdfs.py:186 | Reading those digits back gives the part number. |
| ArchiveWriter.PartName | create_pdfs.py:186 | The name is the prefix, then `_part`, then digits that read back as the part number with no leading zero, then `.pdf`. |
| ArchiveWriter.MaxBytes | create_pdfs.py:157 | The byte budget is a whole number of mebibytes, `max_size` of them. |
| ArchiveWriter.PartNameInjective | create_pdfs.py:184-186 | Different part numbers give different file names. |
| ArchiveWriter.CreatePdfs | create_pdfs.py:101-189 | `main` computes `Run`, including every point where it raises. |
| ArchiveWriter.WriteParts | create_pdfs.py:184-189 | Part i + 1 is written from section i, unless no image of that section decodes. |
| ArchiveWriter.Sections | create_pdfs.py:135-176 | The sections partition the survivors into non-empty sections, so no survivor gives no section. When survivors exist, a review with breaks gives a correct manual split, and one without gives a correct automatic split under `max_size` MB. |
| ArchiveWriter.Documents | create_pdfs.py:184-189 | Never more PDFs than sections. |
| ArchiveWriter.DocumentsCount | create_pdfs.py:184-189 | Exactly one PDF per section in which some image decodes. |
| ArchiveWriter.DocumentsParts | create_pdfs.py:184-189 | Every PDF is named after its part number and holds the non-empty pages of its own section. |
| ArchiveWriter.DocumentsOrdered | create_pdfs.py:184-186 | Part numbers strictly increase along the PDFs written. |
| ArchiveWriter.DocumentsPages | create_pdfs.py:184-189 | Together the PDFs hold the pages of all sections, in order. |
| ArchiveWriter.Run | create_pdfs.py:101-189 | A review file that does not load ends the run with its exception. Otherwise the run raises iff pairing the survivors with rotations raises. A successful run writes no more PDFs than there are files. |
| ArchiveWriter.RunOutput | create_pdfs.py:101-189 | A successful run writes nothing when no image survives. Its distinctly named `<prefix>_part<N>.pdf` files, with N increasing from 1, hold every surviving image that decodes, once each and in listing order. |
| Scenarios.ExampleLoads | create_pdfs.py:107-113 | The worked review file loads into one rotation, one break and one discard. |
| Scenarios.ExamplePrepared | create_pdfs.py:126-131 | In the worked example b.jpg is dropped, a.jpg keeps 90, and c.jpg and d.jpg get 0. |
| Scenarios.ExampleSections | create_pdfs.py:140-152 | The break at c.jpg gives the worked example the sections [a] and [c, d]. |
| Scenarios.ExampleRun | create_pdfs.py:101-189 | The worked example writes part 1 with a.jpg turned counter-clockwise, and part 2 with c.jpg and d.jpg unturned. |
| Scenarios.AutoExample | create_pdfs.py:157-174 | With a 1000-byte budget, two 600-byte images go into separate sections. |
| Scenarios.EmptyDirectory | create_pdfs.py:135-137 | An empty directory writes no PDF and raises nothing once the review loads. |
| ApplyCorrections.Process | apply_corrections.py:57-88 | The loop raises only the bad-index exception, and never when the corrections are an object. |
| ApplyCorrections.Apply | apply_corrections.py:34-88 | A run ends as a missing file iff there is no file. A scalar file raises at `len()` before writing anything. Only that and the bad index can be raised. An object of corrections always completes. |
| ApplyCorrections.ApplyCorrections | apply_corrections.py:34-88 | `main` computes `Apply`: a missing file, a `len()` failure, the first raising image with the files written before it, or the counters and files of the whole loop. |
| ApplyCorrections.Written | apply_corrections.py:59-88 | The files left in the output directory are those of the completed loop whenever no image raises. |
| ApplyCorrections.ProcessCrashPersists | apply_corrections.py:59-65 | Once an image raises, the whole run ends with that exception. |
| ApplyCorrections.WrittenAtCrash | apply_corrections.py:63-65 | The image that raises adds no file to those written before it. |
| ApplyCorrections.WrittenPersists | apply_corrections.py:59-65 | Nothing is written after the first image that raises. |
| ApplyCorrections.CrashAt | apply_corrections.py:59-88 | The run stops at the first raising image, with its exception and the files written before it. |
| ApplyCorrections.UnlistedAreCopied | apply_corrections.py:82-88 | While no image is listed, nothing raises, and the files written are exactly the copies of the images seen, in order, or none without the copy flag. |
| ApplyCorrections.CrashKeepsCopies | apply_corrections.py:63-85 | With a list or a string of corrections, the run raises at the first listed image and leaves the copies of the unlisted images before it in the output directory. |
| ApplyCorrections.MissingFileDoesNothing | apply_corrections.py:35-38 | A missing corrections file ends the run before any image is examined. |
| ApplyCorrections.ProcessCrashes | apply_corrections.py:43-65 | The loop raises iff the corrections are a list or a string and some image is found in them. |
| ApplyCorrections.ProcessCounts | apply_corrections.py:57-88 | The four counters sum to the number of images. Rotated plus errors is the number of listed images, whatever their angle, and errors is the number of listed images not rewritten. Copied is 0 without the flag and skipped is 0 with it. The number of files written is rotated plus copied. |
| ApplyCorrections.ProcessOutputs | apply_corrections.py:59-88 | Outputs keep their input names. An image gets an output iff it is listed and rewritten (turned by its angle) or unlisted with the copy flag set (copied as is). An unreadable image gets none. |
| ApplyCorrections.ProcessSorted | apply_corrections.py:50-61 | Images are handled in sorted order, so the output names are sorted and none is written twice. |
| ApplyCorrections.CurrentShapeMatchesNothing | apply_corrections.py:40-65 | An object none of whose top-level keys is an image name, such as a file in the shape of create_pdfs.py's review, matches no image. Nothing is rotated and nothing is an error. |

## Left out

- Directory listing and extension filtering (create_pdfs.py:12-19, apply_corrections.py:50-55) are not modelled. The listing is a given sequence of files, and lemmas that need it sorted or duplicate-free require it.
- `stat().st_size` is not modelled: sizes are given natural numbers.
- JSON text parsing is not modelled: the review file is a decoded value, and a file that is not valid JSON is not modelled.
- JSON numbers are integers. Floats are not modelled: an angle of `90.0` is equal to 90 in Python but cannot be expressed.
- The floating-point sum of `size * 0.85` is left out. The model compares `85 × bytes` with `100 × max_bytes`, exactly.
- Image decoding, `convert('RGB')` and the MPO `seek(0)` are one oracle, `decodes`, on the file name. The pixel work of `transpose` and `cv2.rotate` is represented by the turn a page or output carries, and by `Orientation.Move`.
- PDF encoding and the `quality` and `optimize` options are not modelled. `close()` and the size report after each part (create_pdfs.py:191-193) are not modelled either.
- ArchiveWriter.CreatePdf: does not model an exception raised by `save`, which the script does not catch. A written PDF is assumed to exist afterwards.
- ArchiveWriter.CreatePdf: the truth value of a loaded PIL image in `if first_image:` is taken to be true.
- ApplyCorrections.Classify: reading, turning and writing an image is one oracle, `attempt`. `Rewritten` means the try block completed. A `cv2.imwrite` that returns False without raising is modelled as a written file, though the script counts it as rotated without writing one.
- ApplyCorrections.ApplyCorrections: does not model a failing `shutil.copy2`, whose exception the script does not catch. Copying is assumed to succeed.
- `argparse`, `mkdir` and every `print` are not modelled. That includes the section listing, the summary and the progress line every 100 images (apply_corrections.py:90-91).
