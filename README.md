# crop_pascal_voc in Dafny

A model of `process_voc_xml` and of the `Writer` class in `crop_pascal_voc.py`.
The model covers one run over a PASCAL VOC data directory:

- for every listed annotation, the run looks for the image `<data>/JPEGImages/<stem>.jpg`;
- a missing image is reported and its annotation is skipped;
- otherwise the annotation is parsed, and every object's box is clamped into the image;
- the region of interest of each object is written to `<output>/<class>/<class>_<n>.jpg`, where `n` comes from a per-class counter (`stat_dict`) that lives for the whole run;
- the image is copied to `<output>/JPEGImages/`;
- a mirrored annotation, with one record per object, is saved under `<output>/Annotations/`.

Modules:

- `Geometry` (geometry.dfy): boxes and the coordinate clamp of lines 98-101.
- `Crops` (crops.dfy): decoded images as rows of pixels, and the numpy slice `img[ymin:ymax, xmin:xmax, :]` with Python's slice rules (negative bounds count from the end, bounds are cut to the axis, a reversed range is empty).
- `Paths` (paths.dfy): POSIX `os.path.join`, `basename`, `dirname` and `splitext`, plus `str()` of an index and the crop file name.
- `ClassCounter` (class_counter.dfy): `stat_dict`, and the relation between the counter and the sequence of classes seen.
- `AnnotationWriter` (annotation_writer.dfy): the `Writer` class. Its `templateParameters` field is updated in place by `AddObject`.
- `CropPascalVoc` (pipeline.dfy): the run itself. The file system's answers are an environment (`Env`): whether a file exists, what an annotation parses to, and what an image decodes to. What the run does is an ordered log of effects: a printed path, a crop written, an image copied, an annotation saved.
  - `Run` specifies the run over a listing, and `ProcessItem` and `ObjectsPass` specify one item and its object loop.
  - `ProcessVocXml`, `ProcessListingItem` and `CropObjects` are the loops of the source, as methods, proved to produce exactly those logs and counters.
  - An exception ends the run: an unreadable annotation, an object without name, box or readable coordinate, or an object whose clamped box selects no pixel (cv2.imwrite refuses an empty image, line 104, before addObject). The log then stops where the source would have stopped.
- `CropPascalVocProperties` (pipeline_properties.dfy): properties of whole runs.

The clamp does not enforce xmin < xmax and never rejects a box. A box that is reversed, or lies off the image, comes out of the clamp with zero or negative extent on an axis, so its crop is empty (`Geometry.OffImageBoxCollapses`, `Crops.ClampedCropIsEmpty`). Writing that empty crop raises, and the run ends there (`CropPascalVocProperties.OffImageObjectRaises`, `PassOkIffWellFormed`).

## Model

| member | source | states |
|---|---|---|
| Geometry.Clamp | crop_pascal_voc.py:98-101 | the clamped coordinate lies in [0, dim-1] when dim >= 1, is the coordinate itself when already there, 0 below the range and dim-1 above it; with dim <= 0 it is dim-1 |
| Geometry.ClampIdempotent | crop_pascal_voc.py:98-101 | clamping a clamped coordinate changes nothing |
| Geometry.ClampMonotone | crop_pascal_voc.py:98-101 | clamping keeps the order of two coordinates |
| Geometry.ClampBox | crop_pascal_voc.py:98-101 | the clamped box lies on the image's pixels for a non-empty image, a box already there is unchanged, and an ordered box stays ordered |
| Geometry.ClampBoxIdempotent | crop_pascal_voc.py:98-101 | clamping a clamped box changes nothing |
| Geometry.OffImageBoxCollapses | crop_pascal_voc.py:98-101 | the clamp does not reject a box wholly right of the image: it collapses to zero width on the last column |
| Geometry.ClampExample | crop_pascal_voc.py:98-101 | (-5,10,120,70) on a 100x80 image becomes (0,10,99,70) |
| Crops.SliceBound | crop_pascal_voc.py:103 | a slice bound lands in [0, n]: itself when in range, counted from the end when negative, cut to 0 or n beyond the axis |
| Crops.Crop | crop_pascal_voc.py:103 | the region has as many rows and columns as the two slices select, and its pixel (y, x) is the image's pixel at (y0 + y, x0 + x) |
| Crops.CropOfBoxInside | crop_pascal_voc.py:103 | a box inside the image gives ymax-ymin rows of xmax-xmin pixels copied from (ymin+y, xmin+x) |
| Crops.CropOfReversedRange | crop_pascal_voc.py:103 | with non-negative coordinates, a reversed or degenerate range on either axis gives an empty region |
| Crops.CropOfClampedBox | crop_pascal_voc.py:98-103 | when the annotation's size is the image's, the crop of the clamped box has max(0, ymax'-ymin') rows and max(0, xmax'-xmin') columns, copied from (ymin'+y, xmin'+x) |
| Crops.ClampedCropIsEmpty | crop_pascal_voc.py:98-104 | when the annotation's size is the image's, the crop of the clamped box is empty exactly when the clamped box is reversed or degenerate on an axis |
| Crops.CropMissesLastRowAndColumn | crop_pascal_voc.py:98-103 | the rows and columns a crop copies stop before the image's last row and last column |
| Crops.CropExample | crop_pascal_voc.py:98-103 | the box (-5, 10, 120, 70) on a 100 x 80 image gives a crop of 60 rows of 99 pixels |
| Paths.RFind | crop_pascal_voc.py:75 | the result is -1 or an index holding the character, with no occurrence after it |
| Paths.Join | crop_pascal_voc.py:74-75 | os.path.join of two components; its properties are stated by JoinParts, JoinAfterDirectory and CropPascalVocProperties.JoinInjective |
| Paths.Basename | crop_pascal_voc.py:21 | os.path.basename; its properties are stated by BasenameParts, BasenameOfJoin and BasenameAfterDirectory |
| Paths.StripTrailingSlashes | crop_pascal_voc.py:22 | the rstrip('/') inside os.path.dirname; its properties are stated by StripTrailingSlashesParts |
| Paths.Dirname | crop_pascal_voc.py:108 | os.path.dirname; its properties are stated by DirnameParts, DirnameOfSlashed, DirnameOfJoin and DirnameOfJoinWithDirectory |
| Paths.Splitext | crop_pascal_voc.py:107 | os.path.splitext; its properties are stated by SplitextParts and SplitextOfAddedExtension |
| Paths.Stem | crop_pascal_voc.py:75 | os.path.splitext(p)[0]; its properties are stated by SplitextOfAddedExtension and BasenameOfReplacedExtension |
| Paths.JoinParts | crop_pascal_voc.py:74-75 | a joined path starts with the directory (unless the name is absolute), ends with the name, with at most one '/' inserted |
| Paths.BasenameParts | crop_pascal_voc.py:21 | the base name is the suffix of the path after its last '/' and holds no '/' |
| Paths.StripTrailingSlashesParts | crop_pascal_voc.py:22 | rstrip('/') removes exactly the run of slashes at the end |
| Paths.DirnameParts | crop_pascal_voc.py:108 | the path is its dirname, then slashes, then its base name |
| Paths.SplitextParts | crop_pascal_voc.py:107 | root + ext is the path, and a non-empty ext is a dot followed by neither '/' nor '.' |
| Paths.BasenameOfJoin | crop_pascal_voc.py:21 | the base name of dir/name is name, whatever dir is |
| Paths.BasenameAfterDirectory | crop_pascal_voc.py:107 | the base name of a name after a directory part ending in '/' is what follows that part |
| Paths.DirnameOfSlashed | crop_pascal_voc.py:108 | the dirname of y/name is y when y does not end in '/' |
| Paths.DirnameOfJoin | crop_pascal_voc.py:22 | the dirname of dir/name is dir when dir has no trailing '/' |
| Paths.DirnameOfJoinWithDirectory | crop_pascal_voc.py:108 | joined onto a, a name with a directory part sub/ has dirname a/sub, and one without has dirname a |
| Paths.SplitextOfAddedExtension | crop_pascal_voc.py:75 | splitting the extension off dir + stem + ext, for a directory part ending in '/', gives back (dir + stem, ext) |
| Paths.BasenameOfReplacedExtension | crop_pascal_voc.py:107 | basename(splitext(dir + stem + ext)[0] + new) is stem + new |
| Paths.JoinAfterDirectory | crop_pascal_voc.py:108-113 | a name joined onto the dirname d, with d + '/' equal to a/dir, is dir + name joined onto a |
| Paths.ReplaceExtensionUnder | crop_pascal_voc.py:107-113 | mirroring dir + stem + ext under a directory and giving it a new extension yields a/dir + stem + new: the directory part of the name is kept |
| Paths.DigitChar | crop_pascal_voc.py:104 | a digit below 10 is written as a decimal digit character |
| Paths.NatToString | crop_pascal_voc.py:104 | str(n) is non-empty, all decimal digits, one digit exactly when n < 10; what it denotes is stated by NatToStringValue and DigitsRoundTrip |
| Paths.NatToStringValue | crop_pascal_voc.py:104 | the digits of str(n) denote n, most significant first, and str(n) starts with '0' exactly when n is 0 |
| Paths.DigitsRoundTrip | crop_pascal_voc.py:104 | every digit string without a leading zero (other than "0") is str of the number it denotes, so str(n) is the one such string for n |
| Paths.NatToStringInjective | crop_pascal_voc.py:104 | different indices have different decimal strings |
| Paths.CropName | crop_pascal_voc.py:104 | the crop file name cls_<index>.jpg; its properties are stated by CropNameInjective and CropNameExample |
| Paths.CropNameInjective | crop_pascal_voc.py:104 | within one class, different indices give different crop file names |
| Paths.CropNameExample | crop_pascal_voc.py:104 | the dog crops are named dog_0.jpg and dog_1.jpg |
| ClassCounter.Bump | crop_pascal_voc.py:92-95 | a new class gets 0, a known class gets one more, no other class changes and no key disappears |
| ClassCounter.Occurrences | crop_pascal_voc.py:92-95 | a class occurs at most as often as the sequence is long |
| ClassCounter.EmptyAgrees | crop_pascal_voc.py:72 | the empty counter matches the empty sequence of classes |
| ClassCounter.OccurrencesAppend | crop_pascal_voc.py:92-95 | one more class seen adds one occurrence of it and none of any other |
| ClassCounter.BumpAgrees | crop_pascal_voc.py:92-95 | bumping keeps the counter equal to the occurrences minus one, and the index handed out is the number of earlier sightings of the class |
| ClassCounter.OccurrencesPrefix | crop_pascal_voc.py:92-95 | occurrences only grow as more classes are seen |
| ClassCounter.SameClassIndices | crop_pascal_voc.py:92-95 | in a sequence made of one class only, that class occurs once per element (used by CropPascalVocProperties.OneClassNumberedFromZero) |
| AnnotationWriter.InitialParameters | crop_pascal_voc.py:19-29 | a fresh writer has no objects and the given size, depth, database and segmented values |
| AnnotationWriter.Writer.constructor | crop_pascal_voc.py:13-29 | the writer holds the image's file name, its directory's name, the size and the defaults depth 3, database 'Unknown', segmented 0 |
| AnnotationWriter.Writer.AddObject | crop_pascal_voc.py:31-41 | exactly one record is appended, with pose 'Unspecified', truncated 0 and difficult 0 by default; everything else is unchanged |
| AnnotationWriter.Writer.Save | crop_pascal_voc.py:43-46 | the saved file is at the given path and receives the writer's current parameters, objects included |
| AnnotationWriter.DefaultRecord | crop_pascal_voc.py:105 | the record of addObject(cls, xmin, ymin, xmax, ymax) has the given name and box and the default pose, truncated and difficult |
| AnnotationWriter.InitialParametersOfImagePath | crop_pascal_voc.py:21-22 | the writer of dir/name records name as filename and dir's last component as folder |
| CropPascalVoc.AnnotationFilePath | crop_pascal_voc.py:74 | <data>/Annotations/<item>, the key the environment's parse answers for (used by ProcessItem and CropPascalVocProperties.WellFormedItemMirrored) |
| CropPascalVoc.JpegFile | crop_pascal_voc.py:75 | <data>/JPEGImages/<stem of item>.jpg; its properties are stated by CropPascalVocProperties.JpegFileOfXmlItem |
| CropPascalVoc.ImagePath | crop_pascal_voc.py:85 | <data>/JPEGImages/<filename field>; its properties are stated by CropPascalVocProperties.SubdirectoryImageNames and MirroredParametersNames |
| CropPascalVoc.CropPath | crop_pascal_voc.py:104 | <output>/<cls>/<cls>_<index>.jpg; its properties are stated by CropPascalVocProperties.CropPathsDistinct and CropFilesDistinct |
| CropPascalVoc.MirroredImagePath | crop_pascal_voc.py:112 | <output>/JPEGImages/<filename field>, the destination of the copy; stated in the log by CropPascalVocProperties.WellFormedItemMirrored |
| CropPascalVoc.MirroredAnnotationPath | crop_pascal_voc.py:107-113 | the dirname of <output>/Annotations/<filename field>, joined with the base name of its stem + .xml; its properties are stated by CropPascalVocProperties.MirroredAnnotationPathOfImage |
| CropPascalVoc.MirroredParameters | crop_pascal_voc.py:85-105 | the writer's parameters after the object loop; its properties are stated by CropPascalVocProperties.MirroredParametersNames and WellFormedItemMirrored, and CropPascalVoc.ProcessParsedAnnotation ties the Writer object to it |
| CropPascalVoc.ObjectsPass | crop_pascal_voc.py:90-105 | the object loop as a function of its input counter; an unreadable entry or an empty crop raises and ends the pass; its properties are stated by CropObjects, PassHaltsAfterRaise, ObjectsPassStep and CropPascalVocProperties.PassKeepsCounterInvariant, PassOkIffWellFormed, OffImageObjectRaises, PassOfWellFormedObjects and OneClassNumberedFromZero |
| CropPascalVoc.ProcessAnnotation | crop_pascal_voc.py:81-113 | one parsed item: writer, object loop, copy and save; its properties are stated by ProcessParsedAnnotation and CropPascalVocProperties.AnnotationKeepsCounterInvariant and WellFormedItemMirrored |
| CropPascalVoc.ProcessItem | crop_pascal_voc.py:74-113 | one listing item: missing image, parse failure or parsed annotation; its properties are stated by ProcessListingItem and CropPascalVocProperties.ItemKeepsCounterInvariant and MissingImageSkipped |
| CropPascalVoc.Step | crop_pascal_voc.py:73-113 | one iteration of the item loop, doing nothing once an exception has ended the run; its properties are stated by RunHaltsAfterAbort and CropPascalVocProperties.StepKeepsSameOutputs |
| CropPascalVoc.Run | crop_pascal_voc.py:68-113 | the whole run over a listing; its properties are stated by ProcessVocXml, RunHaltsAfterAbort and CropPascalVocProperties.RunKeepsCounterInvariant, CropFilesDistinct and MissingImageInvisible |
| CropPascalVoc.RunHaltsAfterAbort | crop_pascal_voc.py:79-84 | once an item has raised, no later item is processed |
| CropPascalVoc.PassHaltsAfterRaise | crop_pascal_voc.py:90-104 | once an object element has raised (unreadable, or an empty crop), no later object of the item is processed |
| CropPascalVoc.ObjectsPassStep | crop_pascal_voc.py:90-105 | after a prefix that went through, one more entry adds its crop and record when it is readable and its crop is not empty, and otherwise ends the pass keeping the earlier crops and records |
| CropPascalVoc.ProcessVocXml | crop_pascal_voc.py:68-113 | the effects of the run and whether it got through the listing are those of Run, with one counter threaded through all items |
| CropPascalVoc.ProcessListingItem | crop_pascal_voc.py:74-113 | one item's counter, effects and outcome are those of ProcessItem: report and skip a missing image, stop on a parse failure, else crops, copy and mirrored annotation |
| CropPascalVoc.ProcessParsedAnnotation | crop_pascal_voc.py:81-113 | for a parsed annotation, the writer, the object loop, the copy and the save produce the counter, effects and outcome of ProcessAnnotation |
| CropPascalVoc.CropObject | crop_pascal_voc.py:92-105 | for one readable object the counter is bumped; the crop of its clamped box is written and its record added to the writer exactly when that crop is not empty, and otherwise the writer is unchanged |
| CropPascalVoc.CropObjects | crop_pascal_voc.py:90-105 | the counter, crops and outcome of the object loop are those of ObjectsPass, and the writer gains exactly the pass's records after the ones it had |
| CropPascalVocProperties.CropClasses | crop_pascal_voc.py:104 | a log writes at most as many crops as it has effects |
| CropPascalVocProperties.AppendKeepsCounterInvariant | crop_pascal_voc.py:92-104 | a crop written under the bumped counter's index, or an effect that writes no crop, keeps the counter in step with the crops |
| CropPascalVocProperties.PassKeepsCounterInvariant | crop_pascal_voc.py:90-105 | the object loop keeps the counter in step with the crops written |
| CropPascalVocProperties.ItemKeepsCounterInvariant | crop_pascal_voc.py:74-113 | one item keeps the counter in step with the crops written |
| CropPascalVocProperties.RunKeepsCounterInvariant | crop_pascal_voc.py:72-104 | over a whole run, a class has a counter entry exactly when one of its crops was written, the entry is its crop count minus one, and each crop's index is the number of earlier crops of its class |
| CropPascalVocProperties.IndexedCropsIncrease | crop_pascal_voc.py:92-104 | a later crop of the same class has a larger index |
| CropPascalVocProperties.CropPathsDistinct | crop_pascal_voc.py:104 | different indices of one class give different file names and paths |
| CropPascalVocProperties.CropFilesDistinct | crop_pascal_voc.py:92-104 | two crops of one class in one run get increasing indices and different paths, so no crop overwrites another |
| CropPascalVocProperties.JoinInjective | crop_pascal_voc.py:104 | under one directory, two relative names join to different paths |
| CropPascalVocProperties.Outputs | crop_pascal_voc.py:76-78 | the output effects contain no printed diagnostic |
| CropPascalVocProperties.MissingImageSkipped | crop_pascal_voc.py:76-78 | an item without its image prints the image path, and counter and outputs stay as they were while the run goes on |
| CropPascalVocProperties.MissingImageLeavesNoOutput | crop_pascal_voc.py:76-78 | appending an imageless item changes neither the outputs, nor the counter, nor the outcome |
| CropPascalVocProperties.MissingImageInvisible | crop_pascal_voc.py:76-78 | a run with an imageless item produces the same outputs, counter and outcome as the run without it |
| CropPascalVocProperties.PassOkIffWellFormed | crop_pascal_voc.py:90-105 | the object loop goes through exactly when every entry is readable and its clamped box selects at least one pixel |
| CropPascalVocProperties.OffImageObjectRaises | crop_pascal_voc.py:98-104 | an object lying wholly right of an image of the annotation's size ends the object loop: its crop is empty and cv2.imwrite raises |
| CropPascalVocProperties.ReadableObjectWritten | crop_pascal_voc.py:90-105 | a readable object whose crop is not empty, after a prefix that went through adds exactly one crop (its class, the pixels of its clamped box) and one record (its class and clamped box, default pose, truncated and difficult) |
| CropPascalVocProperties.PassOfWellFormedObjects | crop_pascal_voc.py:90-105 | with readable objects whose crops are not empty the loop goes through all of them: crop k is object k's class and the pixels of its clamped box, record k that class and clamped box |
| CropPascalVocProperties.CropClassesOfOneClass | crop_pascal_voc.py:104 | a log of crops of one class has that class once per crop as its crop classes |
| CropPascalVocProperties.OneClassIndexedFromZero | crop_pascal_voc.py:92-104 | in a log indexed in order that holds crops of one class only, crop k has index k |
| CropPascalVocProperties.AllWrittenForClasses | crop_pascal_voc.py:90-105 | when every object of one class was written, every crop is a crop of that class |
| CropPascalVocProperties.OneClassNumberedFromZero | crop_pascal_voc.py:90-105 | N readable objects of one class with non-empty crops, from an empty counter (the first image of a run), are written as crops 0, 1, ..., N-1 of that class in document order |
| CropPascalVocProperties.TwoObjectsOfOneClass | crop_pascal_voc.py:92-95 | two objects of one class with non-empty crops, in the first image of a run (an empty counter), get indices 0 and 1 |
| CropPascalVocProperties.WellFormedItemMirrored | crop_pascal_voc.py:85-113 | an item whose objects are all readable with non-empty crops yields its crops, the copy of its image, then an annotation with the parsed size and depth, database 'Unknown', segmented 0 and one record per object |
| CropPascalVocProperties.MirroredParametersNames | crop_pascal_voc.py:85-87 | for any data directory, the mirrored annotation of a plain filename field records that name and the folder JPEGImages |
| CropPascalVocProperties.SubdirectoryImageNames | crop_pascal_voc.py:21-22 | an image dir/sub/name is recorded with filename name and folder sub, for any dir (empty, or with a trailing '/') |
| CropPascalVocProperties.JpegFileOfXmlItem | crop_pascal_voc.py:75 | for the item stem.xml the image looked for is data/JPEGImages/stem.jpg |
| CropPascalVocProperties.MirroredAnnotationPathOfImage | crop_pascal_voc.py:107-113 | for any output directory, the mirrored annotation of the image dir + stem.ext is output/Annotations/dir + stem.xml: the image's directory part is kept |

## Left out

- visual_pascal_voc.py is not part of this model.
- Parsing the XML (ET.parse, find, findall, int(float(text))) is not modelled. Its outcome is an input: an annotation, or a failure that ends the run. An object element whose name, bndbox or coordinate cannot be read ends the run after the earlier crops of that item. The counter bump made before that failure, or before an empty crop's write raises, is lost with the run, so it is not recorded.
- Rounding of the coordinate text by int(float(...)) is not modelled: boxes arrive as integers.
- cv2.imread returning None for an unreadable image, and the TypeError the slice then raises, are not modelled: decoding is a total function of the path.
- cv2.imwrite is modelled by its refusal of an empty image, which raises and ends the run like an unreadable object element; any other failure of the write is not modelled, so a non-empty crop is always written.
- The jinja2 template and the text that Writer.save renders are not modelled: a saved annotation is its path plus the parameters it is rendered from.
- os.path.abspath in Writer.__init__ is taken as the identity, so `.` and `..` components are not resolved. For an image path data/JPEGImages/name, where name holds no '/' and is neither `.` nor `..`, abspath keeps the last two components, so the file name and folder are the same as in the model; `SubdirectoryImageNames` states the model's file name and folder. For other names they can differ: for `../x.jpg` abspath gives the folder `data`, the model `..`.
- CropPascalVocProperties.MirroredParametersNames: only a filename field without '/' is covered. For a field with a directory part (sub/x.jpg), the recorded folder is that part's last component, which the lemma does not state.
- CropPascalVocProperties.MirroredAnnotationPathOfImage: an absolute filename field, a directory part ending in several slashes (sub//x.jpg, which dirname collapses), and an image name without an extension are not covered. For these the model still computes the path, by the same dirname, splitext and basename, but no lemma states its shape.
- os.makedirs and the directory tree it creates are not modelled; only the files written are.
- os.listdir's order is the order of the listing given to `ProcessVocXml`; the model does not choose it.
- argparse, parse_args and main are command-line plumbing and are not modelled.
- tqdm is imported but unused.
- print(jpeg_file) is recorded as an effect in the log, not as text on standard output.
- A run interrupted by an exception leaves partial output behind. The model stops the log at that point and does not model later clean-up (there is none).
- CropPascalVoc.ProcessVocXml: the non-local effects happen in the log's order, but their timing against the file system (a file that appears during the run) is not modelled: the environment answers are fixed for a run.
