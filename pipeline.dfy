/**
 * process_voc_xml of crop_pascal_voc.py (lines 68-113): for every item of the
 * annotation directory's listing, skip it when its image is missing, else
 * parse it, write one crop per object under a per-class running index, copy
 * the image into the mirrored tree and save the mirrored annotation.
 *
 * What the run does to the file system and to standard output is recorded
 * as an ordered log of effects; the file system's answers (does the image
 * exist, what does the annotation parse to, what does the image decode to)
 * are given by an environment.
 */
module CropPascalVoc {
  import opened Wrappers
  import opened Geometry
  import opened Crops
  import opened Paths
  import opened ClassCounter
  import opened AnnotationWriter

  /** One object element: its class name and raw box, or an element whose name, bndbox or a coordinate is missing or unreadable. */
  datatype ObjectEntry = Object(name: string, box: Box) | Malformed

  /** A parsed annotation: the image's file name, its declared size and its objects in document order. */
  datatype Annotation = Annotation(filename: string, width: int, height: int, depth: int, objects: seq<ObjectEntry>)

  /**
   * The directories of the run and the file system's answers: whether a file
   * exists, what an annotation file parses to (None when parsing or reading
   * filename, width, height or depth raises) and what an image decodes to.
   */
  datatype Env<P> = Env(
    dataDir: string,
    outputDir: string,
    imageExists: string -> bool,
    parse: string -> Option<Annotation>,
    load: string -> Grid<P>)

  /** What the run does, in order. */
  datatype Effect<P> =
    | ReportMissing(path: string)                        // print(jpeg_file)
    | WriteCrop(cls: string, index: nat, pixels: Grid<P>) // cv2.imwrite of <output>/<cls>/<cls>_<index>.jpg
    | CopyImage(source: string, destination: string)    // shutil.copyfile
    | SaveAnnotation(file: AnnotationFile)               // writer.save

  /** The class counter, the effects so far, and whether the run is still going (false once an exception ended it). */
  datatype RunState<P> = RunState(statDict: Counter, log: seq<Effect<P>>, running: bool)

  function AnnotationFilePath(dataDir: string, item: string): string {
    Join(Join(dataDir, "Annotations"), item)
  }

  /** The image looked for: the item's stem with ".jpg", under JPEGImages. */
  function JpegFile(dataDir: string, item: string): string {
    Join(Join(dataDir, "JPEGImages"), Stem(item) + ".jpg")
  }

  /** The image path the writer is created with, from the annotation's filename field. */
  function ImagePath(dataDir: string, imageName: string): string {
    Join(Join(dataDir, "JPEGImages"), imageName)
  }

  function CropPath(outputDir: string, cls: string, index: nat): string {
    Join(Join(outputDir, cls), CropName(cls, index))
  }

  function MirroredImagePath(outputDir: string, imageName: string): string {
    Join(Join(outputDir, "JPEGImages"), imageName)
  }

  /** anno_dir joined with anno_name (lines 107-108, 113). */
  function MirroredAnnotationPath(outputDir: string, imageName: string): string {
    Join(Dirname(Join(Join(outputDir, "Annotations"), imageName)), Basename(Stem(imageName) + ".xml"))
  }

  /** The counter, the crops written and the writer's records after a prefix of the object loop; ok is false once an entry raised. */
  datatype PassState<P> = PassState(statDict: Counter, crops: seq<Effect<P>>, records: seq<ObjectRecord>, ok: bool)

  /**
   * The object loop of lines 90-105 over objects, from counter m, on the
   * decoded image img. An entry raises when it is unreadable, or when its
   * clamped box selects no pixel: cv2.imwrite refuses an empty image
   * (line 104), before addObject is reached.
   */
  function ObjectsPass<P>(m: Counter, objects: seq<ObjectEntry>, img: Grid<P>, width: int, height: int): PassState<P>
  {
    if objects == [] then PassState(m, [], [], true)
    else
      var prev := ObjectsPass(m, objects[..|objects| - 1], img, width, height);
      var e := objects[|objects| - 1];
      if !prev.ok || e.Malformed? then prev.(ok := false)
      else
        var next := Bump(prev.statDict, e.name);
        var b := ClampBox(e.box, width, height);
        var roi := Crop(img, b);
        if roi.IsEmpty() then prev.(ok := false)
        else
          PassState(
            next,
            prev.crops + [WriteCrop(e.name, next[e.name], roi)],
            prev.records + [DefaultRecord(e.name, b.xmin, b.ymin, b.xmax, b.ymax)],
            true)
  }

  /** The parameters the writer of annotation a holds once records have been added. */
  function MirroredParameters(dataDir: string, a: Annotation, records: seq<ObjectRecord>): TemplateParameters {
    InitialParameters(ImagePath(dataDir, a.filename), a.width, a.height, a.depth, "Unknown", 0).(objects := records)
  }

  /** One iteration of the item loop (lines 74-113), from counter m: the new counter, the item's effects, and whether the run goes on. */
  function ProcessItem<P>(env: Env<P>, m: Counter, item: string): RunState<P>
  {
    var jpegFile := JpegFile(env.dataDir, item);
    if !env.imageExists(jpegFile) then RunState(m, [ReportMissing(jpegFile)], true)
    else match env.parse(AnnotationFilePath(env.dataDir, item))
      case None => RunState(m, [], false)
      case Some(a) => ProcessAnnotation(env, m, jpegFile, a)
  }

  /** Lines 85-113 for the parsed annotation a of the image jpegFile: crops, then the copy and the mirrored annotation. */
  function ProcessAnnotation<P>(env: Env<P>, m: Counter, jpegFile: string, a: Annotation): RunState<P>
  {
    var pass := ObjectsPass(m, a.objects, env.load(jpegFile), a.width, a.height);
    if !pass.ok then RunState(pass.statDict, pass.crops, false)
    else
      RunState(
        pass.statDict,
        pass.crops + [
          CopyImage(jpegFile, MirroredImagePath(env.outputDir, a.filename)),
          SaveAnnotation(AnnotationFile(MirroredAnnotationPath(env.outputDir, a.filename), MirroredParameters(env.dataDir, a, pass.records)))],
        true)
  }

  function Step<P>(env: Env<P>, st: RunState<P>, item: string): RunState<P> {
    if !st.running then st
    else
      var r := ProcessItem(env, st.statDict, item);
      RunState(r.statDict, st.log + r.log, r.running)
  }

  /** The run over a listing: one counter, created empty at the start and threaded through every item. */
  function Run<P>(env: Env<P>, items: seq<string>): RunState<P> {
    if items == [] then RunState(map[], [], true)
    else Step(env, Run(env, items[..|items| - 1]), items[|items| - 1])
  }

  /** Once an item has raised, the rest of the listing is never reached. */
  lemma {:induction false} RunHaltsAfterAbort<P>(env: Env<P>, items: seq<string>, k: nat)
    requires 0 < k <= |items| && !Run(env, items[..k]).running
    ensures Run(env, items) == Run(env, items[..k])
  {
    if k < |items| {
      assert items[..|items| - 1][..k] == items[..k];
      RunHaltsAfterAbort(env, items[..|items| - 1], k);
    } else {
      assert items[..k] == items;
    }
  }

  /** Once an object entry has raised, the rest of the object list is never reached. */
  lemma {:induction false} PassHaltsAfterRaise<P>(m: Counter, objects: seq<ObjectEntry>, img: Grid<P>, width: int, height: int, k: nat)
    requires 0 < k <= |objects| && !ObjectsPass(m, objects[..k], img, width, height).ok
    ensures ObjectsPass(m, objects, img, width, height) == ObjectsPass(m, objects[..k], img, width, height)
  {
    if k < |objects| {
      assert objects[..|objects| - 1][..k] == objects[..k];
      PassHaltsAfterRaise(m, objects[..|objects| - 1], img, width, height, k);
    } else {
      assert objects[..k] == objects;
    }
  }

  /** One more entry of the object loop: its crop and record are added when it is written; otherwise the pass has raised and kept what it had. */
  lemma ObjectsPassStep<P>(m: Counter, objects: seq<ObjectEntry>, j: nat, img: Grid<P>, width: int, height: int)
    requires j < |objects| && ObjectsPass(m, objects[..j], img, width, height).ok
    ensures var prev, pass := ObjectsPass(m, objects[..j], img, width, height), ObjectsPass(m, objects[..j + 1], img, width, height);
      var e := objects[j];
      if e.Malformed? || Crop(img, ClampBox(e.box, width, height)).IsEmpty() then pass == prev.(ok := false)
      else
        var b := ClampBox(e.box, width, height);
        var next := Bump(prev.statDict, e.name);
        pass == PassState(next, prev.crops + [WriteCrop(e.name, next[e.name], Crop(img, b))],
                          prev.records + [DefaultRecord(e.name, b.xmin, b.ymin, b.xmax, b.ymax)], true)
  {
    assert objects[..j + 1][..j] == objects[..j];
  }

  /**
   * process_voc_xml over a listing: the effects it performs, in order, and
   * whether it got through the whole listing; both are those of Run.
   */
  method ProcessVocXml<P>(env: Env<P>, listing: seq<string>) returns (log: seq<Effect<P>>, completed: bool)
    ensures log == Run(env, listing).log
    ensures completed == Run(env, listing).running
  {
    var statDict: Counter := map[];
    log := [];
    for i := 0 to |listing|
      invariant Run(env, listing[..i]) == RunState(statDict, log, true)
    {
      assert listing[..i + 1][..i] == listing[..i];
      var effects, ok;
      statDict, effects, ok := ProcessListingItem(env, statDict, listing[i]);
      log := log + effects;
      if !ok {
        RunHaltsAfterAbort(env, listing, i + 1);
        return log, false;
      }
    }
    assert listing[..|listing|] == listing;
    completed := true;
  }

  /**
   * The body of the item loop (lines 74-113) from counter statDict: the
   * updated counter, the item's effects, and false when the item raised.
   */
  method ProcessListingItem<P>(env: Env<P>, statDict: Counter, item: string) returns (counter: Counter, log: seq<Effect<P>>, ok: bool)
    ensures RunState(counter, log, ok) == ProcessItem(env, statDict, item)
  {
    counter, log, ok := statDict, [], true;
    var annoFile := AnnotationFilePath(env.dataDir, item);
    var jpegFile := JpegFile(env.dataDir, item);
    if !env.imageExists(jpegFile) {
      assert ProcessItem(env, statDict, item) == RunState(statDict, [ReportMissing(jpegFile)], true);
      return counter, [ReportMissing(jpegFile)], true;
    }
    var parsed := env.parse(annoFile);
    if parsed.None? {
      assert ProcessItem(env, statDict, item) == RunState(statDict, [], false);
      return counter, [], false;
    }
    var tree := parsed.value;
    counter, log, ok := ProcessParsedAnnotation(env, statDict, jpegFile, tree);
  }

  /**
   * Lines 81-113 for the parsed annotation tree of the image jpegFile: the
   * writer, the object loop, the copy of the image and the saved annotation.
   */
  method ProcessParsedAnnotation<P>(env: Env<P>, statDict: Counter, jpegFile: string, tree: Annotation)
    returns (counter: Counter, log: seq<Effect<P>>, ok: bool)
    ensures RunState(counter, log, ok) == ProcessAnnotation(env, statDict, jpegFile, tree)
  {
    var imagePath := ImagePath(env.dataDir, tree.filename);
    var writer := new Writer(imagePath, tree.width, tree.height, depth := tree.depth);
    var img := env.load(jpegFile);
    ghost var pass := ObjectsPass(statDict, tree.objects, img, tree.width, tree.height);
    counter, log, ok := CropObjects(statDict, tree.objects, img, tree.width, tree.height, writer);
    if !ok {
      return;
    }
    assert writer.templateParameters == MirroredParameters(env.dataDir, tree, pass.records);
    var copied := CopyImage(jpegFile, MirroredImagePath(env.outputDir, tree.filename));
    var saved := writer.Save(MirroredAnnotationPath(env.outputDir, tree.filename));
    ghost var mirrored := AnnotationFile(MirroredAnnotationPath(env.outputDir, tree.filename), MirroredParameters(env.dataDir, tree, pass.records));
    assert saved == mirrored;
    log := log + [copied, SaveAnnotation(saved)];
  }

  /**
   * The object loop (lines 90-105): bump the class's counter entry, clamp the
   * box, write the crop and add the record to the writer; ok is false when an
   * entry raised (an unreadable element, or an empty crop that cv2.imwrite
   * refuses), and the loop stops there.
   */
  method CropObjects<P>(statDict: Counter, objects: seq<ObjectEntry>, img: Grid<P>, width: int, height: int, writer: Writer)
    returns (counter: Counter, crops: seq<Effect<P>>, ok: bool)
    modifies writer
    ensures var pass := ObjectsPass(statDict, objects, img, width, height);
      && counter == pass.statDict && crops == pass.crops && ok == pass.ok
      && (ok ==> writer.templateParameters == old(writer.templateParameters).(objects := old(writer.templateParameters.objects) + pass.records))
  {
    counter, crops, ok := statDict, [], true;
    ghost var start := writer.templateParameters;
    for j := 0 to |objects|
      invariant var pass := ObjectsPass(statDict, objects[..j], img, width, height);
        && pass.ok && counter == pass.statDict && crops == pass.crops
        && writer.templateParameters == start.(objects := start.objects + pass.records)
    {
      ghost var records := ObjectsPass(statDict, objects[..j], img, width, height).records;
      ObjectsPassStep(statDict, objects, j, img, width, height);
      var obj := objects[j];
      if obj.Malformed? {
        PassHaltsAfterRaise(statDict, objects, img, width, height, j + 1);
        return counter, crops, false;
      }
      var next, crop, written := CropObject(counter, obj, img, width, height, writer);
      if !written {
        PassHaltsAfterRaise(statDict, objects, img, width, height, j + 1);
        return counter, crops, false;
      }
      counter := next;
      crops := crops + [crop];
      ghost var b := ClampBox(obj.box, width, height);
      ghost var record := DefaultRecord(obj.name, b.xmin, b.ymin, b.xmax, b.ymax);
      assert start.objects + records + [record] == start.objects + (records + [record]);
    }
    assert objects[..|objects|] == objects;
  }

  /**
   * One readable object of the loop (lines 94-105): bump its class's entry,
   * clamp its box and write the crop, then add its record to the writer.
   * written is false when the clamped box selects no pixel: cv2.imwrite
   * raises, and addObject is not reached.
   */
  method CropObject<P>(counter: Counter, obj: ObjectEntry, img: Grid<P>, width: int, height: int, writer: Writer)
    returns (next: Counter, crop: Effect<P>, written: bool)
    requires obj.Object?
    modifies writer
    ensures next == Bump(counter, obj.name)
    ensures var b := ClampBox(obj.box, width, height);
      && written == !Crop(img, b).IsEmpty()
      && (written ==> crop == WriteCrop(obj.name, next[obj.name], Crop(img, b)))
      && (written ==> writer.templateParameters == old(writer.templateParameters).(objects :=
            old(writer.templateParameters.objects) + [DefaultRecord(obj.name, b.xmin, b.ymin, b.xmax, b.ymax)]))
      && (!written ==> writer.templateParameters == old(writer.templateParameters))
  {
    var cls := obj.name;
    next := counter;
    if cls !in next {
      next := next[cls := 0];
    } else {
      next := next[cls := next[cls] + 1];
    }
    var b := ClampBox(obj.box, width, height);
    var roi := Crop(img, b);
    if roi.IsEmpty() {
      // cv2.imwrite raises before the record is added
      return next, WriteCrop(cls, next[cls], roi), false;
    }
    crop := WriteCrop(cls, next[cls], roi);
    written := true;
    writer.AddObject(cls, b.xmin, b.ymin, b.xmax, b.ymax);
  }
}
