/**
 * What process_voc_xml guarantees over a whole run: the class counter and
 * the crop indices, unique crop file names, skipping of items without an
 * image, the mirrored annotation of a well-formed item, and the file names
 * derived from an annotation's stem.
 */
module CropPascalVocProperties {
  import opened Wrappers
  import opened Geometry
  import opened Crops
  import opened Paths
  import opened ClassCounter
  import opened AnnotationWriter
  import opened CropPascalVoc

  /** The classes of the crops in log, in the order they were written. */
  function CropClasses<P>(log: seq<Effect<P>>): (r: seq<string>)
    ensures |r| <= |log|
  {
    if log == [] then []
    else CropClasses(log[..|log| - 1]) + (if log[|log| - 1].WriteCrop? then [log[|log| - 1].cls] else [])
  }

  /** Every crop's index is the number of crops of its class written before it. */
  ghost predicate IndexedInOrder<P>(log: seq<Effect<P>>) {
    forall k | 0 <= k < |log| :: IndexedAt(log, k)
  }

  ghost predicate IndexedAt<P>(log: seq<Effect<P>>, k: nat)
    requires k < |log|
  {
    log[k].WriteCrop? ==> log[k].index == Occurrences(CropClasses(log[..k]), log[k].cls)
  }

  /** The counter is the one built from the crops in the log, and each crop got the index the counter gave it. */
  ghost predicate CounterInvariant<P>(statDict: Counter, log: seq<Effect<P>>) {
    Agrees(statDict, CropClasses(log)) && IndexedInOrder(log)
  }

  lemma CropClassesAppend<P>(log: seq<Effect<P>>, e: Effect<P>)
    ensures CropClasses(log + [e]) == CropClasses(log) + (if e.WriteCrop? then [e.cls] else [])
  {
    assert (log + [e])[..|log|] == log;
  }

  lemma {:induction false} CropClassesConcat<P>(a: seq<Effect<P>>, b: seq<Effect<P>>)
    ensures CropClasses(a + b) == CropClasses(a) + CropClasses(b)
  {
    if b == [] {
      assert a + b == a;
    } else {
      var b' := b[..|b| - 1];
      assert a + b == (a + b') + [b[|b| - 1]];
      CropClassesConcat(a, b');
      CropClassesAppend(a + b', b[|b| - 1]);
      CropClassesAppend(b', b[|b| - 1]);
      assert b == b' + [b[|b| - 1]];
    }
  }

  /** Appending an effect keeps the invariant when the effect writes no crop, or writes the crop the bumped counter names. */
  lemma AppendKeepsCounterInvariant<P>(m: Counter, log: seq<Effect<P>>, e: Effect<P>)
    requires CounterInvariant(m, log)
    requires e.WriteCrop? ==> e.index == Bump(m, e.cls)[e.cls]
    ensures e.WriteCrop? ==> CounterInvariant(Bump(m, e.cls), log + [e])
    ensures !e.WriteCrop? ==> CounterInvariant(m, log + [e])
  {
    CropClassesAppend(log, e);
    if e.WriteCrop? {
      BumpAgrees(m, CropClasses(log), e.cls);
    } else {
      assert CropClasses(log + [e]) == CropClasses(log);
    }
    forall k | 0 <= k < |log + [e]|
      ensures IndexedAt(log + [e], k)
    {
      if k < |log| {
        assert IndexedAt(log, k);
        assert (log + [e])[..k] == log[..k];
      } else {
        assert (log + [e])[..k] == log;
      }
    }
  }

  /** The object loop keeps the counter in step with the crops it writes. */
  lemma {:induction false} PassKeepsCounterInvariant<P>(m: Counter, log: seq<Effect<P>>, objects: seq<ObjectEntry>, img: Grid<P>, width: int, height: int)
    requires CounterInvariant(m, log)
    ensures var pass := ObjectsPass(m, objects, img, width, height);
      CounterInvariant(pass.statDict, log + pass.crops)
  {
    if objects == [] {
      assert log + [] == log;
    } else {
      var prefix := objects[..|objects| - 1];
      var prev := ObjectsPass(m, prefix, img, width, height);
      PassKeepsCounterInvariant(m, log, prefix, img, width, height);
      var e := objects[|objects| - 1];
      var pass := ObjectsPass(m, objects, img, width, height);
      assert objects[..|objects| - 1] == prefix;
      if pass.ok {
        var crop := pass.crops[|pass.crops| - 1];
        assert pass.crops == prev.crops + [crop];
        assert pass.statDict == Bump(prev.statDict, e.name);
        AppendKeepsCounterInvariant(prev.statDict, log + prev.crops, crop);
        assert log + pass.crops == (log + prev.crops) + [crop];
      } else {
        assert pass.statDict == prev.statDict && pass.crops == prev.crops;
      }
    }
  }

  /** Two effects that write no crop, appended after crops, leave the invariant as it is. */
  lemma AppendTwoNonCropsKeepsCounterInvariant<P>(m: Counter, log: seq<Effect<P>>, crops: seq<Effect<P>>, e1: Effect<P>, e2: Effect<P>)
    requires CounterInvariant(m, log + crops) && !e1.WriteCrop? && !e2.WriteCrop?
    ensures CounterInvariant(m, log + (crops + [e1, e2]))
  {
    AppendKeepsCounterInvariant(m, log + crops, e1);
    AppendKeepsCounterInvariant(m, log + crops + [e1], e2);
    assert log + (crops + [e1, e2]) == log + crops + [e1] + [e2];
  }

  /** A parsed item's effects are its crops followed by the copy and the annotation, when its objects all went through. */
  lemma ProcessAnnotationShape<P>(env: Env<P>, m: Counter, jpegFile: string, a: Annotation)
    ensures var r, pass := ProcessAnnotation(env, m, jpegFile, a), ObjectsPass(m, a.objects, env.load(jpegFile), a.width, a.height);
      && r.statDict == pass.statDict
      && (!pass.ok ==> r.log == pass.crops)
      && (pass.ok ==> r.log == pass.crops + [CopyImage(jpegFile, MirroredImagePath(env.outputDir, a.filename)),
          SaveAnnotation(AnnotationFile(MirroredAnnotationPath(env.outputDir, a.filename), MirroredParameters(env.dataDir, a, pass.records)))])
  {
  }

  /** The crops, copy and annotation of one parsed item keep the counter in step. */
  lemma AnnotationKeepsCounterInvariant<P>(env: Env<P>, m: Counter, log: seq<Effect<P>>, jpegFile: string, a: Annotation)
    requires CounterInvariant(m, log)
    ensures var r := ProcessAnnotation(env, m, jpegFile, a);
      CounterInvariant(r.statDict, log + r.log)
  {
    var pass := ObjectsPass(m, a.objects, env.load(jpegFile), a.width, a.height);
    var rlog := ProcessAnnotation(env, m, jpegFile, a).log;
    PassKeepsCounterInvariant(m, log, a.objects, env.load(jpegFile), a.width, a.height);
    ProcessAnnotationShape(env, m, jpegFile, a);
    if pass.ok {
      var copied := CopyImage(jpegFile, MirroredImagePath(env.outputDir, a.filename));
      var saved: Effect<P> := SaveAnnotation(AnnotationFile(MirroredAnnotationPath(env.outputDir, a.filename), MirroredParameters(env.dataDir, a, pass.records)));
      AppendTwoNonCropsKeepsCounterInvariant(pass.statDict, log, pass.crops, copied, saved);
    }
  }

  /** One listing item keeps the counter in step with the crops written so far. */
  lemma ItemKeepsCounterInvariant<P>(env: Env<P>, m: Counter, log: seq<Effect<P>>, item: string)
    requires CounterInvariant(m, log)
    ensures var r := ProcessItem(env, m, item);
      CounterInvariant(r.statDict, log + r.log)
  {
    var jpegFile := JpegFile(env.dataDir, item);
    if !env.imageExists(jpegFile) {
      AppendKeepsCounterInvariant(m, log, ReportMissing(jpegFile));
    } else if env.parse(AnnotationFilePath(env.dataDir, item)).Some? {
      AnnotationKeepsCounterInvariant(env, m, log, jpegFile, env.parse(AnnotationFilePath(env.dataDir, item)).value);
    } else {
      assert log + [] == log;
    }
  }

  /**
   * Over a whole run, stat_dict is never reset: a class has an entry exactly
   * when one of its crops was written, the entry is the number of its crops
   * minus one, and each crop's index is the number of earlier crops of its
   * class (so the crops of one class are numbered 0, 1, 2, ... in order).
   */
  lemma {:induction false} RunKeepsCounterInvariant<P>(env: Env<P>, items: seq<string>)
    ensures CounterInvariant(Run(env, items).statDict, Run(env, items).log)
  {
    if items == [] {
      EmptyAgrees();
    } else {
      var st := Run(env, items[..|items| - 1]);
      RunKeepsCounterInvariant(env, items[..|items| - 1]);
      if st.running {
        ItemKeepsCounterInvariant(env, st.statDict, st.log, items[|items| - 1]);
      }
    }
  }

  lemma CropClassesPrefix<P>(log: seq<Effect<P>>, i: nat, j: nat)
    requires i <= j <= |log|
    ensures CropClasses(log[..i]) <= CropClasses(log[..j])
  {
    assert log[..j] == log[..i] + log[i..j];
    CropClassesConcat(log[..i], log[i..j]);
  }

  /** In a log whose crops are indexed in order, a later crop of the same class has a larger index. */
  lemma IndexedCropsIncrease<P>(log: seq<Effect<P>>, i: nat, j: nat)
    requires IndexedInOrder(log)
    requires i < j < |log| && log[i].WriteCrop? && log[j].WriteCrop? && log[i].cls == log[j].cls
    ensures log[i].index < log[j].index
  {
    var c := log[i].cls;
    assert IndexedAt(log, i) && IndexedAt(log, j);
    assert log[..i + 1] == log[..i] + [log[i]];
    CropClassesAppend(log[..i], log[i]);
    OccurrencesAppend(CropClasses(log[..i]), c, c);
    CropClassesPrefix(log, i + 1, j);
    OccurrencesPrefix(CropClasses(log[..i + 1]), CropClasses(log[..j]), c);
  }

  /** Distinct indices of one class give distinct crop file names and paths. */
  lemma CropPathsDistinct(outputDir: string, cls: string, i: nat, j: nat)
    requires i != j
    ensures CropName(cls, i) != CropName(cls, j)
    ensures CropPath(outputDir, cls, i) != CropPath(outputDir, cls, j)
  {
    if CropName(cls, i) == CropName(cls, j) {
      CropNameInjective(cls, i, j);
    }
    if CropPath(outputDir, cls, i) == CropPath(outputDir, cls, j) {
      JoinInjective(Join(outputDir, cls), CropName(cls, i), CropName(cls, j));
    }
  }

  /**
   * Two crops of one class written in one run have strictly increasing
   * indices, hence different file names and different paths: no crop
   * overwrites another.
   */
  lemma CropFilesDistinct<P>(env: Env<P>, items: seq<string>, i: nat, j: nat)
    requires var log := Run(env, items).log;
      && i < j < |log| && log[i].WriteCrop? && log[j].WriteCrop? && log[i].cls == log[j].cls
    ensures var log := Run(env, items).log;
      && log[i].index < log[j].index
      && CropName(log[i].cls, log[i].index) != CropName(log[j].cls, log[j].index)
      && CropPath(env.outputDir, log[i].cls, log[i].index) != CropPath(env.outputDir, log[j].cls, log[j].index)
  {
    var log := Run(env, items).log;
    RunKeepsCounterInvariant(env, items);
    IndexedCropsIncrease(log, i, j);
    CropPathsDistinct(env.outputDir, log[i].cls, log[i].index, log[j].index);
  }

  /** Under one directory, two names that are both relative (or both absolute) join to different paths. */
  lemma JoinInjective(a: string, b1: string, b2: string)
    requires IsAbsolute(b1) == IsAbsolute(b2) && Join(a, b1) == Join(a, b2)
    ensures b1 == b2
  {
    JoinParts(a, b1);
    JoinParts(a, b2);
    if !IsAbsolute(b1) {
      var p := Join(a, b1);
      assert |b1| == |b2|;
      assert b1 == p[|p| - |b1|..] == b2;
    }
  }

  /** The effects that touch the output tree (crops, copies, annotations), leaving out the printed diagnostics. */
  function Outputs<P>(log: seq<Effect<P>>): (r: seq<Effect<P>>)
    ensures |r| <= |log|
    ensures forall k | 0 <= k < |r| :: !r[k].ReportMissing?
  {
    if log == [] then []
    else Outputs(log[..|log| - 1]) + (if log[|log| - 1].ReportMissing? then [] else [log[|log| - 1]])
  }

  lemma {:induction false} OutputsConcat<P>(a: seq<Effect<P>>, b: seq<Effect<P>>)
    ensures Outputs(a + b) == Outputs(a) + Outputs(b)
  {
    if b == [] {
      assert a + b == a;
    } else {
      var b' := b[..|b| - 1];
      assert (a + b)[..|a + b| - 1] == a + b';
      OutputsConcat(a, b');
    }
  }

  /** An item whose image is missing only prints the image path: counter and outputs stay as they were, and the run goes on. */
  lemma MissingImageSkipped<P>(env: Env<P>, items: seq<string>, item: string)
    requires Run(env, items).running && !env.imageExists(JpegFile(env.dataDir, item))
    ensures var before, after := Run(env, items), Run(env, items + [item]);
      && after.running && after.statDict == before.statDict
      && after.log == before.log + [ReportMissing(JpegFile(env.dataDir, item))]
  {
    assert (items + [item])[..|items|] == items;
  }

  /** Two run states that differ only in printed diagnostics stay so after one more item. */
  lemma StepKeepsSameOutputs<P>(env: Env<P>, s1: RunState<P>, s2: RunState<P>, item: string)
    requires s1.statDict == s2.statDict && s1.running == s2.running && Outputs(s1.log) == Outputs(s2.log)
    ensures var t1, t2 := Step(env, s1, item), Step(env, s2, item);
      t1.statDict == t2.statDict && t1.running == t2.running && Outputs(t1.log) == Outputs(t2.log)
  {
    if s1.running {
      var r := ProcessItem(env, s1.statDict, item);
      OutputsConcat(s1.log, r.log);
      OutputsConcat(s2.log, r.log);
    }
  }

  /** Appending an item whose image is missing changes neither the outputs, nor the counter, nor the outcome. */
  lemma MissingImageLeavesNoOutput<P>(env: Env<P>, before: seq<string>, item: string)
    requires !env.imageExists(JpegFile(env.dataDir, item))
    ensures var with, without := Run(env, before + [item]), Run(env, before);
      && with.statDict == without.statDict && with.running == without.running
      && Outputs(with.log) == Outputs(without.log)
  {
    assert (before + [item])[..|before|] == before;
    var st := Run(env, before);
    if st.running {
      var report: seq<Effect<P>> := [ReportMissing(JpegFile(env.dataDir, item))];
      OutputsConcat(st.log, report);
      assert Outputs(report) == [] by {
        assert report[..0] == [];
      }
    }
  }

  /**
   * An item whose image is missing leaves no trace but its diagnostic:
   * the run with it produces the same outputs, counter and outcome as the
   * run without it, whatever comes before and after it.
   */
  lemma {:induction false} MissingImageInvisible<P>(env: Env<P>, before: seq<string>, item: string, after: seq<string>)
    requires !env.imageExists(JpegFile(env.dataDir, item))
    ensures var with, without := Run(env, before + [item] + after), Run(env, before + after);
      && with.statDict == without.statDict && with.running == without.running
      && Outputs(with.log) == Outputs(without.log)
  {
    if after == [] {
      assert before + [item] + after == before + [item];
      assert before + after == before;
      MissingImageLeavesNoOutput(env, before, item);
    } else {
      var last := after[|after| - 1];
      var after' := after[..|after| - 1];
      assert (before + [item] + after)[..|before + [item] + after| - 1] == before + [item] + after';
      assert (before + after)[..|before + after| - 1] == before + after';
      MissingImageInvisible(env, before, item, after');
      StepKeepsSameOutputs(env, Run(env, before + [item] + after'), Run(env, before + after'), last);
    }
  }

  /** An object entry the loop writes: it is readable and its clamped box selects at least one pixel of img. */
  predicate Writable<P>(o: ObjectEntry, img: Grid<P>, width: int, height: int) {
    o.Object? && !Crop(img, ClampBox(o.box, width, height)).IsEmpty()
  }

  /** Every object entry is one the loop writes. */
  predicate WellFormed<P>(objects: seq<ObjectEntry>, img: Grid<P>, width: int, height: int) {
    forall k | 0 <= k < |objects| :: Writable(objects[k], img, width, height)
  }

  /** Dropping the last entry keeps every entry writable. */
  lemma WellFormedPrefix<P>(objects: seq<ObjectEntry>, img: Grid<P>, width: int, height: int)
    requires objects != [] && WellFormed(objects, img, width, height)
    ensures WellFormed(objects[..|objects| - 1], img, width, height)
  {
    var prefix := objects[..|objects| - 1];
    forall k | 0 <= k < |prefix| ensures Writable(prefix[k], img, width, height) {
      assert prefix[k] == objects[k];
    }
  }

  /** The object loop goes through exactly when every entry is writable: an unreadable entry or an empty crop raises. */
  lemma {:induction false} PassOkIffWellFormed<P>(m: Counter, objects: seq<ObjectEntry>, img: Grid<P>, width: int, height: int)
    ensures ObjectsPass(m, objects, img, width, height).ok <==> WellFormed(objects, img, width, height)
  {
    if objects != [] {
      var prefix := objects[..|objects| - 1];
      PassOkIffWellFormed(m, prefix, img, width, height);
      if WellFormed(objects, img, width, height) {
        WellFormedPrefix(objects, img, width, height);
        assert Writable(objects[|objects| - 1], img, width, height);
      } else if WellFormed(prefix, img, width, height) {
        forall k | 0 <= k < |prefix| ensures Writable(objects[k], img, width, height) {
          assert prefix[k] == objects[k];
        }
      }
    }
  }

  /**
   * An object lying wholly to the right of an image of the annotation's
   * size raises: its clamped box has zero width, so its crop is empty and
   * cv2.imwrite refuses it.
   */
  lemma OffImageObjectRaises<P>(m: Counter, objects: seq<ObjectEntry>, cls: string, b: Box, img: Grid<P>, width: int, height: int)
    requires width == img.width && height == img.Height() && width >= 1
    requires Ordered(b) && b.xmin >= width
    ensures !ObjectsPass(m, objects + [Object(cls, b)], img, width, height).ok
  {
    OffImageBoxCollapses(b, width, height);
    ClampedCropIsEmpty(img, b, width, height);
    assert (objects + [Object(cls, b)])[..|objects|] == objects;
  }

  /** The crop and the record written for the readable object o: its class, the pixels of its clamped box, and that box with the default pose, truncated and difficult. */
  ghost predicate WrittenFor<P>(o: ObjectEntry, crop: Effect<P>, record: ObjectRecord, img: Grid<P>, width: int, height: int) {
    && o.Object? && crop.WriteCrop?
    && var b := ClampBox(o.box, width, height);
      && crop.cls == o.name && crop.pixels == Crop(img, b)
      && record == DefaultRecord(o.name, b.xmin, b.ymin, b.xmax, b.ymax)
  }

  /** A writable object after a prefix that went through adds exactly one crop and one record, those written for it. */
  lemma ReadableObjectWritten<P>(m: Counter, objects: seq<ObjectEntry>, img: Grid<P>, width: int, height: int)
    requires objects != [] && Writable(objects[|objects| - 1], img, width, height)
    requires ObjectsPass(m, objects[..|objects| - 1], img, width, height).ok
    ensures var prev, pass := ObjectsPass(m, objects[..|objects| - 1], img, width, height), ObjectsPass(m, objects, img, width, height);
      && pass.ok && |pass.crops| == |prev.crops| + 1 && |pass.records| == |prev.records| + 1
      && pass.crops == prev.crops + [pass.crops[|prev.crops|]] && pass.records == prev.records + [pass.records[|prev.records|]]
      && WrittenFor(objects[|objects| - 1], pass.crops[|prev.crops|], pass.records[|prev.records|], img, width, height)
  {
    var prev := ObjectsPass(m, objects[..|objects| - 1], img, width, height);
    var pass := ObjectsPass(m, objects, img, width, height);
    var e := objects[|objects| - 1];
    var b := ClampBox(e.box, width, height);
    var crop := WriteCrop(e.name, pass.statDict[e.name], Crop(img, b));
    var record := DefaultRecord(e.name, b.xmin, b.ymin, b.xmax, b.ymax);
    assert pass.crops == prev.crops + [crop];
    assert pass.records == prev.records + [record];
    assert WrittenFor(e, crop, record, img, width, height);
  }

  /** Crop k and record k are those written for object k, for every k. */
  ghost predicate AllWrittenFor<P>(objects: seq<ObjectEntry>, crops: seq<Effect<P>>, records: seq<ObjectRecord>, img: Grid<P>, width: int, height: int) {
    && |crops| == |objects| && |records| == |objects|
    && forall k | 0 <= k < |objects| :: WrittenFor(objects[k], crops[k], records[k], img, width, height)
  }

  lemma AllWrittenForAppend<P>(objects: seq<ObjectEntry>, crops: seq<Effect<P>>, records: seq<ObjectRecord>, img: Grid<P>, width: int, height: int,
                               o: ObjectEntry, crop: Effect<P>, record: ObjectRecord)
    requires AllWrittenFor(objects, crops, records, img, width, height) && WrittenFor(o, crop, record, img, width, height)
    ensures AllWrittenFor(objects + [o], crops + [crop], records + [record], img, width, height)
  {
    forall k | 0 <= k < |objects| + 1
      ensures WrittenFor((objects + [o])[k], (crops + [crop])[k], (records + [record])[k], img, width, height)
    {
      if k < |objects| {
        assert WrittenFor(objects[k], crops[k], records[k], img, width, height);
      }
    }
  }

  /**
   * When every object element is readable and selects at least one pixel,
   * the object loop goes through all of them, and the k-th crop and the k-th record are those written for
   * the k-th object.
   */
  lemma {:induction false} PassOfWellFormedObjects<P>(m: Counter, objects: seq<ObjectEntry>, img: Grid<P>, width: int, height: int)
    requires WellFormed(objects, img, width, height)
    ensures var pass := ObjectsPass(m, objects, img, width, height);
      pass.ok && AllWrittenFor(objects, pass.crops, pass.records, img, width, height)
  {
    if objects != [] {
      var prefix := objects[..|objects| - 1];
      WellFormedPrefix(objects, img, width, height);
      PassOfWellFormedObjects(m, prefix, img, width, height);
      ReadableObjectWritten(m, objects, img, width, height);
      var prev := ObjectsPass(m, prefix, img, width, height);
      var pass := ObjectsPass(m, objects, img, width, height);
      var last, crop, record := objects[|objects| - 1], pass.crops[|prev.crops|], pass.records[|prev.records|];
      AllWrittenForAppend(prefix, prev.crops, prev.records, img, width, height, last, crop, record);
      assert prefix + [last] == objects;
      assert prev.crops + [crop] == pass.crops && prev.records + [record] == pass.records;
    }
  }

  /** A log of crops of the single class cls has cls once per entry as its crop classes. */
  lemma {:induction false} CropClassesOfOneClass<P>(log: seq<Effect<P>>, cls: string)
    requires forall k | 0 <= k < |log| :: log[k].WriteCrop? && log[k].cls == cls
    ensures |CropClasses(log)| == |log|
    ensures forall i | 0 <= i < |CropClasses(log)| :: CropClasses(log)[i] == cls
  {
    if log != [] {
      CropClassesOfOneClass(log[..|log| - 1], cls);
    }
  }

  /** In a log indexed in order whose entries are all crops of one class, crop k has index k. */
  lemma OneClassIndexedFromZero<P>(log: seq<Effect<P>>, cls: string)
    requires IndexedInOrder(log)
    requires forall k | 0 <= k < |log| :: log[k].WriteCrop? && log[k].cls == cls
    ensures forall k | 0 <= k < |log| :: log[k].index == k
  {
    forall k | 0 <= k < |log|
      ensures log[k].index == k
    {
      assert IndexedAt(log, k);
      CropClassesOfOneClass(log[..k], cls);
      SameClassIndices(CropClasses(log[..k]), cls);
    }
  }

  /** A pass that writes every object writes only crops, each of its object's class. */
  lemma AllWrittenForClasses<P>(objects: seq<ObjectEntry>, crops: seq<Effect<P>>, records: seq<ObjectRecord>, img: Grid<P>, width: int, height: int, cls: string)
    requires AllWrittenFor(objects, crops, records, img, width, height)
    requires forall k | 0 <= k < |objects| :: objects[k].name == cls
    ensures forall k | 0 <= k < |crops| :: crops[k].WriteCrop? && crops[k].cls == cls
  {
    forall k | 0 <= k < |crops|
      ensures crops[k].WriteCrop? && crops[k].cls == cls
    {
      assert WrittenFor(objects[k], crops[k], records[k], img, width, height);
    }
  }

  /**
   * Writable objects of one class cls, from an empty counter (the first image of a run), are written as
   * the crops cls_0, cls_1, ... in document order, with no gap and no repeat.
   */
  lemma OneClassNumberedFromZero<P>(cls: string, objects: seq<ObjectEntry>, img: Grid<P>, width: int, height: int)
    requires forall k | 0 <= k < |objects| :: Writable(objects[k], img, width, height) && objects[k].name == cls
    ensures var pass := ObjectsPass(map[], objects, img, width, height);
      && pass.ok && |pass.crops| == |objects|
      && forall k | 0 <= k < |pass.crops| :: pass.crops[k].WriteCrop? && pass.crops[k].cls == cls && pass.crops[k].index == k
  {
    var pass := ObjectsPass(map[], objects, img, width, height);
    assert WellFormed(objects, img, width, height);
    PassOfWellFormedObjects(map[], objects, img, width, height);
    AllWrittenForClasses(objects, pass.crops, pass.records, img, width, height, cls);
    var none: seq<Effect<P>> := [];
    EmptyAgrees();
    PassKeepsCounterInvariant(map[], none, objects, img, width, height);
    assert none + pass.crops == pass.crops;
    OneClassIndexedFromZero(pass.crops, cls);
  }

  /** Two writable objects of one class in the first image of a run (an empty counter): the first is crop 0 and the second crop 1. */
  lemma TwoObjectsOfOneClass<P>(cls: string, b1: Box, b2: Box, img: Grid<P>, width: int, height: int)
    requires Writable(Object(cls, b1), img, width, height) && Writable(Object(cls, b2), img, width, height)
    ensures var pass := ObjectsPass(map[], [Object(cls, b1), Object(cls, b2)], img, width, height);
      && pass.ok && |pass.crops| == 2
      && pass.crops[0].WriteCrop? && pass.crops[0].index == 0
      && pass.crops[1].WriteCrop? && pass.crops[1].index == 1
      && pass.statDict == map[cls := 1]
  {
    var objects := [Object(cls, b1), Object(cls, b2)];
    assert objects[..1] == [Object(cls, b1)];
    assert objects[..1][..0] == [];
    var first := ObjectsPass(map[], objects[..1], img, width, height);
    assert ObjectsPass(map[], objects[..1][..0], img, width, height) == PassState(map[], [], [], true);
    assert first.ok && first.statDict == map[cls := 0] && |first.crops| == 1 && first.crops[0].index == 0;
    var pass := ObjectsPass(map[], objects, img, width, height);
    assert pass.statDict == map[cls := 1];
    assert pass.crops == first.crops + [WriteCrop(cls, 1, Crop(img, ClampBox(b2, width, height)))];
  }

  /**
   * A listed annotation whose image exists and whose objects are all
   * writable yields its crops, then the copy of its image to
   * <output>/JPEGImages/<filename>, then the mirrored annotation: the parsed
   * size and depth, database "Unknown", segmented 0 and one record per
   * object, in order.
   */
  lemma WellFormedItemMirrored<P>(env: Env<P>, m: Counter, item: string, a: Annotation)
    requires env.imageExists(JpegFile(env.dataDir, item))
    requires env.parse(AnnotationFilePath(env.dataDir, item)) == Some(a)
    requires WellFormed(a.objects, env.load(JpegFile(env.dataDir, item)), a.width, a.height)
    ensures var r, jpegFile := ProcessItem(env, m, item), JpegFile(env.dataDir, item);
      var pass := ObjectsPass(m, a.objects, env.load(jpegFile), a.width, a.height);
      && r.running && r.statDict == pass.statDict && |r.log| == |a.objects| + 2
      && r.log[..|a.objects|] == pass.crops
      && r.log[|a.objects|] == CopyImage(jpegFile, MirroredImagePath(env.outputDir, a.filename))
      && r.log[|a.objects| + 1].SaveAnnotation?
      && r.log[|a.objects| + 1].file.path == MirroredAnnotationPath(env.outputDir, a.filename)
      && r.log[|a.objects| + 1].file.parameters.objects == pass.records
      && r.log[|a.objects| + 1].file.parameters.width == a.width
      && r.log[|a.objects| + 1].file.parameters.height == a.height
      && r.log[|a.objects| + 1].file.parameters.depth == a.depth
      && r.log[|a.objects| + 1].file.parameters.database == "Unknown"
      && r.log[|a.objects| + 1].file.parameters.segmented == 0
  {
    var jpegFile := JpegFile(env.dataDir, item);
    PassOfWellFormedObjects(m, a.objects, env.load(jpegFile), a.width, a.height);
    ProcessAnnotationShape(env, m, jpegFile, a);
  }

  /**
   * The mirrored annotation names its image by the annotation's filename
   * field and its folder as JPEGImages, when that field is a plain file
   * name.
   */
  lemma MirroredParametersNames(dataDir: string, a: Annotation, records: seq<ObjectRecord>)
    requires NoSlash(a.filename)
    ensures MirroredParameters(dataDir, a, records).filename == a.filename
    ensures MirroredParameters(dataDir, a, records).folder == "JPEGImages"
  {
    SubdirectoryImageNames(dataDir, "JPEGImages", a.filename, a.width, a.height, a.depth);
  }

  /** An image <dir>/<sub>/<name> is recorded with file name name and folder sub, whatever dir is. */
  lemma SubdirectoryImageNames(dir: string, sub: string, name: string, width: int, height: int, depth: int)
    requires NoSlash(sub) && sub != [] && NoSlash(name)
    ensures InitialParameters(Join(Join(dir, sub), name), width, height, depth, "Unknown", 0).filename == name
    ensures InitialParameters(Join(Join(dir, sub), name), width, height, depth, "Unknown", 0).folder == sub
  {
    var subdir := Join(dir, sub);
    JoinParts(dir, sub);
    assert subdir[|subdir| - 1] == sub[|sub| - 1];
    InitialParametersOfImagePath(subdir, name, width, height, depth);
    BasenameOfJoin(dir, sub);
  }

  /** For an item <stem>.xml the image looked for is <data>/JPEGImages/<stem>.jpg. */
  lemma JpegFileOfXmlItem(dataDir: string, stem: string)
    requires IsStem(stem)
    ensures JpegFile(dataDir, stem + ".xml") == ImagePath(dataDir, stem + ".jpg")
  {
    var none: string := [];
    SplitextOfAddedExtension(none, stem, ".xml");
    assert none + stem + ".xml" == stem + ".xml" && none + stem == stem;
  }

  /**
   * The mirrored annotation of an image named <dir><stem>.<ext>, relative to
   * the data directory, is <output>/Annotations/<dir><stem>.xml: the
   * directory part of the name (empty, or ending in one '/') is kept.
   */
  lemma MirroredAnnotationPathOfImage(outputDir: string, dir: string, stem: string, ext: string)
    requires IsDirectoryPart(dir) && IsStem(stem) && IsExtension(ext)
    ensures MirroredAnnotationPath(outputDir, dir + stem + ext) == Join(Join(outputDir, "Annotations"), dir + stem + ".xml")
  {
    var annotations := Join(outputDir, "Annotations");
    JoinParts(outputDir, "Annotations");
    assert annotations[|annotations| - 1] == 's';
    ReplaceExtensionUnder(annotations, dir, stem, ext, ".xml");
  }
}
