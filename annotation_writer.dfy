/**
 * The Writer of crop_pascal_voc.py (lines 12-46): it holds the parameters
 * of one output annotation and accumulates its object records.
 */
module AnnotationWriter {
  import opened Paths

  /** One object of the output annotation, as addObject stores it. */
  datatype ObjectRecord = ObjectRecord(
    name: string, xmin: int, ymin: int, xmax: int, ymax: int,
    pose: string, truncated: int, difficult: int)

  /** template_parameters: everything the annotation template is rendered from. */
  datatype TemplateParameters = TemplateParameters(
    filename: string, folder: string, width: int, height: int, depth: int,
    database: string, segmented: int, objects: seq<ObjectRecord>)

  /** An annotation file as save leaves it: its path and the parameters rendered into it. */
  datatype AnnotationFile = AnnotationFile(path: string, parameters: TemplateParameters)

  /**
   * The parameters of a fresh writer for the image at path: the image's
   * file name, the name of the directory holding it, the given size and
   * defaults, and no objects.
   */
  function InitialParameters(path: string, width: int, height: int, depth: int, database: string, segmented: int): (t: TemplateParameters)
    ensures t.objects == []
    ensures t.width == width && t.height == height && t.depth == depth
    ensures t.database == database && t.segmented == segmented
  {
    TemplateParameters(Basename(path), Basename(Dirname(path)), width, height, depth, database, segmented, [])
  }

  class Writer {
    var templateParameters: TemplateParameters

    /** Writer(path, width, height, depth=3, database='Unknown', segmented=0); the template itself is not modelled. */
    constructor (path: string, width: int, height: int, depth: int := 3, database: string := "Unknown", segmented: int := 0)
      ensures templateParameters == InitialParameters(path, width, height, depth, database, segmented)
    {
      templateParameters := InitialParameters(path, width, height, depth, database, segmented);
    }

    /** addObject: appends one record at the end and leaves every other parameter and earlier record as it was. */
    method AddObject(name: string, xmin: int, ymin: int, xmax: int, ymax: int,
                     pose: string := "Unspecified", truncated: int := 0, difficult: int := 0)
      modifies this
      ensures templateParameters == old(templateParameters).(objects :=
        old(templateParameters.objects) + [ObjectRecord(name, xmin, ymin, xmax, ymax, pose, truncated, difficult)])
    {
      templateParameters := templateParameters.(objects :=
        templateParameters.objects + [ObjectRecord(name, xmin, ymin, xmax, ymax, pose, truncated, difficult)]);
    }

    /** save: the file at annotationPath receives the current parameters, objects included; the writer is unchanged. */
    method Save(annotationPath: string) returns (f: AnnotationFile)
      ensures f.path == annotationPath && f.parameters == templateParameters
    {
      f := AnnotationFile(annotationPath, templateParameters);
    }
  }

  /** The record addObject stores for a name and box when pose, truncated and difficult are left at their defaults. */
  function DefaultRecord(name: string, xmin: int, ymin: int, xmax: int, ymax: int): (o: ObjectRecord)
    ensures o.pose == "Unspecified" && o.truncated == 0 && o.difficult == 0
    ensures o.name == name && o.xmin == xmin && o.ymin == ymin && o.xmax == xmax && o.ymax == ymax
  {
    ObjectRecord(name, xmin, ymin, xmax, ymax, "Unspecified", 0, 0)
  }

  /** A fresh writer for an image in directory dir records the image's own name and dir's last component. */
  lemma InitialParametersOfImagePath(dir: string, imageName: string, width: int, height: int, depth: int)
    requires NoSlash(imageName) && dir != [] && dir[|dir| - 1] != '/'
    ensures InitialParameters(Join(dir, imageName), width, height, depth, "Unknown", 0).filename == imageName
    ensures InitialParameters(Join(dir, imageName), width, height, depth, "Unknown", 0).folder == Basename(dir)
  {
    BasenameOfJoin(dir, imageName);
    DirnameOfJoin(dir, imageName);
  }
}
