/** The Python inference service (backend/ml/app.py): the upload-name
    check `allowed_file` and the `/api/analyze-medicine` handler, whose
    ladder of checks answers 400 for a missing field, an empty filename
    or a disallowed extension, and otherwise saves the upload into the
    upload folder, runs the pre-loaded models on it and answers. */
module MlService {
  import opened Text

  const UploadFolder := "uploads"
  const AllowedExtensions: set<string> := {"png", "jpg", "jpeg"}

  const NoImageProvided := "No image provided"
  const NoSelectedFile := "No selected file"
  const InvalidFileType := "Invalid file type"
  const AnalysisComplete := "Analysis complete"

  /** `allowed_file`: the name has a '.', and the text after its LAST '.',
      lower-cased, is one of the allowed extensions. */
  function AllowedFile(filename: string): (ok: bool)
    ensures ok ==> '.' in filename
    ensures ok <==> exists k :: IsLastDot(filename, k) && Lower(filename[k + 1..]) in AllowedExtensions
  {
    match LastIndexOf(filename, '.')
    case None =>
      NoDotNoLastDot(filename);
      false
    case Some(k) =>
      DecidedAtLastDot(filename, k);
      Lower(filename[k + 1..]) in AllowedExtensions
  }

  lemma NoDotNoLastDot(filename: string)
    requires '.' !in filename
    ensures forall k :: !IsLastDot(filename, k)
  {
    forall k | 0 <= k < |filename| ensures filename[k] != '.' {
      assert filename[k] in filename;
    }
  }

  /** The last '.' is the only one the check can be decided at. */
  lemma DecidedAtLastDot(filename: string, k: nat)
    requires k < |filename| && filename[k] == '.'
    requires forall i :: k < i < |filename| ==> filename[i] != '.'
    ensures (exists j :: IsLastDot(filename, j) && Lower(filename[j + 1..]) in AllowedExtensions)
            <==> Lower(filename[k + 1..]) in AllowedExtensions
  {
    assert IsLastDot(filename, k);
    forall j | IsLastDot(filename, j) ensures j == k {
      LastDotUnique(filename, k, j);
    }
  }

  /** Only the text after the last '.' decides: for a name made of any
      stem, a '.', and a dot-free extension, the name is allowed exactly
      when the lower-cased extension is png, jpg or jpeg. */
  lemma AllowedFileDecidedByLastExtension(stem: string, ext: string)
    requires '.' !in ext
    ensures AllowedFile(stem + "." + ext) <==> Lower(ext) in AllowedExtensions
  {
    var f := stem + "." + ext;
    LastDotOfDottedName(stem, ext);
    assert f[|stem| + 1..] == ext;
  }

  /** The check ignores case: a name and its lower-cased form are treated alike. */
  lemma AllowedFileIgnoresCase(filename: string)
    ensures AllowedFile(Lower(filename)) == AllowedFile(filename)
  {
    var low := Lower(filename);
    forall k | 0 <= k < |filename|
      ensures IsLastDot(low, k) <==> IsLastDot(filename, k)
      ensures Lower(low[k + 1..]) == Lower(filename[k + 1..])
    {
      LowerKeepsLastDot(filename, k);
    }
  }

  /** Lower-casing moves no '.' and lower-cases the text after each one. */
  lemma LowerKeepsLastDot(filename: string, k: nat)
    requires k < |filename|
    ensures IsLastDot(Lower(filename), k) <==> IsLastDot(filename, k)
    ensures Lower(Lower(filename)[k + 1..]) == Lower(filename[k + 1..])
  {
    var low := Lower(filename);
    assert forall i :: 0 <= i < |filename| ==> (low[i] == '.' <==> filename[i] == '.');
    LowerSlice(filename, k + 1);
    LowerIdempotent(filename[k + 1..]);
  }

  /** A name without any '.' is never allowed, whatever it spells. */
  lemma AllowedFileNeedsDot()
    ensures !AllowedFile("png") && !AllowedFile("")
  {
  }

  lemma LowerOfJPG()
    ensures Lower("JPG") == "jpg"
  {
    var low := Lower("JPG");
    assert low[0] == 'j' && low[1] == 'p' && low[2] == 'g';
  }

  lemma LowerKeepsLowerCase(s: string)
    requires forall i :: 0 <= i < |s| ==> !('A' <= s[i] <= 'Z')
    ensures Lower(s) == s
  {
  }

  /** Only the last extension counts: "a.png.exe" is refused and
      "a.tar.jpeg" accepted. */
  lemma AllowedFileLastDotExamples()
    ensures !AllowedFile("a.png" + "." + "exe")
    ensures AllowedFile("a.tar" + "." + "jpeg")
  {
    AllowedFileDecidedByLastExtension("a.png", "exe");
    NotAllowedByFirstLetter("exe");
    AllowedFileDecidedByLastExtension("a.tar", "jpeg");
    assert Lower("jpeg") == "jpeg";
  }

  /** Capitals are accepted ("X.JPG"), a name that is only a '.' and an
      extension is accepted (".png"), and the empty extension after a
      trailing '.' is refused ("a."). */
  lemma AllowedFileEdgeExamples()
    ensures AllowedFile("X" + "." + "JPG")
    ensures AllowedFile("" + "." + "png")
    ensures !AllowedFile("a" + "." + "")
  {
    AcceptsUpperCaseExtension();
    AcceptsLeadingDotName();
    RefusesEmptyExtension();
  }

  lemma AcceptsUpperCaseExtension()
    ensures AllowedFile("X" + "." + "JPG")
  {
    AllowedFileDecidedByLastExtension("X", "JPG");
    LowerOfJPG();
  }

  lemma AcceptsLeadingDotName()
    ensures AllowedFile("" + "." + "png")
  {
    AllowedFileDecidedByLastExtension("", "png");
    LowerKeepsLowerCase("png");
  }

  lemma RefusesEmptyExtension()
    ensures !AllowedFile("a" + "." + "")
  {
    AllowedFileDecidedByLastExtension("a", "");
  }

  /** Other image extensions, webp among them, are refused. */
  lemma AllowedFileRefusesOtherImages(stem: string)
    ensures !AllowedFile(stem + "." + "webp")
    ensures !AllowedFile(stem + "." + "gif")
  {
    AllowedFileDecidedByLastExtension(stem, "webp");
    NotAllowedByFirstLetter("webp");
    AllowedFileDecidedByLastExtension(stem, "gif");
    NotAllowedByFirstLetter("gif");
  }

  /** Every allowed extension starts with 'p' or 'j'. */
  lemma NotAllowedByFirstLetter(ext: string)
    requires ext != [] && LowerChar(ext[0]) != 'p' && LowerChar(ext[0]) != 'j'
    ensures Lower(ext) !in AllowedExtensions
  {
    assert Lower(ext)[0] == LowerChar(ext[0]);
  }

  /** `os.path.join(dir, name)` on POSIX: an absolute `name` replaces the
      directory; otherwise a '/' is put between them unless `dir` ends in one. */
  function JoinPath(dir: string, name: string): (p: string)
    ensures |name| > 0 && name[0] == '/' ==> p == name
    ensures (|name| == 0 || name[0] != '/') ==> |p| >= |dir| + |name| && p[..|dir|] == dir && p[|p| - |name|..] == name
  {
    if |name| > 0 && name[0] == '/' then name
    else if dir == [] || dir[|dir| - 1] == '/' then dir + name
    else dir + "/" + name
  }

  /** One uploaded part of a multipart request, by its file name; its
      contents are not modelled. */
  datatype FilePart = FilePart(filename: string)

  /** The classifier's predicted class and its largest class probability. */
  datatype Prediction = Prediction(predicted: int, confidence: real)

  /** What preprocessing, feature extraction, scaling and classification of
      the saved upload give: a prediction, or the text of the exception raised. */
  datatype Outcome = Predicted(prediction: Prediction) | Raised(message: string)

  datatype Body =
    | Verdict(isAuthentic: bool, confidence: real, message: string)
    | Error(error: string)

  datatype Response = Response(status: nat, body: Body)

  /** The running service. Its models are loaded once at start-up and never
      change, so they are constant fields; the upload folder is the set of
      paths present in it. */
  class InferenceService {
    var uploads: set<string>
    /** `werkzeug.utils.secure_filename`, a foreign call. */
    const secureFilename: string -> string
    /** `file.save(path)`: None when the write succeeds, otherwise the
        text of the exception it raises. */
    const saveError: string -> Option<string>
    /** `preprocess_image`, `extract_features`, `scaler.transform`,
        `classifier.predict` and `predict_proba(...).max()` on the file at a path. */
    const pipeline: string -> Outcome

    constructor (existing: set<string>, secureFilename: string -> string,
                 saveError: string -> Option<string>, pipeline: string -> Outcome)
      ensures uploads == existing
      ensures this.secureFilename == secureFilename
      ensures this.saveError == saveError
      ensures this.pipeline == pipeline
    {
      this.uploads := existing;
      this.secureFilename := secureFilename;
      this.saveError := saveError;
      this.pipeline := pipeline;
    }

    /** The path the handler saves a request's upload to: its sanitised
        name directly inside the upload folder, unless the sanitised name
        is absolute. */
    function TempPathFor(filename: string): (p: string)
      ensures |secureFilename(filename)| > 0 && secureFilename(filename)[0] == '/' ==> p == secureFilename(filename)
      ensures (|secureFilename(filename)| == 0 || secureFilename(filename)[0] != '/') ==>
        |p| == |UploadFolder| + 1 + |secureFilename(filename)|
        && p[..|UploadFolder| + 1] == UploadFolder + "/"
        && p[|UploadFolder| + 1..] == secureFilename(filename)
    {
      JoinPath(UploadFolder, secureFilename(filename))
    }

    /** `analyze_medicine`, given the request's uploaded files by field name. */
    method AnalyzeMedicine(files: map<string, FilePart>) returns (resp: Response)
      modifies this
      ensures "image" !in files ==>
        resp == Response(400, Error(NoImageProvided)) && uploads == old(uploads)
      ensures "image" in files && files["image"].filename == "" ==>
        resp == Response(400, Error(NoSelectedFile)) && uploads == old(uploads)
      ensures "image" in files && files["image"].filename != "" && !AllowedFile(files["image"].filename) ==>
        resp == Response(400, Error(InvalidFileType)) && uploads == old(uploads)
      ensures "image" in files && files["image"].filename != "" && AllowedFile(files["image"].filename) ==>
        var path := TempPathFor(files["image"].filename);
        match saveError(path)
        case Some(e) => resp == Response(500, Error(e)) && uploads == old(uploads)
        case None =>
          match pipeline(path)
          case Raised(e) => resp == Response(500, Error(e)) && uploads == old(uploads) + {path}
          case Predicted(p) =>
            resp == Response(200, Verdict(p.predicted != 0, p.confidence, AnalysisComplete))
            && uploads == old(uploads) - {path}
      // Only the upload's own temporary path can appear or disappear.
      ensures resp.status != 400 ==> "image" in files
      ensures resp.status != 400 ==> forall q :: q != TempPathFor(files["image"].filename) ==>
        (q in uploads <==> q in old(uploads))
      ensures resp.status == 400 ==> uploads == old(uploads)
      ensures resp.status == 200 <==> resp.body.Verdict?
      ensures resp.status in {200, 400, 500}
    {
      if "image" !in files {
        return Response(400, Error(NoImageProvided));
      }
      var file := files["image"];
      if file.filename == "" {
        return Response(400, Error(NoSelectedFile));
      }
      if AllowedFile(file.filename) {
        var filename := secureFilename(file.filename);
        var tempPath := JoinPath(UploadFolder, filename);
        var failure := saveError(tempPath);
        if failure.Some? {
          return Response(500, Error(failure.value));
        }
        uploads := uploads + {tempPath};
        var outcome := pipeline(tempPath);
        if outcome.Raised? {
          return Response(500, Error(outcome.message));
        }
        uploads := uploads - {tempPath};
        return Response(200, Verdict(outcome.prediction.predicted != 0, outcome.prediction.confidence, AnalysisComplete));
      }
      return Response(400, Error(InvalidFileType));
    }
  }
}
