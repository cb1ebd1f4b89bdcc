/** The Node gateway's medication routes (backend/routes/medicationRoutes.js):
    the multer upload filter and stored-file naming, `POST /verify` which
    forwards the stored image to the inference service and records the
    verdict, `GET /history` and `GET /:id`. The Mongo collection is a
    sequence of records held by a store object; clocks and the inference
    service's answer are parameters. */
module Gateway {
  import opened Text
  import NodePath

  const UploadDir := "uploads/"
  const UrlPrefix := "/uploads/"
  /** multer's `limits.fileSize`, in bytes. */
  const MaxFileSize := 5000000
  /** The alternatives of the filter's regular expression `/jpeg|jpg|png|webp/`. */
  const ImageTypes: set<string> := {"jpeg", "jpg", "png", "webp"}

  const FilterError := "Error: Images only (JPG, PNG, WEBP)"
  /** The message of the error multer raises for a file over the size limit. */
  const FileTooLarge := "File too large"
  const NoImageProvided := "No image provided"
  const VerificationFailed := "Server error during verification"
  const ServerError := "Server error"
  const NotFound := "Medication not found"
  const NotAuthorized := "Not authorized"

  /** Some alternative of the filter's pattern occurs somewhere in `s`. */
  ghost predicate MentionsImageType(s: string)
  {
    exists t :: t in ImageTypes && Occurs(t, s)
  }

  /** `/jpeg|jpg|png|webp/.test(s)`: unanchored and case-sensitive. */
  function ImageTypePattern(s: string): (b: bool)
    ensures b <==> MentionsImageType(s)
  {
    var b := Contains(s, "jpeg") || Contains(s, "jpg") || Contains(s, "png") || Contains(s, "webp");
    assert b ==> MentionsImageType(s);
    assert MentionsImageType(s) ==> b by {
      if MentionsImageType(s) {
        var t :| t in ImageTypes && Occurs(t, s);
        assert t == "jpeg" || t == "jpg" || t == "png" || t == "webp";
      }
    }
    b
  }

  /** multer's `fileFilter`: the lower-cased extension of the client's file
      name and the raw, not lower-cased, MIME type must each mention one of
      jpeg, jpg, png, webp somewhere. */
  function FileFilter(originalname: string, mimetype: string): (accept: bool)
    ensures accept <==> MentionsImageType(Lower(NodePath.ExtName(originalname))) && MentionsImageType(mimetype)
  {
    var extname := ImageTypePattern(Lower(NodePath.ExtName(originalname)));
    var mimeOk := ImageTypePattern(mimetype);
    mimeOk && extname
  }

  /** Every alternative of the pattern begins with a lower-case letter, so a
      string without lower-case letters mentions none of them. */
  lemma NoLowerCaseNoImageType(s: string)
    requires forall i :: 0 <= i < |s| ==> !('a' <= s[i] <= 'z')
    ensures !MentionsImageType(s)
  {
    forall t | t in ImageTypes ensures !Occurs(t, s) {
      assert t[0] == 'j' || t[0] == 'p' || t[0] == 'w';
      forall i | 0 <= i && i + |t| <= |s| ensures !OccursAt(t, s, i) {
        assert s[i..i + |t|][0] == s[i];
      }
    }
  }

  /** The filter function does not lower-case `file.mimetype`: given a
      type without lower-case letters, such as "IMAGE/PNG", it refuses the
      file whatever it is called. Through multer no request reaches this
      case, since multer's parser hands the filter a lower-cased type. */
  lemma FilterRefusesUpperCaseMimetype(originalname: string, mimetype: string)
    requires forall i :: 0 <= i < |mimetype| ==> !('a' <= mimetype[i] <= 'z')
    ensures !FileFilter(originalname, mimetype)
  {
    NoLowerCaseNoImageType(mimetype);
  }

  /** A name whose only '.' is its first character, such as ".png", has an
      empty extension and is refused. */
  lemma FilterRefusesLeadingDotName(ext: string, mimetype: string)
    requires '/' !in ext && '.' !in ext
    ensures !FileFilter("." + ext, mimetype)
  {
    NodePath.ExtNameOfLeadingDotName(ext);
    assert !MentionsImageType("") by {
      forall t | t in ImageTypes ensures !Occurs(t, "") {
        assert |t| > 0;
      }
    }
  }

  /** A name `stem.ext` whose extension, lower-cased, is one of the
      alternatives passes with an image MIME type. */
  lemma FilterAcceptsImageExtension(stem: string, ext: string, mimetype: string)
    requires '/' !in stem && stem != [] && '/' !in ext && '.' !in ext
    requires Lower(ext) in ImageTypes && MentionsImageType(mimetype)
    ensures FileFilter(stem + "." + ext, mimetype)
  {
    NodePath.ExtNameOfDottedName(stem, ext);
    LowerDotExtension(ext);
    MentionedAfterDot(Lower(ext));
  }

  lemma LowerDotExtension(ext: string)
    ensures Lower("." + ext) == "." + Lower(ext)
  {
    LowerConcat(".", ext);
    assert Lower(".") == ".";
  }

  lemma MentionedAfterDot(t: string)
    requires t in ImageTypes
    ensures MentionsImageType("." + t)
  {
    assert ("." + t)[1..1 + |t|] == t;
    assert OccursAt(t, "." + t, 1);
  }

  /** The pattern is unanchored: a name ending in ".jpgx" passes because
      "jpg" occurs in its extension. */
  lemma FilterAcceptsUnanchoredMatch(stem: string)
    requires '/' !in stem && '.' !in stem && stem != []
    ensures FileFilter(stem + "." + "jpgx", "image/jpeg")
  {
    NodePath.ExtNameOfDottedName(stem, "jpgx");
    LowerDotExtension("jpgx");
    JpgInDotJpgx();
    JpegInImageJpeg();
  }

  lemma JpgInDotJpgx()
    ensures MentionsImageType("." + Lower("jpgx"))
  {
    var s := "." + Lower("jpgx");
    assert Lower("jpgx") == "jpgx";
    assert s[1..4] == "jpg";
    assert OccursAt("jpg", s, 1);
  }

  lemma JpegInImageJpeg()
    ensures MentionsImageType("image/jpeg")
  {
    assert "image/jpeg"[6..10] == "jpeg";
    assert OccursAt("jpeg", "image/jpeg", 6);
  }

  /** multer's `filename` callback: the upload time in milliseconds, a '-'
      and the client's file name. */
  function StoredFilename(now: nat, originalname: string): (s: string)
    ensures IndexOf(s, '-') == Some(|Decimal(now)|)
    ensures s[..|Decimal(now)|] == Decimal(now)
    ensures s[|Decimal(now)| + 1..] == originalname
  {
    var digits := Decimal(now);
    var s := digits + "-" + originalname;
    assert s[|digits|] == '-';
    assert s[..|digits|] == digits;
    assert '-' !in s[..|digits|];
    s
  }

  /** The URL the gateway reports for a stored file: the file's name under "/uploads/". */
  function ImageUrl(filename: string): (u: string)
    ensures |u| == |UrlPrefix| + |filename|
    ensures u[..|UrlPrefix|] == UrlPrefix && u[|UrlPrefix|..] == filename
  {
    UrlPrefix + filename
  }

  /** The inverse of `StoredFilename`: the digits before the first '-' and
      the text after it. */
  function SplitStoredFilename(name: string): (r: Option<(nat, string)>)
  {
    match IndexOf(name, '-')
    case None => None
    case Some(i) =>
      if i > 0 && forall j :: 0 <= j < i ==> IsDigit(name[j])
      then Some((ParseDecimal(name[..i]), name[i + 1..]))
      else None
  }

  /** The stored name keeps both the upload time and the client's name:
      splitting it at its first '-' gives both back. */
  lemma StoredFilenameRoundTrip(now: nat, originalname: string)
    ensures SplitStoredFilename(StoredFilename(now, originalname)) == Some((now, originalname))
  {
    ParseDecimalOfDecimal(now);
  }

  /** The reported URL is "/uploads/" followed by the stored name, from
      which the upload time and the client's name can be read back. */
  lemma ImageUrlNamesStoredFile(now: nat, originalname: string)
    ensures |ImageUrl(StoredFilename(now, originalname))| > |UrlPrefix|
    ensures ImageUrl(StoredFilename(now, originalname))[..|UrlPrefix|] == UrlPrefix
    ensures SplitStoredFilename(ImageUrl(StoredFilename(now, originalname))[|UrlPrefix|..]) == Some((now, originalname))
  {
    var name := StoredFilename(now, originalname);
    assert ImageUrl(name)[|UrlPrefix|..] == name;
    StoredFilenameRoundTrip(now, originalname);
  }

  /** The file part named `image` as multer hands it to `fileFilter` and
      the storage callbacks: `file.originalname` and `file.mimetype` as
      multer's multipart parser produced them (the name without directory
      parts, the type lower-cased without parameters), and the part's size. */
  datatype Part = Part(originalname: string, mimetype: string, size: nat)

  /** What multer records in `req.file` once the file is on disk. */
  datatype StoredFile = StoredFile(originalname: string, filename: string, path: string)

  /** What `upload.single('image')` does with a request: no file (the
      handler still runs), a refusal (passed to Express's error handler, so
      the route handler never runs), or a file stored on disk. */
  datatype Upload = NoFile | Refused(error: string) | Stored(file: StoredFile)

  /** multer with the route's storage, size limit and filter: a part with
      an empty file name (a form submitted without choosing a file) is
      skipped, so the handler sees no file; otherwise the filter is
      consulted before the file is written, and a file over the limit is
      refused and its partial copy removed. */
  function ReceiveUpload(part: Option<Part>, now: nat): (u: Upload)
    ensures u.NoFile? <==> part.None? || part.value.originalname == ""
    ensures u.Stored? <==> part.Some? && part.value.originalname != ""
                                      && FileFilter(part.value.originalname, part.value.mimetype)
                                      && part.value.size <= MaxFileSize
    ensures u.Refused? ==> u.error == (if FileFilter(part.value.originalname, part.value.mimetype)
                                       then FileTooLarge else FilterError)
    ensures u.Stored? ==> u.file.originalname == part.value.originalname
    ensures u.Stored? ==> u.file.filename == StoredFilename(now, part.value.originalname)
    ensures u.Stored? ==> u.file.path == UploadDir + u.file.filename
  {
    match part
    case None => NoFile
    case Some(p) =>
      if p.originalname == "" then NoFile
      else if !FileFilter(p.originalname, p.mimetype) then Refused(FilterError)
      else if p.size > MaxFileSize then Refused(FileTooLarge)
      else
        var filename := StoredFilename(now, p.originalname);
        Stored(StoredFile(p.originalname, filename, UploadDir + filename))
  }

  /** A stored upload's name reads back as the upload time and the
      client's file name. */
  lemma ReceivedNameReadsBack(part: Option<Part>, now: nat)
    ensures ReceiveUpload(part, now).Stored? ==>
      SplitStoredFilename(ReceiveUpload(part, now).file.filename) == Some((now, part.value.originalname))
  {
    if ReceiveUpload(part, now).Stored? {
      StoredFilenameRoundTrip(now, part.value.originalname);
    }
  }

  /** The inference service's answer as the gateway's HTTP client sees it:
      the verdict fields of a successful response, or a failure (a non-2xx
      status, a network error or the 30-second timeout). */
  datatype AiReply = AiAnswered(isAuthentic: bool, confidence: real) | AiFailed

  datatype VerificationResult = VerificationResult(isAuthentic: bool, confidence: real, timestamp: int, imageUrl: string)

  /** The `metadata` field of a record: the request's text, or `{}`. */
  datatype Metadata = EmptyObject | Given(text: string)

  datatype Medication = Medication(id: nat, userId: string, verificationResult: VerificationResult, metadata: Metadata)

  /** `req.body.metadata || {}`: a missing or empty form field falls back to `{}`. */
  function MetadataOf(field: Option<string>): (m: Metadata)
    ensures m == EmptyObject <==> field == None || field == Some("")
    ensures m.Given? ==> field == Some(m.text)
  {
    if field.Some? && field.value != "" then Given(field.value) else EmptyObject
  }

  datatype Payload =
    | Message(message: string)
    | Result(result: VerificationResult)
    | Record(medication: Medication)
    | Records(medications: seq<Medication>)

  /** A JSON answer with its status, or an error passed on to Express's
      default error handler. */
  datatype Reply = Json(status: nat, payload: Payload) | Forwarded(error: string)

  function Timestamp(m: Medication): int
  {
    m.verificationResult.timestamp
  }

  /** Ordered by `verificationResult.timestamp`, newest first. */
  ghost predicate NewestFirst(s: seq<Medication>)
  {
    forall i, j :: 0 <= i < j < |s| ==> Timestamp(s[i]) >= Timestamp(s[j])
  }

  /** In a newest-first sequence the head is at least as new as the rest. */
  lemma HeadIsNewest(s: seq<Medication>)
    requires NewestFirst(s) && s != []
    ensures forall x :: x in multiset(s[1..]) ==> Timestamp(s[0]) >= Timestamp(x)
  {
    forall x | x in multiset(s[1..]) ensures Timestamp(s[0]) >= Timestamp(x) {
      var j :| 0 <= j < |s[1..]| && s[1..][j] == x;
      assert s[j + 1] == x;
    }
  }

  lemma NewestFirstTail(s: seq<Medication>)
    requires NewestFirst(s) && s != []
    ensures NewestFirst(s[1..])
  {
    forall i, j | 0 <= i < j < |s| - 1 ensures Timestamp(s[1..][i]) >= Timestamp(s[1..][j]) {
      assert s[1..][i] == s[i + 1] && s[1..][j] == s[j + 1];
    }
  }

  lemma NewestFirstCons(x: Medication, s: seq<Medication>)
    requires NewestFirst(s)
    requires forall y :: y in multiset(s) ==> Timestamp(x) >= Timestamp(y)
    ensures NewestFirst([x] + s)
  {
    var r := [x] + s;
    forall i, j | 0 <= i < j < |r| ensures Timestamp(r[i]) >= Timestamp(r[j]) {
      if i == 0 {
        assert r[j] == s[j - 1];
        assert s[j - 1] in multiset(s);
      } else {
        assert r[i] == s[i - 1] && r[j] == s[j - 1];
      }
    }
  }

  function InsertNewestFirst(m: Medication, s: seq<Medication>): (r: seq<Medication>)
    requires NewestFirst(s)
    ensures NewestFirst(r)
    ensures multiset(r) == multiset(s) + multiset{m}
  {
    if s == [] || Timestamp(s[0]) <= Timestamp(m) then
      InsertAtFront(m, s);
      [m] + s
    else
      NewestFirstTail(s);
      var rest := InsertNewestFirst(m, s[1..]);
      InsertBehindHead(m, s, rest);
      [s[0]] + rest
  }

  /** A record at least as new as the head goes in front. */
  lemma InsertAtFront(m: Medication, s: seq<Medication>)
    requires NewestFirst(s)
    requires s == [] || Timestamp(s[0]) <= Timestamp(m)
    ensures NewestFirst([m] + s)
  {
    if s != [] {
      HeadIsNewest(s);
      assert s == [s[0]] + s[1..];
    }
    NewestFirstCons(m, s);
  }

  /** An older record goes behind the head, into the rest. */
  lemma InsertBehindHead(m: Medication, s: seq<Medication>, rest: seq<Medication>)
    requires NewestFirst(s) && s != [] && Timestamp(s[0]) > Timestamp(m)
    requires NewestFirst(rest) && multiset(rest) == multiset(s[1..]) + multiset{m}
    ensures NewestFirst([s[0]] + rest)
    ensures multiset([s[0]] + rest) == multiset(s) + multiset{m}
  {
    HeadIsNewest(s);
    forall y | y in multiset(rest) ensures Timestamp(s[0]) >= Timestamp(y) {
      if y != m {
        assert y in multiset(s[1..]);
      }
    }
    NewestFirstCons(s[0], rest);
    calc {
      multiset([s[0]] + rest);
      multiset{s[0]} + multiset(s[1..]) + multiset{m};
      { assert s == [s[0]] + s[1..]; }
      multiset(s) + multiset{m};
    }
  }

  /** The sort the store applies for `.sort({'verificationResult.timestamp': -1})`.
      Mongo leaves the order of equal timestamps unspecified; this one is
      one of the orders it may return. */
  function SortNewestFirst(s: seq<Medication>): (r: seq<Medication>)
    ensures NewestFirst(r)
    ensures multiset(r) == multiset(s)
  {
    if s == [] then []
    else
      assert s == [s[0]] + s[1..];
      InsertNewestFirst(s[0], SortNewestFirst(s[1..]))
  }

  /** The store's query `{ userId: u }`: each of the user's records exactly
      as often as the store holds it, and no other record. */
  function OwnedBy(records: seq<Medication>, userId: string): (r: seq<Medication>)
    ensures forall m :: m in r <==> m in records && m.userId == userId
    ensures forall m :: multiset(r)[m] == (if m.userId == userId then multiset(records)[m] else 0)
    ensures |r| <= |records|
  {
    if records == [] then []
    else
      assert records == [records[0]] + records[1..];
      var rest := OwnedBy(records[1..], userId);
      if records[0].userId == userId then [records[0]] + rest else rest
  }

  /** `findById`: the record with the given id, if there is one. */
  function FindRecord(records: seq<Medication>, id: nat): (r: Option<Medication>)
    ensures r.Some? ==> r.value in records && r.value.id == id
    ensures r.None? <==> forall i :: 0 <= i < |records| ==> records[i].id != id
  {
    if records == [] then None
    else if records[0].id == id then Some(records[0])
    else FindRecord(records[1..], id)
  }

  /** Every record's id is below `nextId`, and no two records share an id. */
  ghost predicate IdsBelow(records: seq<Medication>, nextId: nat)
  {
    (forall i :: 0 <= i < |records| ==> records[i].id < nextId) &&
    (forall i, j :: 0 <= i < j < |records| ==> records[i].id != records[j].id)
  }

  /** Saving a record under the next id keeps the ids distinct. */
  lemma SaveKeepsIdsDistinct(records: seq<Medication>, nextId: nat, m: Medication)
    requires IdsBelow(records, nextId) && m.id == nextId
    ensures IdsBelow(records + [m], nextId + 1)
  {
    var r := records + [m];
    forall i, j | 0 <= i < j < |r| ensures r[i].id != r[j].id {
      assert r[i] == records[i];
    }
  }

  /** The medication collection and the gateway's upload folder. */
  class MedicationStore {
    var records: seq<Medication>
    /** The id the next saved record receives. */
    var nextId: nat
    /** Paths multer has written under the upload folder. */
    var uploads: set<string>

    ghost predicate Valid()
      reads this
    {
      IdsBelow(records, nextId)
    }

    constructor ()
      ensures Valid() && records == [] && nextId == 0 && uploads == {}
    {
      records, nextId, uploads := [], 0, {};
    }

    /** `POST /verify` for the authenticated user `userId`: multer's upload
        (its clock reading `uploadTime`), the inference service's answer
        `ai`, the record's timestamp `now` and the `metadata` form field. */
    method Verify(userId: string, part: Option<Part>, uploadTime: nat, ai: AiReply, now: int,
                  metadata: Option<string>) returns (reply: Reply)
      requires Valid()
      modifies this
      ensures Valid()
      ensures ReceiveUpload(part, uploadTime).NoFile? ==>
        reply == Json(400, Message(NoImageProvided))
        && records == old(records) && nextId == old(nextId) && uploads == old(uploads)
      ensures ReceiveUpload(part, uploadTime).Refused? ==>
        reply == Forwarded(ReceiveUpload(part, uploadTime).error)
        && records == old(records) && nextId == old(nextId) && uploads == old(uploads)
      ensures ReceiveUpload(part, uploadTime).Stored? ==>
        uploads == old(uploads) + {ReceiveUpload(part, uploadTime).file.path}
      ensures ReceiveUpload(part, uploadTime).Stored? && ai.AiFailed? ==>
        reply == Json(500, Message(VerificationFailed))
        && records == old(records) && nextId == old(nextId)
      ensures ReceiveUpload(part, uploadTime).Stored? && ai.AiAnswered? ==>
        var result := VerificationResult(ai.isAuthentic, ai.confidence, now,
                                         ImageUrl(StoredFilename(uploadTime, part.value.originalname)));
        reply == Json(201, Result(result))
        && records == old(records) + [Medication(old(nextId), userId, result, MetadataOf(metadata))]
        && nextId == old(nextId) + 1
    {
      var upload := ReceiveUpload(part, uploadTime);
      if upload.NoFile? {
        return Json(400, Message(NoImageProvided));
      }
      if upload.Refused? {
        return Forwarded(upload.error);
      }
      reply := Analyze(userId, upload.file, ai, now, metadata);
    }

    /** The route handler once multer has stored `file`: the file stays in
        the upload folder; a failed call to the inference service is a 500;
        otherwise the verdict is saved and returned with status 201. */
    method Analyze(userId: string, file: StoredFile, ai: AiReply, now: int, metadata: Option<string>)
      returns (reply: Reply)
      requires Valid()
      modifies this
      ensures Valid()
      ensures uploads == old(uploads) + {file.path}
      ensures ai.AiFailed? ==>
        reply == Json(500, Message(VerificationFailed)) && records == old(records) && nextId == old(nextId)
      ensures ai.AiAnswered? ==>
        var result := VerificationResult(ai.isAuthentic, ai.confidence, now, ImageUrl(file.filename));
        reply == Json(201, Result(result))
        && records == old(records) + [Medication(old(nextId), userId, result, MetadataOf(metadata))]
        && nextId == old(nextId) + 1
    {
      uploads := uploads + {file.path};
      if ai.AiFailed? {
        return Json(500, Message(VerificationFailed));
      }
      var result := VerificationResult(ai.isAuthentic, ai.confidence, now, ImageUrl(file.filename));
      Save(userId, result, MetadataOf(metadata));
      return Json(201, Result(result));
    }

    /** `medication.save()`: the record is stored under the next id. */
    method Save(userId: string, result: VerificationResult, metadata: Metadata)
      requires Valid()
      modifies this
      ensures Valid()
      ensures records == old(records) + [Medication(old(nextId), userId, result, metadata)]
      ensures nextId == old(nextId) + 1 && uploads == old(uploads)
    {
      var medication := Medication(nextId, userId, result, metadata);
      SaveKeepsIdsDistinct(records, nextId, medication);
      records := records + [medication];
      nextId := nextId + 1;
    }

    /** `GET /history`: the caller's records, newest first. */
    method History(userId: string) returns (reply: Reply)
      ensures reply.Json? && reply.status == 200 && reply.payload.Records?
      ensures forall m :: m in reply.payload.medications <==> m in records && m.userId == userId
      ensures multiset(reply.payload.medications) == multiset(OwnedBy(records, userId))
      ensures NewestFirst(reply.payload.medications)
    {
      var owned := OwnedBy(records, userId);
      var sorted := SortNewestFirst(owned);
      assert forall m :: m in sorted <==> m in multiset(owned);
      return Json(200, Records(sorted));
    }

    /** `GET /:id`: a malformed id makes the query throw (500); a missing
        record is 404, checked before ownership; another user's record is
        403; otherwise the record. */
    method FindById(id: Option<nat>, userId: string) returns (reply: Reply)
      requires Valid()
      ensures id.None? ==> reply == Json(500, Message(ServerError))
      ensures id.Some? && (forall i :: 0 <= i < |records| ==> records[i].id != id.value) ==>
        reply == Json(404, Message(NotFound))
      ensures forall i :: 0 <= i < |records| && id == Some(records[i].id) ==>
        reply == (if records[i].userId == userId then Json(200, Record(records[i]))
                  else Json(403, Message(NotAuthorized)))
    {
      if id.None? {
        return Json(500, Message(ServerError));
      }
      var found := FindRecord(records, id.value);
      if found.None? {
        return Json(404, Message(NotFound));
      }
      var medication := found.value;
      if medication.userId != userId {
        return Json(403, Message(NotAuthorized));
      }
      return Json(200, Record(medication));
    }
  }
}
