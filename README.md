# MediVerify upload validation and request decisions, in Dafny

MediVerify checks whether a photographed medicine package is authentic. A
Node/Express gateway takes an upload and stores the file. It forwards the
file to a Python/Flask inference service and records the verdict in a Mongo
collection. The inference service checks the file name, saves the upload,
runs pre-trained models on it and answers with a verdict.

This project models the decision logic around those opaque models:

- `text.dfy` (module `Text`) holds string helpers shared by both services.
  These are ASCII lower-casing, last/first occurrence search, unanchored
  substring search, and decimal rendering of numbers with its inverse.
- `node_path.dfy` (module `NodePath`) models Node's `path.extname`, as Node
  documents and implements it.
- `ml_service.dfy` (module `MlService`) models `backend/ml/app.py`.
  - `AllowedFile` is the extension check.
  - `InferenceService` is a class. Its field `uploads` is the upload folder,
    held as a set of paths. `secure_filename`, `file.save` and the model
    pipeline are constant fields fixed at start-up.
  - `AnalyzeMedicine` is the handler's ladder of checks. It also tracks the
    temporary file's lifecycle: the file is removed only on success.
- `gateway.dfy` (module `Gateway`) models `backend/routes/medicationRoutes.js`.
  - `ReceiveUpload` covers multer's filter, size limit and stored-file name.
  - `MedicationStore` is a class holding the collection as a sequence of
    records, the next record id, and the gateway's upload folder.
  - Its methods are `Verify`, `History` and `FindById`.
- `interop.dfy` (module `Interop`) relates the two services. The gateway
  forwards the file under its stored name `<time>-<original name>`. So the
  service judges that name, not the one the gateway's filter judged.
  - A `.webp` upload passes the gateway (whose error text even advertises
    WEBP), but the service always refuses it, so it is never recorded.
  - `.jpgx` passes the gateway's unanchored pattern, and the service
    refuses it.
  - `.png` (only a leading dot) is accepted by the service's check, but
    the gateway sees no extension and refuses it.
  - Every name `stem.ext` with a non-empty stem and an extension the
    service accepts passes the gateway when sent with an image MIME type.

Clocks (`Date.now()`, `new Date()`) and the inference service's answer are
parameters of the gateway's methods. Time stamps are integers in milliseconds.

`analyze_medicine` removes the temporary file only on success
(`backend/ml/app.py:94`). After a pipeline exception the path stays in the
upload folder, and the model's `uploads` keeps it too.

## Model

| member | source | states |
|---|---|---|
| `Text.LastIndexOf` | backend/ml/app.py:47 | `rsplit('.', 1)` splits at the last '.': the result holds that character and nothing after it does; none exactly when the character is absent |
| `Text.Contains` | backend/routes/medicationRoutes.js:25-27 | an unanchored regular-expression test of a literal: true exactly when the literal occurs at some position of the string |
| `Text.Lower` | backend/ml/app.py:47 | lower-casing keeps the length and lower-cases each character in place |
| `Text.Decimal` | backend/routes/medicationRoutes.js:17 | the template literal renders the upload time as a non-empty run of decimal digits with no leading zero; `Text.ParseDecimalOfDecimal` reads it back |
| `Text.ParseDecimalOfDecimal` | backend/routes/medicationRoutes.js:17 | the decimal text a millisecond time is rendered as reads back as that time |
| `MlService.AllowedFile` | backend/ml/app.py:46-47 | a name is allowed exactly when it has a last '.' and the lower-cased text after it is png, jpg or jpeg; an allowed name always contains a '.' |
| `MlService.AllowedFileDecidedByLastExtension` | backend/ml/app.py:47 | for any stem and dot-free extension, `stem.ext` is allowed exactly when the lower-cased extension is in {png, jpg, jpeg}, whatever the stem holds (other dots included) |
| `MlService.AllowedFileIgnoresCase` | backend/ml/app.py:47 | a name and its lower-cased form are judged alike |
| `MlService.AllowedFileNeedsDot` | backend/ml/app.py:47 | "png" and "" (no '.') are refused |
| `MlService.AllowedFileLastDotExamples` | backend/ml/app.py:47 | "a.png.exe" is refused and "a.tar.jpeg" is accepted |
| `MlService.AllowedFileEdgeExamples` | backend/ml/app.py:47 | "X.JPG" and ".png" are accepted; "a." (empty extension) is refused |
| `MlService.AllowedFileRefusesOtherImages` | backend/ml/app.py:24 | webp and gif names are refused: the allowed set is exactly png, jpg, jpeg |
| `MlService.JoinPath` | backend/ml/app.py:84 | `os.path.join`: an absolute name replaces the folder; otherwise the result starts with the folder and ends with the name |
| `MlService.InferenceService.TempPathFor` | backend/ml/app.py:83-84 | the save path is the sanitised name directly inside "uploads" (or that name itself when it is absolute); it is the one path `AnalyzeMedicine` adds or removes, and no other path of the folder changes |
| `MlService.InferenceService.constructor` | backend/ml/app.py:28-43 | the service starts with the folder's existing files and its fixed name sanitiser, save step and model pipeline |
| `MlService.InferenceService.AnalyzeMedicine` | backend/ml/app.py:72-105 | the ladder in order: no `image` field gives 400 "No image provided"; an empty name gives 400 "No selected file"; a refused name gives 400 "Invalid file type"; every 400 leaves the folder unchanged; a failed save gives 500 with its text and writes nothing; a pipeline exception gives 500 with its text and leaves the temp path in the folder; success gives 200 with isAuthentic = (class != 0), the confidence and "Analysis complete", and removes the temp path; no other path of the folder changes |
| `NodePath.ExtName` | backend/routes/medicationRoutes.js:26 | `path.extname` is empty or a '.' followed by dot-free, slash-free text; it is empty when the last path component has no '.' |
| `NodePath.ExtNameOfDottedName` | backend/routes/medicationRoutes.js:26 | a slash-free name with something before its last '.' has the extension starting at that '.' |
| `NodePath.ExtNameOfLeadingDotName` | backend/routes/medicationRoutes.js:26 | a name whose only '.' is its first character (".png") has an empty extension |
| `NodePath.ExtNameStartsAtLastDot` | backend/routes/medicationRoutes.js:26 | a non-empty extension of a slash-free name is its suffix from the last '.' |
| `Gateway.ImageTypePattern` | backend/routes/medicationRoutes.js:25 | `/jpeg\|jpg\|png\|webp/.test(s)` holds exactly when one of the four alternatives occurs anywhere in `s`, case-sensitively |
| `Gateway.FileFilter` | backend/routes/medicationRoutes.js:24-34 | a file is accepted exactly when its lower-cased extension and its raw MIME type each contain one of the alternatives |
| `Gateway.NoLowerCaseNoImageType` | backend/routes/medicationRoutes.js:25 | every alternative starts with a lower-case letter, so text without lower-case letters matches none |
| `Gateway.FilterRefusesUpperCaseMimetype` | backend/routes/medicationRoutes.js:27 | the filter function does not lower-case `file.mimetype`: given "IMAGE/PNG" or any type without lower-case letters it refuses the file, whatever the name; a property of the filter alone, since multer hands it an already lower-cased type |
| `Gateway.FilterRefusesLeadingDotName` | backend/routes/medicationRoutes.js:26 | ".png" and every other name whose only '.' comes first is refused |
| `Gateway.FilterAcceptsImageExtension` | backend/routes/medicationRoutes.js:25-30 | `stem.ext`, with ext in any case spelling one of the alternatives, passes with an image MIME type |
| `Gateway.FilterAcceptsUnanchoredMatch` | backend/routes/medicationRoutes.js:25-26 | "x.jpgx" passes with "image/jpeg" because the pattern is unanchored |
| `Gateway.StoredFilenameRoundTrip` | backend/routes/medicationRoutes.js:17 | the stored name `<time>-<original name>` splits at its first '-' back into the time and the original name |
| `Gateway.StoredFilename` | backend/routes/medicationRoutes.js:17 | `<decimal time>-<original name>`: its first '-' is the one right after the time digits, the text before it is the time and the text after it is the original name; `Gateway.StoredFilenameRoundTrip` splits it back |
| `Gateway.ImageUrl` | backend/routes/medicationRoutes.js:59 | `/uploads/${req.file.filename}`: the URL starts with "/uploads/" and the rest of it is exactly the stored name |
| `Gateway.ImageUrlNamesStoredFile` | backend/routes/medicationRoutes.js:59 | the image URL is "/uploads/" followed by the stored name, from which time and original name read back |
| `Gateway.ReceiveUpload` | backend/routes/medicationRoutes.js:12-35 | no part, or a part with an empty file name (multer skips it before the filter), means no file; a file is stored exactly when the filter accepts it and it is at most 5,000,000 bytes; a filtered-out file is refused with "Error: Images only (JPG, PNG, WEBP)" and an accepted but larger one with "File too large"; a stored file keeps its original name, is named exactly `<decimal time>-<original name>` and lives under "uploads/" |
| `Gateway.ReceivedNameReadsBack` | backend/routes/medicationRoutes.js:16-17 | the name multer stores an accepted upload under splits back into the upload time and the client's file name |
| `Gateway.MetadataOf` | backend/routes/medicationRoutes.js:66 | `metadata \|\| {}`: a missing or empty field gives `{}`, any other text is kept |
| `Gateway.HeadIsNewest` | backend/routes/medicationRoutes.js:82 | in a newest-first sequence the head is at least as new as every later record |
| `Gateway.InsertNewestFirst` | backend/routes/medicationRoutes.js:82 | inserting into a newest-first sequence keeps it newest-first and adds exactly that record |
| `Gateway.SortNewestFirst` | backend/routes/medicationRoutes.js:82 | `.sort({'verificationResult.timestamp': -1})`: the result is newest-first and a permutation of its input |
| `Gateway.OwnedBy` | backend/routes/medicationRoutes.js:81 | `find({ userId })`: a record is in the result exactly when it is in the store and belongs to the user, each of the user's records occurs exactly as often as in the store, and no other record occurs |
| `Gateway.FindRecord` | backend/routes/medicationRoutes.js:94 | `findById`: a found record is in the store with that id; nothing is found exactly when no record has the id |
| `Gateway.SaveKeepsIdsDistinct` | backend/routes/medicationRoutes.js:63-69 | saving a record under the next id keeps every id below the counter and all ids distinct |
| `Gateway.MedicationStore.Verify` | backend/routes/medicationRoutes.js:38-76 | no file gives 400 "No image provided"; a multer refusal goes to the error handler and the route never runs; both change nothing; a stored file stays in the upload folder whatever follows; a failed service call gives 500 "Server error during verification" and adds no record; otherwise exactly one record is appended, holding the caller's id, the service's isAuthentic and confidence, the time stamp, "/uploads/" plus `<upload time>-<original name>` and the metadata or `{}`, and the reply is 201 with that result |
| `Gateway.MedicationStore.Analyze` | backend/routes/medicationRoutes.js:44-71 | once a file is stored it stays in the upload folder; a failed service call gives 500 "Server error during verification" and changes no record; a verdict is saved as exactly one new record under the next id, with "/uploads/" plus the stored name, and returned with status 201 |
| `Gateway.MedicationStore.Save` | backend/routes/medicationRoutes.js:63-69 | `medication.save()`: exactly one record is appended, under the next id, with the caller's id, result and metadata; the ids stay distinct and the upload folder is unchanged |
| `Gateway.MedicationStore.History` | backend/routes/medicationRoutes.js:79-89 | 200 with exactly the caller's records, as a permutation of the matching records, ordered by time stamp with the newest first |
| `Gateway.MedicationStore.FindById` | backend/routes/medicationRoutes.js:92-110 | a malformed id gives 500 "Server error"; a missing record gives 404 "Medication not found" before ownership is looked at; another user's record gives 403 "Not authorized"; the caller's own record gives 200 with it |
| `Interop.ServiceJudgesTextAfterLastDot` | backend/routes/medicationRoutes.js:17 | the last '.' of the original name is still the last '.' of the stored name, so the service decides on the text after it |
| `Interop.ServiceJudgesStoredExtension` | backend/routes/medicationRoutes.js:17 | for a slash-free name with an extension, the service allows the stored name exactly when the gateway's extension, without its '.' and lower-cased, is png, jpg or jpeg |
| `Interop.ServiceJudgesDottedName` | backend/routes/medicationRoutes.js:17 | the stored name of `stem.ext` is allowed by the service exactly when ext, lower-cased, is png, jpg or jpeg |
| `Interop.WebpPassesGatewayNotService` | backend/routes/medicationRoutes.js:25-32 | a `.webp` name passes the gateway's filter, yet the service refuses the stored file |
| `Interop.ServiceExtensionsPassGateway` | backend/routes/medicationRoutes.js:25-29 | a name with a png, jpg or jpeg extension and an image MIME type passes the gateway, and the service allows its stored name |
| `Interop.JpgxPassesGatewayNotService` | backend/routes/medicationRoutes.js:25-26 | "x.jpgx" passes the gateway and the service refuses the stored file |
| `Interop.LeadingDotNameOnlyServiceAccepts` | backend/routes/medicationRoutes.js:26 | ".png" is accepted by the service's check but refused by the gateway's filter |
| `Interop.WebpExtensionRefusedByService` | backend/routes/medicationRoutes.js:17 | the stored name of any upload whose extension is ".webp" in any case is refused by the service |
| `Interop.AiReplyOf` | backend/routes/medicationRoutes.js:48-57 | a 2xx answer carrying a verdict yields that verdict, with its isAuthentic and confidence copied; any other status makes the client throw, and the modelled service never sends a 2xx answer without a verdict (`AnalyzeMedicine` answers 200 exactly with a verdict), so every other answer is a failed call |
| `Interop.VerifyThroughService` | backend/routes/medicationRoutes.js:45-53 | forwarding the stored file to the service as field `image` keeps the store valid; a `.webp` upload never adds a record and ends in 500 or a multer refusal |

## Left out

- Model loading with pickle and Keras, and the fatal start-up path (backend/ml/app.py:32-43), are foreign libraries and file I/O. The loaded models appear only as the constant `pipeline`.
- `preprocess_image` and `extract_features` (backend/ml/app.py:49-69) are image decoding and floating-point tensors. They are folded into the opaque, possibly-failing `pipeline`.
- Scaler and classifier numerics, including `predict_proba(...).max()` (backend/ml/app.py:89-92), are sklearn floats. The class and the confidence come out of `pipeline` unchanged.
- MlService.InferenceService.AnalyzeMedicine: does not state that the confidence lies in [0, 1], because the probabilities are not modelled.
- `werkzeug.utils.secure_filename` (backend/ml/app.py:83) is a foreign call. It is the constant function `secureFilename`.
- The uploaded file's contents are not modelled. `pipeline` and `saveError` depend on the save path alone, so one service instance gives the same answer to two uploads whose sanitised names are equal.
- `file.save` can fail for I/O reasons. It is the constant `saveError`, and a failed save is assumed to leave nothing behind.
- The `file and` test (backend/ml/app.py:81) is always true once the name is non-empty, so it adds no branch.
- dotenv, environment variables, the debug `print`, logging and `app.run` (backend/ml/app.py:13-17, 102, 107-108) are configuration and output. The gateway's `console.error` calls are left out for the same reason.
- Lower-casing is ASCII only. No other character lower-cases to a letter of png, jpg, jpeg or webp, so every decision modelled is the same as with full Unicode lowering.
- The `auth` middleware is not part of this model. The authenticated user id is a parameter.
- The Mongoose model, ObjectId format and query engine are not part of this model. Ids are natural numbers, and a malformed route id is `None`, which gives the 500 reply a failed cast gives.
- Failures of the store itself (a failed `find`, `findById` or `save`) are not modelled. The store always answers, so the 500 "Server error" of `/history` is not reachable in the model.
- Gateway.MedicationStore.History: Mongo leaves the order of equal time stamps unspecified. The contract states newest-first and a permutation, not one particular tie order.
- Gateway.ReceiveUpload: takes `file.originalname` and `file.mimetype` as multer's multipart parser hands them over. The parser's own work is not modelled: it strips directory parts from the client's name and lower-cases the type and drops its parameters. So an upper-case "IMAGE/PNG" from a client reaches the filter as "image/png", and no stored name holds a '/'.
- Multer internals are not modelled: streaming, other form fields ("Unexpected field"), several files and removal of partial files. The size limit is judged on the part's declared size.
- Express's default error handler is not part of this model. A refusal is `Forwarded` with its error text, and no status code is claimed for it.
- axios, form-data streaming and the 30-second timeout (backend/routes/medicationRoutes.js:45-53) are network I/O. The service's answer is the parameter `ai`, or `AiReplyOf` of the modelled service in `Interop.VerifyThroughService`.
- Interop.VerifyThroughService: states only the store's validity and the `.webp` outcome. The ordinary path is stated by `Verify` and `AnalyzeMedicine` separately.
- `Date.now()` and `new Date()` are parameters. JSON serialisation of dates is not modelled.
- Concurrency is not modelled, including two requests racing on the same temporary path. The set model shows only that a pre-existing file at the temporary path is removed by a successful request.
