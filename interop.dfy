/** How the gateway's upload filter and the inference service's extension
    check meet. The gateway stores an accepted upload as
    `<time>-<original name>` and forwards that file, so the service judges
    the stored name, not the name the gateway's filter judged. */
module Interop {
  import opened Text
  import NodePath
  import MlService
  import Gateway

  /** The last '.' of a client's name is still the last '.' of the stored
      name, so the service decides on the text after it. */
  lemma ServiceJudgesTextAfterLastDot(now: nat, originalname: string, k: nat)
    requires k < |originalname| && originalname[k] == '.'
    requires forall i :: k < i < |originalname| ==> originalname[i] != '.'
    ensures MlService.AllowedFile(Gateway.StoredFilename(now, originalname))
            <==> Lower(originalname[k + 1..]) in MlService.AllowedExtensions
  {
    var stem := originalname[..k];
    var ext := originalname[k + 1..];
    assert originalname == stem + "." + ext;
    var prefix := Decimal(now) + "-" + stem;
    assert Gateway.StoredFilename(now, originalname) == prefix + "." + ext;
    MlService.AllowedFileDecidedByLastExtension(prefix, ext);
  }

  /** A slash-free name with a non-empty extension keeps that extension
      when the gateway prefixes the upload time, and the service decides
      on exactly the text after its '.'. */
  lemma ServiceJudgesStoredExtension(now: nat, originalname: string)
    requires '/' !in originalname && NodePath.ExtName(originalname) != ""
    ensures MlService.AllowedFile(Gateway.StoredFilename(now, originalname))
            <==> Lower(NodePath.ExtName(originalname)[1..]) in MlService.AllowedExtensions
  {
    NodePath.ExtNameStartsAtLastDot(originalname);
    var k := LastIndexOf(originalname, '.').value;
    ServiceJudgesTextAfterLastDot(now, originalname, k);
    assert NodePath.ExtName(originalname)[1..] == originalname[k + 1..];
  }

  /** For a client name `stem.ext`, the service decides on `ext`. */
  lemma ServiceJudgesDottedName(now: nat, stem: string, ext: string)
    requires '.' !in ext
    ensures MlService.AllowedFile(Gateway.StoredFilename(now, stem + "." + ext))
            <==> Lower(ext) in MlService.AllowedExtensions
  {
    var prefix := Decimal(now) + "-" + stem;
    assert Gateway.StoredFilename(now, stem + "." + ext) == prefix + "." + ext;
    MlService.AllowedFileDecidedByLastExtension(prefix, ext);
  }

  lemma WebpOnlyInGatewayTypes(ext: string)
    requires Lower(ext) == "webp"
    ensures Lower(ext) in Gateway.ImageTypes && Lower(ext) !in MlService.AllowedExtensions
  {
  }

  lemma JpgxNotAllowed()
    ensures Lower("jpgx") !in MlService.AllowedExtensions
  {
    assert Lower("jpgx") == "jpgx";
  }

  /** A ".webp" upload passes the gateway's filter (its error message even
      advertises WEBP) but the service refuses the stored file. */
  lemma WebpPassesGatewayNotService(now: nat, stem: string, ext: string, mimetype: string)
    requires '/' !in stem && stem != [] && '/' !in ext && '.' !in ext && Lower(ext) == "webp"
    requires Gateway.MentionsImageType(mimetype)
    ensures Gateway.FileFilter(stem + "." + ext, mimetype)
    ensures !MlService.AllowedFile(Gateway.StoredFilename(now, stem + "." + ext))
  {
    WebpOnlyInGatewayTypes(ext);
    Gateway.FilterAcceptsImageExtension(stem, ext, mimetype);
    ServiceJudgesDottedName(now, stem, ext);
  }

  /** Every extension the service accepts also passes the gateway's
      filter, given a name with something before its '.' and an image
      MIME type: the gateway refuses nothing the service would analyse. */
  lemma ServiceExtensionsPassGateway(now: nat, stem: string, ext: string, mimetype: string)
    requires '/' !in stem && stem != [] && '/' !in ext && '.' !in ext
    requires Lower(ext) in MlService.AllowedExtensions
    requires Gateway.MentionsImageType(mimetype)
    ensures Gateway.FileFilter(stem + "." + ext, mimetype)
    ensures MlService.AllowedFile(Gateway.StoredFilename(now, stem + "." + ext))
  {
    Gateway.FilterAcceptsImageExtension(stem, ext, mimetype);
    ServiceJudgesDottedName(now, stem, ext);
  }

  /** The pattern is unanchored, so ".jpgx" passes the gateway, and the
      service then refuses the stored file. */
  lemma JpgxPassesGatewayNotService(now: nat, stem: string)
    requires '/' !in stem && '.' !in stem && stem != []
    ensures Gateway.FileFilter(stem + "." + "jpgx", "image/jpeg")
    ensures !MlService.AllowedFile(Gateway.StoredFilename(now, stem + "." + "jpgx"))
  {
    Gateway.FilterAcceptsUnanchoredMatch(stem);
    JpgxStoredNameRefused(now, stem);
  }

  lemma JpgxStoredNameRefused(now: nat, stem: string)
    ensures !MlService.AllowedFile(Gateway.StoredFilename(now, stem + "." + "jpgx"))
  {
    ServiceJudgesDottedName(now, stem, "jpgx");
    JpgxNotAllowed();
  }

  /** A name such as ".png" is accepted by the service's check but the
      gateway sees no extension in it and refuses it. */
  lemma LeadingDotNameOnlyServiceAccepts(ext: string, mimetype: string)
    requires '/' !in ext && '.' !in ext && Lower(ext) in MlService.AllowedExtensions
    ensures MlService.AllowedFile("" + "." + ext)
    ensures !Gateway.FileFilter("." + ext, mimetype)
  {
    MlService.AllowedFileDecidedByLastExtension("", ext);
    Gateway.FilterRefusesLeadingDotName(ext, mimetype);
  }

  /** The gateway's HTTP client: a 2xx answer yields its verdict fields;
      any other status makes the call throw. */
  function AiReplyOf(resp: MlService.Response): (ai: Gateway.AiReply)
    ensures ai.AiAnswered? <==> 200 <= resp.status < 300 && resp.body.Verdict?
    ensures ai.AiAnswered? ==> ai.isAuthentic == resp.body.isAuthentic && ai.confidence == resp.body.confidence
  {
    if 200 <= resp.status < 300 && resp.body.Verdict?
    then Gateway.AiAnswered(resp.body.isAuthentic, resp.body.confidence)
    else Gateway.AiFailed
  }

  /** `POST /verify` with the inference service answering in-process: an
      accepted upload is forwarded under its stored name as field `image`.
      A ".webp" upload is never recorded, whatever the models would say. */
  method VerifyThroughService(store: Gateway.MedicationStore, service: MlService.InferenceService,
                              userId: string, part: Option<Gateway.Part>, uploadTime: nat, now: int,
                              metadata: Option<string>) returns (reply: Gateway.Reply)
    requires store.Valid()
    modifies store, service
    ensures store.Valid()
    ensures part.Some? && '/' !in part.value.originalname
            && Lower(NodePath.ExtName(part.value.originalname)) == ".webp" ==>
      store.records == old(store.records)
      && (reply == Gateway.Json(500, Gateway.Message(Gateway.VerificationFailed)) || reply.Forwarded?)
  {
    var upload := Gateway.ReceiveUpload(part, uploadTime);
    var ai := Gateway.AiFailed;
    if upload.Stored? {
      var resp := service.AnalyzeMedicine(map["image" := MlService.FilePart(upload.file.filename)]);
      if part.Some? && '/' !in part.value.originalname
         && Lower(NodePath.ExtName(part.value.originalname)) == ".webp" {
        var name := part.value.originalname;
        WebpExtensionRefusedByService(uploadTime, name);
        assert upload.file.filename == Gateway.StoredFilename(uploadTime, name);
      }
      ai := AiReplyOf(resp);
    }
    reply := store.Verify(userId, part, uploadTime, ai, now, metadata);
  }

  /** The stored name of a ".webp" upload (in any case) is refused by the service. */
  lemma WebpExtensionRefusedByService(now: nat, originalname: string)
    requires '/' !in originalname && Lower(NodePath.ExtName(originalname)) == ".webp"
    ensures !MlService.AllowedFile(Gateway.StoredFilename(now, originalname))
  {
    var e := NodePath.ExtName(originalname);
    assert |Lower(e)| == 5;
    ServiceJudgesStoredExtension(now, originalname);
    WebpTextNotAllowed(e);
  }

  lemma WebpTextNotAllowed(e: string)
    requires Lower(e) == ".webp"
    ensures Lower(e[1..]) !in MlService.AllowedExtensions
  {
    LowerSlice(e, 1);
    assert Lower(e[1..]) == "webp";
  }
}
