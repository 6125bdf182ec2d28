/**
 * The `POST /api` handler as its code evidently intends it: the normalised
 * weight goes into the payload, an absent weight does not abort the request,
 * and compensation deletes the file where multer stored it. Everything else
 * is the handler of module CreateProduct.
 */
module CreateProductFixed {
  import opened Wrappers
  import opened JsText
  import opened UploadImages
  import opened CreateProduct

  /** A blank or absent weight becomes null; any other weight is kept as sent. */
  function NormaliseWeight(weight: Option<string>): (r: Option<string>)
    ensures r.None? <==> weight.None? || AllWhiteSpace(weight.value)
    ensures r.Some? ==> r == weight
  {
    match weight
    case None => None
    case Some(w) => if Trim(w) == "" then None else weight
  }

  /** The insert payload with the weight normalised. */
  function FixedPayload(body: Body, upload: Option<StoredFile>): Payload
  {
    BuildPayload(body, upload).(weight := NormaliseWeight(Field(body, "weight")))
  }

  /** Compensation that removes the uploaded file from where it was stored. */
  function CompensateStored(upload: Option<StoredFile>): seq<Event>
  {
    match upload
    case None => []
    case Some(f) => [Delete(StoredPath(f))]
  }

  /** The handler of `POST /api` as intended, given `req.file` as multer left it. */
  function CreateProductFixed(body: Body, upload: Option<StoredFile>, insert: InsertReply): (r: CreateRun)
    ensures r.response.ValidationFailed? <==> Validate(body) != []
    ensures r.response.ValidationFailed? ==> r.response.issues == Validate(body)
    ensures Succeeded(r.response) <==> Validate(body) == [] && insert.Inserted? && insert.result.affectedRows != 0
  {
    var written := Written(upload);
    var issues := Validate(body);
    if issues != [] then
      CreateRun(written + CompensateStored(upload), ValidationFailed(issues))
    else
      var payload := FixedPayload(body, upload);
      match insert
      case Throws(message) =>
        CreateRun(written + [Insert(payload)] + CompensateStored(upload), Answered(false, body, None, Some(message)))
      case Inserted(result) =>
        CreateRun(written + [Insert(payload)], Answered(result.affectedRows != 0, body, Some(result), None))
  }

  /** Every request is answered, and every valid body reaches the insert. */
  lemma FixedAlwaysAnswers(body: Body, upload: Option<StoredFile>, insert: InsertReply)
    ensures CreateProductFixed(body, upload, insert).response != NoResponse
    ensures Validate(body) == [] ==>
      && CreateProductFixed(body, upload, insert).response.Answered?
      && Insert(FixedPayload(body, upload)) in CreateProductFixed(body, upload, insert).trace
  {
    var r := CreateProductFixed(body, upload, insert);
    if Validate(body) == [] {
      assert r.trace[|Written(upload)|] == Insert(FixedPayload(body, upload));
    }
  }

  /** The inserted weight is null exactly when the field is absent or blank, and the field itself otherwise. */
  lemma FixedWeightNormalised(body: Body, upload: Option<StoredFile>, insert: InsertReply, i: nat)
    requires var t := CreateProductFixed(body, upload, insert).trace;
      i < |t| && t[i].Insert?
    ensures var w := CreateProductFixed(body, upload, insert).trace[i].payload.weight;
      && (w.None? <==> "weight" !in body || AllWhiteSpace(body["weight"]))
      && (w.Some? ==> w == Some(body["weight"]))
  {
    FixedInsertIsBuilt(body, upload, insert, i);
  }

  /** An insert event of the intended handler carries the fixed payload. */
  lemma FixedInsertIsBuilt(body: Body, upload: Option<StoredFile>, insert: InsertReply, i: nat)
    requires var t := CreateProductFixed(body, upload, insert).trace;
      i < |t| && t[i].Insert?
    ensures CreateProductFixed(body, upload, insert).trace[i] == Insert(FixedPayload(body, upload))
  {
    var write, ins, del := Written(upload), FixedInsertPhase(body, upload), FixedDeletePhase(body, upload, insert);
    FixedTracePhases(body, upload, insert);
    assert |write| <= 1 && (write != [] ==> write[0].Stored?);
    assert |del| <= 1 && (del != [] ==> del[0].Delete?);
    InsertOfPhases(CreateProductFixed(body, upload, insert).trace, write, ins, del, i);
    assert ins != [] && ins[0] == Insert(FixedPayload(body, upload));
  }

  /** The insert the intended handler sends: one for every valid body. */
  function FixedInsertPhase(body: Body, upload: Option<StoredFile>): seq<Event>
  {
    if Validate(body) == [] then [Insert(FixedPayload(body, upload))] else []
  }

  /** The compensation the intended handler runs: after a rejected body or a failed insert. */
  function FixedDeletePhase(body: Body, upload: Option<StoredFile>, insert: InsertReply): seq<Event>
  {
    if Validate(body) != [] || insert.Throws? then CompensateStored(upload) else []
  }

  /** Every intended trace is the write, then the insert phase, then the delete phase; a delete comes with a failure answer. */
  lemma FixedTracePhases(body: Body, upload: Option<StoredFile>, insert: InsertReply)
    ensures var r := CreateProductFixed(body, upload, insert);
      && r.trace == Written(upload) + FixedInsertPhase(body, upload) + FixedDeletePhase(body, upload, insert)
      && (FixedDeletePhase(body, upload, insert) != [] ==> !Succeeded(r.response))
  {
    var w := Written(upload);
    if Validate(body) != [] {
      assert w + CompensateStored(upload) == w + [] + CompensateStored(upload);
    } else if insert.Inserted? {
      assert w + [Insert(FixedPayload(body, upload))] == w + [Insert(FixedPayload(body, upload))] + [];
    }
  }

  /**
   * The corrected compensation: every request keeps the discipline with the
   * storage path as the deleted name, and a request that deletes never
   * reports success.
   */
  lemma FixedCompensationRemovesStoredFile(body: Body, upload: Option<StoredFile>, insert: InsertReply)
    ensures var r := CreateProductFixed(body, upload, insert);
      var path := if upload.Some? then StoredPath(upload.value) else "";
      Disciplined(r.trace, path, path)
    ensures var r := CreateProductFixed(body, upload, insert);
      HasDelete(r.trace) ==> !Succeeded(r.response)
  {
    var path := if upload.Some? then StoredPath(upload.value) else "";
    var del := FixedDeletePhase(body, upload, insert);
    assert Written(upload) == (if upload.Some? then [Stored(path)] else []);
    assert del == [] || del == (if upload.Some? then [Delete(path)] else []);
    FixedTracePhases(body, upload, insert);
    PhasesAreDisciplined(Written(upload), FixedInsertPhase(body, upload), del, path, path);
  }

  /** An upload is either deleted from where it was stored or referenced by a completed insert. */
  lemma FixedUploadAccountedFor(body: Body, upload: Option<StoredFile>, insert: InsertReply)
    requires upload.Some?
    ensures var r := CreateProductFixed(body, upload, insert);
      || Delete(StoredPath(upload.value)) in r.trace
      || (insert.Inserted? && Insert(FixedPayload(body, upload)) in r.trace
          && FixedPayload(body, upload).imgUrl == Some(upload.value.filename))
  {
    var t := CreateProductFixed(body, upload, insert).trace;
    var del := FixedDeletePhase(body, upload, insert);
    FixedTracePhases(body, upload, insert);
    if del != [] {
      assert t[|t| - 1] == del[0] == Delete(StoredPath(upload.value));
    } else {
      assert t[1] == Insert(FixedPayload(body, upload));
    }
  }
}
