/**
 * The `POST /api` handler of routes/products.js, as written: zod validation,
 * compensation by `removeUploadedImg`, the insert payload, and the response.
 *
 * One request is a pure function of the form fields, the uploaded file (if
 * any), the random id multer uses, the database's answer to the insert and
 * the filesystem's answer to an unlink. The run records the side effects it
 * causes, in order, as an event trace.
 */
module CreateProduct {
  import opened Wrappers
  import opened JsText
  import opened UploadImages

  /** The multipart text fields of the request, `req.body`. */
  type Body = map<string, string>

  /** `req.body[name]`, `undefined` when the field was not sent. */
  function Field(body: Body, name: string): Option<string>
  {
    if name in body then Some(body[name]) else None
  }

  // ---------------------------------------------------------------- validation

  /** One zod issue: the field it concerns and its message. */
  datatype Issue = Issue(path: string, message: string)

  /** zod's message for a field that is not there at all. */
  const MissingMessage := "Required"
  /** The schema's message for `.min(1)`. */
  const RequiredMessage := "此欄為必填"
  /** The schema's message for the product-code pattern. */
  const FormatMessage := "格式錯誤 (須為P加上三位數)"

  /** `/^P\d{3}$/`: without the m flag `$` matches only at the end, and `\d` is an ASCII digit. */
  predicate IsProductCode(s: string)
  {
    |s| == 4 && s[0] == 'P' && AllDigits(s[1..])
  }

  /** The issues of one `z.string().min(1, …)` field, with the pattern check when it has one; zod runs every check of a present string. */
  function FieldIssues(body: Body, name: string, checkCode: bool): (issues: seq<Issue>)
    ensures issues == [] <==> name in body && |body[name]| >= 1 && (checkCode ==> IsProductCode(body[name]))
    ensures forall i :: 0 <= i < |issues| ==> issues[i].path == name
  {
    if name !in body then [Issue(name, MissingMessage)]
    else
      var v := body[name];
      (if |v| < 1 then [Issue(name, RequiredMessage)] else [])
      + (if checkCode && !IsProductCode(v) then [Issue(name, FormatMessage)] else [])
  }

  /** `abSchema.safeParse(req.body)`: the issues in schema order, none when the body passes. */
  function Validate(body: Body): (issues: seq<Issue>)
    ensures forall i :: 0 <= i < |issues| ==> issues[i].path in SchemaFields
  {
    var code := FieldIssues(body, "product_code", true);
    var name := FieldIssues(body, "name", false);
    var description := FieldIssues(body, "description", false);
    var price := FieldIssues(body, "price", false);
    PathsAmong(code, name);
    PathsAmong(code + name, description);
    PathsAmong(code + name + description, price);
    code + name + description + price
  }

  /** The fields the schema declares. */
  const SchemaFields: set<string> := {"product_code", "name", "description", "price"}

  /** Issues that all concern schema fields still do after concatenation. */
  lemma PathsAmong(a: seq<Issue>, b: seq<Issue>)
    requires forall i :: 0 <= i < |a| ==> a[i].path in SchemaFields
    requires forall i :: 0 <= i < |b| ==> b[i].path in SchemaFields
    ensures forall i :: 0 <= i < |a + b| ==> (a + b)[i].path in SchemaFields
  {
    forall i | 0 <= i < |a + b|
      ensures (a + b)[i].path in SchemaFields
    {
      if i < |a| {
        assert (a + b)[i] == a[i];
      } else {
        assert (a + b)[i] == b[i - |a|];
      }
    }
  }

  /** The schema accepts exactly the bodies with a `P`-and-three-digits code and non-empty name, description and price. */
  lemma ValidateAcceptsExactly(body: Body)
    ensures Validate(body) == [] <==>
      && "product_code" in body && IsProductCode(body["product_code"])
      && "name" in body && body["name"] != ""
      && "description" in body && body["description"] != ""
      && "price" in body && body["price"] != ""
  {
  }

  // ---------------------------------------------------------------- effects

  /** The object handed to `INSERT INTO products SET ?`; `undefined` columns are None. */
  datatype Payload = Payload(
    productCode: Option<string>,
    name: Option<string>,
    description: Option<string>,
    categoryName: Option<string>,
    weight: Option<string>,
    basePrice: Option<string>,
    imgUrl: Option<string>)

  /** What the driver reports for a completed insert. */
  datatype InsertResult = InsertResult(affectedRows: nat, insertId: nat)

  /** The database's answer to the insert: it throws, or it reports a result. */
  datatype InsertReply = Throws(message: string) | Inserted(result: InsertResult)

  /** Side effects of a request, in the order they happen. */
  datatype Event =
    | Stored(path: string)       // multer wrote the upload
    | Insert(payload: Payload)   // the insert query was sent
    | Delete(path: string)       // an unlink was started and not awaited

  /** What the client receives. */
  datatype Response =
    | ValidationFailed(issues: seq<Issue>)
    | Answered(success: bool, bodyData: Body, result: Option<InsertResult>, ex: Option<string>)
    | NoResponse   // the handler threw before answering

  datatype CreateRun = CreateRun(trace: seq<Event>, response: Response)

  /** The directory `removeUploadedImg` deletes from. */
  const RemovalDirectory := "public/imgs/"

  /** The outcome of `removeUploadedImg(file)`: the path it unlinks and whether it resolves to true. */
  datatype Removal = Removal(path: string, removed: bool)

  /** `removeUploadedImg`: never throws; true exactly when the unlink of `public/imgs/<file>` succeeds. */
  function RemoveUploadedImg(file: string, unlinkSucceeds: string -> bool): (r: Removal)
    ensures r.path == RemovalDirectory + file
    ensures r.removed <==> unlinkSucceeds(r.path)
  {
    var path := RemovalDirectory + file;
    Removal(path, unlinkSucceeds(path))
  }

  /** The compensation step: start removing the uploaded file, if there is one, without waiting for it. */
  function Compensate(stored: Option<StoredFile>, unlinkSucceeds: string -> bool): (events: seq<Event>)
    ensures stored.None? ==> events == []
    ensures stored.Some? ==> events == [Delete(RemovalDirectory + stored.value.filename)]
  {
    match stored
    case None => []
    case Some(f) => [Delete(RemoveUploadedImg(f.filename, unlinkSucceeds).path)]
  }

  /** `dataObj`: the destructured fields, with `img_url` replaced by the uploaded filename when there is one. */
  function BuildPayload(body: Body, stored: Option<StoredFile>): (p: Payload)
    ensures stored.Some? ==> p.imgUrl == Some(stored.value.filename)
    ensures stored.None? ==> p.imgUrl == Field(body, "img_url")
  {
    var imgUrl := if stored.Some? then Some(stored.value.filename) else Field(body, "img_url");
    Payload(Field(body, "product_code"), Field(body, "name"), Field(body, "description"),
            Field(body, "category_name"), Field(body, "weight"), Field(body, "base_price"), imgUrl)
  }


  /** The write multer performed before the handler ran, as an event. */
  function Written(upload: Option<StoredFile>): seq<Event>
  {
    match upload
    case None => []
    case Some(f) => [Stored(StoredPath(f))]
  }

  /**
   * The handler of `POST /api`, given `req.file` as multer left it. The weight
   * is normalised after the payload is built, so the payload keeps the raw
   * weight; `weight.trim()` throws when no weight was sent, and the handler
   * then never answers.
   */
  function CreateProduct(
    body: Body, upload: Option<StoredFile>,
    insert: InsertReply, unlinkSucceeds: string -> bool): (r: CreateRun)
    ensures r.response.ValidationFailed? <==> Validate(body) != []
    ensures r.response.ValidationFailed? ==> r.response.issues == Validate(body)
    ensures r.response.NoResponse? <==> Validate(body) == [] && "weight" !in body
    ensures Succeeded(r.response) <==>
      Validate(body) == [] && "weight" in body && insert.Inserted? && insert.result.affectedRows != 0
  {
    var written := Written(upload);
    var issues := Validate(body);
    if issues != [] then
      CreateRun(written + Compensate(upload, unlinkSucceeds), ValidationFailed(issues))
    else
      var payload := BuildPayload(body, upload);
      if "weight" !in body then
        CreateRun(written, NoResponse)
      else
        match insert
        case Throws(message) =>
          CreateRun(written + [Insert(payload)] + Compensate(upload, unlinkSucceeds),
                    Answered(false, body, None, Some(message)))
        case Inserted(result) =>
          CreateRun(written + [Insert(payload)],
                    Answered(result.affectedRows != 0, body, Some(result), None))
  }

  /** The route as mounted: `upload.single('avatar')` stores the file, then the handler runs. */
  function Post(
    body: Body, file: Option<ClientFile>, uuid: UuidText,
    insert: InsertReply, unlinkSucceeds: string -> bool): (r: CreateRun)
    ensures file.None? || !FileFilter(file.value) ==> r == CreateProduct(body, None, insert, unlinkSucceeds)
  {
    CreateProduct(body, Store(Field(body, "folder"), file, uuid), insert, unlinkSucceeds)
  }

  // ---------------------------------------------------------------- properties

  /** The route writes a file first exactly when an image of an allowed type was sent. */
  lemma PostStoresAcceptedImage(
    body: Body, file: Option<ClientFile>, uuid: UuidText,
    insert: InsertReply, unlinkSucceeds: string -> bool)
    ensures var t := Post(body, file, uuid, insert, unlinkSucceeds).trace;
      (t != [] && t[0].Stored?) <==> file.Some? && FileFilter(file.value)
  {
    if file.Some? {
      FileFilterIsAllowList(file.value);
    }
  }

  /** A rejected body is answered with its issues; nothing is inserted, and the upload, if any, is deleted once. */
  lemma RejectedBodyNeverInserted(
    body: Body, upload: Option<StoredFile>,
    insert: InsertReply, unlinkSucceeds: string -> bool)
    requires Validate(body) != []
    ensures var r := CreateProduct(body, upload, insert, unlinkSucceeds);
      && r.response == ValidationFailed(Validate(body))
      && r.trace == (if upload.Some?
                     then [Stored(StoredPath(upload.value)), Delete(RemovalDirectory + upload.value.filename)]
                     else [])
  {
  }

  /** A valid body whose insert throws: one insert, then one delete of the upload, and `success` false with the error. */
  lemma InsertFailureCompensates(
    body: Body, upload: Option<StoredFile>,
    message: string, unlinkSucceeds: string -> bool)
    requires Validate(body) == [] && "weight" in body
    ensures var r := CreateProduct(body, upload, Throws(message), unlinkSucceeds);
      var payload := BuildPayload(body, upload);
      && r.response == Answered(false, body, None, Some(message))
      && r.trace == (if upload.Some?
                     then [Stored(StoredPath(upload.value)), Insert(payload), Delete(RemovalDirectory + upload.value.filename)]
                     else [Insert(payload)])
  {
  }

  /** A valid body whose insert completes: success exactly when a row was affected, and no compensation. */
  lemma SuccessIffAffectedRows(
    body: Body, upload: Option<StoredFile>,
    result: InsertResult, unlinkSucceeds: string -> bool)
    requires Validate(body) == [] && "weight" in body
    ensures var r := CreateProduct(body, upload, Inserted(result), unlinkSucceeds);
      && r.response.Answered?
      && (r.response.success <==> result.affectedRows != 0)
      && r.response.result == Some(result)
      && r.trace == (if upload.Some? then [Stored(StoredPath(upload.value))] else []) + [Insert(BuildPayload(body, upload))]
  {
  }

  /**
   * The inserted object: the uploaded filename replaces `img_url`; `base_price`,
   * not the validated `price`, is the price column; the weight is the raw field.
   */
  lemma InsertedPayload(
    body: Body, upload: Option<StoredFile>,
    insert: InsertReply, unlinkSucceeds: string -> bool, i: nat)
    requires var r := CreateProduct(body, upload, insert, unlinkSucceeds);
      i < |r.trace| && r.trace[i].Insert?
    ensures var p := CreateProduct(body, upload, insert, unlinkSucceeds).trace[i].payload;
      && Validate(body) == []
      && p.imgUrl == (if upload.Some? then Some(upload.value.filename) else Field(body, "img_url"))
      && p.basePrice == Field(body, "base_price")
      && p.weight == Field(body, "weight")
      && p.productCode == Field(body, "product_code")
  {
    InsertIsBuilt(body, upload, insert, unlinkSucceeds, i);
    InsertedFields(body, upload);
  }

  /** An insert event carries the payload built from the body and the upload, and only a valid body gets one. */
  lemma InsertIsBuilt(
    body: Body, upload: Option<StoredFile>,
    insert: InsertReply, unlinkSucceeds: string -> bool, i: nat)
    requires var r := CreateProduct(body, upload, insert, unlinkSucceeds);
      i < |r.trace| && r.trace[i].Insert?
    ensures CreateProduct(body, upload, insert, unlinkSucceeds).trace[i] == Insert(BuildPayload(body, upload))
    ensures Validate(body) == []
  {
    var write, ins, del := Written(upload), InsertPhase(body, upload), DeletePhase(body, upload, insert, unlinkSucceeds);
    TracePhases(body, upload, insert, unlinkSucceeds);
    assert |write| <= 1 && (write != [] ==> write[0].Stored?);
    assert |del| <= 1 && (del != [] ==> del[0].Delete?);
    InsertOfPhases(CreateProduct(body, upload, insert, unlinkSucceeds).trace, write, ins, del, i);
    assert ins != [] && ins[0] == Insert(BuildPayload(body, upload));
  }

  /** The insert event of a phased trace is the first event of a non-empty insert phase. */
  lemma InsertOfPhases(t: seq<Event>, write: seq<Event>, insert: seq<Event>, delete: seq<Event>, i: nat)
    requires t == write + insert + delete
    requires |write| <= 1 && (write != [] ==> write[0].Stored?)
    requires |delete| <= 1 && (delete != [] ==> delete[0].Delete?)
    requires i < |t| && t[i].Insert? && |insert| <= 1
    ensures insert != [] && t[i] == insert[0]
  {
    InsertLiesInPhase(write, insert, delete, i);
  }

  /** The columns of the insert payload. */
  lemma InsertedFields(body: Body, upload: Option<StoredFile>)
    ensures var p := BuildPayload(body, upload);
      && p.basePrice == Field(body, "base_price")
      && p.weight == Field(body, "weight")
      && p.productCode == Field(body, "product_code")
  {
  }

  /** An insert event of a phased trace is the insert phase's. */
  lemma InsertLiesInPhase(write: seq<Event>, insert: seq<Event>, delete: seq<Event>, i: nat)
    requires forall k :: 0 <= k < |write| ==> !write[k].Insert?
    requires forall k :: 0 <= k < |delete| ==> !delete[k].Insert?
    requires i < |write + insert + delete| && (write + insert + delete)[i].Insert?
    ensures |write| <= i < |write| + |insert|
    ensures (write + insert + delete)[i] == insert[i - |write|]
  {
  }


  /** A valid body without a weight field: `weight.trim()` throws, so there is no insert, no compensation and no answer. */
  lemma MissingWeightAbandonsRequest(
    body: Body, upload: Option<StoredFile>,
    insert: InsertReply, unlinkSucceeds: string -> bool)
    requires Validate(body) == [] && "weight" !in body
    ensures var r := CreateProduct(body, upload, insert, unlinkSucceeds);
      && r.response == NoResponse
      && r.trace == (if upload.Some? then [Stored(StoredPath(upload.value))] else [])
  {
  }

  /** The result of the unlink is never awaited: neither the trace nor the response depends on it. */
  lemma UnlinkOutcomeIgnored(
    body: Body, upload: Option<StoredFile>,
    insert: InsertReply, u1: string -> bool, u2: string -> bool)
    ensures CreateProduct(body, upload, insert, u1) == CreateProduct(body, upload, insert, u2)
  {
  }

  /** The insert a request sends: one for a valid body with a weight field, none otherwise. */
  function InsertPhase(body: Body, upload: Option<StoredFile>): seq<Event>
  {
    if Validate(body) == [] && "weight" in body then [Insert(BuildPayload(body, upload))] else []
  }

  /** The compensation a request starts: after a rejected body or a failed insert. */
  function DeletePhase(body: Body, upload: Option<StoredFile>, insert: InsertReply, unlinkSucceeds: string -> bool): seq<Event>
  {
    if Validate(body) != [] || ("weight" in body && insert.Throws?) then Compensate(upload, unlinkSucceeds) else []
  }

  /** Every trace is the write, then the insert phase, then the delete phase; a delete comes with a failure answer. */
  lemma TracePhases(
    body: Body, upload: Option<StoredFile>,
    insert: InsertReply, unlinkSucceeds: string -> bool)
    ensures var r := CreateProduct(body, upload, insert, unlinkSucceeds);
      && r.trace == Written(upload) + InsertPhase(body, upload) + DeletePhase(body, upload, insert, unlinkSucceeds)
      && (DeletePhase(body, upload, insert, unlinkSucceeds) != [] ==> !Succeeded(r.response))
  {
    var w := Written(upload);
    if Validate(body) != [] {
      assert w + Compensate(upload, unlinkSucceeds) == w + [] + Compensate(upload, unlinkSucceeds);
    } else if "weight" !in body {
      assert w == w + [] + [];
    } else if insert.Inserted? {
      assert w + [Insert(BuildPayload(body, upload))] == w + [Insert(BuildPayload(body, upload))] + [];
    }
  }

  /** Whether a response reports a created product. */
  predicate Succeeded(response: Response)
  {
    response.Answered? && response.success
  }

  /**
   * The compensation discipline of a trace: the file write, of `written`,
   * comes first; at most one insert and at most one delete; a delete only
   * after the file was written, after any insert, and of `deleted`.
   */
  predicate Disciplined(t: seq<Event>, written: string, deleted: string)
  {
    && (forall i :: 0 <= i < |t| && t[i].Stored? ==> i == 0 && t[i].path == written)
    && (forall i, j :: 0 <= i < j < |t| && t[i].Delete? ==> !t[j].Delete?)
    && (forall i, j :: 0 <= i < j < |t| && t[i].Insert? ==> !t[j].Insert?)
    && (forall i :: 0 <= i < |t| && t[i].Delete? ==> 0 < i && t[0].Stored? && t[i].path == deleted)
    && (forall i, j :: 0 <= i < |t| && 0 <= j < |t| && t[i].Insert? && t[j].Delete? ==> i < j)
  }

  predicate HasDelete(t: seq<Event>)
  {
    exists i :: 0 <= i < |t| && t[i].Delete?
  }

  /** A trace made of an optional write, an optional insert and an optional delete, in that order, is disciplined. */
  lemma {:induction false} PhasesAreDisciplined(
    write: seq<Event>, insert: seq<Event>, delete: seq<Event>, written: string, deleted: string)
    requires |write| <= 1 && (forall i :: 0 <= i < |write| ==> write[i] == Stored(written))
    requires |insert| <= 1 && (forall i :: 0 <= i < |insert| ==> insert[i].Insert?)
    requires |delete| <= 1 && (forall i :: 0 <= i < |delete| ==> delete[i] == Delete(deleted))
    requires delete != [] ==> write != []
    ensures Disciplined(write + insert + delete, written, deleted)
    ensures HasDelete(write + insert + delete) <==> delete != []
  {
    var t := write + insert + delete;
    forall i | 0 <= i < |t|
      ensures t[i].Stored? <==> i < |write|
      ensures t[i].Stored? ==> t[i] == Stored(written)
      ensures t[i].Insert? <==> |write| <= i < |write| + |insert|
      ensures t[i].Delete? <==> |write| + |insert| <= i
      ensures t[i].Delete? ==> t[i] == Delete(deleted)
    {
      if i < |write| { assert t[i] == write[i]; }
      else if i < |write| + |insert| { assert t[i] == insert[i - |write|]; }
      else { assert t[i] == delete[i - |write| - |insert|]; }
    }
    if delete != [] {
      assert t[0] == write[0];
      assert t[|write| + |insert|].Delete?;
    }
  }

  /** Every request keeps the compensation discipline. */
  lemma CompensationDiscipline(
    body: Body, upload: Option<StoredFile>,
    insert: InsertReply, unlinkSucceeds: string -> bool)
    ensures Disciplined(CreateProduct(body, upload, insert, unlinkSucceeds).trace,
                        if upload.Some? then StoredPath(upload.value) else "",
                        if upload.Some? then RemovalDirectory + upload.value.filename else "")
  {
    var written := if upload.Some? then StoredPath(upload.value) else "";
    var deleted := if upload.Some? then RemovalDirectory + upload.value.filename else "";
    var del := DeletePhase(body, upload, insert, unlinkSucceeds);
    assert Written(upload) == (if upload.Some? then [Stored(written)] else []);
    assert del == [] || del == (if upload.Some? then [Delete(deleted)] else []);
    TracePhases(body, upload, insert, unlinkSucceeds);
    PhasesAreDisciplined(Written(upload), InsertPhase(body, upload), del, written, deleted);
  }

  /** A request that deletes anything had an upload, and never reports success. */
  lemma DeleteMeansFailure(
    body: Body, upload: Option<StoredFile>,
    insert: InsertReply, unlinkSucceeds: string -> bool)
    ensures var r := CreateProduct(body, upload, insert, unlinkSucceeds);
      HasDelete(r.trace) ==> upload.Some? && !Succeeded(r.response)
  {
    var write, ins, del := Written(upload), InsertPhase(body, upload), DeletePhase(body, upload, insert, unlinkSucceeds);
    TracePhases(body, upload, insert, unlinkSucceeds);
    assert |write| <= 1 && (write != [] ==> write[0].Stored?);
    assert |ins| <= 1 && (ins != [] ==> ins[0].Insert?);
    DeleteOfPhases(CreateProduct(body, upload, insert, unlinkSucceeds).trace, write, ins, del);
  }

  /** A delete in a phased trace comes from a non-empty delete phase. */
  lemma DeleteOfPhases(t: seq<Event>, write: seq<Event>, insert: seq<Event>, delete: seq<Event>)
    requires t == write + insert + delete
    requires |write| <= 1 && (write != [] ==> write[0].Stored?)
    requires |insert| <= 1 && (insert != [] ==> insert[0].Insert?)
    ensures HasDelete(t) ==> delete != []
  {
  }


  /** `removeUploadedImg` unlinks under `public/imgs/`, never the path multer stored the upload at. */
  lemma DeleteNeverTargetsStoredFile(
    body: Body, file: Option<ClientFile>, uuid: UuidText,
    insert: InsertReply, unlinkSucceeds: string -> bool)
    ensures var t := Post(body, file, uuid, insert, unlinkSucceeds).trace;
      forall i, j :: 0 <= i < |t| && 0 <= j < |t| && t[i].Delete? && t[j].Stored? ==> t[i].path != t[j].path
  {
    var upload := Store(Field(body, "folder"), file, uuid);
    var t := CreateProduct(body, upload, insert, unlinkSucceeds).trace;
    CompensationDiscipline(body, upload, insert, unlinkSucceeds);
    DeleteMeansFailure(body, upload, insert, unlinkSucceeds);
    if upload.Some? {
      RemovalMissesStorage(upload.value);
    } else {
      assert !HasDelete(t);
    }
  }

  /** The removal path and the storage path differ at their eleventh character: `s` against `/`. */
  lemma RemovalMissesStorage(f: StoredFile)
    requires f.directory in {"public/img", "public/img/avatar"}
    ensures RemovalDirectory + f.filename != StoredPath(f)
  {
    assert (RemovalDirectory + f.filename)[10] == 's';
    assert StoredPath(f)[10] == '/';
  }

  /** A body with product code `X12` and an upload: the file is written, then deleted, and nothing is inserted. */
  lemma BadCodeWithUpload(upload: StoredFile, insert: InsertReply, unlinkSucceeds: string -> bool)
    ensures var body := map["product_code" := "X12", "name" := "A", "description" := "B", "price" := "9.99"];
      var r := CreateProduct(body, Some(upload), insert, unlinkSucceeds);
      && r.response == ValidationFailed([Issue("product_code", FormatMessage)])
      && r.trace == [Stored(StoredPath(upload)), Delete(RemovalDirectory + upload.filename)]
  {
    var body := map["product_code" := "X12", "name" := "A", "description" := "B", "price" := "9.99"];
    assert Validate(body) == [Issue("product_code", FormatMessage)] by {
      assert !IsProductCode("X12");
      assert FieldIssues(body, "product_code", true) == [Issue("product_code", FormatMessage)];
      assert FieldIssues(body, "name", false) == [];
      assert FieldIssues(body, "description", false) == [];
      assert FieldIssues(body, "price", false) == [];
    }
    RejectedBodyNeverInserted(body, Some(upload), insert, unlinkSucceeds);
  }

  /** A valid body without a file, whose insert affects one row: exactly one insert and `success` true. */
  lemma ValidBodyInserts(unlinkSucceeds: string -> bool, id: nat)
    ensures var body := map["product_code" := "P001", "name" := "A", "description" := "B", "price" := "9.99", "weight" := ""];
      var r := CreateProduct(body, None, Inserted(InsertResult(1, id)), unlinkSucceeds);
      && r.response.Answered? && r.response.success
      && |r.trace| == 1 && r.trace[0].Insert?
  {
    var body := map["product_code" := "P001", "name" := "A", "description" := "B", "price" := "9.99", "weight" := ""];
    assert IsProductCode("P001") by {
      assert "P001"[1..] == "001";
    }
    ValidateAcceptsExactly(body);
  }

  /** A valid body with a blank weight reaches the database with the blank string, not null, as its weight. */
  lemma BlankWeightInsertedAsEmpty(
    body: Body, upload: Option<StoredFile>,
    insert: InsertReply, unlinkSucceeds: string -> bool)
    requires Validate(body) == [] && "weight" in body && AllWhiteSpace(body["weight"])
    ensures Insert(BuildPayload(body, upload)) in CreateProduct(body, upload, insert, unlinkSucceeds).trace
    ensures BuildPayload(body, upload).weight == Some(body["weight"])
  {
    var t := CreateProduct(body, upload, insert, unlinkSucceeds).trace;
    TracePhases(body, upload, insert, unlinkSucceeds);
    assert t[|Written(upload)|] == Insert(BuildPayload(body, upload));
  }

  /** The blank weight `" "` with a valid code, name, description and price is such a body. */
  lemma BlankWeightExample(upload: Option<StoredFile>, insert: InsertReply, unlinkSucceeds: string -> bool)
    ensures var body := map["product_code" := "P001", "name" := "A", "description" := "B", "price" := "9.99", "weight" := " "];
      BuildPayload(body, upload).weight == Some(" ")
      && Insert(BuildPayload(body, upload)) in CreateProduct(body, upload, insert, unlinkSucceeds).trace
  {
    var body := map["product_code" := "P001", "name" := "A", "description" := "B", "price" := "9.99", "weight" := " "];
    assert IsProductCode("P001") by {
      assert "P001"[1..] == "001";
    }
    ValidateAcceptsExactly(body);
    BlankWeightInsertedAsEmpty(body, upload, insert, unlinkSucceeds);
  }
}
