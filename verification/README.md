# Product catalog core: listing resolution, upload naming, create workflow

A Dafny model of the decision logic inside the product routes of the gym
backend. There are three parts:

- **Listing (`getListData`).** The handler reads the page number with
  JavaScript's `+page || 1`, trims the keyword, and builds the
  `WHERE 1 [AND name LIKE …] [AND c.category_name = …]` clause. It counts the
  matching rows and computes `totalPages = ceil(totalRows / 12)`. A page below
  1 redirects to `?page=1`, and a page past the end redirects to the last page.
  Zero rows is a success with no rows. Otherwise it fetches the window
  `LIMIT (page-1)*12, 12` of the id-ordered rows.
- **Upload policy (`utils/upload-images.js`).** This covers the MIME allow-list
  and its extensions, the file filter, the storage directory (`public/img`, or
  `public/img/avatar` for the folder `"avatar"`), and the generated filename
  `uuid + ext`.
- **Create workflow (`POST /api`).** It validates the body with zod and
  compensates by deleting the uploaded file on a validation or insert failure.
  It builds the insert payload, in which the uploaded filename replaces
  `img_url`. Success is `affectedRows != 0`. The run is a pure function that
  returns an event trace (`Stored`, `Insert`, `Delete`) and the response.
  `CreateProduct` is the handler given `req.file` as multer left it, and `Post`
  is the mounted route: the upload policy's `Store`, then the handler.

Modules:

- `JsText`: ECMAScript white space, `trim`, and decimal digit strings.
- `JsNumbers`: the unary plus on strings (StringToNumber, section 7.1.4.1.1 of
  ECMA-262), truthiness, and comparisons.
- `Pagination`: page count and LIMIT windows.
- `UploadImages`: the upload policy.
- `Listing`: the listing.
- `CreateProduct`: the handler as written.
- `CreateProductFixed`: the handler as evidently intended (see Findings).

The outside world enters as parameters:

- The database is `matching: string -> seq<ProductRow>`, the id-ordered rows a
  WHERE text selects. The data is stable, so the count is its length and a page
  query is a LIMIT window of it (see "Left out" for the table names).
- `db.escape` is an opaque function `escape`.
- The insert's answer is `InsertReply = Throws(message) | Inserted(result)`.
- The unlink's answer is `unlinkSucceeds: string -> bool`.
- The random id is a `UuidText`: 36 lower-case hex digits and dashes.

Behaviours of the code that the model keeps:

- **Early redirect.** A page redirects to `?page=1` when it is below 1 after
  `|| 1`. That covers negative pages, `-Infinity`, and positive fractions such
  as `0.5`. Absent, empty, `0` and non-numeric pages become 1.
- **Fractional pages.** An in-range page whose offset `(page-1)*12` is not a
  whole number, such as page `1.1` with offset `1.2`, gives a fractional LIMIT
  offset. MySQL refuses it, and the model reports `RowQueryRejected`. A
  fractional page with a whole offset, such as `1.5` with offset 6, is served.
- **Redirects drop the filters.** A redirect is the relative URL `?page=N`, so
  the keyword and category are lost. `Listing.RedirectSettles` proves that
  following a redirect is served without another redirect. This holds when the
  unfiltered listing has at least as many rows as the filtered one.
- **File filter.** It reads `extMap[mimetype]` as a JavaScript property, so
  inherited `Object.prototype` names would pass. The model assumes multer
  1.4.5-lts or later, whose busboy 1.x parser always reports a MIME type as
  `type/subtype`. No inherited name contains `/`, so the filter accepts
  exactly the three image types.
- **String interpolation.** The WHERE clause concatenates escaped literals.
  Parameter binding would be safer; the model follows the code.

## Model

| member | source | states |
|---|---|---|
| JsText.Trim | routes/products.js:50 | the trimmed keyword has no white space at either end, and it is empty exactly when the input is all white space |
| JsText.TrimFindsCore | routes/products.js:50 | any split of a string into white space, a trimmed core and white space has that core as its trim |
| JsText.TrimIsInfix | routes/products.js:50 | trim removes only white space from the two ends |
| JsText.TrimIdempotent | routes/products.js:50 | trimming a trimmed keyword changes nothing |
| JsText.ShowNat | routes/products.js:80 | the page number in a redirect URL is a canonical digit string whose value is that number |
| JsNumbers.ToNumber | routes/products.js:49 | `+` of blank text is 0, and it is ±Infinity exactly for the trimmed texts `Infinity`, `+Infinity` and `-Infinity` |
| JsNumbers.OrOne | routes/products.js:49 | `n \|\| 1` keeps a truthy n and gives 1 for a falsy one (NaN or 0) |
| JsNumbers.BlankIsZero | routes/products.js:49 | `+` of an empty or blank page parameter is 0 |
| JsNumbers.NonNumericIsNaN | routes/products.js:49 | `+` of text that does not start like a number is NaN |
| JsNumbers.ToNumberShowNat | routes/products.js:49 | `+` of the decimal text of N is N |
| Listing.PageNumberOf | routes/products.js:49 | an absent page parameter is NaN, and a blank one is 0 |
| Listing.PageDefaultsToOne | routes/products.js:49 | an absent, zero or NaN page number becomes page 1 |
| Listing.BlankPageIsFirst | routes/products.js:49 | an empty or blank page parameter becomes page 1 |
| Listing.NonNumericPageIsFirst | routes/products.js:49 | a non-numeric page parameter becomes page 1 |
| Listing.KeywordOf | routes/products.js:50 | the keyword is trimmed, and it is empty when the parameter is absent |
| Listing.CategoryOf | routes/products.js:51 | the category is the parameter's text untrimmed, and it is empty exactly when the parameter is absent or empty |
| Listing.Conditions | routes/products.js:58-69 | the filter has a LIKE `%kw%` conjunct exactly when the keyword is non-empty and a category conjunct exactly when the category is non-empty, LIKE first |
| Listing.ConditionsInjective | routes/products.js:58-69 | different keyword/category pairs give different filters |
| Listing.WhereOf | routes/products.js:58-69 | the WHERE text is ` WHERE 1 ` alone exactly when neither a keyword nor a category is given |
| Listing.WhereShape | routes/products.js:58-69 | the WHERE text starts with ` WHERE 1 `; the LIKE conjunct follows exactly when the keyword is non-empty; with a category it ends with the category conjunct; with neither it is ` WHERE 1 ` alone |
| Listing.WhereRendersConditions | routes/products.js:58-69 | the WHERE text the listing builds is the rendering of the structured filter |
| Listing.RedirectTo | routes/products.js:80 | a redirect URL is `?page=` followed by the decimal digits of the target page |
| Listing.RedirectNamesPage | routes/products.js:80 | following the redirect, `+req.query.page` reads back exactly the target page |
| Listing.RedirectToInjective | routes/products.js:80 | distinct target pages give distinct redirect URLs |
| Listing.ListData | routes/products.js:36-105 | a finished listing succeeds exactly when it sets no redirect; it has page size 12 and at most 12 rows; it issues at most two queries, all with the WHERE text of the request's keyword and category |
| Listing.FetchWindow | routes/products.js:84-104 | a whole page is always served; a served page succeeds with at most 12 rows and no redirect; the count query comes first and both queries use the same WHERE text |
| Listing.EarlyRedirect | routes/products.js:53-56 | a page below 1 returns the initial output with `redirect = "?page=1"` and issues no query; every other page issues the count query for the request's WHERE text first |
| Listing.ZeroRowsSucceed | routes/products.js:76-104 | with no matching rows: success, no rows, no redirect, totalPages 0, and only the count query, for any page of at least 1 |
| Listing.PastEndRedirects | routes/products.js:78-82 | with rows, a page past totalPages redirects to `?page=totalPages` with success false and only the count query |
| Listing.ServesWindow | routes/products.js:84-104 | a whole page p in 1..totalPages succeeds with the rows at `(p-1)*12` .. `p*12` of the ordered matches, after the count and the `LIMIT (p-1)*12, 12` query |
| Listing.WholeOffset | routes/products.js:98-100 | a whole page number gives the whole offset `(p-1)*12` |
| Listing.RedirectIffOutOfRange | routes/products.js:53-82 | a redirect is set exactly when the page is below 1, or past the last page of a non-empty result |
| Listing.EchoesSearch | routes/products.js:59-67 | once the count is queried, the output echoes the trimmed keyword, and it carries the category exactly when the category is non-empty |
| Listing.RedirectSettles | routes/products.js:78-82 | the request a redirect leads to is served without another redirect, provided the unfiltered row count is at least the filtered one |
| Listing.ListedPagesReassemble | routes/products.js:97-100 | requesting pages 1..totalPages and concatenating their rows gives every matching row exactly once, in id order |
| Listing.ListedRowsArePage | routes/products.js:84-104 | the rows the listing serves for a page in 1..totalPages are exactly that page's window of the ordered matches |
| Listing.ListedIsPaged | routes/products.js:97-100 | the listing's rows for pages 1..k are the first k page windows |
| Pagination.TotalPages | routes/products.js:76 | totalPages is the least page count whose pages of 12 hold all rows (`ceil(totalRows / 12)`) |
| Pagination.TotalPagesMonotone | routes/products.js:76 | more rows never mean fewer pages |
| Pagination.Limit | routes/products.js:98-100 | `LIMIT offset, count` yields the consecutive rows from offset on, at most count of them, clipped to the rows that exist |
| Pagination.ThroughAgrees | routes/products.js:97-100 | any page function that shows each page's window reads, through page k, as the first k windows |
| Pagination.PagesThroughIsPrefix | routes/products.js:97-100 | pages 1..k in order are the first `12k` rows |
| Pagination.PagesReassemble | routes/products.js:97-100 | pages 1..totalPages in order are all the rows |
| Pagination.WindowsPartition | routes/products.js:98-100 | each row index lies in the window of exactly one page, so the windows are pairwise disjoint |
| Pagination.EveryRowOnSomePage | routes/products.js:76-100 | every existing row lies on a page between 1 and totalPages |
| Pagination.PageSizes | routes/products.js:76-100 | pages 1..totalPages hold 1 to 12 rows each, and later pages hold none |
| UploadImages.ExtMapContents | utils/upload-images.js:5-9 | the map is exactly jpeg to `.jpg`, png to `.png`, webp to `.webp` |
| UploadImages.ExtMapInjective | utils/upload-images.js:5-9 | distinct accepted types have distinct extensions |
| UploadImages.SlashNamesNotInherited | utils/upload-images.js:12 | no MIME type reaches an inherited Object.prototype member in the lookup |
| UploadImages.FileFilter | utils/upload-images.js:11-13 | `!!extMap[file.mimetype]` accepts a file exactly when its MIME type is an own key of the map |
| UploadImages.FileFilterIsAllowList | utils/upload-images.js:11-13 | the filter accepts a file exactly when its MIME type is image/jpeg, image/png or image/webp |
| UploadImages.Destination | utils/upload-images.js:16-22 | the directory is `public/img/avatar` exactly when the folder is `"avatar"`, and `public/img` for every other value, including absent |
| UploadImages.OtherFoldersIgnored | utils/upload-images.js:16-22 | no folder value other than `"avatar"` affects the path |
| UploadImages.Filename | utils/upload-images.js:24-27 | the stored name is the 36-character id followed by the extension the map gives for this file's MIME type |
| UploadImages.FilenameIgnoresOriginalName | utils/upload-images.js:24-27 | the client's original filename never influences the stored name |
| UploadImages.FilenamesNeverCollide | utils/upload-images.js:24-27 | distinct ids give distinct filenames, whatever the files |
| UploadImages.FilenameRecoversType | utils/upload-images.js:24-27 | the stored name determines the MIME type it was accepted under |
| UploadImages.Store | utils/upload-images.js:11-27 | a request carries a stored file exactly when a file with an allowed type was sent; it then lies in `public/img/avatar` exactly when the folder is `"avatar"` (else `public/img`), under the id followed by the extension mapped from its MIME type |
| CreateProduct.FieldIssues | routes/products.js:16-21 | a field yields no issue exactly when it is present, non-empty, and (for the code) matches `^P\d{3}$`; every issue names that field |
| CreateProduct.ValidateAcceptsExactly | routes/products.js:15-22 | validation passes exactly for bodies with a `P`-plus-three-digits code and non-empty name, description and price |
| CreateProduct.Validate | routes/products.js:15-22 | every issue concerns one of the four schema fields |
| CreateProduct.RemoveUploadedImg | routes/products.js:25-34 | the removal never fails; it unlinks `public/imgs/<file>` and resolves to true exactly when that unlink succeeds |
| CreateProduct.Compensate | routes/products.js:205-207 | without an upload nothing is deleted; with one, exactly one delete of `public/imgs/<filename>` is started, whatever the unlink's outcome |
| CreateProduct.BuildPayload | routes/products.js:211-215 | `img_url` in the payload is the uploaded filename when there is one, and the body's `img_url` otherwise |
| CreateProduct.CreateProduct | routes/products.js:193-235 | the answer is the validation failure, carrying zod's issues, exactly when the body is invalid; there is no answer exactly when a valid body has no weight field; success is reported exactly when a valid body with a weight is inserted with non-zero affectedRows |
| CreateProduct.Post | routes/products.js:193 | a request without a file, or with a file whose type the filter rejects, runs exactly like the handler without an upload |
| CreateProduct.PostStoresAcceptedImage | routes/products.js:193 | the route begins with a file write exactly when a file of an allowed image type was sent |
| CreateProduct.RejectedBodyNeverInserted | routes/products.js:202-209 | a rejected body is answered with its issues and inserts nothing; the trace is the upload followed by one delete, or empty without an upload |
| CreateProduct.InsertFailureCompensates | routes/products.js:222-231 | an insert that throws is followed by exactly one delete of the upload, and the answer has success false and the error |
| CreateProduct.SuccessIffAffectedRows | routes/products.js:222-226 | a completed insert answers success exactly when affectedRows is non-zero, returns the driver result, and deletes nothing |
| CreateProduct.InsertIsBuilt | routes/products.js:200-222 | an insert event only occurs for a valid body, and it carries the payload built from that body and the upload |
| CreateProduct.InsertedPayload | routes/products.js:200-215 | an insert happens only for a valid body; its payload carries the uploaded filename as `img_url`, `base_price` (not `price`), and the raw weight |
| CreateProduct.MissingWeightAbandonsRequest | routes/products.js:217 | a valid body without a weight field gets no answer, no insert and no delete |
| CreateProduct.UnlinkOutcomeIgnored | routes/products.js:227-229 | the outcome of the unawaited unlink affects neither the trace nor the response |
| CreateProduct.TracePhases | routes/products.js:193-235 | every run is the upload's write, then the insert a valid body with a weight sends, then the delete a rejected body or a failed insert starts; a run with that delete answers with failure |
| CreateProduct.PhasesAreDisciplined | routes/products.js:193-235 | a trace made of an optional write, an optional insert and an optional delete of that write keeps the compensation discipline, and it contains a delete exactly when the delete part is non-empty |
| CreateProduct.CompensationDiscipline | routes/products.js:193-235 | in every run: the file write comes first; there is at most one insert and at most one delete; a delete follows the write and any insert, and names `public/imgs/<filename>` |
| CreateProduct.DeleteMeansFailure | routes/products.js:204-231 | a run that deletes anything had an upload and never reports success |
| CreateProduct.RemovalMissesStorage | routes/products.js:26 | `public/imgs/<name>` is never the path of a file stored under `public/img` or `public/img/avatar` |
| CreateProduct.DeleteNeverTargetsStoredFile | routes/products.js:26 | in any request to the route, no delete names the path multer stored the upload at |
| CreateProduct.BadCodeWithUpload | routes/products.js:202-209 | code `X12` with any upload yields one format issue, the write, then a delete under `public/imgs/`, and no insert |
| CreateProduct.ValidBodyInserts | routes/products.js:211-226 | for one example body, a valid one that includes a `weight` field (the empty string) and carries no file: an insert affecting one row gives exactly one insert and success |
| CreateProduct.BlankWeightInsertedAsEmpty | routes/products.js:211-217 | every valid body whose weight is blank, with any upload and any insert outcome, sends an insert whose weight is that blank text, not null |
| CreateProduct.BlankWeightExample | routes/products.js:211-217 | the body with code `P001` and weight `" "` is such a body: its insert carries `" "` |
| CreateProductFixed.CreateProductFixed | routes/products.js:193-235 | the corrected handler answers with the validation failure exactly when the body is invalid, and reports success exactly when a valid body's insert affects a non-zero number of rows |
| CreateProductFixed.NormaliseWeight | routes/products.js:217 | a weight becomes null exactly when it is absent or blank; otherwise it is kept |
| CreateProductFixed.FixedInsertIsBuilt | routes/products.js:211-222 | in the corrected handler, an insert event carries the payload with the normalised weight |
| CreateProductFixed.FixedWeightNormalised | routes/products.js:211-217 | in the corrected handler, the inserted weight is null exactly when the field is absent or blank |
| CreateProductFixed.FixedAlwaysAnswers | routes/products.js:217 | the corrected handler answers every request, and every valid body reaches the insert |
| CreateProductFixed.FixedTracePhases | routes/products.js:193-235 | in the corrected handler every run is the write, the insert of every valid body, then the delete after a rejection or a failed insert; a run with that delete answers with failure |
| CreateProductFixed.FixedCompensationRemovesStoredFile | routes/products.js:25-34 | in the corrected handler every run keeps the compensation discipline with the storage path as the deleted name, and a run that deletes never reports success |
| CreateProductFixed.FixedUploadAccountedFor | routes/products.js:25-34 | in the corrected handler an upload is deleted from its storage path or referenced by a completed insert |

## Left out

- Express routing, `res.render`, `res.redirect`, `res.json`, CORS and the two rendered pages (`GET /` and `GET /add`) are HTTP plumbing. The model returns the data these would send.
- The auth middleware (routes/products.js:107-126) returns `next()` on its first line, so the rest of it is dead code.
- `GET /api/:productId` is a single `JSON_ARRAYAGG`/`LEFT JOIN` query. Its behaviour is MySQL's, not JavaScript's.
- SQL execution is the `matching` oracle, and `db.escape` is an opaque function. MySQL's LIKE wildcard semantics and its escaping algorithm are not modelled. The fixed SQL around the WHERE text (SELECT list, JOIN, ORDER BY) appears only as the query kind.
- Driver failures of the count or page query are rejected promises that the handler does not catch. The model's only refused query is a page query whose LIMIT offset is not a whole number.
- JavaScript numbers are exact reals. IEEE-754 rounding, overflow to Infinity and the number-to-string form of non-integers are not modelled.
- A multipart form field is one string (`Body` maps names to strings). multer fills `req.body` field by field, so a repeated field or a `name[]` field becomes an array or an object. zod then reports `invalid_type`, and `weight.trim()` throws on an array. These bodies are not modelled.
- The count query reads the table `products` (routes/products.js:72) and the page query reads `Products` (routes/products.js:94). With case-sensitive table names, MySQL's default on Linux, these are two different tables. The model assumes one table: both queries read the `matching` oracle.
- A query parameter is absent or one string. Repeated parameters, which Express parses into arrays, are not modelled.
- multer internals are not modelled. This includes the order of fields in the multipart stream (`req.body.folder` is only visible to `destination` when it precedes the file) and the disk write itself. So are uuid generation (the id is a parameter), the filesystem (unlink outcomes are a parameter), and `console.log`.
- Older multipart parsers are not modelled. busboy 0.2, used by multer before 1.4.5-lts, passes the raw lower-cased Content-Type token. A part sent as `constructor` would then find a truthy inherited member and pass the filter. `MediaType` always holds a type and a subtype, so this case cannot be expressed.
- Asynchrony and concurrency between requests are not modelled. The unawaited delete is an event whose outcome nothing waits for.
- The zod result keeps only each issue's path and message. The issue codes, and the `received`/`expected` details, are dropped. Because fields are modelled as strings, the only type error the model has is absence.
- The driver's insert result keeps only `affectedRows` and `insertId`.
- `moment-timezone` is imported but never used.
- Listing.RedirectSettles: it assumes that the unfiltered listing has at least as many rows as the filtered one. Real SQL guarantees this, but the `matching` oracle does not.

## Findings

| source | as written | input that shows it | evidently intended | confidence | as-written member | corrected member |
|---|---|---|---|---|---|---|
| routes/products.js:211-217 | the weight is normalised into a local variable after `dataObj` is built, so the payload keeps the raw weight | a valid body with `weight = " "`: the insert carries `" "` | a blank weight is inserted as null | high, not executed | CreateProduct.BlankWeightInsertedAsEmpty | CreateProductFixed.FixedWeightNormalised |
| routes/products.js:217 | `weight.trim()` throws when no weight was sent, after validation and before the insert | a valid body without a `weight` field, with an attached JPEG: no answer, no insert, and the stored file is never deleted | an absent weight is treated as null and the request proceeds | high, not executed | CreateProduct.MissingWeightAbandonsRequest | CreateProductFixed.FixedAlwaysAnswers |
| routes/products.js:26 | compensation unlinks `public/imgs/<file>`, but multer stores uploads under `public/img` (utils/upload-images.js:17) | any rejected body with an attached JPEG: the delete names `public/imgs/<id>.jpg`, while the file is at `public/img/<id>.jpg` | compensation deletes the file where it was stored | high, not executed | CreateProduct.DeleteNeverTargetsStoredFile | CreateProductFixed.FixedCompensationRemovesStoredFile |
