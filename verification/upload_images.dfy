/**
 * The upload policy of utils/upload-images.js: the MIME allow-list and its
 * extensions, the file filter, the storage directory and the generated
 * filename. The multer engine and the disk write are not modelled; the
 * random id is a parameter.
 */
module UploadImages {
  import opened Wrappers

  /** A MIME type as the multipart parser reports it: always `type/subtype`. */
  datatype MediaType = MediaType(kind: string, subtype: string)

  function MimeText(m: MediaType): (s: string)
    ensures '/' in s
  {
    assert (m.kind + "/" + m.subtype)[|m.kind|] == '/';
    m.kind + "/" + m.subtype
  }

  /** An uploaded file as the client sent it. */
  datatype ClientFile = ClientFile(originalName: string, mediaType: MediaType)

  /** `extMap`: accepted MIME type to the extension of stored files. */
  const ExtMap: map<string, string> :=
    map["image/jpeg" := ".jpg", "image/png" := ".png", "image/webp" := ".webp"]

  /** Names every plain object inherits from Object.prototype; `extMap[name]` yields a truthy member for them. */
  const InheritedNames: set<string> :=
    {"constructor", "hasOwnProperty", "isPrototypeOf", "propertyIsEnumerable", "toLocaleString",
     "toString", "valueOf", "__proto__", "__defineGetter__", "__defineSetter__",
     "__lookupGetter__", "__lookupSetter__"}

  /** What the property read `extMap[key]` finds. */
  datatype Lookup = OwnValue(ext: string) | InheritedMember | Undefined

  function LookupExt(key: string): Lookup
  {
    if key in ExtMap then OwnValue(ExtMap[key])
    else if key in InheritedNames then InheritedMember
    else Undefined
  }

  /** `fileFilter`: accept when `!!extMap[file.mimetype]`; own values are non-empty strings and inherited members are objects, all truthy. */
  function FileFilter(file: ClientFile): (accepted: bool)
    ensures accepted <==> MimeText(file.mediaType) in ExtMap
  {
    SlashNamesNotInherited(MimeText(file.mediaType));
    !LookupExt(MimeText(file.mediaType)).Undefined?
  }

  /** The filter accepts a file exactly when its MIME type is one of the three image types. */
  lemma FileFilterIsAllowList(file: ClientFile)
    ensures FileFilter(file) <==> MimeText(file.mediaType) in ExtMap
    ensures FileFilter(file) <==> MimeText(file.mediaType) in {"image/jpeg", "image/png", "image/webp"}
  {
  }

  /** No Object.prototype member name contains a slash, so no MIME type reaches an inherited member. */
  lemma SlashNamesNotInherited(m: string)
    requires '/' in m
    ensures m !in InheritedNames
  {
    if m in InheritedNames {
      var j :| 0 <= j < |m| && m[j] == '/';
      assert false;
    }
  }

  /** The allow-list is exactly jpeg, png and webp, with their extensions. */
  lemma ExtMapContents()
    ensures ExtMap.Keys == {"image/jpeg", "image/png", "image/webp"}
    ensures ExtMap["image/jpeg"] == ".jpg" && ExtMap["image/png"] == ".png" && ExtMap["image/webp"] == ".webp"
  {
  }

  /** Distinct MIME types get distinct extensions. */
  lemma ExtMapInjective(a: string, b: string)
    requires a in ExtMap && b in ExtMap && a != b
    ensures ExtMap[a] != ExtMap[b]
  {
  }

  predicate IsLowerHexDigit(c: char)
  {
    ('0' <= c <= '9') || ('a' <= c <= 'f')
  }

  /** The text of a version-4 UUID as `uuid.v4()` returns it: 36 characters of lower-case hex digits and dashes. */
  predicate IsUuidText(u: string)
  {
    |u| == 36 && forall i :: 0 <= i < |u| ==> IsLowerHexDigit(u[i]) || u[i] == '-'
  }

  type UuidText = u: string | IsUuidText(u)
    witness "00000000-0000-0000-0000-000000000000"

  /** The `destination` rule: the avatar sub-folder only for the exact value "avatar". */
  function Destination(folder: Option<string>): (dir: string)
    ensures dir == "public/img/avatar" <==> folder == Some("avatar")
    ensures dir == "public/img" <==> folder != Some("avatar")
  {
    var base := "public/img";
    if folder == Some("avatar") then base + "/" + folder.value else base
  }

  /** Every folder value other than "avatar", absent included, stores in the same directory. */
  lemma OtherFoldersIgnored(a: Option<string>, b: Option<string>)
    requires a != Some("avatar") && b != Some("avatar")
    ensures Destination(a) == Destination(b) == "public/img"
  {
  }

  /** The `filename` rule: the random id followed by the extension mapped from the MIME type. */
  function Filename(uuid: UuidText, file: ClientFile): (name: string)
    requires FileFilter(file)
    ensures |name| > 36 && name[..36] == uuid
    ensures MimeText(file.mediaType) in ExtMap && name[36..] == ExtMap[MimeText(file.mediaType)]
  {
    var ext := ExtMap[MimeText(file.mediaType)];
    assert (uuid + ext)[36..] == ext;
    uuid + ext
  }

  /** The client's original filename never influences the stored name. */
  lemma FilenameIgnoresOriginalName(uuid: UuidText, a: ClientFile, b: ClientFile)
    requires FileFilter(a) && a.mediaType == b.mediaType
    ensures FileFilter(b) && Filename(uuid, a) == Filename(uuid, b)
  {
  }

  /** Distinct random ids never give the same filename, whatever the two files are. */
  lemma FilenamesNeverCollide(u: UuidText, v: UuidText, a: ClientFile, b: ClientFile)
    requires FileFilter(a) && FileFilter(b) && u != v
    ensures Filename(u, a) != Filename(v, b)
  {
    assert Filename(u, a)[..36] != Filename(v, b)[..36];
  }

  /** A stored filename determines the MIME type it was accepted under. */
  lemma FilenameRecoversType(uuid: UuidText, a: ClientFile, b: ClientFile)
    requires FileFilter(a) && FileFilter(b)
    requires Filename(uuid, a) == Filename(uuid, b)
    ensures MimeText(a.mediaType) == MimeText(b.mediaType)
  {
    FileFilterIsAllowList(a);
    FileFilterIsAllowList(b);
    var ma, mb := MimeText(a.mediaType), MimeText(b.mediaType);
    assert Filename(uuid, a)[36..] == ExtMap[ma];
    assert Filename(uuid, b)[36..] == ExtMap[mb];
    if ma != mb {
      ExtMapInjective(ma, mb);
    }
  }

  /** Where multer puts an accepted file. */
  datatype StoredFile = StoredFile(directory: string, filename: string)

  /** `path.join(destination, filename)`; the generated name has no separators, so this is plain concatenation. */
  function StoredPath(f: StoredFile): string
  {
    f.directory + "/" + f.filename
  }

  /** The upload step: the file the request carries after multer, if any. */
  function Store(folder: Option<string>, file: Option<ClientFile>, uuid: UuidText): (r: Option<StoredFile>)
    ensures r.Some? <==> file.Some? && MimeText(file.value.mediaType) in ExtMap
    ensures r.Some? ==> r.value.directory in {"public/img", "public/img/avatar"}
    ensures r.Some? ==> (r.value.directory == "public/img/avatar" <==> folder == Some("avatar"))
    ensures r.Some? ==>
      && |r.value.filename| > 36 && r.value.filename[..36] == uuid
      && r.value.filename[36..] == ExtMap[MimeText(file.value.mediaType)]
  {
    match file
    case None => None
    case Some(f) =>
      if FileFilter(f) then Some(StoredFile(Destination(folder), Filename(uuid, f))) else None
  }
}
