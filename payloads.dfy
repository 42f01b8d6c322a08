/**
 * The request bodies the post endpoints accept, and what the request
 * validator demands of them, as predicates.
 */
module Payloads {
  import opened Errors
  import opened Schema

  /** "6m": six mebibytes. */
  const MaxImageBytes: nat := 6 * 1024 * 1024

  const AllowedImageTypes: set<string> := {"image/jpeg", "image/png", "image/webp"}

  /** An uploaded file; its bytes are not modelled, only its declared type and size. */
  datatype UploadFile = UploadFile(mimeType: string, size: nat)

  /** The body of an upload. `images` is `image_url` of the request. */
  datatype UploadPayload = UploadPayload(
    title: string,
    deskripsi: string,
    userId: Option<string>,
    images: Option<seq<UploadFile>>,
    location: Option<string>,
    latitude: Option<string>,
    longitude: Option<string>,
    archive: Option<string>)

  /** The body of an edit: the upload body with every field optional. */
  datatype UpdatePayload = UpdatePayload(
    title: Option<string>,
    deskripsi: Option<string>,
    userId: Option<string>,
    images: Option<seq<UploadFile>>,
    location: Option<string>,
    latitude: Option<string>,
    longitude: Option<string>,
    archive: Option<string>)

  datatype CommentPayload = CommentPayload(postId: Id, parentId: Option<Id>, comment: string)

  predicate ValidFile(f: UploadFile) {
    f.mimeType in AllowedImageTypes && f.size <= MaxImageBytes
  }

  predicate ValidFiles(files: seq<UploadFile>) {
    forall i :: 0 <= i < |files| ==> ValidFile(files[i])
  }

  predicate ValidUpload(p: UploadPayload) {
    |p.title| >= 1 && p.images.Some? && ValidFiles(p.images.value)
  }

  /** Every field may be absent; a present field obeys the upload rule for it. */
  predicate ValidUpdate(p: UpdatePayload) {
    && (p.title.Some? ==> |p.title.value| >= 1)
    && (p.images.Some? ==> ValidFiles(p.images.value))
  }

  predicate ValidComment(p: CommentPayload) {
    |p.comment| >= 1
  }

  /** An upload body read as an edit body: every field present. */
  function AsUpdate(p: UploadPayload): UpdatePayload {
    UpdatePayload(Some(p.title), Some(p.deskripsi), p.userId, p.images,
                  p.location, p.latitude, p.longitude, p.archive)
  }

  /** The edit body that changes nothing. */
  const EmptyUpdate: UpdatePayload :=
    UpdatePayload(None, None, None, None, None, None, None, None)

  /** The edit body is the partial of the upload body: a valid upload is a valid edit, and so is the empty edit. */
  lemma UpdateIsPartialOfUpload(p: UploadPayload)
    ensures ValidUpload(p) ==> ValidUpdate(AsUpdate(p))
    ensures ValidUpdate(EmptyUpdate)
  {
  }

  /** `archive` arrives as text in uploads and edits; only the exact string "true" means archived. */
  function ArchiveFlag(archive: Option<string>): (b: bool)
    ensures b ==> archive.Some?
    ensures archive == Some("true") ==> b
    ensures archive.Some? && archive.value != "true" ==> !b
  {
    archive == Some("true")
  }

  /** The text after the first '/', if there is one. */
  function AfterSlash(s: string): Option<string> {
    if s == [] then None
    else if s[0] == '/' then Some(s[1..])
    else AfterSlash(s[1..])
  }

  /** The text up to the first '/'. */
  function UpToSlash(s: string): (r: string)
    ensures '/' !in r
    ensures r <= s
    ensures r == s || (|r| < |s| && s[|r|] == '/')
  {
    if s == [] || s[0] == '/' then [] else [s[0]] + UpToSlash(s[1..])
  }

  /**
   * `file.type.split("/")[1]`: the second '/'-separated field of the
   * content type, or "undefined" (the text a missing field prints as) when there is none.
   */
  function Extension(mimeType: string): (ext: string)
    ensures '/' !in ext
  {
    match AfterSlash(mimeType)
    case None => "undefined"
    case Some(rest) => UpToSlash(rest)
  }

  lemma {:induction false} AfterSlashSkipsPrefix(prefix: string, rest: string)
    requires '/' !in prefix
    ensures AfterSlash(prefix + "/" + rest) == Some(rest)
  {
    if prefix != [] {
      assert (prefix + "/" + rest)[1..] == prefix[1..] + "/" + rest;
      AfterSlashSkipsPrefix(prefix[1..], rest);
    }
  }

  lemma {:induction false} UpToSlashWithoutSlash(s: string)
    requires '/' !in s
    ensures UpToSlash(s) == s
  {
    if s != [] {
      UpToSlashWithoutSlash(s[1..]);
    }
  }

  /** A content type `<kind>/<subtype>` gives the extension `<subtype>`. */
  lemma ExtensionOfSubtype(kind: string, subtype: string)
    requires '/' !in kind && '/' !in subtype
    ensures Extension(kind + "/" + subtype) == subtype
  {
    AfterSlashSkipsPrefix(kind, subtype);
    UpToSlashWithoutSlash(subtype);
  }

  /** A file that passes validation is stored as .jpeg, .png or .webp. */
  lemma ValidFileExtension(f: UploadFile)
    requires ValidFile(f)
    ensures Extension(f.mimeType) in {"jpeg", "png", "webp"}
  {
    if f.mimeType == "image/jpeg" {
      assert f.mimeType == "image" + "/" + "jpeg";
      ExtensionOfSubtype("image", "jpeg");
    } else if f.mimeType == "image/png" {
      assert f.mimeType == "image" + "/" + "png";
      ExtensionOfSubtype("image", "png");
    } else {
      assert f.mimeType == "image" + "/" + "webp";
      ExtensionOfSubtype("image", "webp");
    }
  }
}
