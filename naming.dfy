/**
 * The file names and paths the web layer derives (app.py): timestamped
 * upload names and the display name recovered from them, the `db_path`
 * strings stored for commission images, and the entry paths and file name
 * of the references zip download.
 */
module Naming {
  import opened Options
  import opened Strings
  import opened Numerals
  import opened Dates
  import opened Records

  /** `f"{now.strftime('%Y%m%d%H%M%S')}_{name}"`: an upload name made unique by its timestamp. */
  function StampedName(now: Timestamp, name: string): (filename: string)
    ensures |filename| == 15 + |name| && filename[14] == '_'
    ensures AllDigits(filename[..14])
  {
    var stamp := FormatCompact(now);
    var filename := stamp + "_" + name;
    assert filename[..14] == stamp;
    filename
  }

  /**
   * `filename.split('_', 1)[1] if '_' in filename else filename`: what
   * follows the first underscore, or the whole name when there is none.
   */
  function DisplayName(filename: string): (name: string)
    ensures |name| <= |filename| && name == filename[|filename| - |name|..]
    ensures '_' !in filename ==> name == filename
    ensures '_' in filename ==> var cut := |filename| - |name| - 1;
      0 <= cut && filename[cut] == '_' && '_' !in filename[..cut]
  {
    match IndexOf(filename, '_')
    case None => filename
    case Some(k) => filename[k + 1..]
  }

  /** The display name of a timestamped upload name is the name that was stamped. */
  lemma DisplayNameOfStampedName(now: Timestamp, name: string)
    ensures DisplayName(StampedName(now, name)) == name
  {
    var stamp := FormatCompact(now);
    AllDigitsExclude(stamp, '_');
    IndexOfAppend(stamp, "_" + name, '_');
    assert StampedName(now, name) == stamp + ("_" + name);
  }

  /** A reference added without a name (app.py:234-235) is named after its stored file. */
  function NewReferenceName(given: Option<string>, filename: string): (name: string)
    ensures Truthy(given) ==> name == given.value
    ensures !Truthy(given) ==> name == DisplayName(filename)
  {
    if Truthy(given) then given.value else DisplayName(filename)
  }

  /** A reference uploaded at `now` without a name is named after the uploaded file itself. */
  lemma NewReferenceNameIsUploadName(now: Timestamp, upload: string)
    ensures NewReferenceName(None, StampedName(now, upload)) == upload
    ensures NewReferenceName(Some(""), StampedName(now, upload)) == upload
  {
    DisplayNameOfStampedName(now, upload);
  }

  /**
   * The edit route as written (app.py:276-278). The row it holds is the
   * `dict` that `convert_date_fields` builds (db.py:15, db.py:278), so
   * `reference.filename` is an attribute lookup that raises
   * `AttributeError`. `and` evaluates it only when the submitted name is
   * empty or missing: that request fails before `update_reference` is
   * called (`None` here), and any other keeps the name as given.
   */
  function EditedReferenceNameAsWritten(given: Option<string>, filename: Option<string>): (r: Option<Option<string>>)
    ensures r.None? <==> !Truthy(given)
    ensures r.Some? ==> r.value == given
  {
    if !Truthy(given) then None else Some(given)
  }

  /**
   * The name an edited reference is evidently meant to be saved with
   * (app.py:276-278, reading `reference['filename']`): an empty name is
   * replaced by the display name of the stored file, unless that file name
   * is itself empty or `NULL`, in which case the name stays as given.
   */
  function EditedReferenceName(given: Option<string>, filename: Option<string>): (name: Option<string>)
    ensures !Truthy(given) && Truthy(filename) ==> name == Some(DisplayName(filename.value))
    ensures Truthy(given) || !Truthy(filename) ==> name == given
    ensures Truthy(given) ==> Some(name) == EditedReferenceNameAsWritten(given, filename)
  {
    if !Truthy(given) && Truthy(filename) then Some(DisplayName(filename.value)) else given
  }

  /** An edited reference whose name is cleared is renamed after the file that was uploaded. */
  lemma EditedReferenceNameIsUploadName(now: Timestamp, upload: string)
    ensures EditedReferenceName(None, Some(StampedName(now, upload))) == Some(upload)
    ensures EditedReferenceName(Some(""), Some(StampedName(now, upload))) == Some(upload)
  {
    DisplayNameOfStampedName(now, upload);
  }

  /**
   * The two differ on every cleared name: as written the edit of any
   * stored upload fails, where the intended route saves the uploaded name.
   */
  lemma EditedReferenceNameAsWrittenFails(now: Timestamp, upload: string)
    ensures EditedReferenceNameAsWritten(None, Some(StampedName(now, upload))).None?
    ensures EditedReferenceNameAsWritten(Some(""), Some(StampedName(now, upload))).None?
    ensures EditedReferenceName(None, Some(StampedName(now, upload))) == Some(upload)
  {
    EditedReferenceNameIsUploadName(now, upload);
  }

  // ---------------------------------------------------------------------
  // Commission images

  /** `f"{stamp}_{position}_{name}"`, the stored name of a commission image. */
  function CommissionFileName(now: Timestamp, position: int, name: string): (filename: string)
    ensures |filename| > 15
  {
    StampedName(now, IntToString(position) + "_" + name)
  }

  /** The position is recoverable from a commission image name: it is the second `_`-separated field. */
  lemma CommissionFileNameFields(now: Timestamp, position: int, name: string)
    ensures var parts := Split(CommissionFileName(now, position, name), '_');
      |parts| >= 3 && parts[0] == FormatCompact(now) && ParseInt(parts[1]) == Some(position)
  {
    var stamp, pos := FormatCompact(now), IntToString(position);
    AllDigitsExclude(stamp, '_');
    IntToStringExclude(position, '_');
    assert CommissionFileName(now, position, name) == stamp + ['_'] + (pos + ['_'] + name);
    SplitAfter(stamp, pos + ['_'] + name, '_');
    SplitAfter(pos, name, '_');
    ParseIntOfIntToString(position);
  }

  /** `f"{commission_id}/original/{original_filename}"`. */
  function OriginalPath(commissionId: int, filename: string): string {
    SlashPath(IntToString(commissionId), "original", filename)
  }

  /** `f"{commission_id}/watermarked/{uuid}.jpg"`. */
  function WatermarkedPath(commissionId: int, uuid: string): string {
    SlashPath(IntToString(commissionId), "watermarked", uuid + ".jpg")
  }

  /** `f"{a}/{b}/{c}"`. */
  function SlashPath(a: string, b: string, c: string): string {
    a + "/" + b + "/" + c
  }

  /**
   * The `db_path` stored for a commission image (app.py:553-565): the
   * watermarked copy when watermarking was requested and succeeded, the
   * original otherwise.
   */
  function DbPath(commissionId: int, filename: string, watermark: bool, watermarked: bool, uuid: string): (path: string)
    ensures watermark && watermarked ==> path == WatermarkedPath(commissionId, uuid)
    ensures !(watermark && watermarked) ==> path == OriginalPath(commissionId, filename)
  {
    if watermark && watermarked then WatermarkedPath(commissionId, uuid) else OriginalPath(commissionId, filename)
  }

  lemma SplitThree(a: string, b: string, c: string)
    requires '/' !in a && '/' !in b && '/' !in c
    ensures Split(SlashPath(a, b, c), '/') == [a, b, c]
  {
    var rest := b + ['/'] + c;
    SlashPathSplits(a, b, c);
    SplitAfter(a, rest, '/');
    SplitAfter(b, c, '/');
    SplitNone(c, '/');
    assert [a] + ([b] + [c]) == [a, b, c];
  }

  lemma SlashPathSplits(a: string, b: string, c: string)
    ensures SlashPath(a, b, c) == a + ['/'] + (b + ['/'] + c)
  {
  }

  lemma OriginalPathFields(commissionId: int, filename: string)
    requires '/' !in filename
    ensures Split(OriginalPath(commissionId, filename), '/') == [IntToString(commissionId), "original", filename]
  {
    IntToStringExclude(commissionId, '/');
    SplitThree(IntToString(commissionId), "original", filename);
  }

  lemma WatermarkedPathFields(commissionId: int, uuid: string)
    requires '/' !in uuid
    ensures Split(WatermarkedPath(commissionId, uuid), '/') == [IntToString(commissionId), "watermarked", uuid + ".jpg"]
  {
    var file := uuid + ".jpg";
    IntToStringExclude(commissionId, '/');
    forall k | 0 <= k < |file| ensures file[k] != '/' {
      if k < |uuid| {
        assert file[k] == uuid[k];
      }
    }
    SplitThree(IntToString(commissionId), "watermarked", file);
  }

  /**
   * A stored path reads back as the commission id, the folder and the file
   * name, whenever the file name (a `secure_filename` result or a UUID) has
   * no slash.
   */
  lemma DbPathFields(commissionId: int, filename: string, watermark: bool, watermarked: bool, uuid: string)
    requires '/' !in filename && '/' !in uuid
    ensures var parts := Split(DbPath(commissionId, filename, watermark, watermarked, uuid), '/');
      && |parts| == 3
      && ParseInt(parts[0]) == Some(commissionId)
      && (watermark && watermarked ==> parts[1] == "watermarked" && parts[2] == uuid + ".jpg")
      && (!(watermark && watermarked) ==> parts[1] == "original" && parts[2] == filename)
  {
    var parts := Split(DbPath(commissionId, filename, watermark, watermarked, uuid), '/');
    var id := IntToString(commissionId);
    if watermark && watermarked {
      WatermarkedPathFields(commissionId, uuid);
      assert parts == [id, "watermarked", uuid + ".jpg"];
    } else {
      OriginalPathFields(commissionId, filename);
      assert parts == [id, "original", filename];
    }
    assert |parts| == 3 && parts[0] == id;
    ParseIntOfIntToString(commissionId);
  }

  // ---------------------------------------------------------------------
  // The references zip

  /** `f"{category}/{subcategory}/{filename}"`, where a reference goes inside the zip. */
  function ZipEntryPath(category: Value, subcategory: Value, filename: Value): string {
    SlashPath(PyStr(category), PyStr(subcategory), PyStr(filename))
  }

  /** Slash-free category, subcategory and file name read back from the entry path. */
  lemma ZipEntryPathFields(category: string, subcategory: string, filename: string)
    requires '/' !in category && '/' !in subcategory && '/' !in filename
    ensures Split(ZipEntryPath(Text(category), Text(subcategory), Text(filename)), '/')
      == [category, subcategory, filename]
  {
    SplitThree(category, subcategory, filename);
  }

  const ZipInfix: string := " References - "

  /**
   * The download name of the zip (app.py:881-886): the site title, then the
   * custom reference name when it is truthy, else today's date as `%Y-%m-%d`.
   */
  function ZipFileName(siteTitle: Option<string>, customRefName: Option<string>, today: Timestamp): (name: string)
    ensures var prefix := OptStr(siteTitle) + ZipInfix;
      && |name| > |prefix| + 4
      && name[..|prefix|] == prefix
      && name[|name| - 4..] == ".zip"
      && (Truthy(customRefName) ==> name[|prefix|..|name| - 4] == customRefName.value)
      && (!Truthy(customRefName) ==> ParseDate(name[|prefix|..|name| - 4]) == Some(Midnight(today)))
  {
    var prefix := OptStr(siteTitle) + ZipInfix;
    var middle := if Truthy(customRefName) then customRefName.value else FormatDate(today);
    var name := prefix + middle + ".zip";
    assert name[..|prefix|] == prefix;
    assert name[|name| - 4..] == ".zip";
    assert name[|prefix|..|name| - 4] == middle;
    ParseFormatDate(today);
    name
  }

  /** One file of the zip: where it is read from on disk and where it goes in the archive. */
  datatype ZipEntry = ZipEntry(diskPath: string, archivePath: string)

  const ReferencesFolder: string := "static/uploads/references"

  predicate HasZipColumns(r: Record) {
    "category" in r && "subcategory" in r && "filename" in r
  }

  /** Where a reference's file lies on disk. */
  function DiskPath(r: Record): string
    requires HasZipColumns(r)
  {
    ReferencesFolder + "/" + PyStr(r["filename"])
  }

  /** The zip entry written for a reference: its disk file under `category/subcategory/filename`. */
  function EntryOf(r: Record): ZipEntry
    requires HasZipColumns(r)
  {
    ZipEntry(DiskPath(r), ZipEntryPath(r["category"], r["subcategory"], r["filename"]))
  }

  /** The entries the zip holds: one per reference whose file is on disk, in the given order. */
  function ZipContents(references: seq<Record>, onDisk: string -> bool): seq<ZipEntry>
    requires forall k :: 0 <= k < |references| ==> HasZipColumns(references[k])
  {
    if references == [] then []
    else
      var r := references[|references| - 1];
      assert HasZipColumns(r);
      ZipContents(references[..|references| - 1], onDisk) + if onDisk(DiskPath(r)) then [EntryOf(r)] else []
  }

  lemma ZipContentsSnoc(references: seq<Record>, onDisk: string -> bool, k: nat)
    requires forall k :: 0 <= k < |references| ==> HasZipColumns(references[k])
    requires k < |references|
    ensures HasZipColumns(references[k])
    ensures ZipContents(references[..k + 1], onDisk)
      == ZipContents(references[..k], onDisk) + if onDisk(DiskPath(references[k])) then [EntryOf(references[k])] else []
  {
    assert references[..k + 1][..k] == references[..k];
  }

  lemma ZipContentsLast(references: seq<Record>, onDisk: string -> bool)
    requires forall k :: 0 <= k < |references| ==> HasZipColumns(references[k])
    requires |references| > 0 && onDisk(DiskPath(references[|references| - 1]))
    ensures EntryOf(references[|references| - 1]) in ZipContents(references, onDisk)
  {
    var n := |references| - 1;
    ZipContentsSnoc(references, onDisk, n);
    assert references[..n + 1] == references;
  }

  /** Every reference whose file is on disk has its entry in the zip. */
  lemma {:induction false} ZipContentsHas(references: seq<Record>, onDisk: string -> bool, k: nat)
    requires forall k :: 0 <= k < |references| ==> HasZipColumns(references[k])
    requires k < |references| && onDisk(DiskPath(references[k]))
    ensures EntryOf(references[k]) in ZipContents(references, onDisk)
  {
    var n := |references| - 1;
    if k == n {
      ZipContentsLast(references, onDisk);
    } else {
      ZipContentsSnoc(references, onDisk, n);
      assert references[..n + 1] == references;
      assert references[..n][k] == references[k];
      ZipContentsHas(references[..n], onDisk, k);
    }
  }

  /**
   * The loop that fills the zip (app.py:860-873): every reference whose
   * file exists is written under `category/subcategory/filename`.
   */
  method WriteZip(references: seq<Record>, onDisk: string -> bool) returns (entries: seq<ZipEntry>)
    requires forall k :: 0 <= k < |references| ==> HasZipColumns(references[k])
    ensures entries == ZipContents(references, onDisk)
    ensures |entries| <= |references|
    ensures forall e :: e in entries ==> onDisk(e.diskPath)
    ensures forall k :: 0 <= k < |references| && onDisk(DiskPath(references[k])) ==> EntryOf(references[k]) in entries
  {
    entries := [];
    for k := 0 to |references|
      invariant entries == ZipContents(references[..k], onDisk)
      invariant |entries| <= k
      invariant forall e :: e in entries ==> onDisk(e.diskPath)
    {
      var r := references[k];
      var diskPath := DiskPath(r);
      ZipContentsSnoc(references, onDisk, k);
      if onDisk(diskPath) {
        entries := entries + [EntryOf(r)];
      }
    }
    assert references[..|references|] == references;
    forall k | 0 <= k < |references| && onDisk(DiskPath(references[k])) ensures EntryOf(references[k]) in entries {
      ZipContentsHas(references, onDisk, k);
    }
  }
}
