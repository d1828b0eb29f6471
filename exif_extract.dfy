/**
 * Locating the capture timestamp in an image's metadata. The file extension
 * selects one of two encodings: a JPEG tag table, read entry by entry, or a
 * HEIF embedded EXIF blob, parsed and queried for one field. Every failure
 * along either path means "no timestamp".
 */
module ExifExtract {

  import opened Wrappers
  import Text
  import ExifDate

  /** EXIF 2.3 tag DateTimeOriginal; it is the only id the tag-name table names "DateTimeOriginal". */
  const DateTimeOriginalTag: int := 0x9003

  /** The two metadata encodings, chosen once from the file extension. */
  datatype MetadataKind = TagTable | EmbeddedBlob

  /** A value in the JPEG tag table: text, or anything else (bytes, numbers, tuples). */
  datatype TagValue = TextValue(text: string) | OtherValue

  /** One (tag id, value) item of the JPEG tag table, in the table's order. */
  datatype TagEntry = TagEntry(id: int, value: TagValue)

  /** The DateTimeOriginal field of a parsed HEIF blob: raw bytes that do or do not decode as text. */
  datatype RawField = Decodable(text: string) | Undecodable

  /** What reading the HEIF container's EXIF blob yields. */
  datatype BlobRead = NoBlob | Unparsable | Parsed(dateTimeOriginal: Option<RawField>)

  /**
   * The metadata of a decoded image as the two paths see it. `tagTable` is
   * None when the image has no tag table, when it is empty or when reading it
   * raised.
   */
  datatype ImageMetadata = ImageMetadata(tagTable: Option<seq<TagEntry>>, blob: BlobRead)

  /**
   * The lower-cased text after the last '.' of the path (the whole path when
   * it has none): a dot-free suffix, lower-cased, that starts at the path's
   * beginning or right after a dot.
   */
  function Extension(path: string): (ext: string)
    ensures |ext| <= |path|
    ensures ext == Text.Lower(path[|path| - |ext|..])
    ensures '.' !in ext
    ensures |ext| == |path| || path[|path| - |ext| - 1] == '.'
  {
    var low := Text.Lower(path);
    Text.LastPieceAfterLastSep(low, '.');
    var ext := Text.Last(Text.Split(low, '.'));
    assert Text.Lower(path[|path| - |ext|..]) == low[|path| - |ext|..];
    ext
  }

  /** The encoding to consult: jpg/jpeg read the tag table, heic/heif the blob, anything else nothing. */
  function KindOf(path: string): (k: Option<MetadataKind>)
    ensures k == Some(TagTable) <==> Extension(path) in {"jpg", "jpeg"}
    ensures k == Some(EmbeddedBlob) <==> Extension(path) in {"heic", "heif"}
  {
    var ext := Extension(path);
    if ext == "jpg" || ext == "jpeg" then Some(TagTable)
    else if ext == "heic" || ext == "heif" then Some(EmbeddedBlob)
    else None
  }

  /** The timestamp a DateTimeOriginal value yields: replacing on a non-text value raises and is swallowed. */
  function DateOfValue(v: TagValue): Option<string>
  {
    match v
    case TextValue(t) => Some(ExifDate.NormaliseDate(t))
    case OtherValue => None
  }

  /** `k` is the first entry of the table carrying DateTimeOriginal. */
  predicate FirstDateEntry(entries: seq<TagEntry>, k: int)
  {
    0 <= k < |entries| && entries[k].id == DateTimeOriginalTag &&
    forall j :: 0 <= j < k ==> entries[j].id != DateTimeOriginalTag
  }

  /** The outcome of scanning the tag table, stopping at the first DateTimeOriginal entry. */
  function TableDate(entries: seq<TagEntry>): Option<string>
    decreases |entries|
  {
    if entries == [] then None
    else if entries[0].id == DateTimeOriginalTag then DateOfValue(entries[0].value)
    else TableDate(entries[1..])
  }

  /** The scan answers from the first DateTimeOriginal entry; later entries are never looked at. */
  lemma {:induction false} TableDateFirst(entries: seq<TagEntry>, k: int)
    requires FirstDateEntry(entries, k)
    ensures TableDate(entries) == DateOfValue(entries[k].value)
    decreases |entries|
  {
    if k > 0 {
      TableDateFirst(entries[1..], k - 1);
    }
  }

  /** A table without DateTimeOriginal yields no timestamp. */
  lemma {:induction false} TableDateAbsent(entries: seq<TagEntry>)
    requires forall k :: 0 <= k < |entries| ==> entries[k].id != DateTimeOriginalTag
    ensures TableDate(entries) == None
    decreases |entries|
  {
    if entries != [] {
      TableDateAbsent(entries[1..]);
    }
  }

  /** The loop over the tag table's items, returning as soon as DateTimeOriginal is met. */
  method ScanTagTable(entries: seq<TagEntry>) returns (r: Option<string>)
    ensures r == TableDate(entries)
  {
    var i := 0;
    while i < |entries|
      invariant 0 <= i <= |entries|
      invariant TableDate(entries[i..]) == TableDate(entries)
    {
      assert entries[i..][1..] == entries[i + 1..];
      if entries[i].id == DateTimeOriginalTag {
        match entries[i].value {
          case TextValue(t) =>
            return Some(ExifDate.NormaliseDate(t));
          case OtherValue =>
            // the replacement raises; the handler reports it and the function returns None
            return None;
        }
      }
      i := i + 1;
    }
    return None;
  }

  /** The HEIF path: an absent or unparsable blob, a missing, empty or undecodable field all give None. */
  function BlobDate(blob: BlobRead): (r: Option<string>)
    ensures r.Some? <==> blob.Parsed? && blob.dateTimeOriginal.Some? &&
                         blob.dateTimeOriginal.value.Decodable? && blob.dateTimeOriginal.value.text != ""
    ensures r.Some? ==> r.value == ExifDate.NormaliseDate(blob.dateTimeOriginal.value.text)
  {
    match blob
    case NoBlob => None
    case Unparsable => None
    case Parsed(field) =>
      match field
      case None => None
      case Some(Undecodable) => None
      case Some(Decodable(t)) => if t == "" then None else Some(ExifDate.NormaliseDate(t))
  }

  /**
   * The specification of the extractor as a whole: only a recognised
   * extension can yield a timestamp, and the tag table and the blob are each
   * consulted only for their own extensions.
   */
  function ExifDatetime(image: ImageMetadata, path: string): (r: Option<string>)
    ensures KindOf(path).None? ==> r.None?
    ensures KindOf(path) == Some(TagTable) && image.tagTable.None? ==> r.None?
    ensures KindOf(path) == Some(EmbeddedBlob) ==> r == BlobDate(image.blob)
  {
    match KindOf(path)
    case None => None
    case Some(TagTable) => if image.tagTable.None? then None else TableDate(image.tagTable.value)
    case Some(EmbeddedBlob) => BlobDate(image.blob)
  }

  /**
   * The extractor as the program runs it: the same dispatch as ExifDatetime,
   * here so that the tag table is read by the scanning loop ScanTagTable
   * rather than by its specification TableDate.
   */
  method GetExifDatetime(image: ImageMetadata, path: string) returns (r: Option<string>)
    ensures r == ExifDatetime(image, path)
  {
    var kind := KindOf(path);
    match kind {
      case None =>
        r := None;
      case Some(TagTable) =>
        if image.tagTable.None? {
          r := None;
        } else {
          r := ScanTagTable(image.tagTable.value);
        }
      case Some(EmbeddedBlob) =>
        r := BlobDate(image.blob);
    }
  }

  /** An extension other than jpg, jpeg, heic and heif never yields a timestamp, whatever the metadata. */
  lemma UnknownExtensionGivesNone(image: ImageMetadata, path: string)
    requires Extension(path) !in {"jpg", "jpeg", "heic", "heif"}
    ensures ExifDatetime(image, path) == None
  {
  }

  /**
   * A JPEG whose first DateTimeOriginal entry holds text yields that text
   * normalised; the HEIF blob plays no part. A well-formed EXIF date comes
   * out in canonical form.
   */
  lemma JpegDate(image: ImageMetadata, path: string, k: int)
    requires Extension(path) in {"jpg", "jpeg"}
    requires image.tagTable.Some? && FirstDateEntry(image.tagTable.value, k)
    requires image.tagTable.value[k].value.TextValue?
    ensures ExifDatetime(image, path) == Some(ExifDate.NormaliseDate(image.tagTable.value[k].value.text))
    ensures ExifDate.HasShape(image.tagTable.value[k].value.text, ExifDate.ExifShape) ==>
      ExifDate.HasShape(ExifDatetime(image, path).value, ExifDate.CanonicalShape)
  {
    TableDateFirst(image.tagTable.value, k);
    var raw := image.tagTable.value[k].value.text;
    if ExifDate.HasShape(raw, ExifDate.ExifShape) {
      ExifDate.ExifDateBecomesCanonical(raw);
    }
  }

  /** A JPEG with no tag table, or none carrying DateTimeOriginal, yields no timestamp. */
  lemma JpegNoDate(image: ImageMetadata, path: string)
    requires Extension(path) in {"jpg", "jpeg"}
    requires image.tagTable.Some? ==>
      forall k :: 0 <= k < |image.tagTable.value| ==> image.tagTable.value[k].id != DateTimeOriginalTag
    ensures ExifDatetime(image, path) == None
  {
    if image.tagTable.Some? {
      TableDateAbsent(image.tagTable.value);
    }
  }

  /** A HEIF image whose blob lacks the capture-time field yields no timestamp, not an error. */
  lemma HeifNoDate(image: ImageMetadata, path: string)
    requires Extension(path) in {"heic", "heif"}
    requires image.blob.Parsed? && image.blob.dateTimeOriginal.None?
    ensures ExifDatetime(image, path) == None
  {
  }
}
