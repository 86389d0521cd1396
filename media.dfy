/**
 * The media controller over a standalone Media table: upload validation and the row an
 * upload inserts, the filtered and paged listing, and the edits of the two free-text
 * fields.  Writing and deleting the physical file under `wwwroot/uploads` is not modelled;
 * only the name the file is stored under is.
 */
module MediaLibrary {
  import opened Common
  import opened Seqs
  import opened Sorting
  import Auth

  datatype Media = Media(
    id: Guid,
    fileName: string,
    filePath: string,
    fileType: string,
    fileSize: nat,
    altText: Option<string>,
    description: Option<string>,
    uploadedById: Guid,
    uploadedAt: Time)

  function MediaId(m: Media): Guid { m.id }

  /** The multipart file part of an upload: the client's file name, its content type and length. */
  datatype FormFile = FormFile(fileName: string, contentType: string, length: nat)

  datatype UploadRef = UploadRef(id: Guid, fileName: string, filePath: string, fileType: string, fileSize: nat)
  datatype MediaEdit = MediaEdit(id: Guid, altText: Option<string>, description: Option<string>)
  datatype MediaView = MediaView(
    id: Guid, fileName: string, filePath: string, fileType: string, fileSize: nat,
    altText: Option<string>, description: Option<string>, uploadedBy: string, uploadedAt: Time)
  datatype MediaPage = MediaPage(media: seq<MediaView>, total: nat, page: int, pageSize: int, totalPages: int)

  /** 10 MB, the largest accepted upload. */
  const MaxFileSize: nat := 10 * 1024 * 1024

  const AllowedTypes: seq<string> :=
    ["image/jpeg", "image/png", "image/gif", "image/webp", "video/mp4", "application/pdf"]

  const NoFile: string := "No file uploaded"
  const TooLarge: string := "File size exceeds 10MB limit"
  const TypeRefused: string := "File type not allowed"

  /**
   * The checks `Upload` makes before it writes anything, in the order it makes them:
   * a missing or empty file, then the size, then the content type, then the caller's
   * claim.  None means the upload goes ahead.
   */
  function Rejection(file: Option<FormFile>, caller: Option<Guid>): (r: Option<Response<UploadRef>>)
    ensures r.None? <==>
              file.Some? && 0 < file.value.length <= MaxFileSize && file.value.contentType in AllowedTypes
              && caller.Some?
    ensures r == Some(BadRequest(NoFile)) <==> file.None? || file.value.length == 0
    ensures r == Some(BadRequest(TooLarge)) <==> file.Some? && file.value.length > MaxFileSize
    ensures r == Some(BadRequest(TypeRefused)) <==>
              file.Some? && 0 < file.value.length <= MaxFileSize && file.value.contentType !in AllowedTypes
    ensures r == Some(Unauthorized) <==>
              file.Some? && 0 < file.value.length <= MaxFileSize && file.value.contentType in AllowedTypes
              && caller.None?
  {
    if file.None? || file.value.length == 0 then Some(BadRequest(NoFile))
    else if file.value.length > MaxFileSize then Some(BadRequest(TooLarge))
    else if file.value.contentType !in AllowedTypes then Some(BadRequest(TypeRefused))
    else if caller.None? then Some(Unauthorized)
    else None
  }

  /** The size check is strict: a file of exactly 10 MB is accepted. */
  lemma ExactLimitAccepted(name: string, caller: Guid)
    ensures Rejection(Some(FormFile(name, "image/png", MaxFileSize)), Some(caller)).None?
    ensures Rejection(Some(FormFile(name, "image/png", MaxFileSize + 1)), Some(caller)) == Some(BadRequest(TooLarge))
  {
  }

  /** `Path.GetFileName` under '/' separators: what follows the last '/'. */
  function BaseName(path: string): (r: string)
    ensures '/' !in r
    ensures |r| <= |path| && r == path[|path| - |r|..]
    ensures |r| < |path| ==> path[|path| - |r| - 1] == '/'
  {
    if path == [] || path[|path| - 1] == '/' then []
    else
      var r := BaseName(path[..|path| - 1]);
      assert '/' !in r + [path[|path| - 1]];
      r + [path[|path| - 1]]
  }

  lemma {:induction false} BaseNameAfterSlash(dir: string, name: string)
    requires '/' !in name
    ensures BaseName(dir + "/" + name) == name
    decreases |name|
  {
    if name == [] {
      assert dir + "/" + name == dir + "/";
    } else {
      var m := |name| - 1;
      assert (dir + "/" + name)[..|dir + "/" + name| - 1] == dir + "/" + name[..m];
      assert name[m] in name;
      assert '/' !in name[..m] by {
        forall j | 0 <= j < m ensures name[..m][j] != '/' {
          assert name[..m][j] == name[j];
        }
      }
      BaseNameAfterSlash(dir, name[..m]);
      assert name == name[..m] + [name[m]];
    }
  }

  /** `{Guid.NewGuid()}_{Path.GetFileName(file.FileName)}`; `guidText` is the new Guid's text. */
  /**
   * The client's file name cannot add a directory to the stored path: every '/' comes
   * from the Guid's text, and a name without '/' is kept whole after the prefix.
   */
  function StoredName(guidText: string, fileName: string): (r: string)
    ensures StartsWith(r, guidText + "_")
    ensures '/' in r ==> '/' in guidText
    ensures '/' !in fileName ==> r == guidText + "_" + fileName
  {
    var b := BaseName(fileName);
    var r := guidText + "_" + b;
    assert r[..|guidText| + 1] == guidText + "_";
    assert forall c :: c in r ==> c in guidText || c == '_' || c in b;
    r
  }

  const UploadDirectory: string := "/uploads"

  /** The row an accepted upload inserts. */
  function UploadedRow(file: FormFile, guidText: string, newId: Guid, altText: Option<string>,
                       description: Option<string>, caller: Guid, now: Time): (m: Media)
    ensures m.id == newId && m.fileName == file.fileName
    ensures m.filePath == UploadDirectory + "/" + StoredName(guidText, file.fileName)
    ensures m.fileType == file.contentType && m.fileSize == file.length
    ensures m.altText == altText && m.description == description
    ensures m.uploadedById == caller && m.uploadedAt == now
  {
    Media(newId, file.fileName, UploadDirectory + "/" + StoredName(guidText, file.fileName),
          file.contentType, file.length, altText, description, caller, now)
  }

  /**
   * The file name `Delete` computes from a row's path is the one `Upload` stored it
   * under, whatever directories the client's file name carried.
   */
  lemma DeleteFindsStoredFile(file: FormFile, guidText: string, newId: Guid, altText: Option<string>,
                              description: Option<string>, caller: Guid, now: Time)
    requires '/' !in guidText
    ensures BaseName(UploadedRow(file, guidText, newId, altText, description, caller, now).filePath)
            == StoredName(guidText, file.fileName)
  {
    var stored := StoredName(guidText, file.fileName);
    assert '/' !in stored by {
      var b := BaseName(file.fileName);
      forall j | 0 <= j < |stored| ensures stored[j] != '/' {
        if j < |guidText| {
          assert stored[j] == guidText[j];
          assert guidText[j] in guidText;
        } else if j > |guidText| {
          assert stored[j] == b[j - |guidText| - 1];
          assert b[j - |guidText| - 1] in b;
        }
      }
    }
    BaseNameAfterSlash(UploadDirectory, stored);
  }

  /** The `type` filter: `FileType.StartsWith(type)` when `type` is non-empty, all rows otherwise. */
  function Filtered(media: seq<Media>, fileType: Option<string>): (r: seq<Media>)
    ensures forall m :: m in r <==>
              m in media && (fileType.None? || fileType.value == [] || StartsWith(m.fileType, fileType.value))
  {
    if fileType.Some? && fileType.value != [] then Filter(media, (m: Media) => StartsWith(m.fileType, fileType.value))
    else media
  }

  /** Newest upload first. */
  predicate UploadedDesc(a: Media, b: Media) { a.uploadedAt >= b.uploadedAt }

  lemma UploadedDescTotal()
    ensures Total(UploadedDesc)
  {
  }

  /** The filtered rows in `OrderByDescending(m => m.UploadedAt)` order: the same rows, sorted. */
  function Ordered(media: seq<Media>, fileType: Option<string>): (r: seq<Media>)
    ensures multiset(r) == multiset(Filtered(media, fileType))
    ensures |r| == |Filtered(media, fileType)|
    ensures forall k :: 0 <= k < |r| ==> r[k] in media
    ensures forall k, j :: 0 <= k < j < |r| ==> r[k].uploadedAt >= r[j].uploadedAt
  {
    UploadedDescTotal();
    SortSameRows(Filtered(media, fileType), UploadedDesc);
    Sort(Filtered(media, fileType), UploadedDesc)
  }

  /** The offset of a page: `(page - 1) * pageSize`. */
  function Offset(page: int, pageSize: nat): (n: nat)
    requires page >= 1
    ensures page == 1 ==> n == 0
    ensures pageSize > 0 ==> n % pageSize == 0 && n / pageSize == page - 1
  {
    WholePages(page - 1, pageSize);
    (page - 1) * pageSize
  }

  /** A whole number of pages divides evenly by the page size. */
  lemma WholePages(a: nat, b: nat)
    ensures b > 0 ==> (a * b) % b == 0 && (a * b) / b == a
  {
    if b > 0 {
      var q, r := (a * b) / b, (a * b) % b;
      assert a * b == q * b + r && 0 <= r < b;
      if a > q {
        assert (a - q) * b == a * b - q * b;
        AtLeastOnce(a - q, b);
      } else if a < q {
        assert (q - a) * b == q * b - a * b;
        AtLeastOnce(q - a, b);
      }
    }
  }

  lemma {:induction false} AtLeastOnce(k: nat, b: nat)
    requires k >= 1
    ensures k * b >= b
    decreases k
  {
    if k > 1 {
      AtLeastOnce(k - 1, b);
      assert k * b == (k - 1) * b + b;
    }
  }

  /** `(int)Math.Ceiling(n / (double)d)`; for operands that fit in an int the double quotient is exact enough. */
  function CeilDiv(n: nat, d: nat): (q: nat)
    requires d > 0
    ensures q * d >= n
    ensures q == 0 || (q - 1) * d < n
  {
    var q := (n + d - 1) / d;
    assert q * d <= n + d - 1 < q * d + d;
    q
  }

  /** The users table must hold every uploader: `UploadedBy` is a required navigation. */
  ghost predicate UploadersKnown(media: seq<Media>, users: seq<Auth.User>) {
    forall m :: m in media ==> m.uploadedById in Keys(users, Auth.UserId)
  }

  /**
   * The rows of one page, `Skip((page - 1) * pageSize).Take(pageSize)` of the ordered
   * rows: at most `pageSize` of them, newest first, from the page's offset on.
   */
  function Page(media: seq<Media>, fileType: Option<string>, page: int, pageSize: nat): (r: seq<Media>)
    requires page >= 1
    ensures var total, offset := |Filtered(media, fileType)|, Offset(page, pageSize);
            |r| == if offset >= total then 0 else if total - offset < pageSize then total - offset else pageSize
    ensures forall k :: 0 <= k < |r| ==> r[k] == Ordered(media, fileType)[Offset(page, pageSize) + k]
    ensures forall m :: m in r ==> m in media
    ensures forall k, j :: 0 <= k < j < |r| ==> r[k].uploadedAt >= r[j].uploadedAt
  {
    var ordered := Ordered(media, fileType);
    var r := Take(Skip(ordered, Offset(page, pageSize)), pageSize);
    assert forall k :: 0 <= k < |r| ==> r[k] == ordered[Offset(page, pageSize) + k];
    r
  }

  function ViewOf(m: Media, users: seq<Auth.User>): (v: MediaView)
    requires m.uploadedById in Keys(users, Auth.UserId)
    ensures v.id == m.id && v.fileName == m.fileName && v.filePath == m.filePath
    ensures v.fileType == m.fileType && v.fileSize == m.fileSize
    ensures v.altText == m.altText && v.description == m.description && v.uploadedAt == m.uploadedAt
    ensures exists i :: 0 <= i < |users| && users[i].id == m.uploadedById && users[i].username == v.uploadedBy
  {
    MediaView(m.id, m.fileName, m.filePath, m.fileType, m.fileSize, m.altText, m.description,
              Auth.UsernameOf(users, m.uploadedById), m.uploadedAt)
  }

  function ViewOfRow(users: seq<Auth.User>): Media --> MediaView {
    (m: Media) requires m.uploadedById in Keys(users, Auth.UserId) => ViewOf(m, users)
  }

  class MediaController {
    var media: seq<Media>

    ghost predicate Valid()
      reads this
    {
      UniqueBy(media, MediaId)
    }

    constructor (media: seq<Media>)
      requires UniqueBy(media, MediaId)
      ensures Valid() && this.media == media
    {
      this.media := media;
    }

    /**
     * `GetAll`: `total` counts the filtered rows before paging; the page is the run of at
     * most `pageSize` rows from offset `(page - 1) * pageSize` of the newest-first order.
     */
    function GetAll(users: seq<Auth.User>, fileType: Option<string>, page: int, pageSize: int): (r: MediaPage)
      reads this
      requires page >= 1 && pageSize >= 1 && Offset(page, pageSize) < 0x8000_0000
      requires UploadersKnown(media, users)
      ensures r.total == |Filtered(media, fileType)|
      ensures r.page == page && r.pageSize == pageSize
      ensures r.totalPages == CeilDiv(r.total, pageSize)
      ensures |r.media| == |Page(media, fileType, page, pageSize)| <= pageSize
      ensures forall k :: 0 <= k < |r.media| ==> r.media[k] == ViewOf(Page(media, fileType, page, pageSize)[k], users)
      ensures forall k, j :: 0 <= k < j < |r.media| ==> r.media[k].uploadedAt >= r.media[j].uploadedAt
    {
      var rows := Page(media, fileType, page, pageSize);
      var views := Map(rows, ViewOfRow(users));
      assert forall k :: 0 <= k < |views| ==> views[k] == ViewOf(rows[k], users);
      var total := |Filtered(media, fileType)|;
      MediaPage(views, total, page, pageSize, CeilDiv(total, pageSize))
    }

    /**
     * `Upload`: a rejected upload changes nothing; an accepted one appends exactly the
     * row built from the file, the caller and `now`, and echoes its file fields.
     */
    method Upload(file: Option<FormFile>, altText: Option<string>, description: Option<string>,
                  caller: Option<Guid>, guidText: string, newId: Guid, now: Time)
      returns (r: Response<UploadRef>)
      requires Valid() && newId !in Keys(media, MediaId)
      modifies this`media
      ensures Valid()
      ensures Rejection(file, caller).Some? ==> r == Rejection(file, caller).value && media == old(media)
      ensures Rejection(file, caller).None? ==>
                var row := UploadedRow(file.value, guidText, newId, altText, description, caller.value, now);
                && media == old(media) + [row]
                && r == Created(UploadRef(newId, row.fileName, row.filePath, row.fileType, row.fileSize))
    {
      var rejection := Rejection(file, caller);
      if rejection.Some? {
        return rejection.value;
      }
      var row := UploadedRow(file.value, guidText, newId, altText, description, caller.value, now);
      AppendKeepsUnique(media, MediaId, row);
      media := media + [row];
      r := Created(UploadRef(row.id, row.fileName, row.filePath, row.fileType, row.fileSize));
    }

    /** NotFound for a missing id; otherwise only AltText and Description of that row change. */
    method Update(id: Guid, altText: Option<string>, description: Option<string>) returns (r: Response<MediaEdit>)
      requires Valid()
      modifies this`media
      ensures Valid()
      ensures r.NotFound? <==> id !in Keys(old(media), MediaId)
      ensures match FindKey(old(media), MediaId, id)
              case None => media == old(media)
              case Some(i) =>
                && media == old(media)[i := old(media)[i].(altText := altText, description := description)]
                && r == Ok(MediaEdit(id, altText, description))
    {
      var i := FindKey(media, MediaId, id);
      if i.None? {
        return NotFound;
      }
      var row := media[i.value].(altText := altText, description := description);
      UpdateKeepsUnique(media, MediaId, i.value, row);
      media := media[i.value := row];
      r := Ok(MediaEdit(row.id, row.altText, row.description));
    }

    /** NotFound for a missing id; otherwise exactly that row is removed. */
    method Delete(id: Guid) returns (r: Response<MediaEdit>)
      requires Valid()
      modifies this`media
      ensures Valid()
      ensures r.NotFound? <==> id !in Keys(old(media), MediaId)
      ensures r.NotFound? || r.NoContent?
      ensures r.NotFound? ==> media == old(media)
      ensures match FindKey(old(media), MediaId, id)
              case None => true
              case Some(i) => media == old(media)[..i] + old(media)[i + 1..]
      ensures id !in Keys(media, MediaId)
    {
      var i := FindKey(media, MediaId, id);
      if i.None? {
        return NotFound;
      }
      WithoutUniqueKey(media, MediaId, i.value);
      WithoutKeepsUnique(media, MediaId, id, MediaId);
      KeysWithout(media, MediaId, id);
      media := Without(media, MediaId, id);
      r := NoContent;
    }
  }

  /** Page `p` of `total` rows starts inside them exactly when `p` is at most the page count. */
  lemma PageStartsInside(total: nat, pageSize: int, page: int)
    requires page >= 1 && pageSize >= 1
    ensures Offset(page, pageSize) < total <==> page <= CeilDiv(total, pageSize)
  {
    var q := CeilDiv(total, pageSize);
    if page <= q {
      MultiplyMonotone(page - 1, q - 1, pageSize);
    } else {
      MultiplyMonotone(q, page - 1, pageSize);
    }
  }

  /** A page has rows exactly when its number is at most `totalPages`. */
  lemma PageNonEmptyIffInRange(c: MediaController, users: seq<Auth.User>, fileType: Option<string>,
                               page: int, pageSize: int)
    requires page >= 1 && pageSize >= 1 && Offset(page, pageSize) < 0x8000_0000
    requires UploadersKnown(c.media, users)
    ensures |c.GetAll(users, fileType, page, pageSize).media| > 0
            <==> page <= c.GetAll(users, fileType, page, pageSize).totalPages
  {
    var r := c.GetAll(users, fileType, page, pageSize);
    assert |r.media| == |Page(c.media, fileType, page, pageSize)|;
    PageStartsInside(r.total, pageSize, page);
  }

  lemma MultiplyMonotone(a: int, b: int, c: nat)
    requires a <= b
    ensures a * c <= b * c
  {
  }
}
