/**
 The devotional image gallery (`/api/galery-dakwah`): a paginated listing,
 newest first, and an upload that stores the file under a generated name
 and records it. Storage is a set of object paths; the table is a sequence
 of rows. The uuid, the public URL of a path and every failure of storage
 or database are parameters.
 */
module GaleryDakwah {
  import opened Optional
  import opened JsValues
  import opened Http
  import opened Paging

  const DefaultLimit := 9
  const InvalidFileMessage := "File tidak valid"
  const NamePrefix := "dakwah-"
  const Folder := "dakwah/"

  datatype GaleryRow = GaleryRow(name: string, url: string)

  // ---------------------------------------------------------------------
  // Listing

  /** The page window of the listing: `parseInt` without a radix, default page
      1 and limit 9. */
  function ListWindow(pageParam: Option<string>, limitParam: Option<string>): Option<Window> {
    PageWindow(pageParam, limitParam, DefaultLimit, Unspecified)
  }

  /** The listing handler over the table in `created_at` order, newest first. */
  function Get(rows: seq<GaleryRow>, pageParam: Option<string>, limitParam: Option<string>,
               listError: Option<string>, otherwise: seq<GaleryRow>): (r: Response<seq<GaleryRow>>)
    ensures r.Failure? <==> listError.Some?
    ensures listError.Some? ==> r == Failure(ServerError, listError.value)
  {
    if listError.Some? then Failure(ServerError, listError.value)
    else Success(Fetch(rows, ListWindow(pageParam, limitParam), otherwise))
  }

  /** Without parameters the listing shows the nine newest images. */
  lemma GetDefault(rows: seq<GaleryRow>, otherwise: seq<GaleryRow>)
    ensures Get(rows, None, None, None, otherwise)
            == Success(rows[..if |rows| < DefaultLimit then |rows| else DefaultLimit])
  {
    DefaultWindow(None, None, DefaultLimit, Unspecified);
  }

  /** Page and limit texts that `parseInt` reads as `p` and `l` list the rows
      at positions `(p - 1) * l` to `(p - 1) * l + l - 1` that exist. */
  lemma GetParsedPage(rows: seq<GaleryRow>, pageText: string, limitText: string, p: nat, l: nat,
                      otherwise: seq<GaleryRow>)
    requires p >= 1
    requires ParseInt(pageText, Unspecified) == Some(p)
    requires ParseInt(limitText, Unspecified) == Some(l)
    ensures From(p, l) >= 0
    ensures Get(rows, Some(pageText), Some(limitText), None, otherwise)
            == Success(RangeRows(rows, From(p, l), To(p, l)))
  {
    FromNonNegative(p, l);
    ParsedWindow(pageText, limitText, p, l, DefaultLimit, Unspecified);
  }

  /** In particular for page and limit written as decimal numbers. */
  lemma GetNumberedPage(rows: seq<GaleryRow>, p: nat, l: nat, otherwise: seq<GaleryRow>)
    requires p >= 1
    ensures From(p, l) >= 0
    ensures Get(rows, Some(DecimalString(p)), Some(DecimalString(l)), None, otherwise)
            == Success(RangeRows(rows, From(p, l), To(p, l)))
  {
    ParseIntOfDecimal(p, Unspecified);
    ParseIntOfDecimal(l, Unspecified);
    GetParsedPage(rows, DecimalString(p), DecimalString(l), p, l, otherwise);
  }

  /** Two pages in a row are exactly the rows spanning both: none is skipped
      and none is shown twice. */
  lemma ConsecutiveGets(rows: seq<GaleryRow>, pageText: string, nextText: string, limitText: string,
                        p: nat, l: nat, otherwise: seq<GaleryRow>)
    requires p >= 1
    requires ParseInt(pageText, Unspecified) == Some(p)
    requires ParseInt(nextText, Unspecified) == Some(p + 1)
    requires ParseInt(limitText, Unspecified) == Some(l)
    ensures From(p, l) >= 0
    ensures Get(rows, Some(pageText), Some(limitText), None, otherwise).payload
            + Get(rows, Some(nextText), Some(limitText), None, otherwise).payload
            == RangeRows(rows, From(p, l), To(p + 1, l))
  {
    ParsedWindow(pageText, limitText, p, l, DefaultLimit, Unspecified);
    ParsedWindow(nextText, limitText, p + 1, l, DefaultLimit, Unspecified);
    ConsecutiveFetches(rows, ListWindow(Some(pageText), Some(limitText)),
                       ListWindow(Some(nextText), Some(limitText)), otherwise, p, l);
  }

  /** What the listing shows for page `j` of size `l`, asked for as numerals. */
  function ShownPage(rows: seq<GaleryRow>, l: nat): nat -> seq<GaleryRow> {
    (j: nat) => Get(rows, Some(DecimalString(j)), Some(DecimalString(l)), None, []).payload
  }

  /** Each page shown is that page's window of the table. */
  lemma ShownPageIsWindow(rows: seq<GaleryRow>, l: nat, k: nat)
    ensures forall j: nat :: 1 <= j <= k ==> From(j, l) >= 0 && ShownPage(rows, l)(j) == RangeRows(rows, From(j, l), To(j, l))
  {
    forall j: nat | 1 <= j <= k
      ensures From(j, l) >= 0 && ShownPage(rows, l)(j) == RangeRows(rows, From(j, l), To(j, l))
    {
      GetNumberedPage(rows, j, l, []);
    }
  }

  /** Paging through the gallery from page 1 shows the newest `k * l` images
      (or all of them), each once and in order. */
  lemma PagesReadArePrefix(rows: seq<GaleryRow>, k: nat, l: nat)
    ensures PagesRead(ShownPage(rows, l), k) == rows[..if k * l < |rows| then k * l else |rows|]
  {
    ShownPageIsWindow(rows, l, k);
    PagesReadAreFirstPages(rows, ShownPage(rows, l), k, l);
    FirstPagesArePrefix(rows, k, l);
  }

  /** Without a radix `parseInt` reads a `0x` prefix as hexadecimal. */
  lemma HexWithoutRadix()
    ensures ParseInt("0x2", Unspecified) == Some(2)
  {
    assert SpaceEnd("0x2", 0) == 0;
    assert ParseUnsigned("0x2", 0, Unspecified) == Some(2) by {
      assert HexPrefixAt("0x2", 0);
      assert DigitsEnd("0x2", 16, 2) == 3;
      assert ValueOf("0x2", 16, 2, 3) == 2;
    }
  }

  /** Text after the digits is ignored. */
  lemma TrailingText()
    ensures ParseInt("2x", Unspecified) == Some(2)
  {
    assert SpaceEnd("2x", 0) == 0;
    assert ParseUnsigned("2x", 0, Unspecified) == Some(2) by {
      assert !HexPrefixAt("2x", 0);
      assert DigitsEnd("2x", 10, 0) == 1;
      assert ValueOf("2x", 10, 0, 1) == 2;
    }
  }

  /** So the listing reads `page=0x2` as page 2. */
  lemma HexPageParam()
    ensures ListWindow(Some("0x2"), None) == ListWindow(Some("2"), None)
  {
    HexWithoutRadix();
    ParseIntOfDecimal(2, Unspecified);
    assert DecimalString(2) == "2";
  }

  // ---------------------------------------------------------------------
  // Uploading

  /** The `file` form field: missing, or a file with its name. */
  datatype FormFile = NoFile | File(name: string)

  /** The storage bucket's object paths and the gallery table. */
  datatype Store = Store(objects: set<string>, rows: seq<GaleryRow>)

  /** `name.split('.').pop()`: the text after the last dot, or the whole name
      when there is no dot. */
  function Extension(name: string): (ext: string)
    ensures '.' !in ext
    ensures |ext| <= |name| && ext == name[|name| - |ext|..]
    ensures '.' in name ==> |ext| < |name| && name[|name| - |ext| - 1] == '.'
    ensures '.' !in name ==> ext == name
  {
    if name == [] then []
    else if name[|name| - 1] == '.' then []
    else
      var init := name[..|name| - 1];
      var c := name[|name| - 1];
      var e := Extension(init);
      assert name == init + [c];
      SuffixStep(init, c, e);
      e + [c]
  }

  /** A suffix of `init` followed by `c` is a suffix of `init + [c]`, and the
      character before it is unchanged. */
  lemma SuffixStep(init: string, c: char, e: string)
    requires |e| <= |init| && e == init[|init| - |e|..]
    ensures e + [c] == (init + [c])[|init| - |e|..]
    ensures |e| < |init| ==> (init + [c])[|init| - |e| - 1] == init[|init| - |e| - 1]
    ensures c != '.' ==> ('.' in e + [c] <==> '.' in e) && ('.' in init + [c] <==> '.' in init)
  {
  }

  /** The text after a dot that is followed by no other dot is the extension. */
  lemma {:induction false} ExtensionAfterDot(s: string, e: string)
    requires '.' !in e
    ensures Extension(s + "." + e) == e
    decreases |e|
  {
    if e == [] {
      assert (s + "." + e)[|s + "." + e| - 1] == '.';
    } else {
      var init := e[..|e| - 1];
      assert (s + "." + e)[..|s + "." + e| - 1] == s + "." + init;
      ExtensionAfterDot(s, init);
      assert init + [e[|e| - 1]] == e;
    }
  }

  /** `dakwah-<uuid>.<ext>`. */
  function StoredName(uuid: string, ext: string): (name: string)
    ensures NamePrefix <= name
    ensures |name| == |NamePrefix| + |uuid| + 1 + |ext|
    ensures '.' !in ext ==> Extension(name) == ext
  {
    if '.' in ext then NamePrefix + uuid + "." + ext
    else
      ExtensionAfterDot(NamePrefix + uuid, ext);
      NamePrefix + uuid + "." + ext
  }

  /** `dakwah/<filename>`. */
  function StoragePath(filename: string): (path: string)
    ensures Folder <= path && path[|Folder|..] == filename
  {
    Folder + filename
  }

  /** The stored name keeps the upload's extension, and it is a `dakwah-` name
      under the `dakwah/` folder. */
  lemma StoredNameKeepsExtension(uuid: string, name: string)
    ensures Extension(StoredName(uuid, Extension(name))) == Extension(name)
    ensures NamePrefix <= StoredName(uuid, Extension(name))
    ensures StoragePath(StoredName(uuid, Extension(name)))[|Folder|..] == StoredName(uuid, Extension(name))
  {
    ExtensionAfterDot(NamePrefix + uuid, Extension(name));
  }

  /** Two uploads with different uuids and the same extension get different
      names. */
  lemma StoredNamesDiffer(u1: string, u2: string, ext: string)
    requires u1 != u2
    ensures StoredName(u1, ext) != StoredName(u2, ext)
  {
    if |u1| == |u2| {
      var k :| 0 <= k < |u1| && u1[k] != u2[k];
      assert StoredName(u1, ext)[|NamePrefix| + k] == u1[k];
      assert StoredName(u2, ext)[|NamePrefix| + k] == u2[k];
    }
  }

  /** The upload handler. `uploadError` is the storage's refusal (including an
      existing object, since `upsert` is off), `publicUrl` maps a path to its
      public URL. */
  function Post(store: Store, file: FormFile, uuid: string, uploadError: Option<string>,
                publicUrl: string -> string, insertError: Option<string>): (r: (Response<bool>, Store))
    ensures file.NoFile? || file.name == "" ==> r == (Failure(BadRequest, InvalidFileMessage), store)
    ensures file.File? && file.name != "" && uploadError.Some? ==>
              r == (Failure(ServerError, uploadError.value), store)
    ensures file.File? && file.name != "" && uploadError.None? && insertError.Some? ==>
              r.0 == Failure(ServerError, insertError.value)
    ensures uploadError.Some? ==> r.1 == store
    ensures r.0.Success? <==> file.File? && file.name != "" && uploadError.None? && insertError.None?
    ensures r.0.Failure? ==> r.1.rows == store.rows
    ensures file.File? && file.name != "" && uploadError.None? ==>
              var path := StoragePath(StoredName(uuid, Extension(file.name)));
              && r.1.objects == store.objects + {path}
              && (r.0.Success? ==> r.1.rows == store.rows
                                    + [GaleryRow(StoredName(uuid, Extension(file.name)), publicUrl(path))])
  {
    if file.NoFile? || file.name == "" then (Failure(BadRequest, InvalidFileMessage), store)
    else
      var filename := StoredName(uuid, Extension(file.name));
      var path := StoragePath(filename);
      if uploadError.Some? then (Failure(ServerError, uploadError.value), store)
      else
        var uploaded := store.(objects := store.objects + {path});
        if insertError.Some? then (Failure(ServerError, insertError.value), uploaded)
        else (Success(true), uploaded.(rows := store.rows + [GaleryRow(filename, publicUrl(path))]))
  }

  /** Every row's image is in storage under `dakwah/<name>`, the path the
      delete handler removes. */
  predicate Backed(store: Store) {
    forall i :: 0 <= i < |store.rows| ==> StoragePath(store.rows[i].name) in store.objects
  }

  /** Uploads keep every row backed by its stored object; a failed insert may
      leave an object no row refers to, never the reverse. */
  lemma PostKeepsBacked(store: Store, file: FormFile, uuid: string, uploadError: Option<string>,
                        publicUrl: string -> string, insertError: Option<string>)
    requires Backed(store)
    ensures Backed(Post(store, file, uuid, uploadError, publicUrl, insertError).1)
  {
  }

  /** A stored image keeps the extension of the uploaded file. */
  lemma PostKeepsExtension(store: Store, file: FormFile, uuid: string,
                           publicUrl: string -> string)
    requires file.File? && file.name != ""
    ensures var s := Post(store, file, uuid, None, publicUrl, None).1;
            |s.rows| == |store.rows| + 1 && Extension(s.rows[|store.rows|].name) == Extension(file.name)
  {
    StoredNameKeepsExtension(uuid, file.name);
  }
}

/**
 The news image gallery listing (`/api/galery-news`): a page of images,
 newest first, with the requested page echoed and the exact total.
 */
module GaleryNews {
  import opened Optional
  import opened JsValues
  import opened Http
  import opened Paging

  const DefaultLimit := 9
  const LoadFailedPrefix := "Gagal memuat gambar: "

  /** The payload: the page's rows, the parsed `page` (`NaN` is sent as
      `null`), and the number of rows in the table. */
  datatype NewsPage<T> = NewsPage(data: seq<T>, page: Option<int>, total: Option<nat>)

  /** The `page` the response echoes: the parameter as `parseInt` reads it. */
  function EchoedPage(pageParam: Option<string>): Option<int> {
    ParseInt(ParamOr(pageParam, "1"), Unspecified)
  }

  function Get<T>(rows: seq<T>, pageParam: Option<string>, limitParam: Option<string>,
                  listError: Option<string>, otherwise: seq<T>): (r: Response<NewsPage<T>>)
    ensures r.Failure? <==> listError.Some?
    ensures listError.Some? ==> r == Failure(ServerError, LoadFailedPrefix + listError.value)
    ensures r.Success? ==> r.payload.total == Some(|rows|)
  {
    if listError.Some? then Failure(ServerError, LoadFailedPrefix + listError.value)
    else
      Success(NewsPage(Fetch(rows, PageWindow(pageParam, limitParam, DefaultLimit, Unspecified), otherwise),
                       EchoedPage(pageParam),
                       Some(|rows|)))
  }

  /** Page and limit texts that `parseInt` reads as `p` and `l` echo `p`,
      report the table's size, and hold at most `l` rows: those at positions
      `(p - 1) * l` onwards. */
  lemma GetParsedPage<T>(rows: seq<T>, pageText: string, limitText: string, p: nat, l: nat, otherwise: seq<T>)
    requires p >= 1
    requires ParseInt(pageText, Unspecified) == Some(p)
    requires ParseInt(limitText, Unspecified) == Some(l)
    ensures From(p, l) >= 0
    ensures var r := Get(rows, Some(pageText), Some(limitText), None, otherwise);
            && r == Success(NewsPage(RangeRows(rows, From(p, l), To(p, l)), Some(p), Some(|rows|)))
            && |r.payload.data| <= l
  {
    FromNonNegative(p, l);
    ParsedWindow(pageText, limitText, p, l, DefaultLimit, Unspecified);
    ParseIntOfEmpty(Unspecified);
    assert EchoedPage(Some(pageText)) == Some(p);
  }

  /** Without parameters the first nine images are shown as page 1. */
  lemma GetDefault<T>(rows: seq<T>, otherwise: seq<T>)
    ensures Get(rows, None, None, None, otherwise)
            == Success(NewsPage(rows[..if |rows| < DefaultLimit then |rows| else DefaultLimit], Some(1), Some(|rows|)))
  {
    DefaultWindow(None, None, DefaultLimit, Unspecified);
    DefaultPage(None, Unspecified);
  }

  /** Adjacent pages do not overlap: together they are exactly the rows
      spanning both. */
  lemma ConsecutiveGets<T>(rows: seq<T>, pageText: string, nextText: string, limitText: string,
                           p: nat, l: nat, otherwise: seq<T>)
    requires p >= 1
    requires ParseInt(pageText, Unspecified) == Some(p)
    requires ParseInt(nextText, Unspecified) == Some(p + 1)
    requires ParseInt(limitText, Unspecified) == Some(l)
    ensures From(p, l) >= 0
    ensures Get(rows, Some(pageText), Some(limitText), None, otherwise).payload.data
            + Get(rows, Some(nextText), Some(limitText), None, otherwise).payload.data
            == RangeRows(rows, From(p, l), To(p + 1, l))
  {
    ParsedWindow(pageText, limitText, p, l, DefaultLimit, Unspecified);
    ParsedWindow(nextText, limitText, p + 1, l, DefaultLimit, Unspecified);
    ConsecutiveFetches(rows, PageWindow(Some(pageText), Some(limitText), DefaultLimit, Unspecified),
                       PageWindow(Some(nextText), Some(limitText), DefaultLimit, Unspecified), otherwise, p, l);
  }

  /** A page parameter that is not a number is echoed as `null`. */
  lemma NonNumericPageEchoedAsNull<T>(rows: seq<T>, otherwise: seq<T>)
    ensures Get(rows, Some("abc"), None, None, otherwise).payload.page == None
  {
    assert EchoedPage(Some("abc")) == None by {
      assert SpaceEnd("abc", 0) == 0;
      assert ParseUnsigned("abc", 0, Unspecified) == None by {
        assert DigitsEnd("abc", 10, 0) == 0;
      }
    }
  }
}
