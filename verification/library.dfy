/** The material library: uploaded files' metadata, the upload, delete,
    download and view handlers, the category/search filter and the totals. */
module Library {
  import opened Wrappers
  import Store
  import Text

  datatype FileType = Pdf | Video | Image | Document

  /** A library entry; `size` is the human-readable size label, `url` the
      object URL of an uploaded file (the seeded entries have none). */
  datatype Material = Material(
    id: string, title: string, description: string, kind: FileType, subject: string,
    size: string, uploadDate: string, downloads: nat, views: nat, url: Option<string>)

  /** The upload form. */
  datatype Draft = Draft(title: string, description: string, subject: string, kind: FileType)

  /** The part of a browser `File` the upload reads. */
  datatype FileInfo = FileInfo(name: string, size: nat)

  const EmptyDraft: Draft := Draft("", "", "", Pdf)

  /** 100 MB, the largest accepted file. */
  const MaxSize: nat := 100 * 1024 * 1024

  const SizeAlert: string := "El archivo excede el tamaño máximo de 100MB."

  /** The lower-cased text after the file name's last dot (the whole name
      when it has no dot). */
  function Extension(name: string): string {
    Text.Lower(Text.AfterLast(name, '.'))
  }

  predicate IsVideoExtension(e: string) { e == "mp4" || e == "avi" || e == "mov" || e == "wmv" }
  predicate IsImageExtension(e: string) { e == "jpg" || e == "jpeg" || e == "png" || e == "gif" || e == "bmp" }

  /** No extension is in two of the classes. */
  lemma ExtensionClassesDisjoint(e: string)
    ensures IsVideoExtension(e) ==> e != "pdf" && !IsImageExtension(e)
    ensures IsImageExtension(e) ==> e != "pdf"
  {
    if IsVideoExtension(e) {
      assert |e| == 3 && e[0] != 'p';
    }
    if IsImageExtension(e) {
      assert e[0] != 'p' || e[1] != 'd';
    }
  }

  /** `getFileType`: classify by extension; anything unrecognised is a document. */
  function FileTypeOf(name: string): (t: FileType)
    ensures t == Pdf <==> Extension(name) == "pdf"
    ensures t == Video <==> IsVideoExtension(Extension(name))
    ensures t == Image <==> IsImageExtension(Extension(name))
    ensures t == Document <==> Extension(name) != "pdf"
                               && !IsVideoExtension(Extension(name)) && !IsImageExtension(Extension(name))
  {
    var e := Extension(name);
    ExtensionClassesDisjoint(e);
    if e == "pdf" then Pdf
    else if IsVideoExtension(e) then Video
    else if IsImageExtension(e) then Image
    else Document
  }

  /** Only the part after the last dot counts, and case does not. */
  lemma UpperCaseExtension()
    ensures FileTypeOf("Guia.PDF") == Pdf
  {
    assert Text.AfterLast("Guia.PDF", '.') == "PDF" by {
      assert "Guia.PDF"[..7] == "Guia.PD";
      assert "Guia.PD"[..6] == "Guia.P";
      assert "Guia.P"[..5] == "Guia.";
    }
    assert Text.Lower("PDF") == "pdf";
  }

  lemma LastDotDecides()
    ensures FileTypeOf("foto.jpg.txt") == Document
  {
    assert Text.AfterLast("foto.jpg.txt", '.') == "txt" by {
      assert "foto.jpg.txt"[..11] == "foto.jpg.tx";
      assert "foto.jpg.tx"[..10] == "foto.jpg.t";
      assert "foto.jpg.t"[..9] == "foto.jpg.";
    }
    assert Text.Lower("txt") == "txt";
  }

  /** A name without a dot is its own extension. */
  lemma DotlessName()
    ensures FileTypeOf("png") == Image
  {
    assert Text.AfterLast("png", '.') == "png" by {
      assert "png"[..2] == "pn";
      assert "pn"[..1] == "p";
      assert "p"[..0] == "";
    }
    assert Text.Lower("png") == "png";
  }

  /** What `handleFileUpload` did: nothing chosen, refused, or stored. */
  datatype UploadOutcome = NoFile | TooLarge(alert: string) | Uploaded

  /** `handleFileUpload`: take the first chosen file; refuse it over 100 MB;
      otherwise append it with fresh counters, titled by the form or, when
      the form's title is empty, by the file name up to its first dot, and
      reset the form. The size label, upload date, object URL and id come
      from the browser and are passed in. */
  function Upload(ms: seq<Material>, draft: Draft, files: seq<FileInfo>,
                  freshId: string, sizeLabel: string, today: string, url: string)
    : (r: (seq<Material>, Draft, UploadOutcome))
    ensures |files| == 0 ==> r == (ms, draft, NoFile)
    ensures |files| > 0 && files[0].size > MaxSize ==> r == (ms, draft, TooLarge(SizeAlert))
    ensures r.2 == Uploaded <==> |files| > 0 && files[0].size <= MaxSize
    ensures r.2 == Uploaded ==>
      && |r.0| == |ms| + 1 && r.0[..|ms|] == ms
      && var m := r.0[|ms|];
      && m.id == freshId && m.downloads == 0 && m.views == 0
      && m.size == sizeLabel && m.uploadDate == today
      && m.title == (if draft.title != "" then draft.title else Text.BeforeFirst(files[0].name, '.'))
      && m.description == draft.description && m.subject == draft.subject
      && m.kind == FileTypeOf(files[0].name)
      && m.url == Some(url)
      && r.1 == EmptyDraft
  {
    if |files| == 0 then (ms, draft, NoFile)
    else
      var file := files[0];
      if file.size > MaxSize then (ms, draft, TooLarge(SizeAlert))
      else
        var title := if draft.title != "" then draft.title else Text.BeforeFirst(file.name, '.');
        var m := Material(freshId, title, draft.description, FileTypeOf(file.name), draft.subject,
                          sizeLabel, today, 0, 0, Some(url));
        assert (ms + [m])[..|ms|] == ms;
        (ms + [m], EmptyDraft, Uploaded)
  }

  /** `deleteMaterial`: the materials with this id go, the rest stay in order. */
  function Delete(ms: seq<Material>, id: string): (r: seq<Material>)
    ensures Store.IsSubseq(r, ms)
    ensures forall i :: 0 <= i < |r| ==> r[i].id != id && r[i] in ms
    ensures forall i :: 0 <= i < |ms| && ms[i].id != id ==> ms[i] in r
    ensures |r| == |ms| - Store.Count(ms, (m: Material) => m.id == id)
  {
    Store.CountComplement(ms, (m: Material) => m.id != id, (m: Material) => m.id == id);
    Store.Filter(ms, (m: Material) => m.id != id)
  }

  /** `downloadMaterial`: the materials with this id gain one download. */
  function Download(ms: seq<Material>, id: string): (r: seq<Material>)
    ensures |r| == |ms|
    ensures forall i :: 0 <= i < |ms| ==>
      r[i] == (if ms[i].id == id then ms[i].(downloads := ms[i].downloads + 1) else ms[i])
  {
    Store.MapWhere(ms, (m: Material) => m.id == id, (m: Material) => m.(downloads := m.downloads + 1))
  }

  /** `viewMaterial`: the materials with this id gain one view. */
  function View(ms: seq<Material>, id: string): (r: seq<Material>)
    ensures |r| == |ms|
    ensures forall i :: 0 <= i < |ms| ==>
      r[i] == (if ms[i].id == id then ms[i].(views := ms[i].views + 1) else ms[i])
  {
    Store.MapWhere(ms, (m: Material) => m.id == id, (m: Material) => m.(views := m.views + 1))
  }

  /** `stats.totalDownloads`: never negative, at least any one material's
      count, and 0 exactly when no material was downloaded. */
  function TotalDownloads(ms: seq<Material>): (t: int)
    ensures t >= 0
    ensures forall i :: 0 <= i < |ms| ==> ms[i].downloads <= t
    ensures t == 0 <==> forall i :: 0 <= i < |ms| ==> ms[i].downloads == 0
  {
    Store.SumIntBounds(ms, (m: Material) => m.downloads);
    Store.SumInt(ms, (m: Material) => m.downloads)
  }

  /** `stats.totalViews`: the same for views. */
  function TotalViews(ms: seq<Material>): (t: int)
    ensures t >= 0
    ensures forall i :: 0 <= i < |ms| ==> ms[i].views <= t
    ensures t == 0 <==> forall i :: 0 <= i < |ms| ==> ms[i].views == 0
  {
    Store.SumIntBounds(ms, (m: Material) => m.views);
    Store.SumInt(ms, (m: Material) => m.views)
  }

  /** A download raises the download total by one per material with that id
      (by exactly one when ids are unique) and leaves the view total alone. */
  lemma DownloadTotals(ms: seq<Material>, id: string)
    ensures TotalDownloads(Download(ms, id)) == TotalDownloads(ms) + Store.Count(ms, (m: Material) => m.id == id)
    ensures TotalViews(Download(ms, id)) == TotalViews(ms)
  {
    var sel := (m: Material) => m.id == id;
    var g := (m: Material) => m.(downloads := m.downloads + 1);
    Store.SumIntMapWhereIncrement(ms, sel, g, (m: Material) => m.downloads);
    Store.SumIntMapWhereUnchanged(ms, sel, g, (m: Material) => m.views);
  }

  /** A view raises the view total by one per material with that id and
      leaves the download total alone. */
  lemma ViewTotals(ms: seq<Material>, id: string)
    ensures TotalViews(View(ms, id)) == TotalViews(ms) + Store.Count(ms, (m: Material) => m.id == id)
    ensures TotalDownloads(View(ms, id)) == TotalDownloads(ms)
  {
    var sel := (m: Material) => m.id == id;
    var g := (m: Material) => m.(views := m.views + 1);
    Store.SumIntMapWhereIncrement(ms, sel, g, (m: Material) => m.views);
    Store.SumIntMapWhereUnchanged(ms, sel, g, (m: Material) => m.downloads);
  }

  /** Uploading under an id no material has, deleting, downloading and
      viewing all keep material ids unique. */
  lemma MaterialIdsStayUnique(ms: seq<Material>, draft: Draft, files: seq<FileInfo>, freshId: string,
                              sizeLabel: string, today: string, url: string, id: string)
    requires Store.UniqueIds(ms, (m: Material) => m.id)
    requires Store.FreshId(ms, (m: Material) => m.id, freshId)
    ensures Store.UniqueIds(Upload(ms, draft, files, freshId, sizeLabel, today, url).0, (m: Material) => m.id)
    ensures Store.UniqueIds(Delete(ms, id), (m: Material) => m.id)
    ensures Store.UniqueIds(Download(ms, id), (m: Material) => m.id)
    ensures Store.UniqueIds(View(ms, id), (m: Material) => m.id)
  {
    var r := Upload(ms, draft, files, freshId, sizeLabel, today, url).0;
    if r != ms {
      assert r == ms + [r[|ms|]];
      Store.AppendFreshKeepsUnique(ms, r[|ms|], (m: Material) => m.id);
    }
    Store.FilterKeepsUnique(ms, (m: Material) => m.id != id, (m: Material) => m.id);
    Store.MapWhereKeepsUnique(ms, (m: Material) => m.id == id,
                              (m: Material) => m.(downloads := m.downloads + 1), (m: Material) => m.id);
    Store.MapWhereKeepsUnique(ms, (m: Material) => m.id == id,
                              (m: Material) => m.(views := m.views + 1), (m: Material) => m.id);
  }

  /** A new material starts with no downloads and no views, so an upload
      leaves both totals as they were. */
  lemma UploadKeepsTotals(ms: seq<Material>, draft: Draft, files: seq<FileInfo>, freshId: string,
                          sizeLabel: string, today: string, url: string)
    ensures TotalDownloads(Upload(ms, draft, files, freshId, sizeLabel, today, url).0) == TotalDownloads(ms)
    ensures TotalViews(Upload(ms, draft, files, freshId, sizeLabel, today, url).0) == TotalViews(ms)
  {
    var r := Upload(ms, draft, files, freshId, sizeLabel, today, url).0;
    if r != ms {
      assert r == ms + [r[|ms|]];
      Store.SumIntAppend(ms, r[|ms|], (m: Material) => m.downloads);
      Store.SumIntAppend(ms, r[|ms|], (m: Material) => m.views);
    }
  }

  const AllCategories: string := "all"

  /** Whether a material shows for the selected category and search term. */
  predicate Shows(m: Material, category: string, term: string) {
    && (category == AllCategories || Text.Lower(m.subject) == Text.Lower(category))
    && (Text.ContainsIgnoreCase(m.title, term) || Text.ContainsIgnoreCase(m.description, term))
  }

  /** `filteredMaterials`: exactly the materials that show, in order. */
  function Filtered(ms: seq<Material>, category: string, term: string): (r: seq<Material>)
    ensures Store.IsSubseq(r, ms)
    ensures forall i :: 0 <= i < |r| ==> r[i] in ms && Shows(r[i], category, term)
    ensures forall i :: 0 <= i < |ms| && Shows(ms[i], category, term) ==> ms[i] in r
    ensures |r| == Store.Count(ms, (m: Material) => Shows(m, category, term))
  {
    Store.Filter(ms, (m: Material) => Shows(m, category, term))
  }

  /** With every category and an empty term, every material shows. */
  lemma EverythingShowsUnfiltered(ms: seq<Material>)
    ensures forall i :: 0 <= i < |ms| ==> ms[i] in Filtered(ms, AllCategories, "")
  {
    forall i | 0 <= i < |ms| ensures Shows(ms[i], AllCategories, "") {
      Text.ContainsEmpty(Text.Lower(ms[i].title));
    }
  }
}
