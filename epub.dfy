/**
 * The EPUB routes: reading the package document of an uploaded archive
 * (the container's first rootfile, the Dublin Core title, creator and
 * description, the manifest and the spine), storing the book, reading one
 * chapter and listing the table of contents.
 *
 * The zip archive is given as its entries, each with its text and the tree
 * the XML parser makes of that text; a child element list that the parser
 * leaves out is an empty sequence here.
 */
module Epub {
  import opened Common

  const ContainerName := "META-INF/container.xml"

  /** A `rootfile` element of the container document: its `full-path` attribute, if present. */
  datatype Rootfile = Rootfile(fullPath: Option<string>)

  /** The first child of a Dublin Core element: bare text, or an element object whose text is `_`. */
  datatype MetaNode = TextNode(text: string) | ElementNode(underscore: Option<string>)

  /** A normalised metadata value: a string, or the raw parsed object when it has no text. */
  datatype MetaValue = Text(text: string) | RawNode(node: MetaNode)

  datatype Metadata = Metadata(title: seq<MetaNode>, creator: seq<MetaNode>, description: seq<MetaNode>)

  datatype ManifestItem = ManifestItem(id: string, href: string)

  datatype Itemref = Itemref(idref: string)

  /** The `package` root: its `metadata` elements, the `item` lists of its `manifest` elements and the `itemref` lists of its `spine` elements. */
  datatype Package = Package(metadata: seq<Metadata>, manifest: seq<seq<ManifestItem>>, spine: seq<seq<Itemref>>)

  /** What the XML parser makes of an entry: a container document, a package document, or anything else (including text that is not XML). */
  datatype Document = ContainerDoc(rootfiles: seq<seq<Rootfile>>) | PackageDoc(package: Package) | OtherDoc

  datatype Entry = Entry(name: string, content: string, doc: Document)

  datatype ExtractError = Unreadable | ContainerMissing | PackageMissing | Malformed

  datatype Chapter = Chapter(id: string, href: string, order: int, title: string)

  datatype PackageInfo = PackageInfo(
    title: MetaValue, author: MetaValue, description: MetaValue,
    chapters: seq<Chapter>, opfPath: string, totalChapters: int)

  /** Position of the first entry called `name` (an undefined name matches none), `|entries|` when there is none. */
  function EntryIndex(entries: seq<Entry>, name: Option<string>): nat {
    FirstIndex(entries, (e: Entry) => name == Some(e.name))
  }

  predicate HasEntry(entries: seq<Entry>, name: string) {
    exists k :: 0 <= k < |entries| && entries[k].name == name
  }

  /** The lookup finds an entry exactly when the archive has one of that name. */
  lemma EntryIndexFound(entries: seq<Entry>, name: string)
    ensures EntryIndex(entries, Some(name)) < |entries| <==> HasEntry(entries, name)
  {
    var k := EntryIndex(entries, Some(name));
    if k < |entries| {
      assert entries[k].name == name;
    }
    if HasEntry(entries, name) {
      var j :| 0 <= j < |entries| && entries[j].name == name;
      assert Some(name) == Some(entries[j].name);
    }
  }

  /** `full-path` of the first rootfile of the first rootfiles element. */
  function RootfilePath(doc: Document): Result<Option<string>, ExtractError> {
    if doc.ContainerDoc? && |doc.rootfiles| > 0 && |doc.rootfiles[0]| > 0 then Success(doc.rootfiles[0][0].fullPath)
    else Failure(Malformed)
  }

  /** `field ? field[0]._ || field[0] : fallback`. */
  function Normalise(nodes: seq<MetaNode>, fallback: string): MetaValue {
    if nodes == [] then Text(fallback)
    else match nodes[0]
      case TextNode(t) => Text(t)
      case ElementNode(u) => if Truthy(u) then Text(u.value) else RawNode(nodes[0])
  }

  /** The `href` of the first manifest item with this id, or "" when there is none. */
  function ChapterHref(items: seq<ManifestItem>, idref: string): (href: string)
    ensures (forall k :: 0 <= k < |items| ==> items[k].id != idref) ==> href == ""
    ensures forall k :: 0 <= k < |items| && items[k].id == idref && (forall j :: 0 <= j < k ==> items[j].id != idref) ==>
      href == items[k].href
  {
    var k := FirstIndex(items, (m: ManifestItem) => m.id == idref);
    if k < |items| then items[k].href else ""
  }

  function ChapterTitle(n: nat): string {
    "Chapitre " + NatToString(n)
  }

  /** `spine.map`: one chapter per itemref, in spine order, numbered from 1. */
  function BuildChapters(items: seq<ManifestItem>, spine: seq<Itemref>): (chapters: seq<Chapter>)
    ensures |chapters| == |spine|
    ensures forall i :: 0 <= i < |spine| ==>
      chapters[i].id == spine[i].idref && chapters[i].order == i + 1 && chapters[i].title == ChapterTitle(i + 1)
    ensures forall i :: 0 <= i < |spine| ==> chapters[i].href == ChapterHref(items, spine[i].idref)
  {
    seq(|spine|, i requires 0 <= i < |spine| =>
      Chapter(spine[i].idref, ChapterHref(items, spine[i].idref), i + 1, ChapterTitle(i + 1)))
  }

  /** No two chapters of a book share a title. */
  lemma ChapterTitlesDistinct(items: seq<ManifestItem>, spine: seq<Itemref>, i: nat, j: nat)
    requires i < j < |spine|
    ensures BuildChapters(items, spine)[i].title != BuildChapters(items, spine)[j].title
  {
    var cs := BuildChapters(items, spine);
    if cs[i].title == cs[j].title {
      var a, b := NatToString(i + 1), NatToString(j + 1);
      assert "Chapitre " + a == "Chapitre " + b;
      assert a == ("Chapitre " + a)[9..];
      assert b == ("Chapitre " + b)[9..];
      NatToStringInjective(i + 1, j + 1);
    }
  }

  /** A package document the code can read: every list it indexes at 0 is there. */
  predicate Readable(pkg: Package) {
    |pkg.metadata| > 0 && |pkg.manifest| > 0 && |pkg.spine| > 0 && |pkg.manifest[0]| > 0 && |pkg.spine[0]| > 0
  }

  function Describe(pkg: Package, opfPath: string): (info: PackageInfo)
    requires Readable(pkg)
  {
    var md := pkg.metadata[0];
    var chapters := BuildChapters(pkg.manifest[0], pkg.spine[0]);
    PackageInfo(
      Normalise(md.title, "Titre inconnu"), Normalise(md.creator, "Auteur inconnu"), Normalise(md.description, ""),
      chapters, opfPath, |chapters|)
  }

  /** `extractEpubMetadata`. A spine without itemrefs is malformed: the parser leaves the list out and `spine.map` fails. */
  function Extract(archive: Option<seq<Entry>>): (r: Result<PackageInfo, ExtractError>)
    ensures archive.None? ==> r == Failure(Unreadable)
    ensures archive.Some? && !HasEntry(archive.value, ContainerName) ==> r == Failure(ContainerMissing)
    ensures r.Success? ==> archive.Some? && HasEntry(archive.value, r.value.opfPath)
    ensures r.Success? ==> r.value.totalChapters == |r.value.chapters| > 0
  {
    if archive.None? then Failure(Unreadable)
    else
      var entries := archive.value;
      var ci := EntryIndex(entries, Some(ContainerName));
      if ci == |entries| then Failure(ContainerMissing)
      else match RootfilePath(entries[ci].doc)
        case Failure(e) => Failure(e)
        case Success(opfPath) =>
          var oi := EntryIndex(entries, opfPath);
          if oi == |entries| then Failure(PackageMissing)
          else if entries[oi].doc.PackageDoc? && Readable(entries[oi].doc.package) then
            Success(Describe(entries[oi].doc.package, entries[oi].name))
          else Failure(Malformed)
  }

  /**
   * An archive whose first container entry names, in its first rootfile, a
   * readable package document yields that document's description, and a
   * path naming no entry yields `PackageMissing`.
   */
  lemma ExtractWellFormed(entries: seq<Entry>, ci: nat, oi: nat, path: string, pkg: Package)
    requires ci < |entries| && entries[ci].name == ContainerName
    requires forall j :: 0 <= j < ci ==> entries[j].name != ContainerName
    requires entries[ci].doc.ContainerDoc? && |entries[ci].doc.rootfiles| > 0 && |entries[ci].doc.rootfiles[0]| > 0
    requires entries[ci].doc.rootfiles[0][0].fullPath == Some(path)
    requires oi < |entries| && entries[oi].name == path && entries[oi].doc == PackageDoc(pkg)
    requires forall j :: 0 <= j < oi ==> entries[j].name != path
    requires Readable(pkg)
    ensures Extract(Some(entries)) == Success(Describe(pkg, path))
  {
    var p := (e: Entry) => Some(ContainerName) == Some(e.name);
    var q := (e: Entry) => Some(path) == Some(e.name);
    assert p(entries[ci]);
    assert forall j :: 0 <= j < ci ==> !p(entries[j]);
    assert FirstIndex(entries, p) == ci;
    assert q(entries[oi]);
    assert forall j :: 0 <= j < oi ==> !q(entries[j]);
    assert FirstIndex(entries, q) == oi;
  }

  /** The first rootfile naming a path that no entry has gives `PackageMissing`, and so does a rootfile without `full-path`. */
  lemma ExtractPackageMissing(entries: seq<Entry>, ci: nat, path: Option<string>)
    requires ci < |entries| && entries[ci].name == ContainerName
    requires forall j :: 0 <= j < ci ==> entries[j].name != ContainerName
    requires entries[ci].doc.ContainerDoc? && |entries[ci].doc.rootfiles| > 0 && |entries[ci].doc.rootfiles[0]| > 0
    requires entries[ci].doc.rootfiles[0][0].fullPath == path
    requires path.None? || !HasEntry(entries, path.value)
    ensures Extract(Some(entries)) == Failure(PackageMissing)
  {
    var p := (e: Entry) => Some(ContainerName) == Some(e.name);
    assert p(entries[ci]);
    assert forall j :: 0 <= j < ci ==> !p(entries[j]);
    assert FirstIndex(entries, p) == ci;
    var oi := EntryIndex(entries, path);
    if oi < |entries| {
      assert false;
    }
  }

  /**
   * The cases of `field ? field[0]._ || field[0] : fallback`: the fallback
   * without the element, bare text as is, an element's truthy `_`, and the raw
   * element otherwise.
   */
  predicate NormalCases(nodes: seq<MetaNode>, fallback: string, v: MetaValue) {
    && (nodes == [] ==> v == Text(fallback))
    && (nodes != [] && nodes[0].TextNode? ==> v == Text(nodes[0].text))
    && (nodes != [] && nodes[0].ElementNode? && Truthy(nodes[0].underscore) ==> v == Text(nodes[0].underscore.value))
    && (nodes != [] && nodes[0].ElementNode? && !Truthy(nodes[0].underscore) ==> v == RawNode(nodes[0]))
  }

  /** Title, author and description are normalised with their fallbacks "Titre inconnu", "Auteur inconnu" and "". */
  lemma DescribeMetadata(pkg: Package, path: string)
    requires Readable(pkg)
    ensures NormalCases(pkg.metadata[0].title, "Titre inconnu", Describe(pkg, path).title)
    ensures NormalCases(pkg.metadata[0].creator, "Auteur inconnu", Describe(pkg, path).author)
    ensures NormalCases(pkg.metadata[0].description, "", Describe(pkg, path).description)
  {
  }

  // ---------------------------------------------------------------------------
  // Upload

  datatype UploadedFile = UploadedFile(path: string, fileName: string, size: int, mimeType: string)

  /** The optional title, author and description of the upload form. */
  datatype UploadForm = UploadForm(title: Option<string>, author: Option<string>, description: Option<string>)

  /** The stored `epubMetadata` JSON, once parsed: its `chapters` and `opfPath` keys, each possibly absent. */
  datatype StoredMetadata = StoredMetadata(chapters: Option<seq<Chapter>>, opfPath: Option<string>)

  /** A book row as the EPUB routes use it; `epubMetadata` is `None` when the column is null or empty. */
  datatype EpubBook = EpubBook(
    title: string, author: string, description: string,
    filePath: Option<string>, fileName: string, fileSize: int, mimeType: string,
    totalChapters: int, epubMetadata: Option<StoredMetadata>, uploadedBy: string)

  /** The handler's answer, and whether it deleted the uploaded file. */
  datatype UploadOutcome = UploadOutcome(response: Response<EpubBook>, fileRemoved: bool)

  const UploadFailed := "Erreur lors du traitement du fichier EPUB"

  /** `custom || extracted`; a raw object is not a string, so the insert fails. */
  function Pick(custom: Option<string>, extracted: MetaValue): Option<string> {
    if Truthy(custom) then custom else if extracted.Text? then Some(extracted.text) else None
  }

  /** `POST /upload`: `archive` is the zip read from the uploaded file. */
  function Upload(file: Option<UploadedFile>, form: UploadForm, archive: Option<seq<Entry>>, uploader: string): (r: UploadOutcome)
    ensures file.None? ==> r == UploadOutcome(Refused(400, "Aucun fichier EPUB fourni"), false)
    ensures file.Some? && !r.response.Ok? ==> r == UploadOutcome(Refused(500, UploadFailed), file.value.path != "")
    ensures r.response.Ok? <==>
      && file.Some? && Extract(archive).Success?
      && var info := Extract(archive).value;
      && (Truthy(form.title) || info.title.Text?) && (Truthy(form.author) || info.author.Text?)
      && (Truthy(form.description) || info.description.Text?)
    ensures r.response.Ok? ==> file.Some? && Extract(archive).Success? && !r.fileRemoved
    ensures r.response.Ok? ==>
      var info, b := Extract(archive).value, r.response.value;
      && b.filePath == Some(file.value.path) && b.uploadedBy == uploader
      && b.totalChapters == |info.chapters|
      && b.epubMetadata == Some(StoredMetadata(Some(info.chapters), Some(info.opfPath)))
      && (if Truthy(form.title) then b.title == form.title.value else info.title == Text(b.title))
      && (if Truthy(form.author) then b.author == form.author.value else info.author == Text(b.author))
      && (if Truthy(form.description) then b.description == form.description.value else info.description == Text(b.description))
  {
    if file.None? then UploadOutcome(Refused(400, "Aucun fichier EPUB fourni"), false)
    else match Extract(archive)
      case Failure(_) => UploadOutcome(Refused(500, UploadFailed), file.value.path != "")
      case Success(info) =>
        var title, author, description :=
          Pick(form.title, info.title), Pick(form.author, info.author), Pick(form.description, info.description);
        if title.None? || author.None? || description.None? then UploadOutcome(Refused(500, UploadFailed), file.value.path != "")
        else
          var f := file.value;
          UploadOutcome(Ok(EpubBook(
            title.value, author.value, description.value, Some(f.path), f.fileName, f.size, f.mimeType,
            info.totalChapters, Some(StoredMetadata(Some(info.chapters), Some(info.opfPath))), uploader)), false)
  }

  // ---------------------------------------------------------------------------
  // Paths: `path.dirname` (POSIX) and the chapter path

  /** The scan of `dirname` from position `i` down to 1: the position of the slash ending the directory part, or -1. */
  function DirEnd(p: string, i: int, matchedSlash: bool): (end: int)
    requires i < |p|
    ensures end == -1 || 1 <= end <= i
    decreases i
  {
    if i < 1 then -1
    else if p[i] == '/' then (if !matchedSlash then i else DirEnd(p, i - 1, true))
    else DirEnd(p, i - 1, false)
  }

  /** Node's `path.posix.dirname`. */
  function Dirname(p: string): (d: string)
    ensures d != ""
  {
    if p == [] then "."
    else
      var end := DirEnd(p, |p| - 1, true);
      if end == -1 then (if p[0] == '/' then "/" else ".")
      else if p[0] == '/' && end == 1 then "//"
      else p[..end]
  }

  /** `opfDir ? `${opfDir}/${href}` : href`. */
  function ChapterPath(opfPath: string, href: string): (path: string)
    ensures path == Dirname(opfPath) + "/" + href
  {
    var dir := Dirname(opfPath);
    if dir != "" then dir + "/" + href else href
  }

  lemma {:induction false} DirEndNoSlash(p: string, i: int, m: bool)
    requires i < |p|
    requires forall k :: 1 <= k <= i ==> p[k] != '/'
    ensures DirEnd(p, i, m) == -1
    decreases i
  {
    if i >= 1 {
      DirEndNoSlash(p, i - 1, false);
    }
  }

  lemma {:induction false} DirEndName(p: string, j: int, i: int, m: bool)
    requires 1 <= j < i < |p| && p[j] == '/'
    requires forall k :: j < k <= i ==> p[k] != '/'
    ensures DirEnd(p, i, m) == j
    decreases i
  {
    if i - 1 > j {
      DirEndName(p, j, i - 1, false);
    }
  }

  /** A package document at the root of the archive has directory ".", so its chapters are looked up as "./href". */
  lemma RootPackageChapterPath(opfPath: string, href: string)
    requires opfPath != "" && '/' !in opfPath
    ensures Dirname(opfPath) == "."
    ensures ChapterPath(opfPath, href) == "./" + href
  {
    DirEndNoSlash(opfPath, |opfPath| - 1, true);
  }

  /** A package document in directory `dir` puts its chapters under `dir`. */
  lemma NestedPackageChapterPath(dir: string, file: string, href: string)
    requires dir != "" && dir[|dir| - 1] != '/'
    requires file != "" && '/' !in file
    ensures Dirname(dir + "/" + file) == dir
    ensures ChapterPath(dir + "/" + file, href) == dir + "/" + href
  {
    var p := dir + "/" + file;
    forall k | |dir| < k <= |p| - 1 ensures p[k] != '/' {
      assert p[k] == file[k - |dir| - 1];
    }
    if |dir| >= 1 && p[|dir|] == '/' {
      if |p| - 1 > |dir| {
        DirEndName(p, |dir|, |p| - 1, true);
      }
    }
    assert p[..|dir|] == dir;
  }

  // ---------------------------------------------------------------------------
  // Reading a chapter, and the table of contents

  datatype Navigation = Navigation(hasPrevious: bool, hasNext: bool, previousIndex: Option<int>, nextIndex: Option<int>)

  datatype ChapterView = ChapterView(index: int, id: string, title: string, content: string, href: string, navigation: Navigation)

  const ReadFailed := "Erreur lors de la lecture du chapitre"

  /** `JSON.parse(book.epubMetadata || '{}').chapters`. */
  function StoredChapters(book: EpubBook): Option<seq<Chapter>> {
    if book.epubMetadata.None? then None else book.epubMetadata.value.chapters
  }

  function Navigate(i: int, n: int): Navigation {
    Navigation(i > 0, i < n - 1, if i > 0 then Some(i - 1) else None, if i < n - 1 then Some(i + 1) else None)
  }

  /**
   * `GET /:bookId/chapter/:chapterIndex`: `archive` is the zip at the book's file
   * path. Only the upper bound of the index is checked; NaN or a negative index
   * selects no chapter, and reading its `href` throws.
   */
  function ReadChapter(book: Option<EpubBook>, archive: Option<seq<Entry>>, chapterIndex: ParsedInt): (r: Response<ChapterView>)
    ensures book.None? || !Truthy(book.value.filePath) ==> r == Refused(404, "Livre non trouvé")
    ensures book.Some? && Truthy(book.value.filePath) && archive.None? ==> r == Refused(500, ReadFailed)
    ensures book.Some? && Truthy(book.value.filePath) && archive.Some? ==>
      (r == Refused(404, "Chapitre non trouvé") <==>
        StoredChapters(book.value).None? || (chapterIndex.IntValue? && chapterIndex.n >= |StoredChapters(book.value).value|))
    ensures (book.Some? && Truthy(book.value.filePath) && archive.Some? && StoredChapters(book.value).Some?
             && (chapterIndex.NotANumber? || chapterIndex.n < 0)) ==> r == Refused(500, ReadFailed)
    ensures (book.Some? && Truthy(book.value.filePath) && archive.Some? && StoredChapters(book.value).Some?
             && chapterIndex.IntValue? && 0 <= chapterIndex.n < |StoredChapters(book.value).value|) ==>
      var opfPath := book.value.epubMetadata.value.opfPath;
      && (opfPath.None? ==> r == Refused(500, ReadFailed))
      && (opfPath.Some? ==>
            var path := ChapterPath(opfPath.value, StoredChapters(book.value).value[chapterIndex.n].href);
            && (r.Ok? <==> HasEntry(archive.value, path))
            && (!HasEntry(archive.value, path) ==> r == Refused(404, "Contenu du chapitre non trouvé")))
    ensures r.Ok? ==>
      && book.Some? && archive.Some? && StoredChapters(book.value).Some? && chapterIndex.IntValue?
      && var cs, i := StoredChapters(book.value).value, chapterIndex.n;
      && 0 <= i < |cs| && book.value.epubMetadata.value.opfPath.Some?
      && var path := ChapterPath(book.value.epubMetadata.value.opfPath.value, cs[i].href);
      && HasEntry(archive.value, path)
      && r.value.content == archive.value[EntryIndex(archive.value, Some(path))].content
      && r.value.index == i && r.value.id == cs[i].id && r.value.title == cs[i].title && r.value.href == cs[i].href
      && (r.value.navigation.hasPrevious <==> i > 0) && (r.value.navigation.hasNext <==> i < |cs| - 1)
      && r.value.navigation.previousIndex == (if i > 0 then Some(i - 1) else None)
      && r.value.navigation.nextIndex == (if i < |cs| - 1 then Some(i + 1) else None)
  {
    if book.None? || !Truthy(book.value.filePath) then Refused(404, "Livre non trouvé")
    else if archive.None? then Refused(500, ReadFailed)
    else
      var chapters := StoredChapters(book.value);
      if chapters.None? || (chapterIndex.IntValue? && chapterIndex.n >= |chapters.value|) then Refused(404, "Chapitre non trouvé")
      else if chapterIndex.NotANumber? || chapterIndex.n < 0 then Refused(500, ReadFailed)
      else
        var opfPath := book.value.epubMetadata.value.opfPath;
        if opfPath.None? then Refused(500, ReadFailed)
        else
          var i, cs := chapterIndex.n, chapters.value;
          var path := ChapterPath(opfPath.value, cs[i].href);
          var k := EntryIndex(archive.value, Some(path));
          EntryIndexFound(archive.value, path);
          if k == |archive.value| then Refused(404, "Contenu du chapitre non trouvé")
          else Ok(ChapterView(i, cs[i].id, cs[i].title, archive.value[k].content, cs[i].href, Navigate(i, |cs|)))
  }

  datatype TocEntry = TocEntry(index: int, id: string, title: string, href: string)

  const TocFailed := "Erreur lors de la récupération de la table des matières"

  /** `GET /:bookId/toc`: entry k describes chapter k. */
  function TableOfContents(book: Option<EpubBook>): (r: Response<seq<TocEntry>>)
    ensures book.None? || book.value.epubMetadata.None? ==> r == Refused(404, "Livre non trouvé")
    ensures book.Some? && book.value.epubMetadata.Some? && StoredChapters(book.value).None? ==> r == Refused(500, TocFailed)
    ensures r.Ok? <==> book.Some? && book.value.epubMetadata.Some? && StoredChapters(book.value).Some?
    ensures r.Ok? ==> |r.value| == |StoredChapters(book.value).value|
    ensures r.Ok? ==> forall k :: 0 <= k < |r.value| ==>
      var c := StoredChapters(book.value).value[k];
      r.value[k] == TocEntry(k, c.id, c.title, c.href)
  {
    if book.None? || book.value.epubMetadata.None? then Refused(404, "Livre non trouvé")
    else
      var chapters := book.value.epubMetadata.value.chapters;
      if chapters.None? then Refused(500, TocFailed)
      else
        var cs := chapters.value;
        Ok(seq(|cs|, k requires 0 <= k < |cs| => TocEntry(k, cs[k].id, cs[k].title, cs[k].href)))
  }

  /**
   * Every entry of the table of contents is a chapter the reader can ask for:
   * reading its index never answers "Chapitre non trouvé", and when it succeeds
   * it shows that entry's chapter.
   */
  lemma TocIndicesReadable(book: EpubBook, archive: seq<Entry>, k: nat)
    requires Truthy(book.filePath)
    requires TableOfContents(Some(book)).Ok? && k < |TableOfContents(Some(book)).value|
    ensures ReadChapter(Some(book), Some(archive), IntValue(k)) != Refused(404, "Chapitre non trouvé")
    ensures var r, e := ReadChapter(Some(book), Some(archive), IntValue(k)), TableOfContents(Some(book)).value[k];
      r.Ok? ==> r.value.index == e.index && r.value.id == e.id && r.value.title == e.title && r.value.href == e.href
  {
  }

  /**
   * A book stored by the upload route knows exactly the spine's chapters:
   * index i is "not found" iff i is at least the number of itemrefs. Only
   * that upper bound is checked: a negative index fails with 500.
   */
  lemma UploadedChapterRange(file: UploadedFile, form: UploadForm, zip: seq<Entry>, uploader: string, i: int)
    requires Upload(Some(file), form, Some(zip), uploader).response.Ok?
    requires file.path != ""
    ensures var book := Upload(Some(file), form, Some(zip), uploader).response.value;
      ReadChapter(Some(book), Some(zip), IntValue(i)) == Refused(404, "Chapitre non trouvé") <==>
        i >= Extract(Some(zip)).value.totalChapters
    ensures i < 0 ==> ReadChapter(Some(Upload(Some(file), form, Some(zip), uploader).response.value), Some(zip), IntValue(i))
                      == Refused(500, ReadFailed)
  {
  }
}
