/** Book assembly: `create_epub` builds the package from the surviving
    `(title, translated)` pairs. The ebooklib objects are modelled by the
    parts of them this code sets: content documents, the table of contents,
    the stylesheet item, the cover and the spine. */
module Epub {
  import opened Wrappers
  import opened Effects
  import opened Decimal

  /** One surviving chapter: its title and its translated text. */
  datatype Chapter = Chapter(title: string, body: string)

  /** An `EpubHtml` content document. */
  datatype Document = Document(fileName: string, title: string, lang: string, content: string)

  /** An `epub.Link(href, title, uid)` table-of-contents entry. */
  datatype Link = Link(href: string, title: string, uid: string)

  /** The items added with `add_item`, in order. Only `HtmlItem` is taken to
      be an `EpubHtml`: the navigation and NCX documents and the stylesheet are
      assumed not to be. */
  datatype Item =
    | HtmlItem(doc: Document)
    | NcxItem
    | NavItem
    | StyleItem(uid: string, fileName: string, mediaType: string, content: string)

  datatype Cover = Cover(fileName: string, content: seq<byte>)

  /** A spine entry: the string `'nav'` or a content document. */
  datatype SpineEntry = NavEntry | DocEntry(doc: Document)

  datatype Book = Book(
    title: string,
    language: string,
    authors: seq<string>,
    items: seq<Item>,
    cover: Option<Cover>,
    toc: seq<Link>,
    spine: seq<SpineEntry>)

  /** A package written at `path`. */
  datatype Artifact = Artifact(path: string, book: Book)

  const Language := "en"
  const CoverName := "cover.jpg"
  const StyleUid := "style_nav"
  const StyleFile := "style/nav.css"
  const StyleMediaType := "text/css"
  const Stylesheet := "BODY { font-family: Times, serif; } P { margin-bottom: 1em; }"
  const ChapterPrefix := "chap_"
  const ChapterSuffix := ".xhtml"

  /** The text between `chap_` and `.xhtml` in a name long enough to hold both. */
  function ChapterDigits(name: string): string
    requires |ChapterPrefix| + |ChapterSuffix| <= |name|
  {
    name[|ChapterPrefix|..|name| - |ChapterSuffix|]
  }

  /** The number in a chapter name is written without leading zeros, as `f"{n}"` writes it. */
  predicate CanonicalNumber(name: string) {
    |ChapterPrefix| + |ChapterSuffix| <= |name| && Canonical(ChapterDigits(name))
  }

  /** The chapter number a document name `chap_<n>.xhtml` carries, if it has that form. */
  function ChapterNumber(name: string): Option<nat> {
    if |name| < |ChapterPrefix| + |ChapterSuffix| then None
    else
      var digits := ChapterDigits(name);
      if name[..|ChapterPrefix|] == ChapterPrefix
         && name[|name| - |ChapterSuffix|..] == ChapterSuffix
         && IsDigits(digits)
      then Some(ParseDigits(digits))
      else None
  }

  /** The file name of the `k`-th (0-based) surviving chapter: it carries the
      number `k + 1`, so names run from 1 without gaps and never repeat. */
  function ChapterFileName(k: nat): (name: string)
    ensures ChapterNumber(name) == Some(k + 1)
    ensures CanonicalNumber(name)
  {
    var digits := NatToString(k + 1);
    var name := ChapterPrefix + digits + ChapterSuffix;
    assert name[..|ChapterPrefix|] == ChapterPrefix;
    assert name[|ChapterPrefix|..|name| - |ChapterSuffix|] == digits;
    assert name[|name| - |ChapterSuffix|..] == ChapterSuffix;
    ParseFormat(k + 1);
    name
  }

  /** A name carrying the number `k + 1` without leading zeros is exactly the
      name of the `k`-th chapter: `chap_01.xhtml` is not one of them. */
  lemma ChapterNameUnique(name: string, k: nat)
    requires ChapterNumber(name) == Some(k + 1)
    requires CanonicalNumber(name)
    ensures name == ChapterFileName(k)
  {
    var digits := ChapterDigits(name);
    FormatParse(digits);
    assert digits == NatToString(k + 1);
    assert name == name[..|ChapterPrefix|] + digits + name[|name| - |ChapterSuffix|..];
  }

  function Heading(title: string): string {
    "<h1>" + title + "</h1>"
  }

  /** The text after the heading of a document titled `title`. */
  function BodyOf(title: string, content: string): string {
    var h := Heading(title);
    if |h| <= |content| && content[..|h|] == h then content[|h|..] else content
  }

  /** The content document of the `k`-th surviving chapter. */
  function ChapterDocument(k: nat, c: Chapter): (d: Document)
    ensures d.title == c.title && d.lang == Language
    ensures |Heading(c.title)| <= |d.content|
    ensures d.content[..|Heading(c.title)|] == Heading(c.title) && d.content[|Heading(c.title)|..] == c.body
    ensures BodyOf(d.title, d.content) == c.body
    ensures ChapterNumber(d.fileName) == Some(k + 1) && CanonicalNumber(d.fileName)
  {
    var content := Heading(c.title) + c.body;
    assert content[..|Heading(c.title)|] == Heading(c.title);
    assert content[|Heading(c.title)|..] == c.body;
    Document(ChapterFileName(k), c.title, Language, content)
  }

  function ChapterDocuments(chapters: seq<Chapter>): (docs: seq<Document>)
    ensures |docs| == |chapters|
  {
    seq(|chapters|, k requires 0 <= k < |chapters| => ChapterDocument(k, chapters[k]))
  }

  /** The `isinstance(ch, epub.EpubHtml)` filter over the book's items, in order. */
  function HtmlDocuments(items: seq<Item>): (docs: seq<Document>)
    ensures |docs| <= |items|
  {
    if |items| == 0 then []
    else
      var last := items[|items| - 1];
      HtmlDocuments(items[..|items| - 1]) + (if last.HtmlItem? then [last.doc] else [])
  }

  lemma {:induction false} HtmlDocumentsAppend(a: seq<Item>, b: seq<Item>)
    ensures HtmlDocuments(a + b) == HtmlDocuments(a) + HtmlDocuments(b)
    decreases |b|
  {
    if |b| == 0 {
      assert a + b == a;
    } else {
      var b' := b[..|b| - 1];
      assert (a + b)[..|a + b| - 1] == a + b';
      HtmlDocumentsAppend(a, b');
    }
  }

  function HtmlItems(docs: seq<Document>): (items: seq<Item>)
    ensures |items| == |docs|
  {
    seq(|docs|, k requires 0 <= k < |docs| => HtmlItem(docs[k]))
  }

  /** Filtering the content documents back out of their items gives them back unchanged. */
  lemma {:induction false} HtmlDocumentsOfItems(docs: seq<Document>)
    ensures HtmlDocuments(HtmlItems(docs)) == docs
    decreases |docs|
  {
    if |docs| > 0 {
      var init := docs[..|docs| - 1];
      assert HtmlItems(docs)[..|docs| - 1] == HtmlItems(init);
      HtmlDocumentsOfItems(init);
    }
  }

  function TocOf(docs: seq<Document>): (toc: seq<Link>)
    ensures |toc| == |docs|
  {
    seq(|docs|, k requires 0 <= k < |docs| => Link(docs[k].fileName, docs[k].title, docs[k].title))
  }

  function SpineOf(docs: seq<Document>): (spine: seq<SpineEntry>)
    ensures |spine| == |docs| + 1
  {
    [NavEntry] + seq(|docs|, k requires 0 <= k < |docs| => DocEntry(docs[k]))
  }

  /** The stylesheet item every book carries. */
  const StyleSheetItem := StyleItem(StyleUid, StyleFile, StyleMediaType, Stylesheet)

  /** The book `create_epub` builds before writing it; `coverBytes` is the
      content of the cover file when one was given. */
  function BuildBook(title: string, author: string, chapters: seq<Chapter>, coverBytes: Option<seq<byte>>): Book {
    var chapterItems := HtmlItems(ChapterDocuments(chapters));
    var toc := TocOf(HtmlDocuments(chapterItems));
    var items := chapterItems + [NcxItem, NavItem, StyleSheetItem];
    var cover := if coverBytes.Some? then Some(Cover(CoverName, coverBytes.value)) else None;
    Book(title, Language, [author], items, cover, toc, SpineOf(HtmlDocuments(items)))
  }

  /** The content documents of a book, in the order they were added. */
  function Documents(b: Book): seq<Document> {
    HtmlDocuments(b.items)
  }

  /** The `(title, translated)` pairs a book's documents hold. */
  function ChaptersOf(b: Book): (chapters: seq<Chapter>)
    ensures |chapters| == |Documents(b)|
  {
    var docs := Documents(b);
    seq(|docs|, k requires 0 <= k < |docs| => Chapter(docs[k].title, BodyOf(docs[k].title, docs[k].content)))
  }

  /** The book's content documents are exactly one document per chapter,
      in order, and the TOC built before the navigation and stylesheet items
      were added sees the same documents as the spine built after. */
  lemma BookDocuments(title: string, author: string, chapters: seq<Chapter>, coverBytes: Option<seq<byte>>)
    ensures var b := BuildBook(title, author, chapters, coverBytes);
      && Documents(b) == ChapterDocuments(chapters)
      && HtmlDocuments(HtmlItems(ChapterDocuments(chapters))) == Documents(b)
  {
    var docs := ChapterDocuments(chapters);
    HtmlDocumentsOfItems(docs);
    HtmlDocumentsAppend(HtmlItems(docs), [NcxItem, NavItem, StyleSheetItem]);
    var tail := [NcxItem, NavItem, StyleSheetItem];
    assert HtmlDocuments([NcxItem]) == [] by {
      assert [NcxItem][..0] == [];
    }
    assert HtmlDocuments([NcxItem, NavItem]) == [] by {
      assert [NcxItem, NavItem][..1] == [NcxItem];
    }
    assert HtmlDocuments(tail) == [] by {
      assert tail[..2] == [NcxItem, NavItem];
    }
  }

  /** Building then reading back the chapters gives the chapters. */
  lemma BookRoundTrip(title: string, author: string, chapters: seq<Chapter>, coverBytes: Option<seq<byte>>)
    ensures ChaptersOf(BuildBook(title, author, chapters, coverBytes)) == chapters
  {
    BookDocuments(title, author, chapters, coverBytes);
  }

  /** Each document of the book holds its chapter: the chapter's title,
      language `en`, and content the `<h1>` heading of the title followed by
      exactly the translated body. */
  lemma BookContents(title: string, author: string, chapters: seq<Chapter>, coverBytes: Option<seq<byte>>)
    ensures var docs := Documents(BuildBook(title, author, chapters, coverBytes));
      && |docs| == |chapters|
      && forall k :: 0 <= k < |docs| ==>
           var h := Heading(chapters[k].title);
           && docs[k].title == chapters[k].title && docs[k].lang == Language
           && |h| <= |docs[k].content|
           && docs[k].content[..|h|] == h && docs[k].content[|h|..] == chapters[k].body
  {
    BookDocuments(title, author, chapters, coverBytes);
    var docs := ChapterDocuments(chapters);
    forall k | 0 <= k < |docs|
      ensures docs[k] == ChapterDocument(k, chapters[k])
    {
    }
  }

  /** Document names are `chap_1.xhtml`, `chap_2.xhtml`, ... in order, with
      no gaps and no repeats, whichever source chapters were dropped. */
  lemma BookFileNames(title: string, author: string, chapters: seq<Chapter>, coverBytes: Option<seq<byte>>)
    ensures var docs := Documents(BuildBook(title, author, chapters, coverBytes));
      && (forall k :: 0 <= k < |docs| ==> docs[k].fileName == ChapterFileName(k))
      && (forall k :: 0 <= k < |docs| ==> ChapterNumber(docs[k].fileName) == Some(k + 1) && CanonicalNumber(docs[k].fileName))
      && (forall j, k :: 0 <= j < k < |docs| ==> docs[j].fileName != docs[k].fileName)
  {
    BookDocuments(title, author, chapters, coverBytes);
    var docs := ChapterDocuments(chapters);
    forall k | 0 <= k < |docs|
      ensures docs[k] == ChapterDocument(k, chapters[k])
    {
    }
    forall j, k | 0 <= j < k < |docs|
      ensures docs[j].fileName != docs[k].fileName
    {
      assert ChapterNumber(docs[j].fileName) == Some(j + 1);
      assert ChapterNumber(docs[k].fileName) == Some(k + 1);
    }
  }

  /** One TOC link per content document, in order, linking to it and labelled
      by its title; the spine is `'nav'` followed by the same documents. */
  lemma BookNavigation(title: string, author: string, chapters: seq<Chapter>, coverBytes: Option<seq<byte>>)
    ensures var b := BuildBook(title, author, chapters, coverBytes);
      var docs := Documents(b);
      && |b.toc| == |docs| == |chapters|
      && |b.spine| == |docs| + 1
      && b.spine[0] == NavEntry
      && (forall k :: 0 <= k < |docs| ==>
            && b.toc[k] == Link(docs[k].fileName, chapters[k].title, chapters[k].title)
            && b.spine[k + 1] == DocEntry(docs[k]))
  {
    BookDocuments(title, author, chapters, coverBytes);
  }

  /** Metadata, cover and stylesheet: language `en`, the one author, a cover
      named `cover.jpg` exactly when bytes were read, and the fixed stylesheet. */
  lemma BookResources(title: string, author: string, chapters: seq<Chapter>, coverBytes: Option<seq<byte>>)
    ensures var b := BuildBook(title, author, chapters, coverBytes);
      && b.title == title && b.language == Language && b.authors == [author]
      && (b.cover.Some? <==> coverBytes.Some?)
      && (b.cover.Some? ==> b.cover.value == Cover(CoverName, coverBytes.value))
      && StyleSheetItem in b.items
      && (forall i :: 0 <= i < |b.items| && b.items[i].StyleItem? ==> b.items[i] == StyleSheetItem)
  {
    var b := BuildBook(title, author, chapters, coverBytes);
    assert b.items[|b.items| - 1] == StyleSheetItem;
  }

  /** `os.path.join(directory, name)` on a POSIX system. */
  function JoinPath(directory: string, name: string): (path: string)
    ensures |name| <= |path| && path[|path| - |name|..] == name
    ensures (|name| == 0 || name[0] != '/') ==> |directory| <= |path| && path[..|directory|] == directory
    ensures |name| > 0 && name[0] == '/' ==> path == name
    ensures (|name| == 0 || name[0] != '/') && |directory| > 0 && directory[|directory| - 1] != '/' ==>
      |path| == |directory| + 1 + |name| && path[|directory|] == '/'
    ensures (|name| == 0 || name[0] != '/') && (|directory| == 0 || directory[|directory| - 1] == '/') ==>
      |path| == |directory| + |name|
  {
    if |name| > 0 && name[0] == '/' then name
    else if |directory| == 0 || directory[|directory| - 1] == '/' then directory + name
    else directory + "/" + name
  }

  /** The cover bytes `create_epub` embeds: those read from `coverPath`, when one is given. */
  function CoverBytes(coverPath: string, coverRead: Reply<seq<byte>>): Option<seq<byte>> {
    if coverPath != "" && coverRead.Returned? then Some(coverRead.value) else None
  }

  /** `create_epub`: reading the cover (when a cover path is given) and writing
      the package can each raise; otherwise the built book is written at
      `JoinPath(outputDir, fileName)`. */
  function CreateEpub(
    title: string, author: string, chapters: seq<Chapter>, outputDir: string, fileName: string,
    coverPath: string, coverRead: Reply<seq<byte>>, write: Reply<()>): (r: Result<Artifact, string>)
    ensures r.Success? <==> (coverPath == "" || coverRead.Returned?) && write.Returned?
    ensures r.Failure? ==> r.error == (if coverPath != "" && coverRead.Raised? then coverRead.detail else write.detail)
    ensures r.Success? ==>
      && r.value.path == JoinPath(outputDir, fileName)
      && ChaptersOf(r.value.book) == chapters
      && (r.value.book.cover.Some? <==> coverPath != "")
      && r.value.book == BuildBook(title, author, chapters, CoverBytes(coverPath, coverRead))
  {
    if coverPath != "" && coverRead.Raised? then Failure(coverRead.detail)
    else
      var coverBytes := CoverBytes(coverPath, coverRead);
      BookRoundTrip(title, author, chapters, coverBytes);
      if write.Raised? then Failure(write.detail)
      else Success(Artifact(JoinPath(outputDir, fileName), BuildBook(title, author, chapters, coverBytes)))
  }
}
