/** Book metadata by ISBN from two catalogues. Google Books is asked first.
    Open Library is asked only when Google has no volume. Each reply is
    reshaped into one common record. The replies are inputs here: no
    request is made. */
module IsbnLookup {

  import opened Wrappers
  import opened Text

  /** The fields of a Google Books volume that the lookup reads. A missing
      `authors` list reads as empty, and so does a missing `publishedDate`. */
  datatype VolumeInfo = VolumeInfo(
    title: Option<string>,
    authors: seq<string>,
    publisher: Option<string>,
    publishedDate: string,
    description: Option<string>,
    thumbnail: Option<string>,
    pageCount: Option<int>,
    language: Option<string>)

  /** A Google Books reply: the HTTP status and the volumes found. */
  datatype GoogleReply = GoogleReply(status: int, items: seq<VolumeInfo>)

  /** The fields of an Open Library edition that the lookup reads: the
      author names, the publisher list and the language keys when present.
      A missing `publish_date` or `notes` reads as empty. */
  datatype EditionRecord = EditionRecord(
    title: Option<string>,
    authorNames: seq<string>,
    publishers: Option<seq<string>>,
    publishDate: string,
    notes: string,
    numberOfPages: Option<int>,
    languages: Option<seq<string>>)

  /** An Open Library reply: the HTTP status and the edition record. */
  datatype OpenLibraryReply = OpenLibraryReply(status: int, data: EditionRecord)

  /** The common record the lookup answers with. */
  datatype Metadata = Metadata(
    isbn: string,
    title: Option<string>,
    author: string,
    publisher: Option<string>,
    publicationYear: string,
    description: Option<string>,
    coverImageUrl: Option<string>,
    pageCount: Option<int>,
    language: Option<string>)

  /** `BookNotFound` is the service's 404 reply. `MalformedReply` stands for
      the exception raised when Open Library sends an empty list or a blank
      date where an element is read. */
  datatype LookupError = BookNotFound | MalformedReply(field: string)
  {
    /** The reply body: the 404 detail, or the bare 500 an uncaught
        exception gets. */
    function Detail(): string
    {
      match this
      case BookNotFound => "Book not found"
      case MalformedReply(_) => "Internal Server Error"
    }
  }

  const CoverPrefix: string := "http://covers.openlibrary.org/b/isbn/"
  const CoverSuffix: string := "-M.jpg"

  /** The medium-size Open Library cover address for `isbn`. */
  function CoverUrl(isbn: string): (u: string)
    ensures |u| == |CoverPrefix| + |isbn| + |CoverSuffix|
    ensures u[..|CoverPrefix|] == CoverPrefix
    ensures u[|CoverPrefix|..|CoverPrefix| + |isbn|] == isbn
    ensures u[|u| - |CoverSuffix|..] == CoverSuffix
  {
    CoverPrefix + isbn + CoverSuffix
  }

  /** Google answered 200 with at least one volume. */
  predicate GoogleHit(g: GoogleReply)
  {
    g.status == 200 && |g.items| > 0
  }

  /** The common record built from the first Google volume. */
  function FromGoogle(isbn: string, v: VolumeInfo): (m: Metadata)
    ensures m.isbn == isbn
    ensures m.author == Join(v.authors, AuthorSeparator)
    ensures |m.publicationYear| <= |v.publishedDate|
    ensures m.publicationYear == v.publishedDate[..|m.publicationYear|]
    ensures '-' !in m.publicationYear
    ensures |m.publicationYear| < |v.publishedDate| ==> v.publishedDate[|m.publicationYear|] == '-'
  {
    Metadata(
      isbn,
      v.title,
      Join(v.authors, AuthorSeparator),
      v.publisher,
      FirstPiece(v.publishedDate, '-'),
      v.description,
      v.thumbnail,
      v.pageCount,
      v.language)
  }

  /** The common record built from an Open Library edition. Reading the
      first of an empty publisher or language list fails, and so does
      taking the last word of a blank publication date; the three are
      read in that order. */
  function FromOpenLibrary(isbn: string, d: EditionRecord): (r: Result<Metadata, LookupError>)
    ensures r.Failure? <==> d.publishers == Some([]) || AllSpace(d.publishDate) || d.languages == Some([])
    ensures r.Failure? ==> r.error.MalformedReply?
    ensures r.Success? ==>
      && r.value.isbn == isbn
      && r.value.author == Join(d.authorNames, AuthorSeparator)
      && r.value.coverImageUrl == Some(CoverUrl(isbn))
      && IsLastWord(d.publishDate, r.value.publicationYear)
      && r.value.publisher == Some(if d.publishers.Some? then d.publishers.value[0] else "")
      && r.value.description == Some(d.notes)
      && r.value.language == Some(LastPiece(if d.languages.Some? then d.languages.value[0] else "", '/'))
      && '/' !in r.value.language.value
  {
    var publishers := if d.publishers.Some? then d.publishers.value else [""];
    var languages := if d.languages.Some? then d.languages.value else [""];
    if publishers == [] then Failure(MalformedReply("publishers"))
    else if AllSpace(d.publishDate) then Failure(MalformedReply("publish_date"))
    else if languages == [] then Failure(MalformedReply("languages"))
    else
      Success(Metadata(
        isbn,
        d.title,
        Join(d.authorNames, AuthorSeparator),
        Some(publishers[0]),
        LastToken(d.publishDate),
        Some(d.notes),
        Some(CoverUrl(isbn)),
        d.numberOfPages,
        Some(LastPiece(languages[0], '/'))))
  }

  /** The lookup: Google's first volume when Google has one, otherwise Open
      Library's edition when it answers 200, otherwise not found. */
  function Lookup(isbn: string, g: GoogleReply, o: OpenLibraryReply): (r: Result<Metadata, LookupError>)
    ensures r == Failure(BookNotFound) <==> !GoogleHit(g) && o.status != 200
    ensures r.Success? ==> r.value.isbn == isbn
    ensures GoogleHit(g) ==> r == Success(FromGoogle(isbn, g.items[0]))
    ensures !GoogleHit(g) && o.status == 200 ==> r == FromOpenLibrary(isbn, o.data)
    ensures r.Success? && !GoogleHit(g) ==> r.value.coverImageUrl == Some(CoverUrl(isbn))
  {
    if GoogleHit(g) then Success(FromGoogle(isbn, g.items[0]))
    else if o.status == 200 then FromOpenLibrary(isbn, o.data)
    else Failure(BookNotFound)
  }

  /** When Google has a volume, Open Library's reply makes no difference. */
  lemma GoogleFirst(isbn: string, g: GoogleReply, o1: OpenLibraryReply, o2: OpenLibraryReply)
    requires GoogleHit(g)
    ensures Lookup(isbn, g, o1) == Lookup(isbn, g, o2) == Success(FromGoogle(isbn, g.items[0]))
  {
  }

  /** The year of a Google date `y-rest` is `y`. */
  lemma GoogleYear(isbn: string, v: VolumeInfo, y: string, rest: string)
    requires v.publishedDate == y + "-" + rest && '-' !in y
    ensures FromGoogle(isbn, v).publicationYear == y
  {
    SplitFirstPiece(y, '-', rest);
  }

  /** Google's author list survives the trip through the joined author
      column: splitting it on ", " gives the list back. */
  lemma GoogleAuthorsRoundTrip(isbn: string, v: VolumeInfo)
    requires |v.authors| >= 1
    requires forall k :: 0 <= k < |v.authors| ==> !Contains(v.authors[k], AuthorSeparator)
    ensures Split(FromGoogle(isbn, v).author, AuthorSeparator) == v.authors
  {
    JoinSplitRoundTrip(v.authors);
  }

  /** The year of an Open Library date is its last word: for `pre y`,
      `May 2001`, `2001` or `2001 ` it is `y`, whatever whitespace stands
      before or after it. */
  lemma OpenLibraryYear(isbn: string, d: EditionRecord, pre: string, sp: string, y: string, trail: string)
    requires d.publishers != Some([]) && d.languages != Some([])
    requires d.publishDate == pre + sp + y + trail
    requires y != [] && NoSpace(y) && AllSpace(sp) && AllSpace(trail) && (pre != [] ==> sp != [])
    ensures FromOpenLibrary(isbn, d).Success?
    ensures FromOpenLibrary(isbn, d).value.publicationYear == y
  {
    LastWordOfParts(pre, sp, y, trail);
    var year := FromOpenLibrary(isbn, d).value.publicationYear;
    var e :| IsLastWordAt(d.publishDate, year, e);
    LastWordUnique(d.publishDate, year, e, y, |pre| + |sp| + |y|);
  }

  /** The language of an Open Library edition is its first language key
      after the last "/": `/languages/eng` gives `eng`. */
  lemma OpenLibraryLanguage(isbn: string, d: EditionRecord, path: string, code: string, more: seq<string>)
    requires d.publishers != Some([]) && !AllSpace(d.publishDate)
    requires d.languages == Some([path + "/" + code] + more) && '/' !in code
    ensures FromOpenLibrary(isbn, d).Success?
    ensures FromOpenLibrary(isbn, d).value.language == Some(code)
  {
    SplitLastPiece(path, '/', code);
    assert LastPiece(path + "/" + code, '/') == code;
  }

  /** An Open Library edition without a language list gets the empty
      language, and one without a publisher list the empty publisher. */
  lemma OpenLibraryDefaults(isbn: string, d: EditionRecord)
    requires d.publishers.None? && d.languages.None? && !AllSpace(d.publishDate)
    ensures FromOpenLibrary(isbn, d).Success?
    ensures FromOpenLibrary(isbn, d).value.language == Some("")
    ensures FromOpenLibrary(isbn, d).value.publisher == Some("")
  {
  }
}
