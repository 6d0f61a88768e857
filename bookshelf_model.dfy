/** The records of the single-page client (cps/static/bookshelf/js/app.js):
    what `GET /bookshelf/api/data` delivers, the merged book record the
    views read, the reading-status rule `mapStatus` and the merge that
    `loadData` applies to every book. */
module BookshelfModel {
  import opened Common
  import opened Strings

  /** A JavaScript value used as an identifier. The server sends numbers;
      DOM data attributes and URL fragments give strings; `===` and
      `includes` tell a number from its decimal string. */
  datatype Id = Num(n: int) | Text(s: string)

  /** A book as the server lists it. */
  datatype ApiBook = ApiBook(id: int, title: string, author: string, cover: string)

  /** The saved per-user metadata object (`progress.data`), reduced to the
      keys the client reads. */
  datatype SavedData = SavedData(status: Option<string>, coverUrl: Option<string>, shelves: Option<seq<Id>>)

  /** One entry of the `progress` object; `None` is an absent or null field. */
  datatype ApiProgress = ApiProgress(percent: Option<real>, location: Option<string>, data: Option<SavedData>)

  datatype ApiUser = ApiUser(theme: string, avatar: Option<string>, name: string)

  datatype Shelf = Shelf(id: int, name: string)

  /** The body of `GET /bookshelf/api/data`. JSON object keys are strings;
      the client looks `progress` up with the numeric book id, which
      JavaScript turns into the same key, so the map is keyed by that id. */
  datatype DataPayload = DataPayload(
    status: string,
    books: seq<ApiBook>,
    progress: map<int, ApiProgress>,
    shelves: seq<Shelf>,
    user: ApiUser)

  /** A book as the views see it: `{...book, ...extraData, status, currentProgress}`. */
  datatype Book = Book(
    id: int,
    title: string,
    author: string,
    cover: string,
    coverUrl: Option<string>,
    shelves: Option<seq<Id>>,
    status: string,
    currentProgress: Option<real>)

  datatype Profile = Profile(theme: string, avatarUrl: Option<string>, name: string)

  const Read := "lido"
  const Reading := "lendo"
  const Wanted := "quero-ler"

  predicate KnownStatus(s: string)
  {
    s == Read || s == Reading || s == Wanted
  }

  /** `mapStatus`: a saved status wins whenever it is non-empty; otherwise
      the progress fraction decides, and an absent fraction counts as no
      progress. The location is accepted and ignored, as in the source. */
  function MapStatus(percent: Option<real>, location: Option<string>, savedStatus: Option<string>): (r: string)
    ensures Present(savedStatus) ==> r == savedStatus.value
    ensures !Present(savedStatus) ==>
      && KnownStatus(r)
      && (r == Read <==> percent.Some? && percent.value >= 1.0)
      && (r == Reading <==> percent.Some? && 0.0 < percent.value < 1.0)
      && (r == Wanted <==> percent.None? || percent.value <= 0.0)
  {
    if Present(savedStatus) then savedStatus.value
    else if percent.Some? && percent.value >= 1.0 then Read
    else if percent.Some? && percent.value > 0.0 then Reading
    else Wanted
  }

  /** The saved metadata of a progress entry, `{}` when there is none. */
  function ExtraData(p: ApiProgress): SavedData
  {
    if p.data.Some? then p.data.value else SavedData(None, None, None)
  }

  /** The progress entry of a book, `{}` when the server sent none. */
  function ProgressOf(progress: map<int, ApiProgress>, id: int): ApiProgress
  {
    if id in progress then progress[id] else ApiProgress(None, None, None)
  }

  /** The per-book merge inside `loadData`. */
  function MergeBook(b: ApiBook, progress: map<int, ApiProgress>): (r: Book)
    ensures r.id == b.id && r.title == b.title && r.author == b.author && r.cover == b.cover
    ensures r.currentProgress == (if b.id in progress then progress[b.id].percent else None)
    ensures b.id !in progress ==> r.status == Wanted && r.coverUrl.None? && r.shelves.None?
    ensures var p := ProgressOf(progress, b.id);
      && r.status == MapStatus(p.percent, p.location, ExtraData(p).status)
      && r.coverUrl == ExtraData(p).coverUrl
      && r.shelves == ExtraData(p).shelves
  {
    var p := ProgressOf(progress, b.id);
    var extra := ExtraData(p);
    Book(b.id, b.title, b.author, b.cover, extra.coverUrl, extra.shelves,
         MapStatus(p.percent, p.location, extra.status), p.percent)
  }

  /** `data.books.map(...)`: one merged record per listed book, in order. */
  function MergeBooks(books: seq<ApiBook>, progress: map<int, ApiProgress>): (r: seq<Book>)
    ensures |r| == |books|
    ensures forall i :: 0 <= i < |books| ==> r[i].id == books[i].id
    ensures forall i :: 0 <= i < |books| ==> r[i] == MergeBook(books[i], progress)
  {
    seq(|books|, i requires 0 <= i < |books| => MergeBook(books[i], progress))
  }

  /** A saved status the counters understand: absent, empty or one of the three. */
  predicate SavedStatusKnown(p: ApiProgress)
  {
    var s := ExtraData(p).status;
    !Present(s) || KnownStatus(s.value)
  }

  /** When every saved status is one the counters understand, every merged
      book carries one of the three statuses. */
  lemma MergedStatusesKnown(books: seq<ApiBook>, progress: map<int, ApiProgress>)
    requires forall id :: id in progress ==> SavedStatusKnown(progress[id])
    ensures forall b :: b in MergeBooks(books, progress) ==> KnownStatus(b.status)
  {
    var r := MergeBooks(books, progress);
    forall b | b in r ensures KnownStatus(b.status) {
      var i :| 0 <= i < |r| && r[i] == b;
      var p := ProgressOf(progress, books[i].id);
      assert SavedStatusKnown(p);
    }
  }

  /** A saved status outside the three (the server's own table knows
      'abandonado') survives the merge unchanged. */
  lemma SavedStatusSurvivesMerge(b: ApiBook, progress: map<int, ApiProgress>, s: string)
    requires b.id in progress && progress[b.id].data.Some?
    requires progress[b.id].data.value.status == Some(s) && s != ""
    ensures MergeBook(b, progress).status == s
  {
  }

  /** A book half read and without a saved status shows as being read. */
  lemma HalfReadBookIsReading(b: ApiBook, progress: map<int, ApiProgress>)
    requires b.id in progress && progress[b.id].percent == Some(0.5)
    requires progress[b.id].data.None?
    ensures MergeBook(b, progress).status == Reading
    ensures MergeBook(b, progress).currentProgress == Some(0.5)
  {
  }
}
