/** The queries behind the client's pages (cps/static/bookshelf/js/app.js):
    the books grid with its search and status filters, a shelf card with
    its count and preview strip, the status counters and shelf order of
    the shelves page, and the cover chosen for a book. The markup around
    them is not modelled. */
module BookshelfViews {
  import opened Common
  import opened Strings
  import opened BookshelfModel

  // ---------------------------------------------------------------
  // Books grid (updateBooksGrid)
  // ---------------------------------------------------------------

  const AllStatuses := "todos"

  /** The search test: the lower-cased title contains the lower-cased term. */
  predicate TitleMatches(b: Book, term: string)
  {
    Contains(Lower(b.title), Lower(term))
  }

  function MatchesSearch(term: string): Book -> bool
  {
    (b: Book) => TitleMatches(b, term)
  }

  function HasStatus(status: string): Book -> bool
  {
    (b: Book) => b.status == status
  }

  /** The grid skips the search stage for an empty term; `includes("")`
      holds of every title, so running it would keep every book anyway. */
  lemma EmptyTermMatchesEveryTitle(b: Book)
    ensures TitleMatches(b, "")
  {
    ContainsEmpty(Lower(b.title));
  }

  /** One book's verdict under both filters, as a single test. */
  predicate GridKeeps(b: Book, term: string, filter: string)
  {
    (term == "" || TitleMatches(b, term)) && (filter == AllStatuses || b.status == filter)
  }

  function GridTest(term: string, filter: string): Book -> bool
  {
    (b: Book) => GridKeeps(b, term, filter)
  }

  /** The two filter stages of `updateBooksGrid`: the search filter when the
      term is non-empty, then the status filter unless it is 'todos'. */
  function GridBooks(books: seq<Book>, term: string, filter: string): (r: seq<Book>)
    ensures |r| <= |books|
    ensures forall b :: b in r <==> b in books && GridKeeps(b, term, filter)
  {
    var searched := if term != "" then Filter(books, MatchesSearch(term)) else books;
    if filter != AllStatuses then Filter(searched, HasStatus(filter)) else searched
  }

  /** The two stages together are one filter by the combined test. */
  lemma GridIsOneFilter(books: seq<Book>, term: string, filter: string)
    ensures GridBooks(books, term, filter) == Filter(books, GridTest(term, filter))
  {
    var search, status := MatchesSearch(term), HasStatus(filter);
    if term != "" && filter != AllStatuses {
      FilterThenFilter(books, search, status);
      FilterSameTest(books, Both(search, status), GridTest(term, filter));
    } else if term != "" {
      FilterSameTest(books, search, GridTest(term, filter));
    } else if filter != AllStatuses {
      FilterSameTest(books, status, GridTest(term, filter));
    } else {
      FilterKeepsAll(books, GridTest(term, filter));
    }
  }

  /** Filters with tests that agree on every element agree. */
  lemma {:induction false} FilterSameTest(s: seq<Book>, p: Book -> bool, q: Book -> bool)
    requires forall b :: p(b) == q(b)
    ensures Filter(s, p) == Filter(s, q)
    decreases |s|
  {
    if s != [] {
      FilterSameTest(s[1..], p, q);
    }
  }

  /** The grid keeps the books in their original order: gridding a
      concatenation grids each part. */
  lemma GridKeepsOrder(a: seq<Book>, b: seq<Book>, term: string, filter: string)
    ensures GridBooks(a + b, term, filter) == GridBooks(a, term, filter) + GridBooks(b, term, filter)
  {
    GridIsOneFilter(a + b, term, filter);
    GridIsOneFilter(a, term, filter);
    GridIsOneFilter(b, term, filter);
    FilterConcat(a, b, GridTest(term, filter));
  }

  /** With an empty term and 'todos' the grid is the whole library. */
  lemma GridUnfiltered(books: seq<Book>)
    ensures GridBooks(books, "", AllStatuses) == books
  {
  }

  /** Re-applying the same filters to the grid changes nothing. */
  lemma GridIdempotent(books: seq<Book>, term: string, filter: string)
    ensures GridBooks(GridBooks(books, term, filter), term, filter) == GridBooks(books, term, filter)
  {
    var g := GridBooks(books, term, filter);
    GridIsOneFilter(books, term, filter);
    GridIsOneFilter(g, term, filter);
    FilterIdempotent(books, GridTest(term, filter));
  }

  // ---------------------------------------------------------------
  // Shelf card (getShelfHtml)
  // ---------------------------------------------------------------

  const PreviewSize: nat := 7

  /** `b.shelves && b.shelves.includes(shelf.id)`: a book without a
      `shelves` field is on no shelf, and a string id never matches. */
  predicate OnShelf(b: Book, shelfId: int)
  {
    b.shelves.Some? && Num(shelfId) in b.shelves.value
  }

  function OnShelfTest(shelfId: int): Book -> bool
  {
    (b: Book) => OnShelf(b, shelfId)
  }

  datatype ShelfCard = ShelfCard(count: nat, preview: seq<Book>)

  function Min(a: nat, b: nat): nat
  {
    if a <= b then a else b
  }

  /** The count badge and the preview strip of one shelf. */
  function ShelfCardOf(books: seq<Book>, shelf: Shelf): (r: ShelfCard)
    ensures r.count == |Positions(books, OnShelfTest(shelf.id))|
    ensures |r.preview| == Min(PreviewSize, r.count)
    ensures r.preview <= Filter(books, OnShelfTest(shelf.id))
    ensures forall b :: b in r.preview ==> b in books && b.shelves.Some? && Num(shelf.id) in b.shelves.value
  {
    var onShelf := Filter(books, OnShelfTest(shelf.id));
    FilterLengthIsPositionCount(books, OnShelfTest(shelf.id));
    var preview := onShelf[..Min(PreviewSize, |onShelf|)];
    assert forall b :: b in preview ==> b in onShelf;
    ShelfCard(|onShelf|, preview)
  }

  /** Books without a `shelves` field fill no shelf: every card is empty. */
  lemma CardEmptyWithoutShelvesField(books: seq<Book>, shelf: Shelf)
    requires forall b :: b in books ==> b.shelves.None?
    ensures ShelfCardOf(books, shelf) == ShelfCard(0, [])
  {
    forall i: nat | i < |books| ensures !OnShelf(books[i], shelf.id) {
      assert books[i] in books;
    }
    assert Positions(books, OnShelfTest(shelf.id)) == {};
  }

  // ---------------------------------------------------------------
  // Shelves page (renderEstantes)
  // ---------------------------------------------------------------

  datatype Stats = Stats(total: nat, read: nat, reading: nat, wanted: nat)

  function CountStatus(books: seq<Book>, status: string): nat
  {
    |Filter(books, HasStatus(status))|
  }

  function StatusSum(books: seq<Book>): nat
  {
    CountStatus(books, Read) + CountStatus(books, Reading) + CountStatus(books, Wanted)
  }

  /** Each book adds to at most one of the three counters, and to one
      exactly when its status is one of the three. */
  lemma {:induction false} StatusSumBound(books: seq<Book>)
    ensures StatusSum(books) <= |books|
    ensures StatusSum(books) == |books| <==> forall b :: b in books ==> KnownStatus(b.status)
    decreases |books|
  {
    if books != [] {
      var rest := books[1..];
      StatusSumBound(rest);
      assert StatusSum(books) == StatusSum(rest) + (if KnownStatus(books[0].status) then 1 else 0);
      assert forall b :: b in books <==> b == books[0] || b in rest;
    }
  }

  /** The four counters of the shelves page. */
  function StatsOf(books: seq<Book>): (r: Stats)
    ensures r.total == |books|
    ensures r.read == |Positions(books, HasStatus(Read))|
    ensures r.reading == |Positions(books, HasStatus(Reading))|
    ensures r.wanted == |Positions(books, HasStatus(Wanted))|
    ensures r.read + r.reading + r.wanted <= r.total
    ensures r.read + r.reading + r.wanted == r.total <==> forall b :: b in books ==> KnownStatus(b.status)
  {
    StatusSumBound(books);
    FilterLengthIsPositionCount(books, HasStatus(Read));
    FilterLengthIsPositionCount(books, HasStatus(Reading));
    FilterLengthIsPositionCount(books, HasStatus(Wanted));
    Stats(|books|, CountStatus(books, Read), CountStatus(books, Reading), CountStatus(books, Wanted))
  }

  /** A library that holds a book with a status outside the three (such as
      'abandonado') shows counters that fall short of the total. */
  lemma UnknownStatusIsUncounted(books: seq<Book>, i: nat)
    requires i < |books| && !KnownStatus(books[i].status)
    ensures StatsOf(books).read + StatsOf(books).reading + StatsOf(books).wanted < |books|
  {
    assert books[i] in books;
  }

  predicate SortedByName(s: seq<Shelf>)
  {
    forall i, j :: 0 <= i < j < |s| ==> NameLe(s[i].name, s[j].name)
  }

  /** A shelf that sorts below every shelf of a sorted list can head it. */
  lemma ConsSorted(h: Shelf, t: seq<Shelf>)
    requires SortedByName(t)
    requires forall e :: e in t ==> NameLe(h.name, e.name)
    ensures SortedByName([h] + t)
  {
    var r := [h] + t;
    forall i, j | 0 <= i < j < |r| ensures NameLe(r[i].name, r[j].name) {
      if i == 0 {
        assert r[j] == t[j - 1];
      } else {
        assert r[i] == t[i - 1] && r[j] == t[j - 1];
      }
    }
  }

  /** The head of a sorted list sorts below every shelf after it. */
  lemma HeadBelowRest(s: seq<Shelf>)
    requires SortedByName(s) && s != []
    ensures forall e :: e in s[1..] ==> NameLe(s[0].name, e.name)
  {
    forall e | e in s[1..] ensures NameLe(s[0].name, e.name) {
      var j :| 0 <= j < |s[1..]| && s[1..][j] == e;
      assert s[j + 1] == e;
    }
  }

  /** Places `x` before the first shelf whose name does not sort below it. */
  function InsertByName(x: Shelf, sorted: seq<Shelf>): (r: seq<Shelf>)
    requires SortedByName(sorted)
    ensures multiset(r) == multiset(sorted) + multiset{x}
    ensures SortedByName(r)
    decreases |sorted|
  {
    if sorted == [] || NameLe(x.name, sorted[0].name) then
      assert forall e :: e in sorted ==> NameLe(x.name, e.name) by {
        forall e | e in sorted ensures NameLe(x.name, e.name) {
          if e != sorted[0] {
            HeadBelowRest(sorted);
            assert e in sorted[1..] by { assert sorted == [sorted[0]] + sorted[1..]; }
            NameLeTransitive(x.name, sorted[0].name, e.name);
          }
        }
      }
      ConsSorted(x, sorted);
      [x] + sorted
    else
      var head, tail := sorted[0], sorted[1..];
      assert SortedByName(tail) by {
        forall i, j | 0 <= i < j < |tail| ensures NameLe(tail[i].name, tail[j].name) {
          assert tail[i] == sorted[i + 1] && tail[j] == sorted[j + 1];
        }
      }
      var rest := InsertByName(x, tail);
      assert sorted == [head] + tail;
      assert forall e :: e in rest ==> NameLe(head.name, e.name) by {
        NameLeTotal(x.name, head.name);
        HeadBelowRest(sorted);
        forall e | e in rest ensures NameLe(head.name, e.name) {
          assert e in multiset(rest);
          if e != x {
            assert e in multiset(tail);
          }
        }
      }
      ConsSorted(head, rest);
      [head] + rest
  }

  /** `[...userShelves].sort((a, b) => a.name.localeCompare(b.name))`,
      with code-unit order standing in for the locale order. */
  function SortShelvesByName(shelves: seq<Shelf>): (r: seq<Shelf>)
    ensures multiset(r) == multiset(shelves)
    ensures SortedByName(r)
    decreases |shelves|
  {
    if shelves == [] then []
    else
      assert shelves == [shelves[0]] + shelves[1..];
      InsertByName(shelves[0], SortShelvesByName(shelves[1..]))
  }
  /** The test "this shelf is called `name`". */
  function NamedTest(name: string): Shelf -> bool
  {
    (t: Shelf) => t.name == name
  }

  /** Inserting `x` puts it before every shelf of its own name. */
  lemma {:induction false} InsertBeforeSameName(x: Shelf, sorted: seq<Shelf>, name: string)
    requires SortedByName(sorted)
    ensures Filter(InsertByName(x, sorted), NamedTest(name))
         == (if x.name == name then [x] else []) + Filter(sorted, NamedTest(name))
    decreases |sorted|
  {
    var p := NamedTest(name);
    if sorted == [] || NameLe(x.name, sorted[0].name) {
      assert InsertByName(x, sorted) == [x] + sorted;
      FilterConcat([x], sorted, p);
      assert [x][1..] == [];
    } else {
      var head, tail := sorted[0], sorted[1..];
      assert SortedByName(tail) by {
        forall i, j | 0 <= i < j < |tail| ensures NameLe(tail[i].name, tail[j].name) {
          assert tail[i] == sorted[i + 1] && tail[j] == sorted[j + 1];
        }
      }
      NameLeReflexive(x.name);
      assert head.name != x.name;
      InsertBeforeSameName(x, tail, name);
      assert InsertByName(x, sorted) == [head] + InsertByName(x, tail);
      FilterConcat([head], InsertByName(x, tail), p);
      FilterConcat([head], tail, p);
      assert [head][1..] == [];
      assert sorted == [head] + tail;
    }
  }

  /** The sort is stable: shelves of the same name keep their order in
      the user's list, as `Array.prototype.sort` promises. */
  lemma {:induction false} SortIsStable(shelves: seq<Shelf>, name: string)
    ensures Filter(SortShelvesByName(shelves), NamedTest(name)) == Filter(shelves, NamedTest(name))
    decreases |shelves|
  {
    if shelves != [] {
      var p := NamedTest(name);
      SortIsStable(shelves[1..], name);
      InsertBeforeSameName(shelves[0], SortShelvesByName(shelves[1..]), name);
      assert shelves == [shelves[0]] + shelves[1..];
      FilterConcat([shelves[0]], shelves[1..], p);
      assert [shelves[0]][1..] == [];
    }
  }


  // ---------------------------------------------------------------
  // Covers (getCoverUrl)
  // ---------------------------------------------------------------

  const PlaceholderHost := "placehold.co"
  const PlaceholderPrefix := "https://placehold.co/128x194/1a1a1a/ffffff?text="
  const NoCoverLabel := "Sem Capa"

  /** The cover a book shows: its own cover URL unless that is empty or a
      placeholder, else the library's cover, else a generated placeholder
      labelled with the title (or 'Sem Capa'). */
  function CoverUrl(b: Book): (r: string)
    ensures r != ""
    ensures Present(b.coverUrl) && !Contains(b.coverUrl.value, PlaceholderHost) ==> r == b.coverUrl.value
    ensures !(Present(b.coverUrl) && !Contains(b.coverUrl.value, PlaceholderHost)) && b.cover != "" ==> r == b.cover
    ensures !(Present(b.coverUrl) && !Contains(b.coverUrl.value, PlaceholderHost)) && b.cover == "" ==>
      && PlaceholderPrefix <= r
      && r[|PlaceholderPrefix|..] == EncodeUriComponent(if b.title != "" then b.title else NoCoverLabel)
      && forall i :: |PlaceholderPrefix| <= i < |r| ==> Unreserved(r[i]) || r[i] == '%'
  {
    if Present(b.coverUrl) && !Contains(b.coverUrl.value, PlaceholderHost) then b.coverUrl.value
    else if b.cover != "" then b.cover
    else PlaceholderPrefix + EncodeUriComponent(if b.title != "" then b.title else NoCoverLabel)
  }
}
