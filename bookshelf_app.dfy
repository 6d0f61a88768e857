/** The client's module-level state (cps/static/bookshelf/js/app.js) as
    one object: the book list, the shelf list, the profile and the two
    filter inputs, with the operations that reassign them. Every network
    call is reduced to what the client learns from it: a data payload or
    a failure for `loadData`, success or failure for the mutations. */
module BookshelfApp {
  import opened Common
  import opened Strings
  import opened BookshelfModel
  import opened BookshelfViews

  /** The outcome of `fetch('/bookshelf/api/data')`: a network error, a
      non-2xx response and a body that is not JSON all land in the same
      `catch`. */
  datatype DataResponse = Failed | Received(data: DataPayload)

  /** The keys a `saveProfile` argument may carry; an absent key leaves the
      profile's value in place. */
  datatype ProfilePatch = ProfilePatch(theme: Option<string>, avatarUrl: Option<Option<string>>, name: Option<string>)

  /** `{...userProfile, ...profileData}`. */
  function ApplyProfilePatch(p: Profile, patch: ProfilePatch): (r: Profile)
    ensures patch == ProfilePatch(None, None, None) ==> r == p
    ensures patch.theme.Some? ==> r.theme == patch.theme.value
    ensures patch.avatarUrl.Some? ==> r.avatarUrl == patch.avatarUrl.value
    ensures patch.name.Some? ==> r.name == patch.name.value
    ensures patch.theme.None? ==> r.theme == p.theme
    ensures patch.avatarUrl.None? ==> r.avatarUrl == p.avatarUrl
    ensures patch.name.None? ==> r.name == p.name
  {
    Profile(
      if patch.theme.Some? then patch.theme.value else p.theme,
      if patch.avatarUrl.Some? then patch.avatarUrl.value else p.avatarUrl,
      if patch.name.Some? then patch.name.value else p.name)
  }

  /** Saving the same profile data twice has the effect of saving it once. */
  lemma ProfilePatchIdempotent(p: Profile, patch: ProfilePatch)
    ensures ApplyProfilePatch(ApplyProfilePatch(p, patch), patch) == ApplyProfilePatch(p, patch)
  {
  }

  /** `allBooks.filter(b => b.id !== bookId)`. */
  function RemoveBook(books: seq<Book>, bookId: Id): (r: seq<Book>)
    ensures forall b :: b in r <==> b in books && Num(b.id) != bookId
  {
    Filter(books, (b: Book) => Num(b.id) != bookId)
  }

  /** The books that remain keep their order, and a list without the id
      comes back whole. */
  lemma RemoveBookKeepsOrder(a: seq<Book>, b: seq<Book>, bookId: Id)
    ensures RemoveBook(a + b, bookId) == RemoveBook(a, bookId) + RemoveBook(b, bookId)
    ensures (forall x :: x in a ==> Num(x.id) != bookId) ==> RemoveBook(a, bookId) == a
  {
    FilterConcat(a, b, (x: Book) => Num(x.id) != bookId);
    if forall x :: x in a ==> Num(x.id) != bookId {
      FilterKeepsAll(a, (x: Book) => Num(x.id) != bookId);
    }
  }

  /** `userShelves.filter(s => s.id !== shelfId)`. */
  function RemoveShelf(shelves: seq<Shelf>, shelfId: Id): (r: seq<Shelf>)
    ensures forall s :: s in r <==> s in shelves && Num(s.id) != shelfId
  {
    Filter(shelves, (s: Shelf) => Num(s.id) != shelfId)
  }

  /** The shelf list stays in order when shelves are removed. */
  lemma RemoveShelfKeepsOrder(a: seq<Shelf>, b: seq<Shelf>, shelfId: Id)
    ensures RemoveShelf(a + b, shelfId) == RemoveShelf(a, shelfId) + RemoveShelf(b, shelfId)
  {
    FilterConcat(a, b, (x: Shelf) => Num(x.id) != shelfId);
  }

  /** `btn.dataset.shelfId` for the delete button of shelf `s`: the
      decimal text of its numeric id. */
  function DeleteButtonId(s: Shelf): Id
  {
    Text(DecimalString(s.id))
  }

  /** As written, the id the delete button passes is a string, and `!==`
      never equates it with a numeric shelf id: nothing is removed. */
  lemma {:induction false} DeleteButtonRemovesNoShelf(shelves: seq<Shelf>, s: Shelf)
    ensures RemoveShelf(shelves, DeleteButtonId(s)) == shelves
  {
    FilterKeepsAll(shelves, (x: Shelf) => Num(x.id) != DeleteButtonId(s));
  }

  /** The intended removal: compare the button's text with each shelf id
      rendered the same way. */
  function RemoveShelfByDataset(shelves: seq<Shelf>, dataset: string): (r: seq<Shelf>)
    ensures forall t :: t in r <==> t in shelves && DecimalString(t.id) != dataset
  {
    Filter(shelves, (t: Shelf) => DecimalString(t.id) != dataset)
  }

  /** With that comparison the button of shelf `s` removes exactly the
      shelves that carry `s`'s id. */
  lemma DatasetRemovalDeletesThatShelf(shelves: seq<Shelf>, s: Shelf)
    ensures forall t :: t in RemoveShelfByDataset(shelves, DecimalString(s.id)) <==> t in shelves && t.id != s.id
    ensures s in shelves ==> s !in RemoveShelfByDataset(shelves, DecimalString(s.id))
  {
    forall t | t in shelves && DecimalString(t.id) == DecimalString(s.id) ensures t.id == s.id {
      DecimalStringInjective(t.id, s.id);
    }
  }

  /** What the shelves page shows: the counters, then one card per shelf
      in name order. */
  datatype ShelvesView = ShelvesView(stats: Stats, shelves: seq<Shelf>, cards: seq<ShelfCard>)

  /** After a load in which every saved status is one of the three, the
      three counters of the shelves page add up to the book total. */
  lemma LoadedCountersAddUp(data: DataPayload)
    requires forall id :: id in data.progress ==> SavedStatusKnown(data.progress[id])
    ensures var s := StatsOf(MergeBooks(data.books, data.progress)); s.read + s.reading + s.wanted == s.total
  {
    MergedStatusesKnown(data.books, data.progress);
  }

  class Library {
    var allBooks: seq<Book>
    var userShelves: seq<Shelf>
    var userProfile: Profile
    var shelfSearchTerm: string
    var currentFilter: string

    /** The initial values of the module-level variables. */
    constructor ()
      ensures allBooks == [] && userShelves == []
      ensures userProfile == Profile("dark", None, "")
      ensures shelfSearchTerm == "" && currentFilter == AllStatuses
    {
      allBooks := [];
      userShelves := [];
      userProfile := Profile("dark", None, "");
      shelfSearchTerm := "";
      currentFilter := AllStatuses;
    }

    /** The books `updateBooksGrid` shows for the current inputs. */
    function Grid(): (r: seq<Book>)
      reads this
      ensures forall b :: b in r <==> b in allBooks && GridKeeps(b, shelfSearchTerm, currentFilter)
    {
      GridBooks(allBooks, shelfSearchTerm, currentFilter)
    }

    /** What `renderEstantes` computes from the state. */
    function ShelvesPage(): (r: ShelvesView)
      reads this
      ensures r.stats == StatsOf(allBooks)
      ensures multiset(r.shelves) == multiset(userShelves) && SortedByName(r.shelves)
      ensures |r.cards| == |r.shelves|
      ensures forall i :: 0 <= i < |r.cards| ==> r.cards[i] == ShelfCardOf(allBooks, r.shelves[i])
    {
      var books, sorted := allBooks, SortShelvesByName(userShelves);
      ShelvesView(StatsOf(books), sorted,
                  seq(|sorted|, i requires 0 <= i < |sorted| => ShelfCardOf(books, sorted[i])))
    }

    /** `loadData`: on a success payload every book is merged with its
        progress entry, in the server's order, and the shelves and profile
        are replaced; on anything else the state is left as it was. */
    method LoadData(response: DataResponse)
      modifies this
      ensures shelfSearchTerm == old(shelfSearchTerm) && currentFilter == old(currentFilter)
      ensures response.Received? && response.data.status == "success" ==>
        && allBooks == MergeBooks(response.data.books, response.data.progress)
        && userShelves == response.data.shelves
        && userProfile == Profile(response.data.user.theme, response.data.user.avatar, response.data.user.name)
      ensures !(response.Received? && response.data.status == "success") ==>
        allBooks == old(allBooks) && userShelves == old(userShelves) && userProfile == old(userProfile)
    {
      if response.Received? && response.data.status == "success" {
        var data := response.data;
        allBooks := MergeBooks(data.books, data.progress);
        userShelves := data.shelves;
        userProfile := userProfile.(theme := data.user.theme, avatarUrl := data.user.avatar, name := data.user.name);
      }
    }

    /** `deleteBook`: after a success response the entries whose id is
        strictly equal to `bookId` are dropped; otherwise nothing changes. */
    method DeleteBook(bookId: Id, succeeded: bool)
      modifies this`allBooks
      ensures allBooks == if succeeded then RemoveBook(old(allBooks), bookId) else old(allBooks)
    {
      if succeeded {
        allBooks := RemoveBook(allBooks, bookId);
      }
    }

    /** `deleteShelf`: after a success response the shelves whose id is
        strictly equal to `shelfId` are dropped; the books, and so their
        statuses, are untouched. */
    method DeleteShelf(shelfId: Id, succeeded: bool)
      modifies this`userShelves
      ensures userShelves == if succeeded then RemoveShelf(old(userShelves), shelfId) else old(userShelves)
      ensures allBooks == old(allBooks)
    {
      if succeeded {
        userShelves := RemoveShelf(userShelves, shelfId);
      }
    }

    /** `saveProfile`: after a success response the sent keys overwrite the
        profile's. */
    method SaveProfile(patch: ProfilePatch, succeeded: bool)
      modifies this`userProfile
      ensures userProfile == if succeeded then ApplyProfilePatch(old(userProfile), patch) else old(userProfile)
    {
      if succeeded {
        userProfile := ApplyProfilePatch(userProfile, patch);
      }
    }

    /** The search box's `oninput` handler. */
    method SearchInput(term: string)
      modifies this`shelfSearchTerm
      ensures shelfSearchTerm == term
      ensures Grid() == GridBooks(allBooks, term, currentFilter)
    {
      shelfSearchTerm := term;
    }

    /** The status select's `onchange` handler. */
    method FilterChange(filter: string)
      modifies this`currentFilter
      ensures currentFilter == filter
      ensures Grid() == GridBooks(allBooks, shelfSearchTerm, filter)
    {
      currentFilter := filter;
    }
  }
}
