/** The per-user record rules of the server endpoints (cps/bookshelf.py).
    The tables become fields of one `Store`: the library's book ids, the
    owner of each shelf, reading-progress rows and read-status rows keyed
    by (user, book), shelf links keyed by their row id, and each user's
    view settings. The tables hold what the database session sees,
    committed or pending: no rollback appears in the code, so rows changed
    before an exception stay changed. */
module BookshelfApi {
  import opened Common
  import opened Strings

  // ---------------------------------------------------------------
  // Request values
  // ---------------------------------------------------------------

  /** A decoded JSON value as Python holds it. */
  datatype Json =
    | JNull
    | JBool(b: bool)
    | JInt(i: int)
    | JFloat(r: real)
    | JStr(s: string)
    | JArr(items: seq<Json>)
    | JObj(fields: map<string, Json>)

  /** Python truthiness. */
  predicate Truthy(v: Json)
  {
    match v
    case JNull => false
    case JBool(b) => b
    case JInt(i) => i != 0
    case JFloat(r) => r != 0.0
    case JStr(s) => s != ""
    case JArr(items) => |items| > 0
    case JObj(fields) => |fields| > 0
  }

  /** `d.get(key)`: `None` when the key is absent. */
  function Get(d: map<string, Json>, key: string): (r: Option<Json>)
    ensures r.Some? <==> key in d
    ensures r.Some? ==> r.value == d[key]
  {
    if key in d then Some(d[key]) else None
  }

  /** The book row a request id selects: only a JSON integer can equal a
      book's integer id. */
  function BookKey(id: Json): Option<int>
  {
    if id.JInt? then Some(id.i) else None
  }

  /** A list or a dict cannot be bound as a query parameter: a query that
      compares a column with such an id raises. */
  predicate Unbindable(id: Json)
  {
    id.JArr? || id.JObj?
  }

  /** Python's `int(v)`; `None` stands for the ValueError or TypeError. */
  function PyInt(v: Json): Option<int>
  {
    match v
    case JInt(i) => Some(i)
    case JBool(b) => Some(if b then 1 else 0)
    case JFloat(r) => Some(if r >= 0.0 then r.Floor else -((-r).Floor))
    case JStr(s) => ParseIntExact(s)
    case _ => None
  }

  function PyInts(items: seq<Json>): (r: Option<seq<int>>)
    ensures r.Some? ==> |r.value| == |items|
    ensures r.Some? <==> forall i :: 0 <= i < |items| ==> PyInt(items[i]).Some?
    ensures r.Some? ==> forall i :: 0 <= i < |items| ==> r.value[i] == PyInt(items[i]).value
    decreases |items|
  {
    if items == [] then Some([])
    else
      match (PyInt(items[0]), PyInts(items[1..]))
      case (Some(x), Some(xs)) => Some([x] + xs)
      case _ => None
  }

  /** `[int(s) for s in data['shelves']]`: a list converts element by
      element, a string character by character; anything else raises. */
  function ShelfIds(v: Json): (r: Option<seq<int>>)
    ensures v.JArr? ==>
      && (r.Some? <==> forall i :: 0 <= i < |v.items| ==> PyInt(v.items[i]).Some?)
      && (r.Some? ==> && |r.value| == |v.items|
                      && forall i :: 0 <= i < |v.items| ==> r.value[i] == PyInt(v.items[i]).value)
    ensures v.JStr? ==>
      && (r.Some? <==> forall i :: 0 <= i < |v.s| ==> ParseIntExact([v.s[i]]).Some?)
      && (r.Some? ==> && |r.value| == |v.s|
                      && forall i :: 0 <= i < |v.s| ==> r.value[i] == ParseIntExact([v.s[i]]).value)
    ensures !v.JArr? && !v.JStr? ==> r.None?
  {
    match v
    case JArr(items) => PyInts(items)
    case JStr(s) =>
      var chars := seq(|s|, i requires 0 <= i < |s| => JStr([s[i]]));
      assert forall i :: 0 <= i < |s| ==> PyInt(chars[i]) == ParseIntExact([s[i]]);
      PyInts(chars)
    case _ => None
  }

  // ---------------------------------------------------------------
  // Rows
  // ---------------------------------------------------------------

  datatype UserBook = UserBook(user: int, book: int)

  /** A reading-progress row; `data` is the JSON metadata column. */
  datatype ProgressRow = ProgressRow(percent: Option<real>, location: Option<string>, data: Option<map<string, Json>>)

  /** The read-status values of the read-status table. */
  datatype ReadStatus = Unread | Finished | InProgress

  /** A shelf link row: this book is on this shelf. */
  datatype Link = Link(book: int, shelf: int)

  /** A JSON reply: success with the echoed id (if any), or an HTTP error code. */
  datatype Reply = Success(id: Option<Json>) | Failure(code: int)

  const NotImplemented := 501
  const NotFound := 404
  const ServerError := 500

  // ---------------------------------------------------------------
  // Status and metadata rules of save_book
  // ---------------------------------------------------------------

  /** 'lido' marks the book finished, 'lendo' in progress, and every
      other value, absent included, unread. */
  function ReadStatusFor(status: Option<Json>): (r: ReadStatus)
    ensures r == Finished <==> status == Some(JStr("lido"))
    ensures r == InProgress <==> status == Some(JStr("lendo"))
    ensures r == Unread <==> status != Some(JStr("lido")) && status != Some(JStr("lendo"))
  {
    if status == Some(JStr("lido")) then Finished
    else if status == Some(JStr("lendo")) then InProgress
    else Unread
  }

  /** The keys of the request that are copied into the stored metadata. */
  const FieldsToStore: seq<string> := [
    "status", "rating", "feelings", "startDate", "endDate", "mediaType",
    "totalPages", "totalTime", "review", "synopsis", "favorite", "coverUrl"]

  /** The stored metadata with the request's values for `fields` written over it. */
  function MergeFields(stored: map<string, Json>, request: map<string, Json>, fields: seq<string>): (r: map<string, Json>)
    ensures r.Keys == stored.Keys + (set k | k in request && k in fields)
    ensures forall k :: k in fields && k in request ==> r[k] == request[k]
    ensures forall k :: k in stored && !(k in fields && k in request) ==> r[k] == stored[k]
  {
    map k | k in stored.Keys + (set k | k in request && k in fields) ::
      if k in fields && k in request then request[k] else stored[k]
  }

  /** The whitelist merge writes nothing outside the whitelist, keeps every
      stored key, and gives the same result when applied a second time. */
  lemma WhitelistMergeFrame(stored: map<string, Json>, request: map<string, Json>)
    ensures forall k :: k !in FieldsToStore ==>
      (k in MergeFields(stored, request, FieldsToStore) <==> k in stored)
    ensures forall k :: k !in FieldsToStore && k in stored ==>
      MergeFields(stored, request, FieldsToStore)[k] == stored[k]
    ensures stored.Keys <= MergeFields(stored, request, FieldsToStore).Keys
    ensures MergeFields(MergeFields(stored, request, FieldsToStore), request, FieldsToStore)
         == MergeFields(stored, request, FieldsToStore)
  {
    var once := MergeFields(stored, request, FieldsToStore);
    var twice := MergeFields(once, request, FieldsToStore);
    assert twice.Keys == once.Keys;
    forall k | k in once ensures twice[k] == once[k] { }
  }

  /** One more field in the list writes that field, when requested, over
      the previous merge. */
  lemma MergeOneMoreField(stored: map<string, Json>, request: map<string, Json>, fields: seq<string>, field: string)
    ensures MergeFields(stored, request, fields + [field])
         == if field in request then MergeFields(stored, request, fields)[field := request[field]]
            else MergeFields(stored, request, fields)
  {
    var before, after := MergeFields(stored, request, fields), MergeFields(stored, request, fields + [field]);
    var expected := if field in request then before[field := request[field]] else before;
    assert forall k :: k in fields + [field] <==> k in fields || k == field;
    assert after.Keys == expected.Keys;
    forall k | k in after ensures after[k] == expected[k] { }
  }

  /** The `for field in fields_to_store` loop. */
  method MergeWhitelisted(stored: map<string, Json>, request: map<string, Json>) returns (merged: map<string, Json>)
    ensures merged == MergeFields(stored, request, FieldsToStore)
  {
    merged := stored;
    var i := 0;
    while i < |FieldsToStore|
      invariant 0 <= i <= |FieldsToStore|
      invariant merged == MergeFields(stored, request, FieldsToStore[..i])
    {
      var field := FieldsToStore[i];
      assert FieldsToStore[..i + 1] == FieldsToStore[..i] + [field];
      MergeOneMoreField(stored, request, FieldsToStore[..i], field);
      if field in request {
        merged := merged[field := request[field]];
      }
      i := i + 1;
    }
    assert FieldsToStore[..i] == FieldsToStore;
  }

  // ---------------------------------------------------------------
  // Shelf-link reconciliation of save_book
  // ---------------------------------------------------------------

  /** An existing link the first loop deletes: this book, a shelf of the
      user, a shelf not in the requested list. */
  predicate Dropped(l: Link, book: int, owned: set<int>, wanted: seq<int>)
  {
    l.book == book && l.shelf in owned && l.shelf !in wanted
  }

  /** `current_linked_shelf_ids`: the user's shelves this book is on. */
  function LinkedShelves(links: map<nat, Link>, book: int, owned: set<int>): set<int>
  {
    set r | r in links && links[r].book == book && links[r].shelf in owned :: links[r].shelf
  }

  /** The second loop's test for one requested shelf id. */
  function ToAdd(linked: set<int>, owned: set<int>): int -> bool
  {
    sid => sid !in linked && sid in owned
  }

  /** The shelves of the rows numbered `lo` up to `hi`, in row order. */
  ghost function AddedShelves(m: map<nat, Link>, lo: nat, hi: nat): (r: seq<int>)
    requires lo <= hi
    requires forall row :: lo <= row < hi ==> row in m
    ensures |r| == hi - lo
    ensures forall k :: 0 <= k < hi - lo ==> r[k] == m[lo + k].shelf
    decreases hi - lo
  {
    if lo == hi then [] else AddedShelves(m, lo, hi - 1) + [m[hi - 1].shelf]
  }

  predicate HasLink(links: map<nat, Link>, book: int, shelf: int)
  {
    exists r :: r in links && links[r] == Link(book, shelf)
  }

  /** The two loops' joint effect: the deleted rows are exactly the
      dropped ones, the other old rows are unchanged, and the rows numbered
      from `next` on are the new links, one per requested id that the user
      owns and that was not linked yet, in request order. */
  ghost predicate Reconciled(
    links: map<nat, Link>, next: nat, links': map<nat, Link>, next': nat,
    book: int, owned: set<int>, wanted: seq<int>)
  {
    && next <= next'
    && (forall r :: r in links' ==> r < next')
    && (forall r :: r in links ==> (r in links' <==> !Dropped(links[r], book, owned, wanted)))
    && (forall r :: r in links && r in links' ==> links'[r] == links[r])
    && (forall r :: r in links' && r !in links ==> next <= r)
    && (forall r :: next <= r < next' ==> r in links' && links'[r].book == book)
    && AddedShelves(links', next, next') == Filter(wanted, ToAdd(LinkedShelves(links, book, owned), owned))
  }

  /** After reconciliation the book is linked to one of the user's shelves
      exactly when that shelf was requested, and every link touching a
      shelf the user does not own is an old row, unchanged. */
  lemma ReconciledLinks(
    links: map<nat, Link>, next: nat, links': map<nat, Link>, next': nat,
    book: int, owned: set<int>, wanted: seq<int>)
    requires forall r :: r in links ==> r < next
    requires Reconciled(links, next, links', next', book, owned, wanted)
    ensures forall s :: s in owned ==> (HasLink(links', book, s) <==> s in wanted)
    ensures forall r :: r in links' && links'[r].shelf !in owned ==> r in links && links'[r] == links[r]
    ensures forall r :: r in links && links[r].shelf !in owned ==> r in links' && links'[r] == links[r]
  {
    var linked := LinkedShelves(links, book, owned);
    var added := Filter(wanted, ToAdd(linked, owned));
    forall r | r in links' && r !in links ensures links'[r].shelf in added {
      assert links'[r].shelf == AddedShelves(links', next, next')[r - next];
    }
    forall s | s in owned ensures HasLink(links', book, s) <==> s in wanted {
      if s in wanted {
        if s in linked {
          var r :| r in links && links[r].book == book && links[r].shelf in owned && links[r].shelf == s;
          assert links'[r] == Link(book, s);
        } else {
          assert s in added;
          var k :| 0 <= k < |added| && added[k] == s;
          assert links'[next + k] == Link(book, s);
        }
      }
      if HasLink(links', book, s) {
        var r :| r in links' && links'[r] == Link(book, s);
        if r !in links {
          assert s in added;
        }
      }
    }
  }

  /** When the requested ids carry no repeats, the new rows link the book
      to pairwise different shelves, none of which it was on before. */
  lemma NewRowsDistinct(
    links: map<nat, Link>, next: nat, links': map<nat, Link>, next': nat,
    book: int, owned: set<int>, wanted: seq<int>)
    requires Reconciled(links, next, links', next', book, owned, wanted)
    requires Distinct(wanted)
    ensures forall r1, r2 :: next <= r1 < r2 < next' ==> links'[r1].shelf != links'[r2].shelf
    ensures forall r :: next <= r < next' ==> links'[r].shelf !in LinkedShelves(links, book, owned)
  {
    var added := AddedShelves(links', next, next');
    FilterDistinct(wanted, ToAdd(LinkedShelves(links, book, owned), owned));
    forall r1, r2 | next <= r1 < r2 < next' ensures links'[r1].shelf != links'[r2].shelf {
      assert added[r1 - next] != added[r2 - next];
    }
    forall r | next <= r < next' ensures links'[r].shelf !in LinkedShelves(links, book, owned) {
      assert added[r - next] in added;
    }
  }

  /** With repeats there is no such guarantee: a request listing shelf 5
      twice for a book on no shelf yet adds two rows for that one link. */
  lemma RepeatedIdAddsTwoRows(links': map<nat, Link>, next': nat, book: int)
    requires Reconciled(map[], 0, links', next', book, {5}, [5, 5])
    ensures next' == 2 && links'[0] == Link(book, 5) && links'[1] == Link(book, 5)
  {
    var toAdd := ToAdd(LinkedShelves(map[], book, {5}), {5});
    assert toAdd(5);
    assert Filter([5, 5], toAdd) == [5, 5] by {
      assert [5, 5][1..] == [5];
      assert [5][1..] == [];
    }
    assert |AddedShelves(links', 0, next')| == 2;
  }

  /** The first link loop of `save_book`: every link of this book to one
      of the user's shelves that is no longer requested is deleted. */
  method DropUnwantedLinks(links: map<nat, Link>, book: int, owned: set<int>, wanted: seq<int>)
    returns (kept: map<nat, Link>)
    ensures forall r :: r in kept <==> r in links && !Dropped(links[r], book, owned, wanted)
    ensures forall r :: r in kept ==> kept[r] == links[r]
  {
    var current := set r | r in links && links[r].book == book && links[r].shelf in owned;
    kept := links;
    var pending := current;
    while pending != {}
      invariant pending <= current
      invariant forall r :: r in links ==> (r in kept <==> !(r in current - pending && links[r].shelf !in wanted))
      invariant forall r :: r in kept ==> r in links && kept[r] == links[r]
      decreases pending
    {
      var r :| r in pending;
      if links[r].shelf !in wanted {
        kept := kept - {r};
      }
      pending := pending - {r};
    }
  }

  /** `m` is `links` plus the rows numbered `next` up to `hi`, all of
      them for `book`. */
  ghost predicate GrownFrom(links: map<nat, Link>, next: nat, m: map<nat, Link>, hi: nat, book: int)
  {
    && next <= hi
    && (forall r :: r in m <==> r in links || next <= r < hi)
    && (forall r :: r in links ==> m[r] == links[r])
    && (forall r :: next <= r < hi ==> m[r].book == book)
  }

  /** A row numbered `hi` for `book` extends the grown map by one. */
  lemma GrowByOne(links: map<nat, Link>, next: nat, m: map<nat, Link>, hi: nat, book: int, l: Link)
    requires forall r :: r in links ==> r < next
    requires GrownFrom(links, next, m, hi, book)
    requires l.book == book
    ensures GrownFrom(links, next, m[hi := l], hi + 1, book)
  {
    assert hi !in links;
  }

  /** Writing row `hi` appends its shelf to the added shelves. */
  lemma AddedShelvesExtend(m: map<nat, Link>, lo: nat, hi: nat, l: Link)
    requires lo <= hi
    requires forall row :: lo <= row < hi ==> row in m
    ensures AddedShelves(m[hi := l], lo, hi + 1) == AddedShelves(m, lo, hi) + [l.shelf]
  {
    assert AddedShelves(m[hi := l], lo, hi) == AddedShelves(m, lo, hi);
  }

  /** One pass of the second loop keeps the loop's invariant. */
  lemma AddStep(
    links: map<nat, Link>, next: nat, m: map<nat, Link>, hi: nat, book: int,
    toAdd: int -> bool, wanted: seq<int>, i: nat, m': map<nat, Link>, hi': nat)
    requires forall r :: r in links ==> r < next
    requires i < |wanted|
    requires GrownFrom(links, next, m, hi, book)
    requires AddedShelves(m, next, hi) == Filter(wanted[..i], toAdd)
    requires m' == (if toAdd(wanted[i]) then m[hi := Link(book, wanted[i])] else m)
    requires hi' == (if toAdd(wanted[i]) then hi + 1 else hi)
    ensures GrownFrom(links, next, m', hi', book)
    ensures AddedShelves(m', next, hi') == Filter(wanted[..i + 1], toAdd)
  {
    var sid := wanted[i];
    assert wanted[..i + 1] == wanted[..i] + [sid];
    FilterSnoc(wanted[..i], sid, toAdd);
    if toAdd(sid) {
      GrowByOne(links, next, m, hi, book, Link(book, sid));
      AddedShelvesExtend(m, next, hi, Link(book, sid));
    }
  }

  /** The second link loop of `save_book`: a new row, numbered from
      `next` on, for each requested shelf id that passes `toAdd`, in
      request order; the rows already there stay. */
  method AddMissingLinks(links: map<nat, Link>, next: nat, book: int, toAdd: int -> bool, wanted: seq<int>)
    returns (links': map<nat, Link>, next': nat)
    requires forall r :: r in links ==> r < next
    ensures GrownFrom(links, next, links', next', book)
    ensures AddedShelves(links', next, next') == Filter(wanted, toAdd)
  {
    links', next' := links, next;
    var i := 0;
    while i < |wanted|
      invariant 0 <= i <= |wanted|
      invariant GrownFrom(links, next, links', next', book)
      invariant AddedShelves(links', next, next') == Filter(wanted[..i], toAdd)
    {
      var sid := wanted[i];
      var grown, top := links', next';
      if toAdd(sid) {
        grown, top := links'[next' := Link(book, sid)], next' + 1;
      }
      AddStep(links, next, links', next', book, toAdd, wanted, i, grown, top);
      links', next' := grown, top;
      i := i + 1;
    }
    assert wanted[..i] == wanted;
  }

  /** Both link loops of `save_book`; the linked set is taken before the
      first loop deletes anything. */
  method ReconcileShelfLinks(links: map<nat, Link>, next: nat, book: int, owned: set<int>, wanted: seq<int>)
    returns (links': map<nat, Link>, next': nat)
    requires forall r :: r in links ==> r < next
    ensures Reconciled(links, next, links', next', book, owned, wanted)
  {
    var linked := LinkedShelves(links, book, owned);
    var kept := DropUnwantedLinks(links, book, owned, wanted);
    links', next' := AddMissingLinks(kept, next, book, ToAdd(linked, owned), wanted);
  }

  // ---------------------------------------------------------------
  // Profile settings
  // ---------------------------------------------------------------

  const Dark := JStr("dark")

  /** The theme `get_data` reports: the top-level 'theme' of the view
      settings, 'dark' when the settings are empty or lack the key. */
  function UserTheme(settings: map<string, Json>): (r: Json)
    ensures |settings| == 0 ==> r == Dark
    ensures "theme" in settings ==> r == settings["theme"]
    ensures "theme" !in settings ==> r == Dark
  {
    if |settings| > 0 && "theme" in settings then settings["theme"] else Dark
  }

  /** `set_view_property(page, prop, value)`: writes `value` under
      `settings[page][prop]`, creating the page entry when it is missing
      and replacing it when it is not an object. */
  function SetViewProperty(settings: map<string, Json>, page: string, prop: string, value: Json): (r: map<string, Json>)
    ensures r.Keys == settings.Keys + {page}
    ensures r[page].JObj? && prop in r[page].fields && r[page].fields[prop] == value
    ensures forall k :: k in settings && k != page ==> r[k] == settings[k]
    ensures page in settings && settings[page].JObj? ==>
      forall k :: k in settings[page].fields && k != prop ==>
        k in r[page].fields && r[page].fields[k] == settings[page].fields[k]
    ensures r[page].fields.Keys ==
      (if page in settings && settings[page].JObj? then settings[page].fields.Keys else {}) + {prop}
  {
    var entry := if page in settings && settings[page].JObj? then settings[page].fields else map[];
    settings[page := JObj(entry[prop := value])]
  }

  const BookshelfPage := "bookshelf"

  /** `update_profile`: only the request's 'theme' key has an effect. */
  function ProfileUpdate(settings: map<string, Json>, request: map<string, Json>): (r: map<string, Json>)
    ensures "theme" !in request ==> r == settings
  {
    if "theme" in request then SetViewProperty(settings, BookshelfPage, "theme", request["theme"]) else settings
  }

  /** Two requests that agree on 'theme' update the settings alike,
      whatever else they carry. */
  lemma ProfileUpdateReadsOnlyTheme(settings: map<string, Json>, a: map<string, Json>, b: map<string, Json>)
    requires Get(a, "theme") == Get(b, "theme")
    ensures ProfileUpdate(settings, a) == ProfileUpdate(settings, b)
  {
    assert ("theme" in a) == ("theme" in b);
  }

  /** As written, the theme saved by `update_profile` sits under
      'bookshelf', where `get_data` does not look: the reported theme never
      changes. */
  lemma ThemeUpdateNotReported(settings: map<string, Json>, request: map<string, Json>)
    ensures UserTheme(ProfileUpdate(settings, request)) == UserTheme(settings)
  {
    if "theme" in request {
      var r := ProfileUpdate(settings, request);
      assert ("theme" in r) == ("theme" in settings);
      if "theme" in settings {
        assert r["theme"] == settings["theme"];
      }
    }
  }

  /** The concrete case: a user with no settings saves 'light' and is
      still reported 'dark'. */
  lemma LightThemeReportedDark()
    ensures UserTheme(ProfileUpdate(map[], map["theme" := JStr("light")])) == Dark
  {
    ThemeUpdateNotReported(map[], map["theme" := JStr("light")]);
  }

  /** The theme read from where `update_profile` stores it, 'dark' when
      nothing is stored there. */
  function BookshelfTheme(settings: map<string, Json>): (r: Json)
    ensures BookshelfPage in settings && settings[BookshelfPage].JObj? && "theme" in settings[BookshelfPage].fields
      ==> r == settings[BookshelfPage].fields["theme"]
    ensures !(BookshelfPage in settings && settings[BookshelfPage].JObj? && "theme" in settings[BookshelfPage].fields)
      ==> r == Dark
  {
    if BookshelfPage in settings && settings[BookshelfPage].JObj? && "theme" in settings[BookshelfPage].fields
    then settings[BookshelfPage].fields["theme"]
    else Dark
  }

  /** Read from there, a saved theme is the theme reported next. */
  lemma SavedThemeIsReported(settings: map<string, Json>, request: map<string, Json>)
    requires "theme" in request
    ensures BookshelfTheme(ProfileUpdate(settings, request)) == request["theme"]
  {
  }

  // ---------------------------------------------------------------
  // The store
  // ---------------------------------------------------------------

  class Store {
    /** Ids of the library's books. */
    var books: set<int>
    /** Owner (user id) of each shelf, by shelf id. */
    var shelfOwner: map<int, int>
    var progress: map<UserBook, ProgressRow>
    var readBooks: map<UserBook, ReadStatus>
    /** Shelf link rows by row id; `nextLinkRow` is the next id to hand out. */
    var links: map<nat, Link>
    var nextLinkRow: nat
    /** Each user's view settings. */
    var viewSettings: map<int, map<string, Json>>

    /** Bookkeeping for row numbering only: every link row id is below
        the next id to hand out, so a new row never overwrites an old one. */
    ghost predicate Valid()
      reads this
    {
      forall r :: r in links ==> r < nextLinkRow
    }

    /** `user_shelf_ids`: the shelves the user owns. */
    function UserShelves(user: int): (r: set<int>)
      reads this
      ensures forall s :: s in r <==> s in shelfOwner && shelfOwner[s] == user
    {
      set s | s in shelfOwner && shelfOwner[s] == user
    }

    function SettingsOf(user: int): map<string, Json>
      reads this
    {
      if user in viewSettings then viewSettings[user] else map[]
    }

    /** The progress row of (user, book), a fresh one when there is none. */
    function RowOrNew(key: UserBook): ProgressRow
      reads this
    {
      if key in progress then progress[key] else ProgressRow(None, None, None)
    }

    /** The progress row `save_book` leaves for `key`: the existing row,
        or a fresh one, with the whitelisted request keys merged into its
        metadata. */
    function SavedRow(key: UserBook, request: map<string, Json>): ProgressRow
      reads this
    {
      var row := RowOrNew(key);
      var stored := if row.data.Some? then row.data.value else map[];
      row.(data := Some(MergeFields(stored, request, FieldsToStore)))
    }

    /** The part of `save_book` after the book row is found; `failed`
        reports the `int()` error on a requested shelf id. */
    method SaveFoundBook(key: UserBook, request: map<string, Json>) returns (failed: bool)
      requires Valid()
      modifies this`progress, this`readBooks, this`links, this`nextLinkRow
      ensures Valid()
      ensures progress == old(progress)[key := old(SavedRow(key, request))]
      ensures readBooks == old(readBooks)[key := ReadStatusFor(Get(request, "status"))]
      ensures failed <==> "shelves" in request && ShelfIds(request["shelves"]).None?
      ensures !("shelves" in request && ShelfIds(request["shelves"]).Some?) ==>
        links == old(links) && nextLinkRow == old(nextLinkRow)
      ensures "shelves" in request && ShelfIds(request["shelves"]).Some? ==>
        Reconciled(old(links), old(nextLinkRow), links, nextLinkRow, key.book,
                   UserShelves(key.user), ShelfIds(request["shelves"]).value)
    {
      var row := RowOrNew(key);
      readBooks := readBooks[key := ReadStatusFor(Get(request, "status"))];
      var stored := if row.data.Some? then row.data.value else map[];
      var merged := MergeWhitelisted(stored, request);
      progress := progress[key := row.(data := Some(merged))];
      failed := false;
      if "shelves" in request {
        var owned := UserShelves(key.user);
        var wanted := ShelfIds(request["shelves"]);
        if wanted.None? {
          return true;
        }
        links, nextLinkRow := ReconcileShelfLinks(links, nextLinkRow, key.book, owned, wanted.value);
      }
    }

    /** `save_book`. A missing or falsy id is refused with 501 and an id
        without a book row with 404, both before anything is written.
        A list or dict id makes the book query raise: 500, nothing
        written. Otherwise the (user, book) progress row and read-status row exist
        afterwards, the status rule and the whitelist merge are applied,
        and, when the request carries 'shelves', the book's links to the
        user's shelves are reconciled with the requested ids; an id that
        `int()` rejects ends in 500 with the links untouched but the rows
        already written kept. */
    method SaveBook(user: int, request: map<string, Json>) returns (reply: Reply)
      requires Valid()
      modifies this
      ensures Valid()
      ensures books == old(books) && shelfOwner == old(shelfOwner) && viewSettings == old(viewSettings)
      ensures !("id" in request && Truthy(request["id"])) ==>
        reply == Failure(NotImplemented)
        && progress == old(progress) && readBooks == old(readBooks) && links == old(links) && nextLinkRow == old(nextLinkRow)
      ensures "id" in request && Truthy(request["id"]) && Unbindable(request["id"]) ==>
        reply == Failure(ServerError)
        && progress == old(progress) && readBooks == old(readBooks) && links == old(links) && nextLinkRow == old(nextLinkRow)
      ensures "id" in request && Truthy(request["id"]) && !Unbindable(request["id"]) && BookKey(request["id"]).None? ==>
        reply == Failure(NotFound)
        && progress == old(progress) && readBooks == old(readBooks) && links == old(links) && nextLinkRow == old(nextLinkRow)
      ensures "id" in request && Truthy(request["id"]) && BookKey(request["id"]).Some? ==>
        var key := UserBook(user, BookKey(request["id"]).value);
        && (key.book !in old(books) ==>
              reply == Failure(NotFound)
              && progress == old(progress) && readBooks == old(readBooks) && links == old(links) && nextLinkRow == old(nextLinkRow))
        && (key.book in old(books) ==>
              && progress == old(progress)[key := old(SavedRow(key, request))]
              && readBooks == old(readBooks)[key := ReadStatusFor(Get(request, "status"))]
              && ("shelves" !in request ==> links == old(links) && nextLinkRow == old(nextLinkRow) && reply == Success(Some(request["id"])))
              && ("shelves" in request && ShelfIds(request["shelves"]).None? ==>
                    links == old(links) && nextLinkRow == old(nextLinkRow) && reply == Failure(ServerError))
              && ("shelves" in request && ShelfIds(request["shelves"]).Some? ==>
                    reply == Success(Some(request["id"]))
                    && Reconciled(old(links), old(nextLinkRow), links, nextLinkRow, key.book,
                                  old(UserShelves(user)), ShelfIds(request["shelves"]).value)))
    {
      var id := Get(request, "id");
      if !(id.Some? && Truthy(id.value)) {
        return Failure(NotImplemented);
      }
      if Unbindable(id.value) {
        return Failure(ServerError);
      }
      var bookKey := BookKey(id.value);
      if !(bookKey.Some? && bookKey.value in books) {
        return Failure(NotFound);
      }
      var failed := SaveFoundBook(UserBook(user, bookKey.value), request);
      reply := if failed then Failure(ServerError) else Success(id);
    }

    /** `delete_book`: the user's progress and read-status rows for the
        book and its links to the user's shelves go; other users' rows,
        links to other users' shelves and the book itself stay. A list or
        dict id makes the first delete raise: 500, nothing deleted. */
    method DeleteBook(user: int, request: map<string, Json>) returns (reply: Reply)
      requires Valid()
      modifies this
      ensures Valid()
      ensures reply == if "id" in request && Unbindable(request["id"]) then Failure(ServerError) else Success(None)
      ensures books == old(books) && shelfOwner == old(shelfOwner) && viewSettings == old(viewSettings)
      ensures nextLinkRow == old(nextLinkRow)
      ensures !("id" in request && BookKey(request["id"]).Some?) ==>
        progress == old(progress) && readBooks == old(readBooks) && links == old(links)
      ensures "id" in request && BookKey(request["id"]).Some? ==>
        var book := BookKey(request["id"]).value;
        && progress == old(progress) - {UserBook(user, book)}
        && readBooks == old(readBooks) - {UserBook(user, book)}
        && (forall r :: r in links <==> r in old(links) && !(old(links)[r].book == book && old(links)[r].shelf in old(UserShelves(user))))
        && (forall r :: r in links ==> links[r] == old(links)[r])
    {
      var id := Get(request, "id");
      if id.Some? && Unbindable(id.value) {
        return Failure(ServerError);
      }
      var bookKey := if id.Some? then BookKey(id.value) else None;
      if bookKey.Some? {
        var key := UserBook(user, bookKey.value);
        progress := progress - {key};
        readBooks := readBooks - {key};
        var owned := UserShelves(user);
        if owned != {} {
          var book := bookKey.value;
          links := map r | r in links && !(links[r].book == book && links[r].shelf in owned) :: links[r];
        }
      }
      reply := Success(None);
    }

    /** `update_profile`: a 'theme' key is stored through
        `set_view_property`; every other key is ignored. */
    method UpdateProfile(user: int, request: map<string, Json>) returns (reply: Reply)
      modifies this`viewSettings
      ensures reply == Success(None)
      ensures viewSettings == if "theme" in request
                              then old(viewSettings)[user := ProfileUpdate(old(SettingsOf(user)), request)]
                              else old(viewSettings)
    {
      if "theme" in request {
        viewSettings := viewSettings[user := ProfileUpdate(SettingsOf(user), request)];
      }
      reply := Success(None);
    }
  }

  /** The `progress` object of `get_data`: one entry per progress row of
      the user, keyed by book id, carrying the row's fields. */
  method ProgressPayload(progress: map<UserBook, ProgressRow>, user: int) returns (payload: map<int, ProgressRow>)
    ensures forall b :: b in payload <==> UserBook(user, b) in progress
    ensures forall b :: b in payload ==> payload[b] == progress[UserBook(user, b)]
  {
    payload := map[];
    var rows := set k | k in progress && k.user == user;
    var pending := rows;
    while pending != {}
      invariant pending <= rows
      invariant forall b :: b in payload <==> UserBook(user, b) in rows - pending
      invariant forall b :: b in payload ==> payload[b] == progress[UserBook(user, b)]
      decreases pending
    {
      var k :| k in pending;
      payload := payload[k.book := progress[k]];
      pending := pending - {k};
    }
  }
}
