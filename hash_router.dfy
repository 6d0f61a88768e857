/** The client's `router` (cps/static/bookshelf/js/app.js): which page or
    overlay a URL fragment selects. Hiding and showing page containers and
    the navigation highlight are DOM work and are not modelled; a route
    here is what the dispatch chooses. */
module HashRouter {
  import opened Common
  import opened Strings
  import opened BookshelfModel

  datatype Page = Shelves | MyBooks | Statistics | Tools | ProfilePage | SettingsPage

  /** What one run of the router does: show one page, open the form or the
      details overlay, or match nothing and leave every page hidden. */
  datatype Route =
    | ShowPage(page: Page)
    | AddBook
    | ViewBook(bookId: Id)
    | EditBook(bookId: Id)
    | NoRoute

  const DefaultHash := "#/estantes"
  const AddHash := "#/add"
  const BookPrefix := "#/book/"
  const EditPrefix := "#/edit/"

  function PageHash(p: Page): string
  {
    match p
    case Shelves => DefaultHash
    case MyBooks => "#/meus-livros"
    case Statistics => "#/estatisticas"
    case Tools => "#/ferramentas"
    case ProfilePage => "#/profile"
    case SettingsPage => "#/settings"
  }

  /** `window.location.hash || '#/estantes'`. */
  function EffectiveHash(raw: string): string
  {
    if raw == "" then DefaultHash else raw
  }

  /** `parseInt(x) || x`: the segment as a number when it parses to a
      non-zero number, otherwise the segment string itself (NaN and 0 are
      falsy). */
  function CoerceId(segment: string): (r: Id)
    ensures r.Num? ==> ParseIntPrefix(segment) == Some(r.n) && r.n != 0
    ensures r.Text? ==> r.s == segment
    ensures ParseIntPrefix(segment).Some? && ParseIntPrefix(segment).value != 0 ==>
      r == Num(ParseIntPrefix(segment).value)
  {
    match ParseIntPrefix(segment)
    case Some(v) => if v != 0 then Num(v) else Text(segment)
    case None => Text(segment)
  }

  /** `hash.split('/')[2]`, coerced to an id. */
  function FragmentId(hash: string): Id
  {
    var parts := Split(hash, '/');
    if |parts| > 2 then CoerceId(parts[2]) else Text("")
  }

  /** A fragment under either prefix is none of the fixed fragments, and
      the two prefixes exclude each other: they differ at the third
      character. */
  lemma PrefixesAreExclusive(hash: string)
    ensures BookPrefix <= hash || EditPrefix <= hash ==>
      && (forall p: Page :: hash != PageHash(p))
      && hash != AddHash
    ensures !(BookPrefix <= hash && EditPrefix <= hash)
  {
    if BookPrefix <= hash || EditPrefix <= hash {
      assert hash[2] == 'b' || hash[2] == 'e';
      assert hash[3] == 'o' || hash[3] == 'd';
      forall p: Page ensures hash != PageHash(p) {
        var h := PageHash(p);
        assert h[2] != 'b' && (h[2] == 'e' ==> h[3] != 'd');
      }
      assert AddHash[2] == 'a';
    }
    if BookPrefix <= hash {
      assert hash[2] == BookPrefix[2] == 'b';
      assert !(EditPrefix <= hash);
    }
  }

  /** The if-chain of `router`, in the source's order. A page is shown
      only for its own fragment, the form only for `#/add`, and the two
      prefixes, which exclude each other and every fixed fragment, open the
      details overlay or the form for the id after them. */
  function Dispatch(raw: string): (r: Route)
    ensures r.ShowPage? ==> EffectiveHash(raw) == PageHash(r.page)
    ensures r == AddBook <==> EffectiveHash(raw) == AddHash
    ensures r.ViewBook? <==> BookPrefix <= EffectiveHash(raw)
    ensures r.EditBook? <==> EditPrefix <= EffectiveHash(raw)
    ensures r.ViewBook? || r.EditBook? ==> r.bookId == FragmentId(EffectiveHash(raw))
  {
    var hash := EffectiveHash(raw);
    PrefixesAreExclusive(hash);
    if hash == PageHash(Shelves) then ShowPage(Shelves)
    else if hash == PageHash(MyBooks) then ShowPage(MyBooks)
    else if hash == PageHash(Statistics) then ShowPage(Statistics)
    else if hash == PageHash(Tools) then ShowPage(Tools)
    else if hash == PageHash(ProfilePage) then ShowPage(ProfilePage)
    else if hash == PageHash(SettingsPage) then ShowPage(SettingsPage)
    else if hash == AddHash then AddBook
    else if BookPrefix <= hash then ViewBook(FragmentId(hash))
    else if EditPrefix <= hash then EditBook(FragmentId(hash))
    else NoRoute
  }

  /** An empty fragment shows the shelves page. */
  lemma EmptyHashShowsShelves()
    ensures Dispatch("") == ShowPage(Shelves)
  {
  }

  /** A page is shown exactly when the fragment (defaulted) is that page's
      own fragment. */
  lemma ShowsPageIff(raw: string, p: Page)
    ensures Dispatch(raw) == ShowPage(p) <==> EffectiveHash(raw) == PageHash(p)
  {
  }

  /** The fragments that select no branch: non-empty, none of the seven
      fixed fragments and neither prefix. */
  lemma NoRouteIff(raw: string)
    ensures Dispatch(raw) == NoRoute <==>
      && raw != ""
      && (forall p: Page :: raw != PageHash(p))
      && raw != AddHash
      && !(BookPrefix <= raw)
      && !(EditPrefix <= raw)
  {
    if raw != "" && (forall p: Page :: raw != PageHash(p)) {
      assert raw != PageHash(Shelves) && raw != PageHash(MyBooks) && raw != PageHash(Statistics);
      assert raw != PageHash(Tools) && raw != PageHash(ProfilePage) && raw != PageHash(SettingsPage);
    }
  }

  /** `#/book/X` and `#/edit/X` take the text after the prefix, up to the
      next '/', as the id. */
  lemma {:induction false} FragmentIdAfterPrefix(prefix: string, rest: string)
    requires prefix == BookPrefix || prefix == EditPrefix
    ensures FragmentId(prefix + rest) == CoerceId(UpToSeparator(rest, '/'))
  {
    var word := if prefix == BookPrefix then "book" else "edit";
    assert prefix + rest == "#" + ['/'] + (word + ['/'] + rest);
    SplitAtFirstSeparator("#", '/', word + ['/'] + rest);
    SplitAtFirstSeparator(word, '/', rest);
    SplitHead(rest, '/');
  }

  lemma DetailsRoute(rest: string)
    ensures Dispatch(BookPrefix + rest) == ViewBook(CoerceId(UpToSeparator(rest, '/')))
  {
    var h := BookPrefix + rest;
    assert h[2] == 'b';
    FragmentIdAfterPrefix(BookPrefix, rest);
  }

  lemma EditRoute(rest: string)
    ensures Dispatch(EditPrefix + rest) == EditBook(CoerceId(UpToSeparator(rest, '/')))
  {
    var h := EditPrefix + rest;
    assert h[2] == 'e' && h[3] == 'd';
    assert h != PageHash(Shelves) && h != PageHash(Statistics) by {
      assert PageHash(Shelves)[3] == 's' && PageHash(Statistics)[3] == 's';
    }
    assert h != PageHash(MyBooks) && h != PageHash(Tools) && h != PageHash(ProfilePage) by {
      assert PageHash(MyBooks)[2] == 'm' && PageHash(Tools)[2] == 'f' && PageHash(ProfilePage)[2] == 'p';
    }
    assert h != PageHash(SettingsPage) && h != AddHash && !(BookPrefix <= h) by {
      assert PageHash(SettingsPage)[2] == 's' && AddHash[2] == 'a' && BookPrefix[2] == 'b';
    }
    assert EditPrefix <= h;
    FragmentIdAfterPrefix(EditPrefix, rest);
  }

  /** The link `#/book/${b.id}` that the grid and the shelf previews put on
      each cover opens the details overlay for that same numeric id. */
  lemma BookLinkOpensThatBook(id: nat)
    requires id > 0
    ensures Dispatch(BookPrefix + NatDigits(id)) == ViewBook(Num(id))
  {
    var d := NatDigits(id);
    DetailsRoute(d);
    assert '/' !in d by {
      forall i | 0 <= i < |d| ensures d[i] != '/' { assert IsDigit(d[i]); }
    }
    UpToSeparatorWithout(d, '/');
    ParseIntPrefixOfNatDigits(id);
  }

  /** A book id of 0 is falsy after `parseInt`, so the overlay receives the
      string "0" instead of the number. */
  lemma ZeroIdStaysText()
    ensures Dispatch(BookPrefix + "0") == ViewBook(Text("0"))
  {
    DetailsRoute("0");
    assert UpToSeparator("0", '/') == "0";
    assert LeadingDigits("0") == "0";
  }
}
