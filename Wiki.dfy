/**
  The page store and the request handlers of goTest.go: `Page`, `Page.save`,
  `loadPage`, the view/edit/save/front-page handlers and the `makeHandler`
  router.  The files of the working directory are a map from file name to
  content; an HTTP exchange is the handler's response together with the
  store after it.
 */
module Wiki {

  import opened Wrappers
  import opened ByteStrings
  import opened PathValidator
  import LinkRewriter

  /** `Page` (goTest.go:19-23); `unEscapedBody` is the rewritten body shown by the view template. */
  datatype Page = Page(title: string, body: Bytes, unEscapedBody: Bytes)

  /** The page files: file name to file content. */
  type Store = map<string, Bytes>

  datatype LoadError = FileNotFound(name: string)

  /** What a handler sends back: `http.NotFound`, `http.Redirect` or a filled template. */
  datatype Response =
    | NotFound
    | Redirect(location: string, status: int)
    | Render(template: string, page: Page)

  /** A handler's response and the store it leaves behind. */
  datatype Outcome = Outcome(response: Response, store: Store)

  /** A handler bound by `makeHandler`: the store, the page title and the `body` form value. */
  type Handler = (Store, string, Bytes) -> Outcome

  const FrontPage: string := "FrontPage"
  const StatusFound: int := 302

  /** The file that holds page `title` (goTest.go:27 and goTest.go:41). */
  function FileName(title: string): (name: string)
    ensures |name| == |title| + 4 && name[..|title|] == title && name[|title|..] == ".txt"
  {
    title + ".txt"
  }

  /** Different titles are stored in different files. */
  lemma FileNameInjective(t: string, u: string)
    requires FileName(t) == FileName(u)
    ensures t == u
  {
    assert |t| == |u|;
    assert t == FileName(t)[..|t|] == FileName(u)[..|u|] == u;
  }

  /** `Page.save` (goTest.go:26-29): the raw body is written verbatim to the page's file; no other file changes. */
  function Save(store: Store, p: Page): (s: Store)
    ensures FileName(p.title) in s && s[FileName(p.title)] == p.body
    ensures s.Keys == store.Keys + {FileName(p.title)}
    ensures forall f | f in store && f != FileName(p.title) :: s[f] == store[f]
  {
    store[FileName(p.title) := p.body]
  }

  /** `loadPage` (goTest.go:40-47): the page read from its file, or an error when the file is absent. */
  function LoadPage(store: Store, title: string): (r: Result<Page, LoadError>)
    ensures r.Success? <==> FileName(title) in store
    ensures r.Success? ==> r.value.title == title && r.value.body == store[FileName(title)]
    ensures r.Success? ==> r.value.unEscapedBody == []
  {
    var name := FileName(title);
    if name in store then Success(Page(title, store[name], [])) else Failure(FileNotFound(name))
  }

  /** Saving a page and loading its title gives the saved body back, byte for byte. */
  lemma SaveThenLoad(store: Store, p: Page)
    ensures LoadPage(Save(store, p), p.title) == Success(Page(p.title, p.body, []))
  {
  }

  /** Saving a page leaves every other page as it was. */
  lemma SaveKeepsOtherPages(store: Store, p: Page, title: string)
    requires title != p.title
    ensures LoadPage(Save(store, p), title) == LoadPage(store, title)
  {
    if FileName(title) == FileName(p.title) {
      FileNameInjective(title, p.title);
    }
  }

  /**
    `viewHandler` (goTest.go:76-84): a missing page redirects to its edit
    form; a present page is rendered with its body run through the link
    rewriter.  Nothing is written.
   */
  function ViewHandler(store: Store, title: string, form: Bytes): (o: Outcome)
    ensures o.store == store
    ensures FileName(title) !in store ==> o.response == Redirect(PathOf(Op.Edit, title), StatusFound)
    ensures FileName(title) in store ==>
              var body := store[FileName(title)];
              o.response == Render("view", Page(title, body, LinkRewriter.Rewritten(body)))
  {
    assert PathOf(Op.Edit, title) == "/edit/" + title;
    match LoadPage(store, title)
    case Failure(_) => Outcome(Redirect("/edit/" + title, StatusFound), store)
    case Success(p) => Outcome(Render("view", p.(unEscapedBody := LinkRewriter.Rewritten(p.body))), store)
  }

  /**
    `editHandler` (goTest.go:50-56): the edit form is filled with the stored
    body, or with an empty page carrying only the title when there is none.
   */
  function EditHandler(store: Store, title: string, form: Bytes): (o: Outcome)
    ensures o.store == store
    ensures FileName(title) !in store ==> o.response == Render("edit", Page(title, [], []))
    ensures FileName(title) in store ==> o.response == Render("edit", Page(title, store[FileName(title)], []))
  {
    var p := match LoadPage(store, title)
      case Failure(_) => Page(title, [], [])
      case Success(p) => p;
    Outcome(Render("edit", p), store)
  }

  /**
    `saveHandler` (goTest.go:87-92): the submitted form body is stored raw
    under the title and the client is sent to the view page.  The result of
    the write is not consulted: the redirect is the same whatever the store.
   */
  function SaveHandler(store: Store, title: string, form: Bytes): (o: Outcome)
    ensures o.response == Redirect(PathOf(Op.View, title), StatusFound)
    ensures LoadPage(o.store, title) == Success(Page(title, form, []))
    ensures forall t | t != title :: LoadPage(o.store, t) == LoadPage(store, t)
    ensures o.store.Keys == store.Keys + {FileName(title)}
    ensures forall f | f in store && f != FileName(title) :: o.store[f] == store[f]
  {
    var p := Page(title, form, []);
    SaveThenLoad(store, p);
    forall t | t != title ensures LoadPage(Save(store, p), t) == LoadPage(store, t) {
      SaveKeepsOtherPages(store, p, t);
    }
    assert PathOf(Op.View, title) == "/view/" + title;
    Outcome(Redirect("/view/" + title, StatusFound), Save(store, p))
  }

  /** `frontPageRedirect` (goTest.go:95-97): always a redirect to the front page's view. */
  function FrontPageRedirect(store: Store, title: string, form: Bytes): (o: Outcome)
    ensures o == Outcome(Redirect(PathOf(Op.View, FrontPage), StatusFound), store)
  {
    assert PathOf(Op.View, FrontPage) == "/view/FrontPage";
    Outcome(Redirect("/view/FrontPage", StatusFound), store)
  }

  /**
    The title `makeHandler` hands to its handler (goTest.go:102-111): the
    root path gives the front page without consulting the pattern; any other
    path gives its identifier group when it matches and nothing when it does
    not.  Either way the title is letters and digits only.
   */
  function Route(path: string): (r: Option<string>)
    ensures path == "/" ==> r == Some(FrontPage)
    ensures path != "/" ==> (r.Some? <==> exists op, id :: IsId(id) && path == PathOf(op, id))
    ensures forall op, id | IsId(id) && path == PathOf(op, id) :: r == Some(id)
    ensures r.Some? ==> IsId(r.value)
  {
    ValidPathIff(path);
    forall op, id | IsId(id) && path == PathOf(op, id) ensures ValidPath(path) == Some((op, id)) {
      ValidPathAccepts(op, id);
    }
    if path == "/" then
      assert IsAlnum(FrontPage[0]);
      Some(FrontPage)
    else match ValidPath(path)
      case None => None
      case Some((_, id)) => Some(id)
  }

  /**
    `makeHandler` (goTest.go:100-113): the bound handler runs on the routed
    title; a path that does not route gets a 404 and the store is untouched.
   */
  function MakeHandler(fn: Handler, store: Store, path: string, form: Bytes): (o: Outcome)
    ensures Route(path).None? ==> o == Outcome(NotFound, store)
    ensures Route(path).Some? ==> o == fn(store, Route(path).value, form)
  {
    match Route(path)
    case None => Outcome(NotFound, store)
    case Some(title) => fn(store, title, form)
  }

  /**
    A path whose first segment is not edit, save or view is not found,
    whichever handler it reaches.
   */
  lemma UnknownOperationNotFound(fn: Handler, store: Store, seg: string, id: string, form: Bytes)
    requires '/' !in seg && seg != "edit" && seg != "save" && seg != "view"
    ensures MakeHandler(fn, store, "/" + seg + "/" + id, form) == Outcome(NotFound, store)
  {
    forall op, id' ensures "/" + seg + "/" + id != PathOf(op, id') {
      SegmentMismatch(seg, id, op, id');
    }
  }

  /** A single segment other than an operation name never spells the start of `/op/`. */
  lemma SegmentMismatch(seg: string, id: string, op: Op, id': string)
    requires '/' !in seg && seg != OpName(op)
    ensures "/" + seg + "/" + id != PathOf(op, id')
  {
    var p, q, name := "/" + seg + "/" + id, PathOf(op, id'), OpName(op);
    assert |name| == 4 && '/' !in name;
    if |seg| < 4 {
      assert p[1 + |seg|] == '/';
      assert q[1 + |seg|] == name[|seg|];
    } else if |seg| > 4 {
      assert p[5] == seg[4];
      assert q[5] == '/';
    } else {
      assert p[1..5] == seg;
      assert q[1..5] == name;
    }
  }

  /**
    Saving a body through `/save/T` and then viewing `/view/T` renders the
    saved body, with the view template's copy run through the link rewriter.
   */
  lemma SaveThenView(store: Store, title: string, form: Bytes, form': Bytes)
    requires IsId(title)
    ensures var saved := MakeHandler(SaveHandler, store, PathOf(Op.Save, title), form);
            && saved.response == Redirect(PathOf(Op.View, title), StatusFound)
            && MakeHandler(ViewHandler, saved.store, PathOf(Op.View, title), form').response
               == Render("view", Page(title, form, LinkRewriter.Rewritten(form)))
  {
    var saved := MakeHandler(SaveHandler, store, PathOf(Op.Save, title), form);
    assert LoadPage(saved.store, title).Success?;
  }

  /** Viewing a page that was never saved redirects to its edit form and writes nothing. */
  lemma ViewMissingRedirectsToEdit(store: Store, title: string, form: Bytes)
    requires IsId(title) && FileName(title) !in store
    ensures MakeHandler(ViewHandler, store, PathOf(Op.View, title), form)
            == Outcome(Redirect(PathOf(Op.Edit, title), StatusFound), store)
  {
  }
}
