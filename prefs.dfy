/** The preferences window of prefs.js: populateWindow, which (re)builds the
    four top-level pages, and setVisiblePage, which reads the persisted
    'prefs-visible-page' indicator, navigates the window to the page (and
    sub-page) it names, and resets the indicator to MAIN.  The two listeners
    that fillPreferencesWindow connects are modelled as the methods
    OnPrefsVisiblePageChanged and OnVisiblePageNotify.

    Pages are values Page(kind, id); the id tells apart the instances built by
    successive calls of populateWindow.  The two leaflets of a MenuPage (its
    main leaflet and its sub-leaflet) are held, per MenuPage instance, in the
    window's `leaflets` map.  A page without an entry has no leaflets, so
    reading `page.mainLeaflet` or `page.subLeaflet` from it throws a
    TypeError, which ends setVisiblePage early. */
module Prefs {
  import opened Options
  import opened RowLists

  /** The destinations the indicator can name. */
  datatype PrefsVisiblePage =
    | Main | CustomizeMenu | MenuLayout | ButtonAppearance | LayoutTweaks
    | RunnerTweaks | About | General | MenuTheme

  /** The integer stored for each destination.  MAIN is 0; the others are
      distinct, and nothing below depends on which values they take. */
  function Code(p: PrefsVisiblePage): int {
    match p
    case Main => 0
    case CustomizeMenu => 1
    case MenuLayout => 2
    case ButtonAppearance => 3
    case LayoutTweaks => 4
    case RunnerTweaks => 5
    case About => 6
    case General => 7
    case MenuTheme => 8
  }

  /** The destination setVisiblePage's if-chain matches for a stored value,
      tried in the chain's order; None when no branch matches. */
  function Decode(v: int): (r: Option<PrefsVisiblePage>)
    ensures r.Some? ==> Code(r.value) == v
    ensures r.None? ==> forall p :: Code(p) != v
  {
    if v == Code(Main) then Some(Main)
    else if v == Code(CustomizeMenu) then Some(CustomizeMenu)
    else if v == Code(MenuLayout) then Some(MenuLayout)
    else if v == Code(ButtonAppearance) then Some(ButtonAppearance)
    else if v == Code(LayoutTweaks) then Some(LayoutTweaks)
    else if v == Code(RunnerTweaks) then Some(RunnerTweaks)
    else if v == Code(About) then Some(About)
    else if v == Code(General) then Some(General)
    else if v == Code(MenuTheme) then Some(MenuTheme)
    else None
  }

  /** Every destination is read back as itself. */
  lemma {:induction false} DecodeCode(p: PrefsVisiblePage)
    ensures Decode(Code(p)) == Some(p)
  {
  }

  /** The four top-level pages. */
  datatype PageKind = GeneralPage | MenuPage | MenuButtonPage | AboutPage

  /** The name under which a page is attached to the window. */
  function PageName(k: PageKind): string {
    match k
    case GeneralPage => "GeneralPage"
    case MenuPage => "MenuPage"
    case MenuButtonPage => "MenuButtonPage"
    case AboutPage => "AboutPage"
  }

  datatype Page = Page(kind: PageKind, id: nat)

  /** The children of a MenuPage's main leaflet: its main view, or its
      sub-leaflet. */
  datatype MainChild = MainView | SubLeaflet

  /** The sub-leaflet's children that setVisiblePage names; OtherSubPage
      stands for any other. */
  datatype SubChild = LayoutsPage | LayoutTweaksPage | ThemePage | OtherSubPage

  /** The active layout of the layout-tweaks page. */
  datatype MenuLayout = Runner | OtherLayout

  /** The navigation state of one MenuPage. */
  datatype Leaflets = Leaflets(main: MainChild, sub: SubChild, tweaksLayout: MenuLayout)

  /** The window as setVisiblePage sees it: the attached pages in order, the
      visible one, and the leaflets of every MenuPage built so far. */
  datatype WindowState = WindowState(children: seq<Page>, visible: Option<Page>, leaflets: map<Page, Leaflets>)

  /** The window's standing invariant. */
  predicate WellFormed(st: WindowState) {
    && Distinct(st.children)
    && (st.visible.Some? ==> st.visible.value in st.children)
    && (st.children != [] ==> st.visible.Some?)
    && (forall p :: p in st.children && p.kind == MenuPage ==> p in st.leaflets)
    && (forall p :: p in st.leaflets ==> p.kind == MenuPage)
  }

  /** The page kinds in window order. */
  function Kinds(ps: seq<Page>): (ks: seq<PageKind>)
    ensures |ks| == |ps|
    ensures forall i :: 0 <= i < |ps| ==> ks[i] == ps[i].kind
  {
    seq(|ps|, i requires 0 <= i < |ps| => ps[i].kind)
  }

  /** The window once populateWindow has attached its pages. */
  predicate Populated(st: WindowState) {
    && WellFormed(st)
    && Kinds(st.children) == [GeneralPage, MenuPage, MenuButtonPage, AboutPage]
  }

  // ---------------------------------------------------------------------
  // What the toolkit and the notify::visible-page listener do to the state.

  /** The notify::visible-page listener: when the MenuPage becomes visible,
      its main leaflet goes back to the main view. */
  function OnVisiblePageSpec(st: WindowState): WindowState {
    match st.visible
    case Some(page) =>
      if PageName(page.kind) == "MenuPage" && page in st.leaflets
      then st.(leaflets := st.leaflets[page := st.leaflets[page].(main := MainView)])
      else st
    case None => st
  }

  /** The visible page becomes `p`; the listener runs when that is a change. */
  function ShowSpec(st: WindowState, p: Option<Page>): WindowState {
    if st.visible == p then st else OnVisiblePageSpec(st.(visible := p))
  }

  /** The first child attached under `name`. */
  function FindNamed(children: seq<Page>, name: string): (r: Option<Page>)
    ensures r.Some? ==> r.value in children && PageName(r.value.kind) == name
    ensures r.None? ==> forall p :: p in children ==> PageName(p.kind) != name
  {
    if |children| == 0 then None
    else if PageName(children[0].kind) == name then Some(children[0])
    else FindNamed(children[1..], name)
  }

  /** set_visible_page_name(name): no page of that name, no change. */
  function ShowNamedSpec(st: WindowState, name: string): WindowState {
    match FindNamed(st.children, name)
    case None => st
    case Some(p) => ShowSpec(st, Some(p))
  }

  /** add(page): the first page attached becomes the visible one. */
  function AddSpec(st: WindowState, p: Page): WindowState {
    var st1 := st.(children := st.children + [p]);
    if st.visible.None? then ShowSpec(st1, Some(p)) else st1
  }

  /** remove(page): when the visible page goes, the first remaining one is
      shown instead. */
  function RemoveSpec(st: WindowState, p: Page): WindowState {
    var rest := RemoveRow(st.children, p);
    var st1 := st.(children := rest);
    if st.visible == Some(p) then ShowSpec(st1, if rest == [] then None else Some(rest[0])) else st1
  }

  /** The forEach at the top of populateWindow: the pages removed in order. */
  function RemoveAllSpec(st: WindowState, ps: seq<Page>): WindowState {
    if |ps| == 0 then st else RemoveSpec(RemoveAllSpec(st, ps[..|ps| - 1]), ps[|ps| - 1])
  }

  // ---------------------------------------------------------------------
  // setVisiblePage as a function of the state and the stored value.

  /** What a branch of setVisiblePage does to the MenuPage's leaflets. */
  datatype LeafletStep =
    | NoLeaflets                                      // only the page is chosen
    | ShowMainView                                    // mainLeaflet shows 'MainView'
    | ShowSubPage(child: SubChild, runner: bool)      // subLeaflet shows `child`, mainLeaflet the subLeaflet,
                                                      // and with `runner` the tweaks page gets the RUNNER layout

  /** A branch of setVisiblePage: the page name it requests, then its
      leaflet step. */
  datatype NavTarget = NavTarget(pageName: string, step: LeafletStep)

  /** The branches of setVisiblePage, as written. */
  function Navigation(p: PrefsVisiblePage): NavTarget {
    match p
    case Main => NavTarget("GeneralPage", NoLeaflets)
    case CustomizeMenu => NavTarget("MenuPage", ShowMainView)
    case MenuLayout => NavTarget("MenuPage", ShowSubPage(LayoutsPage, false))
    case ButtonAppearance => NavTarget("MenuButtonPage", NoLeaflets)
    case LayoutTweaks => NavTarget("MenuPage", ShowSubPage(LayoutTweaksPage, false))
    case RunnerTweaks => NavTarget("vPage", ShowSubPage(LayoutTweaksPage, true))
    case About => NavTarget("AboutPage", NoLeaflets)
    case General => NavTarget("GeneralPage", NoLeaflets)
    case MenuTheme => NavTarget("MenuPage", ShowSubPage(ThemePage, false))
  }

  /** The branches of setVisiblePage with the RUNNER_TWEAKS branch asking for
      the MenuPage, as every other branch that works on the leaflets does. */
  function IntendedNavigation(p: PrefsVisiblePage): NavTarget {
    if p == RunnerTweaks then Navigation(p).(pageName := "MenuPage") else Navigation(p)
  }

  /** The outcome of one branch: the new state and whether the branch ran to
      its end (false: it threw before reaching the reset). */
  datatype Nav = Nav(st: WindowState, completed: bool)

  function ApplyStep(l: Leaflets, step: LeafletStep): Leaflets {
    match step
    case NoLeaflets => l
    case ShowMainView => l.(main := MainView)
    case ShowSubPage(child, runner) =>
      l.(sub := child, main := SubLeaflet, tweaksLayout := if runner then Runner else l.tweaksLayout)
  }

  /** One branch: choose the page by name, then work on the leaflets of
      whatever page is visible, which throws when it has none. */
  function GoSpec(st: WindowState, t: NavTarget): Nav {
    var st1 := ShowNamedSpec(st, t.pageName);
    if t.step.NoLeaflets? then Nav(st1, true)
    else match st1.visible
      case Some(page) =>
        if page in st1.leaflets
        then Nav(st1.(leaflets := st1.leaflets[page := ApplyStep(st1.leaflets[page], t.step)]), true)
        else Nav(st1, false)
      case None => Nav(st1, false)
  }

  /** The state, the stored value and whether setVisiblePage completed. */
  datatype Restored = Restored(st: WindowState, indicator: int, completed: bool)

  /** The if-chain of setVisiblePage over a table of branches: no branch
      for an unknown value, otherwise that destination's branch. */
  function ChainSpec(nav: PrefsVisiblePage -> NavTarget, st: WindowState, v: int): Nav {
    match Decode(v)
    case None => Nav(st, true)
    case Some(p) => GoSpec(st, nav(p))
  }

  /** setVisiblePage over a table of branches: the chain, then the reset.  A
      completed run leaves the indicator at MAIN; a run that threw leaves it
      as it was. */
  function Restore(nav: PrefsVisiblePage -> NavTarget, st: WindowState, v: int): Restored {
    var n := ChainSpec(nav, st, v);
    Restored(n.st, if n.completed then Code(Main) else v, n.completed)
  }

  /** The 'changed::prefs-visible-page' listener: only a value other than
      MAIN navigates. */
  function ListenerSpec(st: WindowState, v: int): Restored {
    if v == Code(Main) then Restored(st, v, true) else Restore(Navigation, st, v)
  }

  /** The pages populateWindow builds, from the next free id n. */
  function FreshPages(n: nat): seq<Page> {
    [Page(GeneralPage, n), Page(MenuPage, n + 1), Page(MenuButtonPage, n + 2), Page(AboutPage, n + 3)]
  }

  /** The window after populateWindow has removed `oldPages` and attached the
      new pages, before its call of setVisiblePage. */
  function Rebuilt(st: WindowState, oldPages: seq<Page>, n: nat, menuInit: Leaflets): WindowState {
    var cleared := RemoveAllSpec(st, oldPages);
    WindowState(FreshPages(n), Some(Page(GeneralPage, n)), cleared.leaflets[Page(MenuPage, n + 1) := menuInit])
  }

  // ---------------------------------------------------------------------
  // Properties of the functions above.

  /** Navigation never attaches or detaches pages, and keeps the invariant. */
  lemma RestoreKeepsPages(nav: PrefsVisiblePage -> NavTarget, st: WindowState, v: int)
    requires WellFormed(st)
    ensures Restore(nav, st, v).st.children == st.children
    ensures WellFormed(Restore(nav, st, v).st)
  {
  }

  /** Whatever the stored value, setVisiblePage ends with MAIN stored exactly
      when it ran to its end; an unknown value changes nothing else. */
  lemma {:induction false} RestoreResets(nav: PrefsVisiblePage -> NavTarget, st: WindowState, v: int)
    ensures var r := Restore(nav, st, v);
      (r.indicator == Code(Main) <==> r.completed || v == Code(Main))
      && (Decode(v).None? ==> r == Restored(st, Code(Main), true))
  {
  }

  /** The write of MAIN that ends setVisiblePage does not navigate again:
      the listener, run on the result, leaves it as it is. */
  lemma {:induction false} ResetIsQuiet(st: WindowState, v: int)
    requires Restore(Navigation, st, v).completed
    ensures var r := Restore(Navigation, st, v);
      ListenerSpec(r.st, r.indicator) == Restored(r.st, r.indicator, true)
  {
  }

  /** In a populated window every page name but 'vPage' is found. */
  lemma {:induction false} PopulatedFinds(st: WindowState, k: PageKind)
    requires Populated(st)
    ensures FindNamed(st.children, PageName(k)).Some?
    ensures FindNamed(st.children, PageName(k)).value.kind == k
    ensures FindNamed(st.children, "vPage").None?
  {
    var c := st.children;
    assert Kinds(c)[0] == c[0].kind && Kinds(c)[1] == c[1].kind;
    assert Kinds(c)[2] == c[2].kind && Kinds(c)[3] == c[3].kind;
    assert c[1..][1..][1..][1..] == [];
  }

  /** MAIN, GENERAL, BUTTON_APPEARANCE and ABOUT show their page and touch no
      leaflet. */
  lemma PlainDestinations(st: WindowState, p: PrefsVisiblePage)
    requires Populated(st)
    requires p in {Main, General, ButtonAppearance, About}
    ensures var r := Restore(Navigation, st, Code(p));
      var kind := if p == ButtonAppearance then MenuButtonPage
                  else if p == About then AboutPage else GeneralPage;
      && r.completed && r.indicator == Code(Main)
      && r.st.visible.Some? && r.st.visible.value.kind == kind
  {
    DecodeCode(p);
    var kind := if p == ButtonAppearance then MenuButtonPage
                else if p == About then AboutPage else GeneralPage;
    PopulatedFinds(st, kind);
  }

  /** CUSTOMIZE_MENU shows the MenuPage with its main view; MENU_LAYOUT,
      LAYOUT_TWEAKS and MENU_THEME show the MenuPage with its sub-leaflet on
      the layouts, layout-tweaks and theme page. */
  lemma MenuDestinations(st: WindowState, p: PrefsVisiblePage)
    requires Populated(st)
    requires p in {CustomizeMenu, MenuLayout, LayoutTweaks, MenuTheme}
    ensures var r := Restore(Navigation, st, Code(p));
      && r.completed && r.indicator == Code(Main)
      && r.st.visible.Some? && r.st.visible.value.kind == MenuPage
      && r.st.visible.value in r.st.leaflets
      && var l := r.st.leaflets[r.st.visible.value];
      && (p == CustomizeMenu ==> l.main == MainView)
      && (p == MenuLayout ==> l.main == SubLeaflet && l.sub == LayoutsPage)
      && (p == LayoutTweaks ==> l.main == SubLeaflet && l.sub == LayoutTweaksPage)
      && (p == MenuTheme ==> l.main == SubLeaflet && l.sub == ThemePage)
  {
    DecodeCode(p);
    PopulatedFinds(st, MenuPage);
  }

  /** RUNNER_TWEAKS asks for a page no window has, so the visible page stays.
      On the MenuPage the branch completes: layout-tweaks page, sub-leaflet,
      RUNNER layout.  On any other page reading its sub-leaflet throws: no
      navigation and the stored value is not reset. */
  lemma RunnerTweaksAsWritten(st: WindowState)
    requires Populated(st)
    ensures var r := Restore(Navigation, st, Code(RunnerTweaks));
      && r.st.visible == st.visible
      && (st.visible.value.kind == MenuPage ==>
            && r.completed && r.indicator == Code(Main)
            && r.st.leaflets == st.leaflets[st.visible.value :=
                 st.leaflets[st.visible.value].(main := SubLeaflet, sub := LayoutTweaksPage, tweaksLayout := Runner)])
      && (st.visible.value.kind != MenuPage ==>
            r == Restored(st, Code(RunnerTweaks), false))
  {
    DecodeCode(RunnerTweaks);
    PopulatedFinds(st, MenuPage);
  }

  /** With the MenuPage requested, RUNNER_TWEAKS shows the layout-tweaks
      page with the RUNNER layout and stores MAIN. */
  lemma IntendedRunnerTweaks(st: WindowState)
    requires Populated(st)
    ensures var r := Restore(IntendedNavigation, st, Code(RunnerTweaks));
      && r.completed && r.indicator == Code(Main)
      && r.st.visible.Some? && r.st.visible.value.kind == MenuPage
      && r.st.visible.value in r.st.leaflets
      && var l := r.st.leaflets[r.st.visible.value];
      l.main == SubLeaflet && l.sub == LayoutTweaksPage && l.tweaksLayout == Runner
  {
    DecodeCode(RunnerTweaks);
    PopulatedFinds(st, MenuPage);
  }

  /** With the RUNNER_TWEAKS branch asking for the MenuPage, every stored
      value is handled in a populated window and MAIN is stored afterwards;
      RUNNER_TWEAKS then shows the layout-tweaks page with the RUNNER layout. */
  lemma IntendedRestoreCompletes(st: WindowState, v: int)
    requires Populated(st)
    ensures var r := Restore(IntendedNavigation, st, v);
      && r.completed && r.indicator == Code(Main)
      && (v == Code(RunnerTweaks) ==>
            && r.st.visible.Some? && r.st.visible.value.kind == MenuPage
            && r.st.visible.value in r.st.leaflets
            && var l := r.st.leaflets[r.st.visible.value];
            l.main == SubLeaflet && l.sub == LayoutTweaksPage && l.tweaksLayout == Runner)
  {
    match Decode(v)
    case None =>
    case Some(p) =>
      assert v == Code(p);
      if p == RunnerTweaks {
        IntendedRunnerTweaks(st);
      } else {
        assert Restore(IntendedNavigation, st, v) == Restore(Navigation, st, v);
        if p in {Main, General, ButtonAppearance, About} {
          PlainDestinations(st, p);
        } else {
          MenuDestinations(st, p);
        }
      }
  }

  /** Showing a page changes only which page is visible and the leaflets of
      pages that already have some. */
  lemma ShowKeeps(st: WindowState, p: Option<Page>)
    ensures ShowSpec(st, p).children == st.children
    ensures ShowSpec(st, p).visible == p
    ensures ShowSpec(st, p).leaflets.Keys == st.leaflets.Keys
  {
  }

  /** Removing the first child of a well-formed window leaves the others. */
  lemma RemoveFirst(st: WindowState)
    requires WellFormed(st) && st.children != []
    ensures RemoveSpec(st, st.children[0]).children == st.children[1..]
    ensures WellFormed(RemoveSpec(st, st.children[0]))
  {
    var c := st.children;
    IndexOfDistinct(c, 0);
    RemoveAtDistinct(c, 0);
    assert RemoveRow(c, c[0]) == c[1..];
    var st1 := st.(children := c[1..]);
    if st.visible == Some(c[0]) {
      ShowKeeps(st1, if c[1..] == [] then None else Some(c[1..][0]));
    } else {
      assert st.visible.value in c[1..];
    }
  }

  /** add() on an empty window shows the new page; on a window that shows
      one already it only appends. */
  lemma AddShows(st: WindowState, p: Page)
    requires p.kind != MenuPage
    ensures st.visible.None? ==> AddSpec(st, p) == st.(children := st.children + [p], visible := Some(p))
    ensures st.visible.Some? ==> AddSpec(st, p) == st.(children := st.children + [p])
  {
  }

  /** Removing the first k pages of a window whose children are exactly
      `ps` leaves the rest, and keeps the invariant. */
  lemma {:induction false} RemovePrefix(st: WindowState, ps: seq<Page>, k: nat)
    requires WellFormed(st) && st.children == ps && k <= |ps|
    ensures RemoveAllSpec(st, ps[..k]).children == ps[k..]
    ensures WellFormed(RemoveAllSpec(st, ps[..k]))
  {
    if k > 0 {
      assert ps[..k][..k - 1] == ps[..k - 1];
      RemovePrefix(st, ps, k - 1);
      var prev := RemoveAllSpec(st, ps[..k - 1]);
      assert prev.children[0] == ps[k - 1];
      RemoveFirst(prev);
      assert prev.children[1..] == ps[k..];
    }
  }

  /** populateWindow, before its setVisiblePage: the old pages are all gone
      and the window holds the four new ones in order, the GeneralPage
      visible. */
  lemma RebuiltIsPopulated(st: WindowState, oldPages: seq<Page>, n: nat, menuInit: Leaflets)
    requires WellFormed(st) && st.children == oldPages
    requires forall p :: p in oldPages ==> p.id < n
    ensures Populated(Rebuilt(st, oldPages, n, menuInit))
    ensures forall p :: p in oldPages ==> p !in Rebuilt(st, oldPages, n, menuInit).children
    ensures Rebuilt(st, oldPages, n, menuInit).visible == Some(Page(GeneralPage, n))
  {
    RemovePrefix(st, oldPages, |oldPages|);
    assert oldPages[..|oldPages|] == oldPages;
    var r := Rebuilt(st, oldPages, n, menuInit);
    assert Kinds(r.children) == [GeneralPage, MenuPage, MenuButtonPage, AboutPage];
  }

  /** After populateWindow, whatever the stored value, the window holds
      exactly the four new pages, General, Menu, MenuButton and About in that
      order, and none of the pages it held before. */
  lemma PopulateKeepsFourPages(st: WindowState, oldPages: seq<Page>, n: nat, menuInit: Leaflets, v: int)
    requires WellFormed(st) && st.children == oldPages
    requires forall p :: p in oldPages ==> p.id < n
    ensures var r := Restore(Navigation, Rebuilt(st, oldPages, n, menuInit), v);
      && Populated(r.st)
      && r.st.children == FreshPages(n)
      && forall p :: p in oldPages ==> p !in r.st.children
  {
    RebuiltIsPopulated(st, oldPages, n, menuInit);
    RestoreKeepsPages(Navigation, Rebuilt(st, oldPages, n, menuInit), v);
  }

  /** When the window opens with RUNNER_TWEAKS stored, the GeneralPage is
      visible, 'vPage' changes nothing, and reading the GeneralPage's
      sub-leaflet throws: the window stays on the GeneralPage and the stored
      value is never reset, so every later opening does the same. */
  lemma RunnerTweaksOnOpenThrows(st: WindowState, oldPages: seq<Page>, n: nat, menuInit: Leaflets)
    requires WellFormed(st) && st.children == oldPages
    requires forall p :: p in oldPages ==> p.id < n
    ensures var built := Rebuilt(st, oldPages, n, menuInit);
      Restore(Navigation, built, Code(RunnerTweaks)) == Restored(built, Code(RunnerTweaks), false)
  {
    RebuiltIsPopulated(st, oldPages, n, menuInit);
    RunnerTweaksAsWritten(Rebuilt(st, oldPages, n, menuInit));
  }

  // ---------------------------------------------------------------------
  // The objects.

  /** The settings store, reduced to the 'prefs-visible-page' key. */
  class Settings {
    var prefsVisiblePage: int

    constructor (v: int)
      ensures prefsVisiblePage == v
    {
      prefsVisiblePage := v;
    }
  }

  /** The preferences window.  `pages` is the array populateWindow keeps on
      the window; `children` the pages attached to it.  `menuInit` is the
      leaflet state a new MenuPage starts in. */
  class Window {
    var pages: seq<Page>
    var children: seq<Page>
    var visible: Option<Page>
    var leaflets: map<Page, Leaflets>
    var nextId: nat
    const menuInit: Leaflets

    function State(): WindowState
      reads this
    {
      WindowState(children, visible, leaflets)
    }

    ghost predicate Valid()
      reads this
    {
      && WellFormed(State())
      && pages == children
      && (forall p :: p in children ==> p.id < nextId)
    }

    constructor (menuInit: Leaflets)
      ensures Valid() && children == [] && pages == [] && this.menuInit == menuInit
    {
      pages, children, visible, leaflets, nextId := [], [], None, map[], 0;
      this.menuInit := menuInit;
    }

    /** The page whose leaflets the branches read: the visible page when it
        has any, None when reading them would throw. */
    function LeafletPage(): (r: Option<Page>)
      reads this
      ensures r.Some? <==> visible.Some? && visible.value in leaflets
      ensures r.Some? ==> r == visible
    {
      if visible.Some? && visible.value in leaflets then visible else None
    }

    /** A new page object of kind k; a MenuPage comes with its leaflets. */
    method NewPage(k: PageKind) returns (p: Page)
      requires WellFormed(State())
      modifies this`nextId, this`leaflets
      ensures WellFormed(State())
      ensures p == Page(k, old(nextId)) && nextId == old(nextId) + 1
      ensures leaflets == if k == MenuPage then old(leaflets)[p := menuInit] else old(leaflets)
    {
      p := Page(k, nextId);
      nextId := nextId + 1;
      if k == MenuPage {
        leaflets := leaflets[p := menuInit];
      }
    }

    /** The notify::visible-page listener connected by fillPreferencesWindow. */
    method OnVisiblePageNotify()
      modifies this`leaflets
      ensures State() == OnVisiblePageSpec(old(State()))
    {
      if visible.Some? && PageName(visible.value.kind) == "MenuPage" && visible.value in leaflets {
        leaflets := leaflets[visible.value := leaflets[visible.value].(main := MainView)];
      }
    }

    /** The visible page changes to p, with its notification. */
    method Show(p: Option<Page>)
      modifies this`visible, this`leaflets
      ensures State() == ShowSpec(old(State()), p)
    {
      if visible != p {
        visible := p;
        OnVisiblePageNotify();
      }
    }

    /** set_visible_page_name(name). */
    method SetVisiblePageName(name: string)
      requires WellFormed(State())
      modifies this`visible, this`leaflets
      ensures WellFormed(State())
      ensures State() == ShowNamedSpec(old(State()), name)
    {
      var p := FindNamed(children, name);
      if p.Some? {
        Show(p);
      }
    }

    /** add(page). */
    method Add(p: Page)
      requires WellFormed(State()) && p !in children
      requires p.kind == MenuPage ==> p in leaflets
      modifies this`children, this`visible, this`leaflets
      ensures WellFormed(State())
      ensures State() == AddSpec(old(State()), p)
    {
      var wasEmpty := visible.None?;
      children := children + [p];
      if wasEmpty {
        Show(Some(p));
      }
    }

    /** remove(page). */
    method Remove(p: Page)
      modifies this`children, this`visible, this`leaflets
      ensures State() == RemoveSpec(old(State()), p)
    {
      var wasVisible := visible == Some(p);
      children := RemoveRow(children, p);
      if wasVisible {
        Show(if children == [] then None else Some(children[0]));
      }
    }

    /** One branch of setVisiblePage: set_visible_page_name, then the
        leaflet writes on get_visible_page().  Reading the leaflets of a page
        without any throws a TypeError: false, with the later writes skipped. */
    method Go(t: NavTarget) returns (completed: bool)
      requires WellFormed(State())
      modifies this`visible, this`leaflets
      ensures WellFormed(State())
      ensures GoSpec(old(State()), t) == Nav(State(), completed)
    {
      SetVisiblePageName(t.pageName);
      if t.step.NoLeaflets? {
        return true;
      }
      var page := LeafletPage();
      if page.None? {
        return false;
      }
      match t.step {
        case ShowMainView =>
          SetMainChild(page.value, MainView);
        case ShowSubPage(child, runner) =>
          SetSubChild(page.value, child);
          SetMainChild(page.value, SubLeaflet);
          if runner {
            SetActiveLayout(page.value, Runner);
          }
      }
      completed := true;
    }

    /** page.mainLeaflet.visible_child(_name) := c. */
    method SetMainChild(page: Page, c: MainChild)
      requires page in leaflets
      modifies this`leaflets
      ensures leaflets == old(leaflets)[page := old(leaflets)[page].(main := c)]
    {
      leaflets := leaflets[page := leaflets[page].(main := c)];
    }

    /** page.subLeaflet.visible_child_name := c. */
    method SetSubChild(page: Page, c: SubChild)
      requires page in leaflets
      modifies this`leaflets
      ensures leaflets == old(leaflets)[page := old(leaflets)[page].(sub := c)]
    {
      leaflets := leaflets[page := leaflets[page].(sub := c)];
    }

    /** tweaksPage.setActiveLayout(layout), the tweaks page being the
        sub-leaflet's visible child. */
    method SetActiveLayout(page: Page, layout: MenuLayout)
      requires page in leaflets
      modifies this`leaflets
      ensures leaflets == old(leaflets)[page := old(leaflets)[page].(tweaksLayout := layout)]
    {
      leaflets := leaflets[page := leaflets[page].(tweaksLayout := layout)];
    }
  }

  /** The if-chain of setVisiblePage, each branch one Window.Go. */
  method Navigate(w: Window, v: int) returns (ran: bool)
    requires WellFormed(w.State())
    modifies w`visible, w`leaflets
    ensures WellFormed(w.State())
    ensures ChainSpec(Navigation, old(w.State()), v) == Nav(w.State(), ran)
  {
    ran := true;
    if v == Code(Main) {
      DecodeCode(Main);
      ran := w.Go(NavTarget("GeneralPage", NoLeaflets));
    } else if v == Code(CustomizeMenu) {
      DecodeCode(CustomizeMenu);
      ran := w.Go(NavTarget("MenuPage", ShowMainView));
    } else if v == Code(MenuLayout) {
      DecodeCode(MenuLayout);
      ran := w.Go(NavTarget("MenuPage", ShowSubPage(LayoutsPage, false)));
    } else if v == Code(ButtonAppearance) {
      DecodeCode(ButtonAppearance);
      ran := w.Go(NavTarget("MenuButtonPage", NoLeaflets));
    } else if v == Code(LayoutTweaks) {
      DecodeCode(LayoutTweaks);
      ran := w.Go(NavTarget("MenuPage", ShowSubPage(LayoutTweaksPage, false)));
    } else if v == Code(RunnerTweaks) {
      DecodeCode(RunnerTweaks);
      ran := w.Go(NavTarget("vPage", ShowSubPage(LayoutTweaksPage, true)));
    } else if v == Code(About) {
      DecodeCode(About);
      ran := w.Go(NavTarget("AboutPage", NoLeaflets));
    } else if v == Code(General) {
      DecodeCode(General);
      ran := w.Go(NavTarget("GeneralPage", NoLeaflets));
    } else if v == Code(MenuTheme) {
      DecodeCode(MenuTheme);
      ran := w.Go(NavTarget("MenuPage", ShowSubPage(ThemePage, false)));
    }
  }

  /** setVisiblePage: the if-chain on the stored value, then the reset to
      MAIN, whose change notification reaches OnPrefsVisiblePageChanged.  A
      branch that throws ends the method: it returns false without the
      reset. */
  method SetVisiblePage(w: Window, s: Settings) returns (completed: bool)
    requires w.Valid()
    modifies w, s
    decreases 1
    ensures w.Valid()
    ensures var r := Restore(Navigation, old(w.State()), old(s.prefsVisiblePage));
      w.State() == r.st && s.prefsVisiblePage == r.indicator && completed == r.completed
    ensures w.pages == old(w.pages) && w.nextId == old(w.nextId)
  {
    var ran := Navigate(w, s.prefsVisiblePage);
    if !ran {
      return false;
    }
    s.prefsVisiblePage := Code(Main);
    OnPrefsVisiblePageChanged(w, s);
    completed := true;
  }

  /** The 'changed::prefs-visible-page' listener.  Its measure is 0 once MAIN
      is stored, below that of setVisiblePage: the reset write cannot lead
      back into setVisiblePage. */
  method OnPrefsVisiblePageChanged(w: Window, s: Settings)
    requires w.Valid()
    modifies w, s
    decreases if s.prefsVisiblePage == Code(Main) then 0 else 2
    ensures w.Valid()
    ensures var r := ListenerSpec(old(w.State()), old(s.prefsVisiblePage));
      w.State() == r.st && s.prefsVisiblePage == r.indicator
    ensures w.pages == old(w.pages) && w.nextId == old(w.nextId)
  {
    if s.prefsVisiblePage != Code(Main) {
      var _ := SetVisiblePage(w, s);
    }
  }

  /** The forEach at the top of populateWindow: every page on window.pages
      is removed from the window, which is left empty. */
  method RemovePages(w: Window)
    requires w.Valid()
    modifies w`children, w`visible, w`leaflets
    ensures w.State() == RemoveAllSpec(old(w.State()), w.pages)
    ensures WellFormed(w.State()) && w.children == [] && w.visible.None?
  {
    ghost var st0 := w.State();
    var pages := w.pages;
    var i := 0;
    while i < |pages|
      invariant 0 <= i <= |pages|
      invariant w.State() == RemoveAllSpec(st0, pages[..i])
    {
      assert pages[..i + 1][..i] == pages[..i];
      w.Remove(pages[i]);
      i := i + 1;
    }
    assert pages[..|pages|] == pages;
    RemovePrefix(st0, pages, |pages|);
  }

  /** One of the four groups of populateWindow: a new page of kind k is
      built, added to the window and pushed on window.pages.  The first page
      added to an empty window becomes the visible one; a MenuPage is never
      the first, so the notify::visible-page listener has nothing to do. */
  method AttachPage(w: Window, k: PageKind) returns (p: Page)
    requires WellFormed(w.State()) && w.pages == w.children
    requires forall q :: q in w.children ==> q.id < w.nextId
    requires w.visible.None? ==> k != MenuPage
    modifies w`nextId, w`leaflets, w`children, w`visible, w`pages
    ensures w.Valid()
    ensures p == Page(k, old(w.nextId)) && w.nextId == old(w.nextId) + 1
    ensures w.children == old(w.children) + [p] && w.pages == w.children
    ensures w.visible == if old(w.visible).None? then Some(p) else old(w.visible)
    ensures w.leaflets == if k == MenuPage then old(w.leaflets)[p := w.menuInit] else old(w.leaflets)
  {
    p := w.NewPage(k);
    if k != MenuPage {
      AddShows(w.State(), p);
    }
    w.Add(p);
    w.pages := w.pages + [p];
  }

  /** The rest of populateWindow before setVisiblePage: window.pages is
      emptied and the GeneralPage, MenuPage, MenuButtonPage and AboutPage are
      built, added and pushed in that order. */
  method AttachPages(w: Window)
    requires WellFormed(w.State()) && w.children == [] && w.visible.None?
    modifies w`nextId, w`leaflets, w`children, w`visible, w`pages
    ensures w.Valid()
    ensures w.nextId == old(w.nextId) + 4 && w.pages == FreshPages(old(w.nextId))
    ensures w.State() == WindowState(FreshPages(old(w.nextId)), Some(Page(GeneralPage, old(w.nextId))),
                                     old(w.leaflets)[Page(MenuPage, old(w.nextId) + 1) := w.menuInit])
  {
    w.pages := [];
    var generalPage := AttachPage(w, GeneralPage);
    var menuPage := AttachPage(w, MenuPage);
    var menuButtonPage := AttachPage(w, MenuButtonPage);
    var aboutPage := AttachPage(w, AboutPage);
  }

  /** populateWindow: the pages of the previous call are removed, the four
      pages are built and attached in order, and setVisiblePage runs; its
      outcome is returned. */
  method PopulateWindow(w: Window, s: Settings) returns (completed: bool)
    requires w.Valid()
    modifies w, s
    ensures w.Valid()
    ensures w.pages == FreshPages(old(w.nextId)) && w.nextId == old(w.nextId) + 4
    ensures var r := Restore(Navigation, Rebuilt(old(w.State()), old(w.pages), old(w.nextId), w.menuInit),
                             old(s.prefsVisiblePage));
      w.State() == r.st && s.prefsVisiblePage == r.indicator && completed == r.completed
  {
    ghost var st0 := w.State();
    ghost var n := w.nextId;
    ghost var oldPages := w.pages;
    if |w.pages| > 0 {
      RemovePages(w);
    }
    assert w.State() == WindowState([], None, RemoveAllSpec(st0, oldPages).leaflets);
    AttachPages(w);
    completed := SetVisiblePage(w, s);
  }
}
