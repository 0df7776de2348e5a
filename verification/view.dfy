/** The page's view state and its transitions: rendering the sidebar buttons,
    selecting a question, the mobile back action, and the start-up
    auto-selection. Markup, CSS classes, scrolling and animation are reduced
    to the facts they encode: which button is highlighted, which panels carry
    the `hidden` class, and what the detail pane shows. */
module View {
  import opened Wrappers
  import opened Records
  import opened Chapters
  import opened HtmlEscape
  import opened Decimal

  /** Viewports narrower than this many pixels get the one-panel layout. */
  const MobileBreakpoint: int := 768

  predicate IsMobile(width: int) {
    width < MobileBreakpoint
  }

  /** A sidebar button: the id its click handler selects, the `data-id`
      attribute written on it, and whether it carries the highlight classes. */
  datatype Button = Button(target: int, dataId: string, active: bool)

  /** Presence of the `hidden` class on the sidebar, the main container,
      the empty-state placeholder and the content area. */
  datatype Panels = Panels(sidebarHidden: bool, mainHidden: bool, emptyStateHidden: bool, contentHidden: bool)

  /** What the detail pane shows: breadcrumb chapter number and id label,
      title, subtitle, the answer markup, the code block (already escaped)
      when there is one, and the footer markup. */
  datatype Detail = Detail(
    chapter: int,
    idLabel: string,
    title: string,
    subtitle: string,
    body: string,
    code: Option<string>,
    footer: string)

  /** The selected id, the sidebar buttons in document order, the panel
      visibility and the rendered detail (None before anything is shown). */
  datatype ViewState = ViewState(activeId: Option<int>, buttons: seq<Button>, panels: Panels, content: Option<Detail>)

  /** A button whose `data-id` reads back as the id its click handler selects. */
  predicate Wired(b: Button) {
    ParseInt(b.dataId) == Some(b.target)
  }

  /** Two button lists that differ at most in their highlight. */
  predicate SameButtons(a: seq<Button>, b: seq<Button>) {
    |a| == |b| && forall k :: 0 <= k < |a| ==> a[k].target == b[k].target && a[k].dataId == b[k].dataId
  }

  /** The code block of a record: `data.code ? escapeHtml(data.code) : ''`.
      An empty string is falsy and yields no block; otherwise the block holds
      no raw markup and decodes back to the record's code. */
  function CodeBlock(code: Option<string>): (r: Option<string>)
    ensures r.Some? <==> code.Some? && code.value != ""
    ensures r.Some? ==> r.value == Escape(code.value)
    ensures r.Some? ==> MarkupFree(r.value) && Unescape(r.value) == code.value
  {
    if code.Some? && code.value != "" then
      UnescapeEscape(code.value);
      EscapeMarkupFree(code.value);
      Some(Escape(code.value))
    else None
  }

  /** The detail pane for record `rec`, selected as `id`. Only the code goes
      through the escaper; the answer and footer are trusted markup and are
      inserted as they are. */
  function RenderDetail(rec: Record, id: int): (d: Detail)
    ensures d.idLabel == IdLabel(rec.id) && d.code == CodeBlock(rec.code)
    ensures ParseInt(d.idLabel) == Some(rec.id) && |d.idLabel| >= 2
    ensures d.chapter == FirstContaining(Table, id) + 1
    ensures d.code.Some? <==> rec.code.Some? && rec.code.value != ""
    ensures d.code.Some? ==> MarkupFree(d.code.value) && Unescape(d.code.value) == rec.code.value
    ensures d.body == rec.answer && d.title == rec.question && d.subtitle == rec.alt
    ensures rec.footer.Some? ==> d.footer == rec.footer.value
    ensures rec.footer.None? ==> d.footer == ""
  {
    IdLabelRoundTrip(rec.id);
    Detail(ChapterNumber(Table, id), IdLabel(rec.id), rec.question, rec.alt, rec.answer, CodeBlock(rec.code), rec.footer.GetOr(""))
  }

  /** One fresh, unhighlighted button per listed record, carrying
      `String(item.id)` as its `data-id`. */
  function ButtonsFor(entries: seq<Record>): (r: seq<Button>)
    ensures |r| == |entries|
    ensures forall k :: 0 <= k < |r| ==> r[k].target == entries[k].id && Wired(r[k]) && !r[k].active
  {
    if entries == [] then []
    else
      IntToStringRoundTrip(entries[0].id);
      [Button(entries[0].id, IntToString(entries[0].id), false)] + ButtonsFor(entries[1..])
  }

  /** The buttons the sidebar holds after it is rendered from `data`. */
  function SidebarButtons(data: seq<Record>): (r: seq<Button>)
    ensures |r| == |Flatten(Sidebar(Table, data))|
    ensures forall k :: 0 <= k < |r| ==> r[k].target == Flatten(Sidebar(Table, data))[k].id && Wired(r[k]) && !r[k].active
  {
    ButtonsFor(Flatten(Sidebar(Table, data)))
  }

  /** The highlight pass over every button: a button is active exactly when
      its `data-id` parses to the selected id. */
  function Highlight(bs: seq<Button>, id: int): (r: seq<Button>)
    ensures SameButtons(r, bs)
    ensures forall k :: 0 <= k < |r| && Wired(bs[k]) ==> (r[k].active <==> bs[k].target == id)
  {
    if bs == [] then []
    else [bs[0].(active := ParseInt(bs[0].dataId) == Some(id))] + Highlight(bs[1..], id)
  }

  /** The number of highlighted buttons. */
  function CountActive(bs: seq<Button>): nat
  {
    if bs == [] then 0 else (if bs[0].active then 1 else 0) + CountActive(bs[1..])
  }

  /** The number of buttons whose handler selects `id`. */
  function CountTarget(bs: seq<Button>, id: int): nat
  {
    if bs == [] then 0 else (if bs[0].target == id then 1 else 0) + CountTarget(bs[1..], id)
  }

  /** `selectQuestion(id)` at viewport width `width`. The id and the highlight
      are updated first; when no record has the id the detail pane is left
      as it was. */
  function Select(st: ViewState, data: seq<Record>, width: int, id: int): (r: ViewState)
    ensures r.activeId == Some(id)
    ensures SameButtons(r.buttons, st.buttons)
    ensures forall k :: 0 <= k < |r.buttons| && Wired(st.buttons[k]) ==> (r.buttons[k].active <==> r.buttons[k].target == id)
    ensures IsMobile(width) ==> r.panels.sidebarHidden && !r.panels.mainHidden
    ensures !IsMobile(width) ==> r.panels.sidebarHidden == st.panels.sidebarHidden && r.panels.mainHidden == st.panels.mainHidden
    ensures !HasId(data, id) ==> r.content == st.content
    ensures !HasId(data, id) ==> r.panels.emptyStateHidden == st.panels.emptyStateHidden && r.panels.contentHidden == st.panels.contentHidden
    ensures HasId(data, id) ==> r.panels.emptyStateHidden && !r.panels.contentHidden
    ensures HasId(data, id) ==> r.content == Some(RenderDetail(Find(data, id).value, id))
    ensures HasId(data, id) ==> ParseInt(r.content.value.idLabel) == Some(id)
  {
    var p := if IsMobile(width) then st.panels.(sidebarHidden := true, mainHidden := false) else st.panels;
    var bs := Highlight(st.buttons, id);
    match Find(data, id)
    case None => ViewState(Some(id), bs, p, st.content)
    case Some(rec) =>
      ViewState(Some(id), bs, p.(emptyStateHidden := true, contentHidden := false), Some(RenderDetail(rec, id)))
  }

  /** The mobile back button: show the sidebar, hide the main container. */
  function Back(st: ViewState): (r: ViewState)
    ensures !r.panels.sidebarHidden && r.panels.mainHidden
    ensures r.activeId == st.activeId && r.buttons == st.buttons && r.content == st.content
    ensures r.panels.emptyStateHidden == st.panels.emptyStateHidden && r.panels.contentHidden == st.panels.contentHidden
  {
    st.(panels := st.panels.(sidebarHidden := false, mainHidden := true))
  }

  /** A click on the `k`-th sidebar button selects the id its handler captured. */
  function Click(st: ViewState, data: seq<Record>, width: int, k: nat): (r: ViewState)
    requires k < |st.buttons|
    ensures r.activeId == Some(st.buttons[k].target)
    ensures |r.buttons| == |st.buttons|
    ensures Wired(st.buttons[k]) ==> r.buttons[k].active
  {
    Select(st, data, width, st.buttons[k].target)
  }

  /** After the data has loaded: render the sidebar from `data` and, when
      there is a record and the viewport is at least the breakpoint wide,
      select the first record. `page` is the panel visibility of the
      initial markup. */
  function Startup(data: seq<Record>, width: int, page: Panels): (r: ViewState)
    ensures SameButtons(r.buttons, SidebarButtons(data))
    ensures |data| > 0 && !IsMobile(width) ==> r.activeId == Some(data[0].id)
    ensures |data| > 0 && !IsMobile(width) ==> r.content == Some(RenderDetail(data[0], data[0].id))
    ensures |data| > 0 && !IsMobile(width) ==> r.panels == page.(emptyStateHidden := true, contentHidden := false)
    ensures |data| == 0 || IsMobile(width) ==> r.activeId.None? && r.content.None? && r.panels == page
    ensures forall k :: 0 <= k < |r.buttons| ==> (r.buttons[k].active <==> r.activeId == Some(r.buttons[k].target))
  {
    var st := ViewState(None, SidebarButtons(data), page, None);
    if |data| > 0 && !IsMobile(width) then
      FindFirst(data, 0);
      Select(st, data, width, data[0].id)
    else st
  }

  /** The state invariant: the buttons are the rendered sidebar's, the active
      id (if any) is a loaded record's id, exactly the buttons of the active id
      are highlighted, and the detail pane shows a record exactly when one is
      active, and then the active record. */
  predicate Consistent(st: ViewState, data: seq<Record>) {
    && SameButtons(st.buttons, SidebarButtons(data))
    && (st.activeId.Some? ==> HasId(data, st.activeId.value))
    && (st.activeId.Some? <==> st.content.Some?)
    && (forall k :: 0 <= k < |st.buttons| ==> (st.buttons[k].active <==> st.activeId == Some(st.buttons[k].target)))
    && (st.content.Some? ==>
          st.activeId.Some? && st.content == Some(RenderDetail(Find(data, st.activeId.value).value, st.activeId.value)))
  }

  /** Every sidebar button selects the id of a loaded record. */
  lemma SidebarTargetsLoaded(data: seq<Record>, k: nat)
    requires k < |SidebarButtons(data)|
    ensures HasId(data, SidebarButtons(data)[k].target)
  {
    var es := Flatten(Sidebar(Table, data));
    var id := es[k].id;
    assert SidebarButtons(data)[k].target == id;
    SidebarEntriesLoaded(Table, data, es[k]);
    var j :| 0 <= j < |data| && data[j] == es[k];
  }

  /** The start-up state satisfies the invariant. */
  lemma StartupConsistent(data: seq<Record>, width: int, page: Panels)
    ensures Consistent(Startup(data, width, page), data)
  {
    var r := Startup(data, width, page);
    if |data| > 0 && !IsMobile(width) {
      FindFirst(data, 0);
      assert HasId(data, data[0].id);
    }
  }

  /** A click keeps the invariant: clicked ids always come from the loaded data. */
  lemma ClickConsistent(st: ViewState, data: seq<Record>, width: int, k: nat)
    requires Consistent(st, data)
    requires k < |st.buttons|
    ensures Consistent(Click(st, data, width, k), data)
  {
    assert st.buttons[k].target == SidebarButtons(data)[k].target;
    SidebarTargetsLoaded(data, k);
    SelectConsistent(st, data, width, st.buttons[k].target);
  }

  /** Selecting the id of a loaded record keeps the invariant. */
  lemma SelectConsistent(st: ViewState, data: seq<Record>, width: int, id: int)
    requires Consistent(st, data)
    requires HasId(data, id)
    ensures Consistent(Select(st, data, width, id), data)
  {
    var sb := SidebarButtons(data);
    var r := Select(st, data, width, id);
    AllWired(st.buttons, sb);
    SameButtonsTrans(r.buttons, st.buttons, sb);
    SelectedConsistent(r, data, id);
  }

  /** A state whose buttons are the sidebar's, highlighted for a loaded id,
      and whose detail shows that id's record, is consistent. */
  lemma SelectedConsistent(r: ViewState, data: seq<Record>, id: int)
    requires SameButtons(r.buttons, SidebarButtons(data))
    requires HasId(data, id) && r.activeId == Some(id)
    requires forall k :: 0 <= k < |r.buttons| ==> (r.buttons[k].active <==> r.buttons[k].target == id)
    requires r.content == Some(RenderDetail(Find(data, id).value, id))
    ensures Consistent(r, data)
  {
  }

  lemma SameButtonsTrans(a: seq<Button>, b: seq<Button>, c: seq<Button>)
    requires SameButtons(a, b) && SameButtons(b, c)
    ensures SameButtons(a, c)
  {
  }

  /** Buttons that differ from the rendered sidebar's only in their highlight
      are all wired. */
  lemma AllWired(bs: seq<Button>, sb: seq<Button>)
    requires SameButtons(bs, sb)
    requires forall j :: 0 <= j < |sb| ==> Wired(sb[j])
    ensures forall j :: 0 <= j < |bs| ==> Wired(bs[j])
  {
    forall j | 0 <= j < |bs| ensures Wired(bs[j]) {
      assert Wired(sb[j]);
    }
  }

  /** The back action keeps the invariant. */
  lemma BackConsistent(st: ViewState, data: seq<Record>)
    requires Consistent(st, data)
    ensures Consistent(Back(st), data)
  {
  }

  /** Selecting the same id twice gives the same state as selecting it once. */
  lemma SelectIdempotent(st: ViewState, data: seq<Record>, width: int, id: int)
    ensures Select(Select(st, data, width, id), data, width, id) == Select(st, data, width, id)
  {
    HighlightTwice(st.buttons, id);
  }

  lemma {:induction false} HighlightTwice(bs: seq<Button>, id: int)
    ensures Highlight(Highlight(bs, id), id) == Highlight(bs, id)
  {
    if bs != [] {
      HighlightTwice(bs[1..], id);
    }
  }

  /** On a narrow viewport selection switches to the detail panel and the back
      action switches to the list, keeping the selection and the detail. */
  lemma MobileSelectThenBack(st: ViewState, data: seq<Record>, width: int, id: int)
    requires IsMobile(width)
    ensures var s := Select(st, data, width, id);
      var b := Back(s);
      && s.panels.sidebarHidden && !s.panels.mainHidden
      && !b.panels.sidebarHidden && b.panels.mainHidden
      && b.activeId == Some(id) && b.content == s.content
  {
  }

  /** Counting highlighted buttons when exactly the buttons of `id` are
      highlighted gives the number of buttons of `id`. */
  lemma {:induction false} CountActiveIsTarget(bs: seq<Button>, id: int)
    requires forall k :: 0 <= k < |bs| ==> (bs[k].active <==> bs[k].target == id)
    ensures CountActive(bs) == CountTarget(bs, id)
  {
    if bs != [] {
      CountActiveIsTarget(bs[1..], id);
    }
  }

  /** No button is highlighted when every button is inactive. */
  lemma {:induction false} CountActiveNone(bs: seq<Button>)
    requires forall k :: 0 <= k < |bs| ==> !bs[k].active
    ensures CountActive(bs) == 0
  {
    if bs != [] {
      CountActiveNone(bs[1..]);
    }
  }

  /** Re-highlighting does not change which ids the buttons select. */
  lemma {:induction false} CountTargetSame(a: seq<Button>, b: seq<Button>, id: int)
    requires SameButtons(a, b)
    ensures CountTarget(a, id) == CountTarget(b, id)
  {
    if a != [] {
      CountTargetSame(a[1..], b[1..], id);
    }
  }

  /** There is one button per listed record of each id. */
  lemma {:induction false} CountTargetButtons(es: seq<Record>, id: int)
    ensures CountTarget(ButtonsFor(es), id) == Occ(es, id)
  {
    if es != [] {
      CountTargetButtons(es[1..], id);
    }
  }

  /** With unique ids, every state the page can reach highlights exactly one
      button once an id inside the table's 1..101 is selected, none when the
      selected record lies outside every chapter, and none before. */
  lemma ExactlyOneActive(st: ViewState, data: seq<Record>)
    requires Consistent(st, data)
    requires UniqueIds(data)
    ensures st.activeId.Some? ==> CountActive(st.buttons) == if 1 <= st.activeId.value <= 101 then 1 else 0
    ensures st.activeId.None? ==> CountActive(st.buttons) == 0
  {
    if st.activeId.Some? {
      var id := st.activeId.value;
      CountActiveIsTarget(st.buttons, id);
      CountTargetSame(st.buttons, SidebarButtons(data), id);
      CountTargetButtons(Flatten(Sidebar(Table, data)), id);
      TableListsOnce(data, id);
    } else {
      CountActiveNone(st.buttons);
    }
  }

  /** A two-record walk-through: selecting id 5 shows it under chapter 1 with
      label "05", its code (here one needing no escaping, such as `int x=1;`)
      shown as it is, and no footer. */
  lemma SelectExample(st: ViewState, width: int, code: string)
    requires Plain(code) && code != ""
    ensures
      var data := [Record(1, "Q1", "", "A1", None, None), Record(5, "Q2", "", "A2", Some(code), None)];
      Select(st, data, width, 5).content == Some(Detail(1, "05", "Q2", "", "A2", Some(code), ""))
  {
    var data := [Record(1, "Q1", "", "A1", None, None), Record(5, "Q2", "", "A2", Some(code), None)];
    FindFirst(data, 1);
    RenderExample(code);
  }

  /** The detail pane of the walk-through's second record. */
  lemma RenderExample(code: string)
    requires Plain(code) && code != ""
    ensures RenderDetail(Record(5, "Q2", "", "A2", Some(code), None), 5)
         == Detail(1, "05", "Q2", "", "A2", Some(code), "")
  {
    EscapeUnchangedIff(code);
    assert IdLabel(5) == "05" by {
      assert IntToString(5) == ['5'];
    }
    assert FirstContaining(Table, 5) == 0;
  }
}
