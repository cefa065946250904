/**
  One click on a Lister action button that opens in a modal, and the close
  of that modal, as the sequence of effects the handler causes.

  The click handler suppresses the default navigation, stops propagation,
  opens a modal on the link's `href` with the resolved size, and listens
  for that modal's close. The close callback clicks the listing's refresh
  tab when the nested button's `refresh` value is the number 1.
 */
module ActionButtons {
  import opened JsValues
  import opened ClassList
  import opened ModalSize
  import opened Refresh

  /** The handle the modal service returns for an opened modal. */
  type ModalHandle = nat

  /** The clicked link: its `class` attribute and its `href` attribute. */
  datatype Link = Link(classAttr: string, href: Attr)

  /** The observable effects of a click and of the close of its modal. */
  datatype Effect =
    | PreventDefault
    | StopPropagation
      /** The modal service was asked to open `url` at `size` (with an empty
          options object) and returned `handle`. */
    | OpenModal(url: Attr, size: string, handle: ModalHandle)
    | ListenDialogClose(handle: ModalHandle)
    | ClickRefreshTab

  /** The position of each kind of effect in the protocol of one click. */
  function Rank(e: Effect): nat {
    match e
    case PreventDefault => 0
    case StopPropagation => 1
    case OpenModal(_, _, _) => 2
    case ListenDialogClose(_) => 3
    case ClickRefreshTab => 4
  }

  /** Effects follow the protocol order, and no kind of effect repeats. */
  ghost predicate InProtocolOrder(trace: seq<Effect>) {
    forall i, j :: 0 <= i < j < |trace| ==> Rank(trace[i]) < Rank(trace[j])
  }

  /** The click handler. `open` stands for the modal service: it returns
      the handle of the modal it opens for a URL and a size. */
  function OnClick(modals: seq<string>, link: Link, open: (Attr, string) -> ModalHandle): (trace: seq<Effect>)
    ensures InProtocolOrder(trace)
    ensures |trace| >= 2 && trace[0] == PreventDefault && trace[1] == StopPropagation
    ensures ClickRefreshTab !in trace
    ensures exists k :: && 0 <= k < |trace| && trace[k].OpenModal?
                        && trace[k].url == link.href
                        && trace[k].size == ResolveSize(modals, Split(link.classAttr))
                        && trace[k].handle == open(link.href, trace[k].size)
                        && ListenDialogClose(trace[k].handle) in trace
  {
    var classList := Split(link.classAttr);
    var modalSize := ResolveSize(modals, classList);
    var iframe := open(link.href, modalSize);
    var trace := [PreventDefault, StopPropagation, OpenModal(link.href, modalSize, iframe), ListenDialogClose(iframe)];
    assert trace[2].OpenModal?;
    trace
  }

  /** The `dialogclose` callback, reading the nested buttons as they are
      when the modal closes. */
  function OnDialogClose(buttons: seq<Button>): (trace: seq<Effect>)
    ensures trace == [] || trace == [ClickRefreshTab]
    ensures ClickRefreshTab in trace <==> DataOf(buttons, RefreshKey) == Number(1.0)
  {
    if ShouldRefresh(buttons) then [ClickRefreshTab] else []
  }

  /** A click followed by the close of the modal it opened. */
  function Session(modals: seq<string>, link: Link, open: (Attr, string) -> ModalHandle,
                   buttonsAtClose: seq<Button>): seq<Effect>
  {
    OnClick(modals, link, open) + OnDialogClose(buttonsAtClose)
  }

  /** In protocol order, no two effects share a kind. */
  lemma InProtocolOrderUnique(trace: seq<Effect>, i: int, j: int)
    requires InProtocolOrder(trace)
    requires 0 <= i < |trace| && 0 <= j < |trace| && Rank(trace[i]) == Rank(trace[j])
    ensures i == j
  {
  }

  /** The effects of one click and close: navigation is suppressed and
      propagation stopped before anything else; exactly one modal is opened,
      on the link's `href` at the resolved size, which is "medium" or a
      configured size; the close listener is attached to that modal's
      handle; and the refresh tab is clicked, once and last, exactly when
      the `refresh` value is the number 1. */
  lemma SessionEffects(modals: seq<string>, link: Link, open: (Attr, string) -> ModalHandle,
                       buttonsAtClose: seq<Button>)
    ensures var t := Session(modals, link, open, buttonsAtClose);
            && InProtocolOrder(t)
            && t[0] == PreventDefault && t[1] == StopPropagation
            && (forall i, j :: 0 <= i < |t| && 0 <= j < |t| && t[i].OpenModal? && t[j].OpenModal? ==> i == j)
            && (exists k :: && 0 <= k < |t| && t[k].OpenModal? && t[k].url == link.href
                            && (t[k].size == DefaultSize || t[k].size in modals)
                            && ListenDialogClose(t[k].handle) in t)
            && (ClickRefreshTab in t <==> DataOf(buttonsAtClose, RefreshKey) == Number(1.0))
  {
    var c := OnClick(modals, link, open);
    var d := OnDialogClose(buttonsAtClose);
    var t := c + d;
    forall i, j | 0 <= i < j < |t|
      ensures Rank(t[i]) < Rank(t[j])
    {
      if j >= |c| {
        assert t[j] == ClickRefreshTab;
        assert i < |c|;
        assert t[i] in c;
      }
    }
    forall i, j | 0 <= i < |t| && 0 <= j < |t| && t[i].OpenModal? && t[j].OpenModal?
      ensures i == j
    {
      InProtocolOrderUnique(t, i, j);
    }
    var k :| && 0 <= k < |c| && c[k].OpenModal? && c[k].url == link.href
             && c[k].size == ResolveSize(modals, Split(link.classAttr))
             && ListenDialogClose(c[k].handle) in c;
    assert t[k] == c[k];
  }

  // ---------------------------------------------------------------------
  // Worked cases on whole class attributes.

  /** The classes of the worked cases below. */
  const SampleClasses: seq<string> := ["lister-action-button", "pw-modal", "pw-modal-large", "pw-modal-small"]

  /** With sizes small, medium and large configured in that order, a link
      whose class attribute is
      `lister-action-button pw-modal pw-modal-large pw-modal-small`
      (`pw-modal-large` before `pw-modal-small`) opens a small modal. */
  lemma ClickOpensFirstConfiguredSize(open: (Attr, string) -> ModalHandle)
    ensures var link := Link(Join(SampleClasses), Present("/edit/?id=1"));
            OpenModal(link.href, "small", open(link.href, "small")) in OnClick(["small", "medium", "large"], link, open)
  {
    var tokens := SampleClasses;
    assert NoWhitespace(tokens[0]);
    assert NoWhitespace(tokens[1]);
    assert NoWhitespace(tokens[2]);
    assert NoWhitespace(tokens[3]);
    SplitJoin(tokens);
    ConfiguredOrderWins();
  }

  /** A link whose class attribute is `lister-action-button pw-modal`, with
      no size class, opens a medium modal on its `href` whatever sizes are
      configured. An absent `href` is passed on to the modal service as
      `undefined`. */
  lemma ClickWithoutSizeClassOpensMedium(modals: seq<string>, href: Attr, open: (Attr, string) -> ModalHandle)
    ensures var link := Link(Join(SampleClasses[..2]), href);
            OpenModal(href, DefaultSize, open(href, DefaultSize)) in OnClick(modals, link, open)
  {
    var tokens := SampleClasses[..2];
    assert NoWhitespace(tokens[0]);
    assert NoWhitespace(tokens[1]);
    SplitJoin(tokens);
    forall i | 0 <= i < |modals|
      ensures !Requested(modals[i], tokens)
    {
      assert |SizeClass(modals[i])| > |"pw-modal"|;
      assert SizeClass(modals[i])[..9] == SizeClassPrefix;
      assert tokens[0][..9] != SizeClassPrefix;
    }
  }
}
