/**
 * The idea notebook: a grid of idea cards, each in one of three states decided by which
 * optional fields it carries. The state picks the badge drawn on the card and what a click
 * on the card does: open an external link, open the detail modal, or show the
 * "thinking in progress" toast.
 */
module Excavation {
  import opened Wrappers

  /** The three card states. */
  datatype CardStatus = Wip | Ready | Link

  /** An idea card, reduced to what decides its behaviour. The full content, a rendered
   *  node in the component, is represented by its text. */
  datatype IdeaItem = IdeaItem(id: string, fullContent: Option<string>, link: Option<string>)

  /** The card's status: a link wins over content, and a card with neither is still being dug. */
  function StatusOf(item: IdeaItem): (status: CardStatus)
    ensures status == Link <==> Truthy(item.link)
    ensures status == Ready <==> !Truthy(item.link) && Truthy(item.fullContent)
    ensures status == Wip <==> !Truthy(item.link) && !Truthy(item.fullContent)
  {
    if Truthy(item.link) then Link
    else if Truthy(item.fullContent) then Ready
    else Wip
  }

  /** What `CardStatusBadge` draws. */
  datatype Badge = Digging | ReadMore | ExternalLinkIcon

  function BadgeFor(status: CardStatus): (badge: Badge)
    ensures badge == Digging <==> status == Wip
    ensures badge == ReadMore <==> status == Ready
    ensures badge == ExternalLinkIcon <==> status == Link
  {
    match status
    case Wip => Digging
    case Ready => ReadMore
    case Link => ExternalLinkIcon
  }

  /** Distinct states are told apart on screen: the badge determines the status. */
  lemma BadgeDeterminesStatus(a: CardStatus, b: CardStatus)
    ensures BadgeFor(a) == BadgeFor(b) <==> a == b
  {
  }

  /** The authored cards, in grid order; none has content or a link yet. */
  const IdeaItems: seq<IdeaItem> := [
    IdeaItem("1.1", None, None),
    IdeaItem("1.2", None, None),
    IdeaItem("1.3", None, None),
    IdeaItem("1.4", None, None),
    IdeaItem("1.5", None, None),
    IdeaItem("1.6", None, None),
    IdeaItem("1.7", None, None),
    IdeaItem("ai-era", None, None)
  ]

  /** Every authored card is still a work in progress and shows the "Digging" badge. */
  lemma AuthoredCardsAreWip()
    ensures forall i :: 0 <= i < |IdeaItems| ==>
      StatusOf(IdeaItems[i]) == Wip && BadgeFor(StatusOf(IdeaItems[i])) == Digging
  {
  }

  /** The section's state: the card in the detail modal, the toast flag, and the URLs passed
   *  to `window.open`, in order. */
  class ExcavationSection {
    var activeItem: Option<IdeaItem>
    var showWipToast: bool
    var openedLinks: seq<string>

    /** Nothing is open when the section mounts. */
    constructor ()
      ensures activeItem == None && !showWipToast && openedLinks == []
    {
      activeItem := None;
      showWipToast := false;
      openedLinks := [];
    }

    /** A click on a card takes exactly the action its badge announces. */
    method HandleCardClick(item: IdeaItem)
      modifies this
      ensures StatusOf(item) == Link ==>
        openedLinks == old(openedLinks) + [item.link.value] &&
        activeItem == old(activeItem) && showWipToast == old(showWipToast)
      ensures StatusOf(item) == Ready ==>
        activeItem == Some(item) && showWipToast == old(showWipToast) && openedLinks == old(openedLinks)
      ensures StatusOf(item) == Wip ==>
        showWipToast && activeItem == old(activeItem) && openedLinks == old(openedLinks)
    {
      if Truthy(item.link) {
        openedLinks := openedLinks + [item.link.value];
      } else if Truthy(item.fullContent) {
        activeItem := Some(item);
      } else {
        showWipToast := true;
      }
    }

    /** The toast's close button and backdrop. */
    method CloseToast()
      modifies this
      ensures !showWipToast && activeItem == old(activeItem) && openedLinks == old(openedLinks)
    {
      showWipToast := false;
    }

    /** The detail modal's close button and backdrop. */
    method CloseDetail()
      modifies this
      ensures activeItem == None && showWipToast == old(showWipToast) && openedLinks == old(openedLinks)
    {
      activeItem := None;
    }
  }
}
