/**
 * The Sisyphus section: a clicker that floats a short "+1" message over the picture for a
 * while, a reveal button, a stone that turns into a sun and back, detail modals for the
 * research pipeline and the New Year blessing modal.
 *
 * The clock (`Date.now()`), the click position and `Math.random()` are parameters of the
 * click; the two-second timer that removes a message is the separate method Cleanup.
 */
module Sisyphus {
  import opened Wrappers

  /** A floating "+1" message, keyed by the time of the click that made it. */
  datatype FloatingText = FloatingText(id: int, x: real, y: real, text: string)

  /** What a detail modal shows: a title and its (rendered) content. */
  datatype ModalContent = ModalContent(title: string, content: string)

  /** The messages a click can float. */
  const Messages: seq<string> := ["功德+1", "发文+1", "快乐+1", "Paper+1", "Idea+1", "头发+1"]

  /** `Math.floor(random * messages.length)` for a `random` drawn from [0, 1). */
  function MessageIndex(random: real): (k: int)
    requires 0.0 <= random < 1.0
    ensures 0 <= k < |Messages|
    ensures k as real <= random * 6.0 < k as real + 1.0
  {
    (random * 6.0).Floor
  }

  /** `items.filter(item => item.id !== id)`. */
  function WithoutId(items: seq<FloatingText>, id: int): (r: seq<FloatingText>)
    ensures |r| <= |items|
    ensures forall t :: t in r <==> t in items && t.id != id
  {
    if items == [] then []
    else (if items[0].id != id then [items[0]] else []) + WithoutId(items[1..], id)
  }

  /** Filtering works piecewise, so the items kept stay in their original order. */
  lemma {:induction false} WithoutIdAppend(a: seq<FloatingText>, b: seq<FloatingText>, id: int)
    ensures WithoutId(a + b, id) == WithoutId(a, id) + WithoutId(b, id)
  {
    if a == [] {
      assert a + b == b;
    } else {
      assert (a + b)[1..] == a[1..] + b;
      WithoutIdAppend(a[1..], b, id);
    }
  }

  /** Removing an id no item carries changes nothing. */
  lemma {:induction false} WithoutAbsentId(items: seq<FloatingText>, id: int)
    requires forall i :: 0 <= i < |items| ==> items[i].id != id
    ensures WithoutId(items, id) == items
  {
    if items != [] {
      WithoutAbsentId(items[1..], id);
    }
  }

  /** The cleanup of a click removes what that click added; when the clock had moved on since
   *  every earlier click, it restores the list exactly. */
  lemma ClickThenCleanup(items: seq<FloatingText>, t: FloatingText)
    ensures WithoutId(items + [t], t.id) == WithoutId(items, t.id)
    ensures (forall i :: 0 <= i < |items| ==> items[i].id != t.id) ==> WithoutId(items + [t], t.id) == items
  {
    WithoutIdAppend(items, [t], t.id);
    assert WithoutId([t], t.id) == [];
    if forall i :: 0 <= i < |items| ==> items[i].id != t.id {
      WithoutAbsentId(items, t.id);
    }
  }

  /** Two clicks in the same millisecond share an id: the first cleanup removes both. */
  lemma CollidingIdsVector()
    ensures WithoutId([FloatingText(7, 0.0, 0.0, "功德+1"), FloatingText(7, 1.0, 1.0, "头发+1")], 7) == []
  {
  }

  class SisyphusSection {
    var floatingTexts: seq<FloatingText>
    var isRevealed: bool
    var activeModal: Option<ModalContent>
    var isSisyphusTransformed: bool
    var showBlessingModal: bool

    /** No messages, nothing revealed or transformed, no modal open. */
    constructor ()
      ensures floatingTexts == [] && !isRevealed && activeModal == None
      ensures !isSisyphusTransformed && !showBlessingModal
    {
      floatingTexts := [];
      isRevealed := false;
      activeModal := None;
      isSisyphusTransformed := false;
      showBlessingModal := false;
    }

    /** A click on the picture at (x, y) at time `now` floats one of the messages. */
    method HandleImageClick(now: int, x: real, y: real, random: real) returns (newText: FloatingText)
      requires 0.0 <= random < 1.0
      modifies this
      ensures newText == FloatingText(now, x, y, Messages[MessageIndex(random)])
      ensures newText.text in Messages
      ensures floatingTexts == old(floatingTexts) + [newText]
      ensures isRevealed == old(isRevealed) && activeModal == old(activeModal)
      ensures isSisyphusTransformed == old(isSisyphusTransformed) && showBlessingModal == old(showBlessingModal)
    {
      var text := Messages[MessageIndex(random)];
      newText := FloatingText(now, x, y, text);
      floatingTexts := floatingTexts + [newText];
    }

    /** The timer set by a click: every message with that click's id goes. */
    method Cleanup(id: int)
      modifies this
      ensures floatingTexts == WithoutId(old(floatingTexts), id)
      ensures isRevealed == old(isRevealed) && activeModal == old(activeModal)
      ensures isSisyphusTransformed == old(isSisyphusTransformed) && showBlessingModal == old(showBlessingModal)
    {
      floatingTexts := WithoutId(floatingTexts, id);
    }

    /** The reveal button; nothing hides the content again. */
    method HandleReveal()
      modifies this
      ensures isRevealed
      ensures floatingTexts == old(floatingTexts) && activeModal == old(activeModal)
      ensures isSisyphusTransformed == old(isSisyphusTransformed) && showBlessingModal == old(showBlessingModal)
    {
      isRevealed := true;
    }

    /** The stone and its caption both turn the stone into the sun, or back. */
    method ToggleTransform()
      modifies this
      ensures isSisyphusTransformed == !old(isSisyphusTransformed)
      ensures floatingTexts == old(floatingTexts) && isRevealed == old(isRevealed)
      ensures activeModal == old(activeModal) && showBlessingModal == old(showBlessingModal)
    {
      isSisyphusTransformed := !isSisyphusTransformed;
    }

    /** A pipeline item's action button opens its detail modal. */
    method OpenModal(content: ModalContent)
      modifies this
      ensures activeModal == Some(content)
      ensures floatingTexts == old(floatingTexts) && isRevealed == old(isRevealed)
      ensures isSisyphusTransformed == old(isSisyphusTransformed) && showBlessingModal == old(showBlessingModal)
    {
      activeModal := Some(content);
    }

    /** The detail modal's close button. */
    method CloseModal()
      modifies this
      ensures activeModal == None
      ensures floatingTexts == old(floatingTexts) && isRevealed == old(isRevealed)
      ensures isSisyphusTransformed == old(isSisyphusTransformed) && showBlessingModal == old(showBlessingModal)
    {
      activeModal := None;
    }

    /** The delayed step of the grand finale: the blessing modal appears. */
    method ShowBlessing()
      modifies this
      ensures showBlessingModal
      ensures floatingTexts == old(floatingTexts) && isRevealed == old(isRevealed)
      ensures activeModal == old(activeModal) && isSisyphusTransformed == old(isSisyphusTransformed)
    {
      showBlessingModal := true;
    }

    /** The blessing modal's close button. */
    method CloseBlessing()
      modifies this
      ensures !showBlessingModal
      ensures floatingTexts == old(floatingTexts) && isRevealed == old(isRevealed)
      ensures activeModal == old(activeModal) && isSisyphusTransformed == old(isSisyphusTransformed)
    {
      showBlessingModal := false;
    }
  }

  /** A click followed by its cleanup leaves the list as it was, provided no message on
   *  screen dates from the same millisecond. */
  method ClickAndWait(section: SisyphusSection, now: int, x: real, y: real, random: real)
    requires 0.0 <= random < 1.0
    requires forall i :: 0 <= i < |section.floatingTexts| ==> section.floatingTexts[i].id != now
    modifies section
    ensures section.floatingTexts == old(section.floatingTexts)
  {
    var t := section.HandleImageClick(now, x, y, random);
    ClickThenCleanup(old(section.floatingTexts), t);
    section.Cleanup(t.id);
  }

  /** Toggling the stone twice brings Sisyphus back. */
  method ToggleTwice(section: SisyphusSection)
    modifies section
    ensures section.isSisyphusTransformed == old(section.isSisyphusTransformed)
  {
    section.ToggleTransform();
    section.ToggleTransform();
  }
}
