/**
 * The flip card of the quotes section: a card with a front and a back that turns over on
 * hover and on click.
 */
module Quotes {
  /** The two faces of a card. */
  datatype Face = Front | Back

  class FlipCard {
    var isFlipped: bool

    /** A card mounts showing its front. */
    constructor ()
      ensures !isFlipped
    {
      isFlipped := false;
    }

    /** The pointer entering the card turns it to the back, whatever it showed before. */
    method MouseEnter()
      modifies this
      ensures isFlipped
    {
      isFlipped := true;
    }

    /** The pointer leaving the card turns it to the front, whatever it showed before. */
    method MouseLeave()
      modifies this
      ensures !isFlipped
    {
      isFlipped := false;
    }

    /** A click turns the card over. */
    method Click()
      modifies this
      ensures isFlipped == !old(isFlipped)
    {
      isFlipped := !isFlipped;
    }

    /** The `rotateY` the card is animated to, in degrees. */
    function RotateY(): (degrees: int)
      reads this
      ensures degrees == 180 <==> isFlipped
      ensures degrees == 0 <==> !isFlipped
    {
      if isFlipped then 180 else 0
    }

    /** The face turned towards the viewer. Each face hides its backface and the back is
     *  mounted already turned by 180 degrees, so the front shows when the card's turn is a
     *  whole number of revolutions and the back otherwise. */
    function ShownFace(): (face: Face)
      reads this
      ensures face == Back <==> isFlipped
    {
      if RotateY() % 360 == 0 then Front else Back
    }
  }

  /** Two clicks bring a card back to the face it showed. */
  method ClickTwice(card: FlipCard)
    modifies card
    ensures card.isFlipped == old(card.isFlipped)
  {
    card.Click();
    card.Click();
  }
}
