/**
 The section navigator of the portfolio page with its contact overlay.
 Three sections side by side are paged horizontally; the active section is
 reached by clicking a navigation button, by the arrow keys, by the mouse
 wheel (with a cooldown) or by a touch swipe. While the contact overlay is
 open, keys, wheel and swipes do nothing.

 The page's elements are fields: the "active" flag of each navigation button,
 the container's horizontal offset (in viewport-width units), and the three
 visual states the overlay toggles. Timers are explicit calls.
 */
module Navigation {

  /** Number of sections (and navigation buttons) on the page. */
  const SectionCount: int := 3
  /** The last section index, hard-coded in the handlers' bound checks. */
  const LastSection: int := 2
  /** Wheel delta, on either axis, a step needs to exceed. */
  const WheelThreshold: real := 50.0
  /** Horizontal distance a swipe needs to exceed. */
  const SwipeThreshold: real := 50.0

  /** The button flags after navigating to `index`: exactly the button at
      that position is active. */
  function ActiveFlags(n: nat, index: int): seq<bool> {
    seq(n, j => j == index)
  }

  /** How many flags are set. */
  function CountActive(flags: seq<bool>): nat {
    if flags == [] then 0 else (if flags[0] then 1 else 0) + CountActive(flags[1..])
  }

  /** Navigating to a position of a button leaves exactly one button active;
      navigating anywhere else (the script does not check) leaves none. */
  lemma {:induction false} ActiveFlagsCount(n: nat, index: int)
    ensures CountActive(ActiveFlags(n, index)) == if 0 <= index < n then 1 else 0
  {
    if n > 0 {
      assert ActiveFlags(n, index)[1..] == ActiveFlags(n - 1, index - 1);
      ActiveFlagsCount(n - 1, index - 1);
    }
  }

  /** Section reached by a key press (contact closed). */
  function KeyTarget(current: int, key: string): (r: int)
    ensures 0 <= current <= LastSection ==> 0 <= r <= LastSection
    ensures r == current + 1 <==> key == "ArrowRight" && current < LastSection
    ensures r == current - 1 <==> key == "ArrowLeft" && current > 0
    ensures r == current || r == current + 1 || r == current - 1
  {
    if key == "ArrowRight" && current < LastSection then current + 1
    else if key == "ArrowLeft" && current > 0 then current - 1
    else current
  }

  /** Section reached by a wheel event (contact closed, no cooldown running).
      The horizontal delta is tried before the vertical one; a horizontal
      step blocked by a bound falls through to the vertical checks. */
  function WheelTarget(current: int, deltaX: real, deltaY: real): (r: int)
    ensures 0 <= current <= LastSection ==> 0 <= r <= LastSection
    ensures r == current || r == current + 1 || r == current - 1
    ensures r == current + 1 ==> current < LastSection && (deltaX > WheelThreshold || deltaY > WheelThreshold)
    ensures r == current - 1 ==> current > 0 && (deltaX < -WheelThreshold || deltaY < -WheelThreshold)
    ensures deltaX > WheelThreshold && current < LastSection ==> r == current + 1
    ensures deltaX < -WheelThreshold && current > 0 ==> r == current - 1
    ensures (!(deltaX > WheelThreshold && current < LastSection) && !(deltaX < -WheelThreshold && current > 0)
             && deltaY > WheelThreshold && current < LastSection) ==> r == current + 1
    ensures (!(deltaX > WheelThreshold && current < LastSection) && !(deltaX < -WheelThreshold && current > 0)
             && deltaY < -WheelThreshold && current > 0) ==> r == current - 1
    ensures current == LastSection && deltaX > WheelThreshold && deltaY < -WheelThreshold ==> r == current - 1
  {
    if deltaX > WheelThreshold && current < LastSection then current + 1
    else if deltaX < -WheelThreshold && current > 0 then current - 1
    else if deltaY > WheelThreshold && current < LastSection then current + 1
    else if deltaY < -WheelThreshold && current > 0 then current - 1
    else current
  }

  /** Section reached by a swipe from `startX` to `endX` (contact closed). */
  function SwipeTarget(current: int, startX: real, endX: real): (r: int)
    ensures 0 <= current <= LastSection ==> 0 <= r <= LastSection
    ensures r == current + 1 <==> startX - endX > SwipeThreshold && current < LastSection
    ensures r == current - 1 <==> endX - startX > SwipeThreshold && current > 0
    ensures r == current || r == current + 1 || r == current - 1
  {
    if startX - endX > SwipeThreshold && current < LastSection then current + 1
    else if endX - startX > SwipeThreshold && current > 0 then current - 1
    else current
  }

  class Navigator {
    var currentSection: int
    /** The "active" class of each navigation button, in document order. */
    var buttons: seq<bool>
    /** The container's translateX, in vw. */
    var offset: int

    var contactActive: bool
    /** The "active" class of the contact button and of the overlay, and the
        "hidden" class of the main container. */
    var contactButtonActive: bool
    var overlayActive: bool
    var mainHidden: bool

    /** Wheel cooldown in progress. */
    var isScrolling: bool
    var touchStartX: real
    var touchEndX: real

    ghost predicate Valid()
      reads this
    {
      && 0 <= currentSection <= LastSection
      && buttons == ActiveFlags(SectionCount, currentSection)
      && offset == -100 * currentSection
      && contactButtonActive == contactActive
      && overlayActive == contactActive
      && mainHidden == contactActive
    }

    /** The page as loaded: first section shown, its button marked active in
        the markup, overlay closed, no cooldown, touch positions zero. */
    constructor ()
      ensures Valid()
      ensures currentSection == 0 && !contactActive && !isScrolling
      ensures touchStartX == 0.0 && touchEndX == 0.0
    {
      currentSection := 0;
      buttons := ActiveFlags(SectionCount, 0);
      offset := 0;
      contactActive, contactButtonActive, overlayActive, mainHidden := false, false, false, false;
      isScrolling := false;
      touchStartX, touchEndX := 0.0, 0.0;
    }

    /** Shows section `index`: sets the index and the offset, and marks the
        button at `index` active and every other one inactive. Any index is
        accepted. */
    method NavigateTo(index: int)
      modifies this
      ensures currentSection == index && offset == -100 * index
      ensures buttons == ActiveFlags(|old(buttons)|, index)
      ensures contactActive == old(contactActive) && isScrolling == old(isScrolling)
      ensures contactButtonActive == old(contactButtonActive) && overlayActive == old(overlayActive)
      ensures mainHidden == old(mainHidden)
      ensures touchStartX == old(touchStartX) && touchEndX == old(touchEndX)
    {
      currentSection := index;
      offset := -index * 100;
      var flags := buttons;
      var j := 0;
      while j < |flags|
        invariant 0 <= j <= |flags| == |buttons|
        invariant forall m :: 0 <= m < j ==> flags[m] == (m == index)
      {
        flags := flags[j := j == index];
        j := j + 1;
      }
      buttons := flags;
    }

    /** A click on the navigation button at `position`; not blocked by the
        contact overlay. */
    method Click(position: int)
      requires Valid() && 0 <= position < |buttons|
      modifies this
      ensures Valid()
      ensures currentSection == position
      ensures contactActive == old(contactActive) && isScrolling == old(isScrolling)
      ensures touchStartX == old(touchStartX) && touchEndX == old(touchEndX)
    {
      NavigateTo(position);
    }

    method OpenContact()
      requires Valid()
      modifies this
      ensures Valid()
      ensures contactActive && contactButtonActive && overlayActive && mainHidden
      ensures currentSection == old(currentSection) && isScrolling == old(isScrolling)
      ensures touchStartX == old(touchStartX) && touchEndX == old(touchEndX)
    {
      contactActive := true;
      contactButtonActive := true;
      overlayActive := true;
      mainHidden := true;
    }

    /** Also the handler of the overlay's close button. */
    method CloseContact()
      requires Valid()
      modifies this
      ensures Valid()
      ensures !contactActive && !contactButtonActive && !overlayActive && !mainHidden
      ensures currentSection == old(currentSection) && isScrolling == old(isScrolling)
      ensures touchStartX == old(touchStartX) && touchEndX == old(touchEndX)
    {
      contactActive := false;
      contactButtonActive := false;
      overlayActive := false;
      mainHidden := false;
    }

    /** A click on the contact button opens the overlay, and does nothing when
        it is already open. */
    method ContactButtonClick()
      requires Valid()
      modifies this
      ensures Valid()
      ensures old(contactActive) ==> unchanged(this)
      ensures contactActive && contactButtonActive && overlayActive && mainHidden
      ensures currentSection == old(currentSection) && isScrolling == old(isScrolling)
      ensures touchStartX == old(touchStartX) && touchEndX == old(touchEndX)
    {
      if !contactActive {
        OpenContact();
      }
    }

    method KeyDown(key: string)
      requires Valid()
      modifies this
      ensures Valid()
      ensures old(contactActive) ==> unchanged(this)
      ensures !old(contactActive) ==> currentSection == KeyTarget(old(currentSection), key)
      ensures contactActive == old(contactActive) && isScrolling == old(isScrolling)
      ensures touchStartX == old(touchStartX) && touchEndX == old(touchEndX)
    {
      if contactActive {
        return;
      }
      if key == "ArrowRight" && currentSection < LastSection {
        NavigateTo(currentSection + 1);
      } else if key == "ArrowLeft" && currentSection > 0 {
        NavigateTo(currentSection - 1);
      }
    }

    /** A wheel event. Ignored entirely while the overlay is open or the
        cooldown runs; otherwise it starts the cooldown, moved or not. */
    method Wheel(deltaX: real, deltaY: real)
      requires Valid()
      modifies this
      ensures Valid()
      ensures old(contactActive) || old(isScrolling) ==> unchanged(this)
      ensures !old(contactActive) && !old(isScrolling) ==>
                isScrolling && currentSection == WheelTarget(old(currentSection), deltaX, deltaY)
      ensures contactActive == old(contactActive)
      ensures touchStartX == old(touchStartX) && touchEndX == old(touchEndX)
    {
      if contactActive || isScrolling {
        return;
      }
      isScrolling := true;
      if deltaX > WheelThreshold && currentSection < LastSection {
        NavigateTo(currentSection + 1);
      } else if deltaX < -WheelThreshold && currentSection > 0 {
        NavigateTo(currentSection - 1);
      } else if deltaY > WheelThreshold && currentSection < LastSection {
        NavigateTo(currentSection + 1);
      } else if deltaY < -WheelThreshold && currentSection > 0 {
        NavigateTo(currentSection - 1);
      }
    }

    /** The delayed reset of the wheel cooldown; the only place it ends. */
    method CooldownExpired()
      requires Valid()
      modifies this
      ensures Valid()
      ensures !isScrolling
      ensures currentSection == old(currentSection) && contactActive == old(contactActive)
      ensures touchStartX == old(touchStartX) && touchEndX == old(touchEndX)
    {
      isScrolling := false;
    }

    /** Records where a touch starts, whether or not the overlay is open. */
    method TouchStart(x: real)
      requires Valid()
      modifies this
      ensures Valid()
      ensures touchStartX == x
      ensures currentSection == old(currentSection) && contactActive == old(contactActive)
      ensures isScrolling == old(isScrolling) && touchEndX == old(touchEndX)
    {
      touchStartX := x;
    }

    /** A touch ends at `x`: ignored while the overlay is open, otherwise
        recorded and handled as a swipe. */
    method TouchEnd(x: real)
      requires Valid()
      modifies this
      ensures Valid()
      ensures old(contactActive) ==> unchanged(this)
      ensures !old(contactActive) ==>
                touchEndX == x && currentSection == SwipeTarget(old(currentSection), touchStartX, x)
      ensures contactActive == old(contactActive) && isScrolling == old(isScrolling)
      ensures touchStartX == old(touchStartX)
    {
      if contactActive {
        return;
      }
      touchEndX := x;
      HandleSwipe();
    }

    method HandleSwipe()
      requires Valid()
      modifies this
      ensures Valid()
      ensures currentSection == SwipeTarget(old(currentSection), touchStartX, touchEndX)
      ensures contactActive == old(contactActive) && isScrolling == old(isScrolling)
      ensures touchStartX == old(touchStartX) && touchEndX == old(touchEndX)
    {
      if touchStartX - touchEndX > SwipeThreshold && currentSection < LastSection {
        NavigateTo(currentSection + 1);
      } else if touchEndX - touchStartX > SwipeThreshold && currentSection > 0 {
        NavigateTo(currentSection - 1);
      }
    }
  }

  /** In every valid state exactly one button is active, the one of the
      current section. */
  lemma ValidHasOneActiveButton(nav: Navigator)
    requires nav.Valid()
    ensures CountActive(nav.buttons) == 1 && nav.buttons[nav.currentSection]
  {
    ActiveFlagsCount(SectionCount, nav.currentSection);
  }

  /** From the first section, ArrowRight twice reaches the last section and a
      third ArrowRight stays there. Returns the index after each press. */
  method ArrowRightScenario() returns (sections: seq<int>)
    ensures sections == [1, 2, 2]
  {
    var nav := new Navigator();
    nav.KeyDown("ArrowRight");
    sections := [nav.currentSection];
    nav.KeyDown("ArrowRight");
    sections := sections + [nav.currentSection];
    nav.KeyDown("ArrowRight");
    sections := sections + [nav.currentSection];
  }

  /** Two wheel steps before the cooldown resets move one section; after the
      reset the next one moves again. Returns the index after each event. */
  method WheelCooldownScenario() returns (sections: seq<int>)
    ensures sections == [1, 1, 2]
  {
    var nav := new Navigator();
    nav.Wheel(0.0, 120.0);
    sections := [nav.currentSection];
    nav.Wheel(0.0, 120.0);
    sections := sections + [nav.currentSection];
    nav.CooldownExpired();
    nav.Wheel(0.0, 120.0);
    sections := sections + [nav.currentSection];
  }

  /** With the overlay open, keys, wheel and swipes leave the section alone;
      closing it restores navigation. Returns the index after each step. */
  method ContactBlocksGesturesScenario() returns (sections: seq<int>)
    ensures sections == [0, 0, 0, 1]
  {
    var nav := new Navigator();
    nav.ContactButtonClick();
    nav.KeyDown("ArrowRight");
    sections := [nav.currentSection];
    nav.Wheel(120.0, 0.0);
    sections := sections + [nav.currentSection];
    nav.TouchStart(300.0);
    nav.TouchEnd(100.0);
    sections := sections + [nav.currentSection];
    nav.CloseContact();
    nav.KeyDown("ArrowRight");
    sections := sections + [nav.currentSection];
  }
}
