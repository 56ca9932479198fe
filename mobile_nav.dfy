/** The mobile navigation (script.js:77-90): the menu button and the menu both carry the
    `active` class; the button toggles the two together and a click on a menu link closes
    both. */
module MobileNav {

  class NavMenu {
    var toggleActive: bool
    var menuActive: bool

    /** The button and the menu agree. */
    ghost predicate Valid()
      reads this
    {
      toggleActive == menuActive
    }

    /** The page as served: the menu is closed. */
    constructor ()
      ensures Valid() && !toggleActive && !menuActive
    {
      toggleActive, menuActive := false, false;
    }

    /** A click on the menu button flips both classes, so they agree afterwards exactly
        when they agreed before. */
    method Toggle()
      modifies this
      ensures Valid() == old(Valid())
      ensures toggleActive == !old(toggleActive) && menuActive == !old(menuActive)
    {
      toggleActive := !toggleActive;
      menuActive := !menuActive;
    }

    /** A click on a link of the menu removes both classes. */
    method LinkClick()
      modifies this
      ensures Valid() && !toggleActive && !menuActive
    {
      toggleActive := false;
      menuActive := false;
    }
  }

  /** Two clicks on the button give the button and the menu back their state. */
  method ToggleTwice(nav: NavMenu)
    modifies nav
    ensures nav.toggleActive == old(nav.toggleActive) && nav.menuActive == old(nav.menuActive)
    ensures nav.Valid() == old(nav.Valid())
  {
    nav.Toggle();
    nav.Toggle();
  }
}
