// The page header: the scrolled flag, the active-section tracker that runs
// on every scroll event, navigation to a section and the mobile menu.
//
// The document is given as a map from element id to `offsetTop` (an id with
// no element is absent); `window.scrollY` is an input. `scrollIntoView` is
// recorded as the list of ids scrolled to.

module Header {
  import opened Wrappers

  /** One entry of `navItems`: the label shown and the id of its section. */
  datatype NavItem = NavItem(name: string, href: string)

  const NavItems: seq<NavItem> := [
    NavItem("Home", "hero"),
    NavItem("About", "about"),
    NavItem("Experience", "experience"),
    NavItem("Projects", "projects"),
    NavItem("Skills", "skills"),
    NavItem("Contact", "contact")
  ]

  /** `items.map(item => item.href)`. */
  function Hrefs(items: seq<NavItem>): (r: seq<string>)
    ensures |r| == |items|
    ensures forall i :: 0 <= i < |items| ==> r[i] == items[i].href
  {
    if items == [] then [] else [items[0].href] + Hrefs(items[1..])
  }

  /** The section ids in navigation order. */
  const Sections: seq<string> := ["hero", "about", "experience", "projects", "skills", "contact"]

  /** `navItems.map(item => item.href)` gives the section ids. */
  lemma SectionsAreHrefs()
    ensures Hrefs(NavItems) == Sections
  {
  }

  /** `offsetTop` of each element present in the document, by id. */
  type Document = map<string, int>

  /** The scroll offset past which the header counts as scrolled. */
  const ScrolledThreshold: real := 50.0
  /** How far below the top of the viewport a section may start and still be
      the active one. */
  const ActiveOffset: real := 100.0

  /** The section's element exists and starts at or above `position`. */
  predicate Qualifies(dom: Document, position: real, id: string) {
    id in dom && dom[id] as real <= position
  }

  /** The last of the first n sections that qualifies, if any: the section
      the reverse scan stops at. */
  function LastQualifying(dom: Document, position: real, n: nat): (r: Option<nat>)
    requires n <= |Sections|
    ensures r.Some? ==> r.value < n && Qualifies(dom, position, Sections[r.value])
    ensures r.Some? ==> forall j :: r.value < j < n ==> !Qualifies(dom, position, Sections[j])
    ensures r.None? ==> forall j :: 0 <= j < n ==> !Qualifies(dom, position, Sections[j])
  {
    if n == 0 then None
    else if Qualifies(dom, position, Sections[n - 1]) then Some(n - 1)
    else LastQualifying(dom, position, n - 1)
  }

  /** The active section after a scroll to `scrollY`, starting from `prev`:
      the last qualifying section, or `prev` when none qualifies. */
  function Active(dom: Document, scrollY: real, prev: string): (r: string)
    ensures r == prev || (r in Sections && Qualifies(dom, scrollY + ActiveOffset, r))
    ensures prev in Sections ==> r in Sections
  {
    match LastQualifying(dom, scrollY + ActiveOffset, |Sections|)
    case None => prev
    case Some(i) => Sections[i]
  }

  /** The loop of the scroll handler: from the last section back to the
      first, stop at the first one whose element exists and starts at or
      above `position`. */
  method ScanSections(dom: Document, position: real) returns (found: Option<nat>)
    ensures found.Some? ==> found.value < |Sections| && Qualifies(dom, position, Sections[found.value])
    ensures found.Some? ==> forall j :: found.value < j < |Sections| ==> !Qualifies(dom, position, Sections[j])
    ensures found.None? ==> forall j :: 0 <= j < |Sections| ==> !Qualifies(dom, position, Sections[j])
    ensures found == LastQualifying(dom, position, |Sections|)
  {
    found := None;
    var i := |Sections| - 1;
    while i >= 0
      invariant -1 <= i < |Sections|
      invariant found.None?
      invariant forall j :: i < j < |Sections| ==> !Qualifies(dom, position, Sections[j])
      invariant LastQualifying(dom, position, |Sections|) == LastQualifying(dom, position, i + 1)
    {
      var section := Sections[i];
      if section in dom && dom[section] as real <= position {
        found := Some(i);
        break;
      }
      i := i - 1;
    }
  }

  /** The result of a scroll is always one of the section ids, given that
      the previous one was. */
  lemma ActiveIsSection(dom: Document, scrollY: real, prev: string)
    requires prev in Sections
    ensures Active(dom, scrollY, prev) in Sections
  {
  }

  /** When no section qualifies, the active section is kept; otherwise it is
      a section whose element exists, so ids with no element are skipped. */
  lemma ActiveKeepsOrFinds(dom: Document, scrollY: real, prev: string)
    ensures (forall j :: 0 <= j < |Sections| ==> !Qualifies(dom, scrollY + ActiveOffset, Sections[j]))
            ==> Active(dom, scrollY, prev) == prev
    ensures (exists j :: 0 <= j < |Sections| && Qualifies(dom, scrollY + ActiveOffset, Sections[j]))
            ==> Active(dom, scrollY, prev) in dom
  {
  }

  /** A section that qualifies at some position qualifies at every later one. */
  lemma {:induction false} LastQualifyingMonotone(dom: Document, p1: real, p2: real, n: nat)
    requires p1 <= p2 && n <= |Sections|
    requires LastQualifying(dom, p1, n).Some?
    ensures LastQualifying(dom, p2, n).Some?
    ensures LastQualifying(dom, p1, n).value <= LastQualifying(dom, p2, n).value
  {
    if !Qualifies(dom, p2, Sections[n - 1]) {
      assert !Qualifies(dom, p1, Sections[n - 1]);
      LastQualifyingMonotone(dom, p1, p2, n - 1);
    }
  }

  /** The section ids are pairwise distinct. */
  lemma SectionsDistinct()
    ensures forall i, j :: 0 <= i < j < |Sections| ==> Sections[i] != Sections[j]
  {
    assert |Sections[0]| == 4 && |Sections[1]| == 5 && |Sections[2]| == 10;
    assert |Sections[3]| == 8 && |Sections[4]| == 6 && |Sections[5]| == 7;
  }

  /** Scrolling further down never makes a section earlier in navigation
      order active, once some section qualifies. */
  lemma ActiveMonotone(dom: Document, y1: real, y2: real, prev1: string, prev2: string, i: nat, j: nat)
    requires y1 <= y2
    requires LastQualifying(dom, y1 + ActiveOffset, |Sections|).Some?
    requires i < |Sections| && Active(dom, y1, prev1) == Sections[i]
    requires j < |Sections| && Active(dom, y2, prev2) == Sections[j]
    ensures i <= j
  {
    LastQualifyingMonotone(dom, y1 + ActiveOffset, y2 + ActiveOffset, |Sections|);
    SectionsDistinct();
  }

  /** With every section present and starting strictly below the previous
      one, the reverse scan agrees with the forward reading: the active
      section is the one whose top is at or above the position and whose
      successor's top is below it. */
  lemma ActiveBetweenOffsets(dom: Document, scrollY: real, prev: string, i: nat)
    requires forall k :: 0 <= k < |Sections| ==> Sections[k] in dom
    requires forall k :: 0 <= k < |Sections| - 1 ==> dom[Sections[k]] < dom[Sections[k + 1]]
    requires i < |Sections|
    ensures Active(dom, scrollY, prev) == Sections[i] && Qualifies(dom, scrollY + ActiveOffset, Sections[i])
            <==>
            dom[Sections[i]] as real <= scrollY + ActiveOffset
            && (i + 1 == |Sections| || scrollY + ActiveOffset < dom[Sections[i + 1]] as real)
  {
    var position := scrollY + ActiveOffset;
    SectionsDistinct();
    var r := LastQualifying(dom, position, |Sections|);
    if dom[Sections[i]] as real <= position
      && (i + 1 == |Sections| || position < dom[Sections[i + 1]] as real)
    {
      assert r.Some?;
      if r.value > i {
        OffsetsIncrease(dom, i + 1, r.value);
      }
    }
  }

  /** Strictly increasing neighbours make the offsets increase along the
      whole list. */
  lemma {:induction false} OffsetsIncrease(dom: Document, a: nat, b: nat)
    requires forall k :: 0 <= k < |Sections| ==> Sections[k] in dom
    requires forall k :: 0 <= k < |Sections| - 1 ==> dom[Sections[k]] < dom[Sections[k + 1]]
    requires a <= b < |Sections|
    ensures dom[Sections[a]] <= dom[Sections[b]]
  {
    if a < b {
      OffsetsIncrease(dom, a, b - 1);
    }
  }

  /** The header's state and its event handlers. */
  class HeaderState {
    var isScrolled: bool
    var isMobileMenuOpen: bool
    var activeSection: string
    /** The ids `scrollIntoView` was called on, oldest first. */
    var scrolledTo: seq<string>

    ghost predicate Valid()
      reads this
    {
      activeSection in Sections
    }

    /** Initially at the top: not scrolled, menu closed, `hero` active. */
    constructor ()
      ensures Valid()
      ensures !isScrolled && !isMobileMenuOpen && activeSection == "hero" && scrolledTo == []
    {
      isScrolled := false;
      isMobileMenuOpen := false;
      activeSection := "hero";
      scrolledTo := [];
    }

    /** `handleScroll`: the scrolled flag follows the 50-pixel threshold and
        the active section is recomputed 100 pixels below `scrollY`. */
    method HandleScroll(dom: Document, scrollY: real)
      requires Valid()
      modifies this
      ensures Valid()
      ensures isScrolled == (scrollY > ScrolledThreshold)
      ensures activeSection == Active(dom, scrollY, old(activeSection))
      ensures isMobileMenuOpen == old(isMobileMenuOpen) && scrolledTo == old(scrolledTo)
    {
      isScrolled := scrollY > ScrolledThreshold;
      var scrollPosition := scrollY + ActiveOffset;
      var found := ScanSections(dom, scrollPosition);
      if found.Some? {
        activeSection := Sections[found.value];
      }
    }

    /** `scrollToSection`: with an element for `id` the page scrolls to it
        and the menu closes; with none nothing happens. */
    method ScrollToSection(dom: Document, id: string)
      modifies this
      ensures id in dom ==> scrolledTo == old(scrolledTo) + [id] && !isMobileMenuOpen
      ensures id !in dom ==> scrolledTo == old(scrolledTo) && isMobileMenuOpen == old(isMobileMenuOpen)
      ensures isScrolled == old(isScrolled) && activeSection == old(activeSection)
    {
      if id in dom {
        scrolledTo := scrolledTo + [id];
        isMobileMenuOpen := false;
      }
    }

    /** The menu button: the menu flag is negated. */
    method ToggleMobileMenu()
      modifies this
      ensures isMobileMenuOpen == !old(isMobileMenuOpen)
      ensures isScrolled == old(isScrolled) && activeSection == old(activeSection)
      ensures scrolledTo == old(scrolledTo)
    {
      isMobileMenuOpen := !isMobileMenuOpen;
    }
  }
}
