/**
 * The scroll handler of the navigation bar (script.js:96-130): the link of
 * the section under the scroll position is marked active, and the bar gets
 * its `scrolled` style past 50 pixels.
 */
module Navigation {
  import opened Wrappers

  /** A `section[id]` of the page with its layout in whole pixels. */
  datatype Section = Section(id: string, offsetTop: int, offsetHeight: int)

  /** How far above a section its link already counts as current. */
  const SectionLead: int := 100

  /** How far the page must be scrolled before the bar changes style. */
  const ScrolledThreshold: int := 50

  predicate Contains(s: Section, scrollY: int)
  {
    s.offsetTop - SectionLead <= scrollY < s.offsetTop - SectionLead + s.offsetHeight
  }

  /** The last of the first `n` sections that contains the scroll position. */
  function LastContaining(sections: seq<Section>, n: nat, scrollY: int): (r: Option<nat>)
    requires n <= |sections|
    ensures r.Some? ==> r.value < n && Contains(sections[r.value], scrollY)
    ensures r.Some? ==> forall k :: r.value < k < n ==> !Contains(sections[k], scrollY)
    ensures r.None? ==> forall k :: 0 <= k < n ==> !Contains(sections[k], scrollY)
  {
    if n == 0 then None
    else if Contains(sections[n - 1], scrollY) then Some(n - 1)
    else LastContaining(sections, n - 1, scrollY)
  }

  /** The link marks after a matching section: active exactly on links to `"#" + id`. */
  function MarksFor(hrefs: seq<string>, id: string): (marks: seq<bool>)
    ensures |marks| == |hrefs|
    ensures forall i :: 0 <= i < |hrefs| ==> (marks[i] <==> hrefs[i] == "#" + id)
  {
    seq(|hrefs|, i requires 0 <= i < |hrefs| => hrefs[i] == "#" + id)
  }

  /**
   * The link marks after one call of `updateActiveLink`: untouched when no
   * section contains the scroll position, otherwise active exactly on the
   * links to the last section that does.
   */
  function MarksAfterScroll(sections: seq<Section>, hrefs: seq<string>, marks: seq<bool>, scrollY: int): (r: seq<bool>)
    ensures (forall k :: 0 <= k < |sections| ==> !Contains(sections[k], scrollY)) ==> r == marks
    ensures forall k :: 0 <= k < |sections| && Contains(sections[k], scrollY)
                        && (forall j :: k < j < |sections| ==> !Contains(sections[j], scrollY))
                        ==> |r| == |hrefs| && forall i :: 0 <= i < |hrefs| ==> (r[i] <==> hrefs[i] == "#" + sections[k].id)
  {
    match LastContaining(sections, |sections|, scrollY)
    case None => marks
    case Some(k) => MarksFor(hrefs, sections[k].id)
  }

  /** When sections do not overlap, the active links are those of the one section under the scroll position. */
  lemma DisjointSectionsPickTheCurrentOne(sections: seq<Section>, hrefs: seq<string>,
                                     marks: seq<bool>, scrollY: int, current: nat)
    requires current < |sections| && Contains(sections[current], scrollY)
    requires forall a, b :: 0 <= a < b < |sections| ==> !(Contains(sections[a], scrollY) && Contains(sections[b], scrollY))
    ensures MarksAfterScroll(sections, hrefs, marks, scrollY) == MarksFor(hrefs, sections[current].id)
  {
    var r := LastContaining(sections, |sections|, scrollY);
    assert r.Some? && r.value >= current;
  }

  /**
   * The navigation bar's link marks and its style. The `section[id]` nodes
   * are looked up once; their extents are read again on every scroll, so
   * each scroll event brings the current layout.
   */
  class NavBar {
    /** The `id` of every `section[id]`, in document order. */
    const sectionIds: seq<string>
    /** The `href` of every `.nav-link`, in document order. */
    const hrefs: seq<string>
    /** Whether each link carries the `active` class. */
    var active: seq<bool>
    /** Whether the bar carries the `scrolled` class. */
    var scrolled: bool

    ghost predicate Valid()
      reads this
    {
      |active| == |hrefs|
    }

    /** A layout of this page's sections: one extent per section, in order. */
    predicate IsLayout(layout: seq<Section>)
    {
      |layout| == |sectionIds| && forall i :: 0 <= i < |layout| ==> layout[i].id == sectionIds[i]
    }

    /** The bar as the markup leaves it: `marks` says which links start out active. */
    constructor (sectionIds: seq<string>, hrefs: seq<string>, marks: seq<bool>, scrolled: bool)
      requires |marks| == |hrefs|
      ensures Valid() && this.sectionIds == sectionIds && this.hrefs == hrefs
      ensures active == marks && this.scrolled == scrolled
    {
      this.sectionIds := sectionIds;
      this.hrefs := hrefs;
      active := marks;
      this.scrolled := scrolled;
    }

    /**
     * `updateActiveLink`: for every section under the scroll position, every
     * link loses `active` and the links to that section gain it again, so
     * the last such section wins and no such section leaves the marks alone.
     */
    method UpdateActiveLink(layout: seq<Section>, scrollY: int)
      requires Valid() && IsLayout(layout)
      modifies this
      ensures Valid()
      ensures active == MarksAfterScroll(layout, hrefs, old(active), scrollY)
      ensures scrolled == old(scrolled)
    {
      var marks := active;
      var s := 0;
      while s < |layout|
        invariant 0 <= s <= |layout|
        invariant |marks| == |hrefs|
        invariant marks == match LastContaining(layout, s, scrollY)
                           case None => old(active)
                           case Some(k) => MarksFor(hrefs, layout[k].id)
      {
        var section := layout[s];
        if section.offsetTop - SectionLead <= scrollY < section.offsetTop - SectionLead + section.offsetHeight {
          var l := 0;
          while l < |hrefs|
            invariant 0 <= l <= |hrefs| == |marks|
            invariant forall i :: 0 <= i < l ==> (marks[i] <==> hrefs[i] == "#" + section.id)
          {
            marks := marks[l := false];
            if hrefs[l] == "#" + section.id {
              marks := marks[l := true];
            }
            l := l + 1;
          }
          assert marks == MarksFor(hrefs, section.id);
        }
        s := s + 1;
      }
      active := marks;
    }

    /** `updateNavbar` */
    method UpdateNavbar(scrollY: int)
      modifies this
      ensures scrolled <==> scrollY > ScrolledThreshold
      ensures active == old(active)
    {
      if scrollY > ScrolledThreshold {
        scrolled := true;
      } else {
        scrolled := false;
      }
    }

    /** The window's scroll listener, given the layout at that moment: the active link, then the bar's style. */
    method OnScroll(layout: seq<Section>, scrollY: int)
      requires Valid() && IsLayout(layout)
      modifies this
      ensures Valid()
      ensures active == MarksAfterScroll(layout, hrefs, old(active), scrollY)
      ensures scrolled <==> scrollY > ScrolledThreshold
    {
      UpdateActiveLink(layout, scrollY);
      UpdateNavbar(scrollY);
    }
  }
}
