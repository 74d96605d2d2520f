/**
 * The scroll handler of `initActiveNavigation` (script.js): it picks the id
 * of the last section, in document order, whose vertical extent contains the
 * scroll position plus a fixed offset, then marks exactly the navigation
 * links that point at that id.
 */
module ActiveNavigation {
  import opened Wrappers

  /** `section[id]` as the handler sees it: its id, `offsetTop` and
      `clientHeight`, in pixels. */
  datatype Section = Section(id: string, top: int, height: nat)

  /** The handler looks 200 pixels below the top of the viewport. */
  const ScrollOffset: int := 200

  /** The half-open extent `[top, top + height)` holds `pos`. */
  predicate Contains(s: Section, pos: int) {
    s.top <= pos < s.top + s.height
  }

  /** Index of the last section containing `pos`, if any. */
  function LastContaining(sections: seq<Section>, pos: int): (r: Option<nat>)
    ensures r.None? <==> forall i :: 0 <= i < |sections| ==> !Contains(sections[i], pos)
    ensures r.Some? ==>
      r.value < |sections| && Contains(sections[r.value], pos)
      && forall j :: r.value < j < |sections| ==> !Contains(sections[j], pos)
  {
    if sections == [] then None
    else if Contains(sections[|sections| - 1], pos) then Some(|sections| - 1)
    else
      var r := LastContaining(sections[..|sections| - 1], pos);
      assert forall i :: 0 <= i < |sections| - 1 ==> sections[i] == sections[..|sections| - 1][i];
      r
  }

  /** The id the handler settles on: when a section contains the position,
      that of the last such section; otherwise `''`. */
  function CurrentId(sections: seq<Section>, scrollY: int): (r: string)
    ensures (forall i :: 0 <= i < |sections| ==> !Contains(sections[i], scrollY + ScrollOffset))
      ==> r == ""
    ensures forall i ::
      (0 <= i < |sections| && Contains(sections[i], scrollY + ScrollOffset)
       && forall j :: i < j < |sections| ==> !Contains(sections[j], scrollY + ScrollOffset))
      ==> r == sections[i].id
  {
    match LastContaining(sections, scrollY + ScrollOffset)
    case None => ""
    case Some(i) => sections[i].id
  }

  /** The `forEach` over the sections: `current` is overwritten by every
      section whose extent contains the position. */
  method FindCurrentSection(sections: seq<Section>, scrollY: int) returns (current: string)
    ensures current == CurrentId(sections, scrollY)
  {
    current := "";
    var scrollPosition := scrollY + ScrollOffset;
    for i := 0 to |sections|
      invariant current == CurrentId(sections[..i], scrollY)
    {
      CurrentIdStep(sections, i, scrollY);
      var section := sections[i];
      if scrollPosition >= section.top && scrollPosition < section.top + section.height {
        current := section.id;
      }
    }
    assert sections[..|sections|] == sections;
  }

  /** One more section: it takes over when it contains the position. */
  lemma CurrentIdStep(sections: seq<Section>, i: nat, scrollY: int)
    requires i < |sections|
    ensures CurrentId(sections[..i + 1], scrollY) ==
      if Contains(sections[i], scrollY + ScrollOffset) then sections[i].id
      else CurrentId(sections[..i], scrollY)
  {
    assert sections[..i + 1][..i] == sections[..i];
  }

  /** A navigation link: its `href` and whether its class list holds
      `active`. */
  class NavLink {
    const href: string
    var active: bool

    constructor (href: string, active: bool)
      ensures this.href == href && this.active == active
    {
      this.href := href;
      this.active := active;
    }
  }

  /** The `forEach` over the links: each loses `active`, and gets it back
      when its `href` is `#` followed by `current`. */
  method MarkActiveLinks(links: seq<NavLink>, current: string)
    modifies set l | l in links
    ensures forall i :: 0 <= i < |links| ==> links[i].active == (links[i].href == "#" + current)
  {
    for i := 0 to |links|
      invariant forall j :: 0 <= j < i ==> links[j].active == (links[j].href == "#" + current)
    {
      var link := links[i];
      link.active := false;
      if link.href == "#" + current {
        link.active := true;
      }
    }
  }

  /** One run of the throttled scroll handler. */
  method UpdateActiveNavigation(sections: seq<Section>, links: seq<NavLink>, scrollY: int)
    modifies set l | l in links
    ensures forall i :: 0 <= i < |links| ==>
      links[i].active == (links[i].href == "#" + CurrentId(sections, scrollY))
  {
    var current := FindCurrentSection(sections, scrollY);
    MarkActiveLinks(links, current);
  }
}
