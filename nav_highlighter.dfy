/** The navigation highlighter (`setActiveNav`): picks the section the reader
    has scrolled to and marks the navigation links that point at it. */
module NavHighlighter {
  import opened Page

  /** How far below the top of the viewport a section's top may be while it
      still becomes current: the activation point sits slightly below the
      header. */
  const ActivationOffset: int := 150

  /** A section qualifies once the page is scrolled to at least its
      offset minus the activation offset. */
  predicate Qualifies(s: Section, scrollY: real): (q: bool)
    ensures q <==> s.offsetTop as real <= scrollY + 150.0
  {
    scrollY >= (s.offsetTop - ActivationOffset) as real
  }

  /** Index of the last qualifying section in document order, or -1 when
      none qualifies. */
  function LastQualifying(ss: seq<Section>, scrollY: real): (r: int)
    ensures -1 <= r < |ss|
    ensures r >= 0 ==> Qualifies(ss[r], scrollY)
    ensures forall k :: r < k < |ss| ==> !Qualifies(ss[k], scrollY)
  {
    if |ss| == 0 then -1
    else if Qualifies(ss[|ss| - 1], scrollY) then |ss| - 1
    else LastQualifying(ss[..|ss| - 1], scrollY)
  }

  /** The value `current` holds after the scan: the id of the last
      qualifying section, or the empty string when none qualifies. */
  function ActiveId(ss: seq<Section>, scrollY: real): (current: Option<string>)
    ensures (forall k :: 0 <= k < |ss| ==> !Qualifies(ss[k], scrollY)) ==> current == Some("")
    ensures forall r :: 0 <= r < |ss| ==>
      (Qualifies(ss[r], scrollY) && (forall k :: r < k < |ss| ==> !Qualifies(ss[k], scrollY)) ==>
         current == ss[r].id)
  {
    var r := LastQualifying(ss, scrollY);
    if r < 0 then Some("") else ss[r].id
  }

  /** The scan over the sections: every qualifying section overwrites
      `current`, so the last one in document order wins. */
  method ScanActiveId(sections: array<Section>, scrollY: real) returns (current: Option<string>)
    ensures current == ActiveId(sections[..], scrollY)
  {
    current := Some("");
    for i := 0 to sections.Length
      invariant current == ActiveId(sections[..i], scrollY)
    {
      var sectionTop := sections[i].offsetTop - ActivationOffset;
      if scrollY >= sectionTop as real {
        current := sections[i].id;
      }
      assert sections[..i + 1][..i] == sections[..i];
    }
    assert sections[..sections.Length] == sections[..];
  }

  /** `href.substring(1)`: the href without its first character; the empty
      string stays empty. */
  function Fragment(href: string): (f: string)
    ensures |href| > 0 ==> href == [href[0]] + f
    ensures |href| == 0 ==> f == ""
  {
    if |href| == 0 then "" else href[1..]
  }

  /** A link points at `current` when its fragment equals it. A link without
      an href never matches (reading its fragment throws). */
  predicate Matches(l: NavLink, current: Option<string>): (m: bool)
    ensures m ==> l.href.Some? && current.Some?
    ensures l.href.Some? && |l.href.value| > 0 ==>
      (m <==> current.Some? && l.href.value == [l.href.value[0]] + current.value)
    ensures l.href == Some("") ==> (m <==> current == Some(""))
  {
    l.href.Some? && current == Some(Fragment(l.href.value))
  }

  /** One step of the marking loop: "active" is removed, then added back
      exactly when the link matches. */
  function MarkLink(l: NavLink, current: Option<string>): (r: NavLink)
    ensures r.href == l.href
    ensures r.active == Matches(l, current)
  {
    l.(active := Matches(l, current))
  }

  /** The marking loop over the links in order. A link without an href has
      its "active" removed and then throws, so the links after it keep
      their state. */
  function MarkLinks(ls: seq<NavLink>, current: Option<string>): (r: seq<NavLink>)
    ensures |r| == |ls|
    ensures forall k :: 0 <= k < |ls| ==> r[k].href == ls[k].href
  {
    if ls == [] then []
    else if ls[0].href.None? then [MarkLink(ls[0], current)] + ls[1..]
    else [MarkLink(ls[0], current)] + MarkLinks(ls[1..], current)
  }

  /** Index of the first link without an href, or the number of links. */
  function FirstMissingHref(ls: seq<NavLink>): (n: nat)
    ensures n <= |ls|
    ensures n < |ls| ==> ls[n].href.None?
    ensures forall k :: 0 <= k < n ==> ls[k].href.Some?
  {
    if ls == [] then 0
    else if ls[0].href.None? then 0
    else 1 + FirstMissingHref(ls[1..])
  }

  /** `setActiveNav`: scans the sections, then marks the links. Returns
      false when a link without an href made the marking loop throw. */
  method SetActiveNav(sections: array<Section>, links: array<NavLink>, scrollY: real) returns (ok: bool)
    modifies links
    ensures ok <==> forall k :: 0 <= k < links.Length ==> old(links[k]).href.Some?
    ensures links[..] == MarkLinks(old(links[..]), ActiveId(sections[..], scrollY))
  {
    var current := ScanActiveId(sections, scrollY);
    ghost var before := links[..];
    ok := true;
    var i := 0;
    while i < links.Length
      invariant 0 <= i <= links.Length
      invariant forall k :: 0 <= k < i ==> before[k].href.Some?
      invariant forall k :: 0 <= k < i ==> links[k] == MarkLink(before[k], current)
      invariant forall k :: i <= k < links.Length ==> links[k] == before[k]
    {
      links[i] := links[i].(active := false);
      if links[i].href.None? {
        ok := false;
        assert FirstMissingHref(before) == i;
        MarkLinksFromSteps(before, links[..], current);
        return;
      }
      if Some(Fragment(links[i].href.value)) == current {
        links[i] := links[i].(active := true);
      }
      i := i + 1;
    }
    assert FirstMissingHref(before) == |before|;
    MarkLinksFromSteps(before, links[..], current);
  }

  /** Links that went through the loop steps up to and including the first
      link without an href, and kept their state after it, are the marking. */
  lemma MarkLinksFromSteps(before: seq<NavLink>, after: seq<NavLink>, current: Option<string>)
    requires |after| == |before|
    requires forall k :: 0 <= k < |before| && k <= FirstMissingHref(before) ==>
      after[k] == MarkLink(before[k], current)
    requires forall k :: FirstMissingHref(before) < k < |before| ==> after[k] == before[k]
    ensures after == MarkLinks(before, current)
  {
    MarkLinksAt(before, current);
  }

  /** What the marking loop leaves in each link: up to and including the
      first link without an href, "active" exactly when the link matches;
      after it, the prior state. Hrefs never change. */
  lemma {:induction false} MarkLinksAt(ls: seq<NavLink>, current: Option<string>)
    ensures |MarkLinks(ls, current)| == |ls|
    ensures forall k :: 0 <= k < |ls| ==>
      MarkLinks(ls, current)[k].href == ls[k].href &&
      MarkLinks(ls, current)[k].active ==
        (if k <= FirstMissingHref(ls) then Matches(ls[k], current) else ls[k].active)
  {
    if ls != [] && ls[0].href.Some? {
      MarkLinksAt(ls[1..], current);
      var r := MarkLinks(ls, current);
      forall k | 0 <= k < |ls|
        ensures r[k].href == ls[k].href
        ensures r[k].active == (if k <= FirstMissingHref(ls) then Matches(ls[k], current) else ls[k].active)
      {
        if k > 0 {
          assert r[k] == MarkLinks(ls[1..], current)[k - 1];
          assert ls[k] == ls[1..][k - 1];
        }
      }
    }
  }

  /** When every link has an href, a link is "active" afterwards exactly when
      its fragment equals `current`, whatever its prior state. */
  lemma ActiveExactlyWhenMatching(ls: seq<NavLink>, current: Option<string>)
    requires forall k :: 0 <= k < |ls| ==> ls[k].href.Some?
    ensures |MarkLinks(ls, current)| == |ls|
    ensures forall k :: 0 <= k < |ls| ==>
      (MarkLinks(ls, current)[k].active <==> current == Some(Fragment(ls[k].href.value)))
  {
    MarkLinksAt(ls, current);
  }

  /** The marking depends on the hrefs only: the links' prior "active"
      flags make no difference. */
  lemma {:induction false} MarkLinksIgnoresPriorState(ls: seq<NavLink>, ms: seq<NavLink>, current: Option<string>)
    requires |ls| == |ms|
    requires forall k :: 0 <= k < |ls| ==> ls[k].href == ms[k].href
    requires forall k :: 0 <= k < |ls| ==> ls[k].href.Some?
    ensures MarkLinks(ls, current) == MarkLinks(ms, current)
  {
    if ls != [] {
      MarkLinksIgnoresPriorState(ls[1..], ms[1..], current);
    }
  }

  /** Marking twice with the same `current` leaves the links as marking once
      does, also when a link without an href stops the loop. */
  lemma {:induction false} MarkLinksIdempotent(ls: seq<NavLink>, current: Option<string>)
    ensures MarkLinks(MarkLinks(ls, current), current) == MarkLinks(ls, current)
  {
    if ls != [] && ls[0].href.Some? {
      MarkLinksIdempotent(ls[1..], current);
      var once := MarkLinks(ls, current);
      assert once[1..] == MarkLinks(ls[1..], current);
    }
  }

  /** `setActiveNav` run twice on one snapshot leaves the links as running
      it once does: the scan reads only the unchanged sections. */
  lemma SetActiveNavIdempotent(ss: seq<Section>, ls: seq<NavLink>, scrollY: real)
    ensures var once := MarkLinks(ls, ActiveId(ss, scrollY));
            MarkLinks(once, ActiveId(ss, scrollY)) == once
  {
    MarkLinksIdempotent(ls, ActiveId(ss, scrollY));
  }

  /** When the fragments of the links are pairwise distinct, at most one link
      is "active" after marking. */
  lemma AtMostOneActive(ls: seq<NavLink>, current: Option<string>)
    requires forall k :: 0 <= k < |ls| ==> ls[k].href.Some?
    requires forall j, k :: 0 <= j < k < |ls| ==>
      Fragment(ls[j].href.value) != Fragment(ls[k].href.value)
    ensures forall j, k :: 0 <= j < |ls| && 0 <= k < |ls| ==>
      (MarkLinks(ls, current)[j].active && MarkLinks(ls, current)[k].active ==> j == k)
  {
    ActiveExactlyWhenMatching(ls, current);
  }

  /** `current` is the id of the last qualifying section: every later section
      fails the threshold, and a later qualifying section overrides any
      earlier one. */
  lemma ActiveIdIsLastQualifying(ss: seq<Section>, scrollY: real, r: int)
    requires 0 <= r < |ss| && Qualifies(ss[r], scrollY)
    requires forall k :: r < k < |ss| ==> !Qualifies(ss[k], scrollY)
    ensures LastQualifying(ss, scrollY) == r
    ensures ActiveId(ss, scrollY) == ss[r].id
  {
  }

  /** No section qualifies exactly when the scan chooses none, and then
      `current` keeps its initial value, the empty string. */
  lemma ActiveIdNoneQualifies(ss: seq<Section>, scrollY: real)
    ensures (forall k :: 0 <= k < |ss| ==> !Qualifies(ss[k], scrollY)) <==> LastQualifying(ss, scrollY) == -1
    ensures LastQualifying(ss, scrollY) == -1 ==> ActiveId(ss, scrollY) == Some("")
  {
    var r := LastQualifying(ss, scrollY);
    if r >= 0 {
      assert Qualifies(ss[r], scrollY);
    }
  }

  /** With nothing qualifying, a link whose href is "#" is the one that
      becomes "active", and a link whose fragment is not empty is not. */
  lemma HashLinkActiveWhenNoneQualifies(ss: seq<Section>, ls: seq<NavLink>, scrollY: real, k: int)
    requires forall j :: 0 <= j < |ss| ==> !Qualifies(ss[j], scrollY)
    requires 0 <= k < |ls|
    requires forall j :: 0 <= j <= k ==> ls[j].href.Some?
    ensures ls[k].href == Some("#") ==> MarkLinks(ls, ActiveId(ss, scrollY))[k].active
    ensures Fragment(ls[k].href.value) != "" ==> !MarkLinks(ls, ActiveId(ss, scrollY))[k].active
  {
    ActiveIdNoneQualifies(ss, scrollY);
    MarkLinksAt(ls, ActiveId(ss, scrollY));
    assert k <= FirstMissingHref(ls);
  }

  /** Scrolling further down never moves the chosen section to an earlier
      one: the set of qualifying sections only grows. */
  lemma LastQualifyingMonotone(ss: seq<Section>, y1: real, y2: real)
    requires y1 <= y2
    ensures forall k :: 0 <= k < |ss| && Qualifies(ss[k], y1) ==> Qualifies(ss[k], y2)
    ensures LastQualifying(ss, y1) <= LastQualifying(ss, y2)
  {
    var r1 := LastQualifying(ss, y1);
    if r1 >= 0 {
      assert Qualifies(ss[r1], y2);
    }
  }

  /** Sections laid out top to bottom (offsets not decreasing). */
  predicate LaidOutInOrder(ss: seq<Section>)
  {
    forall i, j :: 0 <= i <= j < |ss| ==> ss[i].offsetTop <= ss[j].offsetTop
  }

  /** When the offsets follow document order, the qualifying sections are
      exactly those up to the chosen one, so a scan from the top that stops
      before the first section that does not qualify picks the same one. */
  lemma QualifyingIsPrefix(ss: seq<Section>, scrollY: real)
    requires LaidOutInOrder(ss)
    ensures forall k :: 0 <= k < |ss| ==>
      (Qualifies(ss[k], scrollY) <==> k <= LastQualifying(ss, scrollY))
  {
    var r := LastQualifying(ss, scrollY);
    forall k | 0 <= k <= r
      ensures Qualifies(ss[k], scrollY)
    {
      assert ss[k].offsetTop <= ss[r].offsetTop;
    }
  }

  /** Three sections "intro", "work" and "contact" at offsets 0, 1000 and
      2000, scrolled to 900: "work" qualifies (1000 - 150 <= 900) after
      "intro", so it wins. */
  lemma ThreeSectionsScenario()
    ensures ActiveId([Section(Some("intro"), 0, 0.0, false),
                      Section(Some("work"), 1000, 0.0, false),
                      Section(Some("contact"), 2000, 0.0, false)], 900.0) == Some("work")
  {
    var ss := [Section(Some("intro"), 0, 0.0, false),
               Section(Some("work"), 1000, 0.0, false),
               Section(Some("contact"), 2000, 0.0, false)];
    assert !Qualifies(ss[2], 900.0) && Qualifies(ss[1], 900.0);
    ActiveIdIsLastQualifying(ss, 900.0, 1);
  }
}
