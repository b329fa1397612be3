/** The reveal animator (`scrollReveal`): marks each section "in-view" while its
    top is above 80% of the viewport height, and unmarks it otherwise. */
module RevealAnimator {
  import opened Page

  /** `innerHeight * 0.8`, in exact arithmetic. */
  function TriggerBottom(innerHeight: int): (t: real)
    ensures 5.0 * t == 4.0 * innerHeight as real
  {
    innerHeight as real * 0.8
  }

  /** One step of the loop: "in-view" is added when the top is above the
      trigger line and removed otherwise. */
  function Reveal(s: Section, innerHeight: int): (r: Section)
    ensures r.inView <==> s.viewportTop < 0.8 * innerHeight as real
    ensures r.(inView := s.inView) == s
  {
    s.(inView := s.viewportTop < TriggerBottom(innerHeight))
  }

  /** The loop over all sections in order. */
  function RevealAll(ss: seq<Section>, innerHeight: int): (r: seq<Section>)
    ensures |r| == |ss|
    ensures forall k :: 0 <= k < |ss| ==> r[k] == Reveal(ss[k], innerHeight)
  {
    if ss == [] then [] else [Reveal(ss[0], innerHeight)] + RevealAll(ss[1..], innerHeight)
  }

  /** `scrollReveal`: toggles "in-view" on every section in place. */
  method ScrollReveal(sections: array<Section>, innerHeight: int)
    modifies sections
    ensures sections[..] == RevealAll(old(sections[..]), innerHeight)
  {
    var triggerBottom := TriggerBottom(innerHeight);
    for i := 0 to sections.Length
      invariant forall k :: 0 <= k < i ==> sections[k] == Reveal(old(sections[k]), innerHeight)
      invariant forall k :: i <= k < sections.Length ==> sections[k] == old(sections[k])
    {
      var sectionTop := sections[i].viewportTop;
      if sectionTop < triggerBottom {
        sections[i] := sections[i].(inView := true);
      } else {
        sections[i] := sections[i].(inView := false);
      }
    }
  }

  /** After the loop a section is "in-view" exactly when its top is above
      80% of the viewport height; its id and layout are untouched. */
  lemma RevealAllCharacterised(ss: seq<Section>, innerHeight: int)
    ensures |RevealAll(ss, innerHeight)| == |ss|
    ensures forall k :: 0 <= k < |ss| ==>
      (RevealAll(ss, innerHeight)[k].inView <==> ss[k].viewportTop < 0.8 * innerHeight as real)
    ensures forall k :: 0 <= k < |ss| ==>
      RevealAll(ss, innerHeight)[k].id == ss[k].id &&
      RevealAll(ss, innerHeight)[k].offsetTop == ss[k].offsetTop &&
      RevealAll(ss, innerHeight)[k].viewportTop == ss[k].viewportTop
  {
  }

  /** The outcome does not depend on the sections' prior "in-view" flags:
      a section scrolled back below the trigger line is unmarked again. */
  lemma RevealAllIgnoresPriorState(ss: seq<Section>, ts: seq<Section>, innerHeight: int)
    requires |ss| == |ts|
    requires forall k :: 0 <= k < |ss| ==> ss[k].(inView := false) == ts[k].(inView := false)
    ensures RevealAll(ss, innerHeight) == RevealAll(ts, innerHeight)
  {
  }

  /** Running the loop twice with no layout change leaves the sections as
      running it once does. */
  lemma RevealAllIdempotent(ss: seq<Section>, innerHeight: int)
    ensures RevealAll(RevealAll(ss, innerHeight), innerHeight) == RevealAll(ss, innerHeight)
  {
  }

  /** Each section is decided from its own top alone: changing one section
      changes no other section's outcome. */
  lemma RevealAllIsPointwise(ss: seq<Section>, j: int, s: Section, innerHeight: int)
    requires 0 <= j < |ss|
    ensures forall k :: 0 <= k < |ss| && k != j ==>
      RevealAll(ss[j := s], innerHeight)[k] == RevealAll(ss, innerHeight)[k]
  {
  }

  /** Scrolling down moves a section's top up, and a revealed section stays
      revealed; scrolling up may un-reveal it. */
  lemma RevealMonotone(s: Section, shift: real, innerHeight: int)
    requires shift >= 0.0
    requires Reveal(s, innerHeight).inView
    ensures Reveal(s.(viewportTop := s.viewportTop - shift), innerHeight).inView
  {
  }

  /** For a section whose top is a whole number of pixels, the threshold is
      the integer comparison `5 * top < 4 * innerHeight`. */
  lemma ScaledIntegerThreshold(s: Section, top: int, innerHeight: int)
    requires s.viewportTop == top as real
    ensures Reveal(s, innerHeight).inView <==> 5 * top < 4 * innerHeight
  {
  }
}
