/** The lesson's slide catalogue, reduced to what navigation reads from it:
    each slide's display id, its number of reveal steps, the slides its
    question entries link to and the slide its "Back to Menu" control
    returns to. Text, images, icons, vocabulary and colour themes are
    presentation only and are not represented. */
module Deck {
  import opened Wrappers

  /** One slide: `steps` is the highest reveal step (0 = nothing revealed,
      `steps` = fully revealed); `links` are the jump targets of its
      question entries; `returnTo` is the jump target of its back control. */
  datatype Slide = Slide(id: nat, steps: nat, links: seq<int>, returnTo: Option<int>)

  function Plain(id: nat, steps: nat): Slide {
    Slide(id, steps, [], None)
  }

  /** The deck, in presentation order (slide index i has id i + 1). */
  const Slides: seq<Slide> := [
    Plain(1, 3),                        // title
    Slide(2, 3, [2, 3], None),          // "Think & Share" questions hub
    Slide(3, 4, [], Some(1)),           // detour: big vs. small
    Slide(4, 4, [], Some(1)),           // detour: small but strong
    Plain(5, 3),  Plain(6, 3),  Plain(7, 4),  Plain(8, 4),
    Plain(9, 3),  Plain(10, 4), Plain(11, 4), Plain(12, 3),
    Plain(13, 4), Plain(14, 4), Plain(15, 3), Plain(16, 4),
    Plain(17, 4), Plain(18, 8), Plain(19, 9), Plain(20, 9),
    Plain(21, 3), Plain(22, 3), Plain(23, 3), Plain(24, 3),
    Plain(25, 5)                        // summary
  ]

  /** `slides.length` of the deck. */
  function Count(): (n: nat)
    ensures n == 25
  {
    |Slides|
  }

  /** `index` names a slide of the deck. */
  predicate InRange(index: int) {
    0 <= index < |Slides|
  }

  /** The jump targets stored in the deck, the question links and the
      back-control targets, name slides of the deck. The progress-bar dots
      pass their own index, one dot per slide, so they are in range by
      construction (see `Count`). */
  lemma JumpTargetsInRange()
    ensures forall i, j :: 0 <= i < |Slides| && 0 <= j < |Slides[i].links| ==> InRange(Slides[i].links[j])
    ensures forall i :: 0 <= i < |Slides| && Slides[i].returnTo.Some? ==> InRange(Slides[i].returnTo.value)
  {
  }

  /** Ids are dense and 1-based, and every slide has at least one step. */
  lemma DeckShape()
    ensures |Slides| == 25
    ensures forall i :: 0 <= i < |Slides| ==> Slides[i].id == i + 1 && Slides[i].steps > 0
  {
  }
}
