/** The presenter's navigation state machine: the pair (current slide index,
    current reveal step) and the three ways it changes — advance, retreat
    and jump. The transitions are first given as functions on a `Position`
    value, which the lemmas reason about; the `Presenter` class then holds
    the two mutable cells and updates them in place, each method proved to
    perform exactly the corresponding transition. */
module Navigation {
  import opened Deck

  datatype Position = Position(slide: int, step: int)

  /** Where a presentation starts: first slide, nothing revealed. */
  const First := Position(0, 0)

  /** Last slide, fully revealed. */
  const Last := Position(|Slides| - 1, Slides[|Slides| - 1].steps)

  /** The state invariant: the slide index names a slide of the deck and
      the step lies between 0 and that slide's step count. */
  predicate InDeck(p: Position) {
    InRange(p.slide) && 0 <= p.step <= Slides[p.slide].steps
  }

  /** `p` comes strictly before `q` in presentation order. */
  predicate Before(p: Position, q: Position) {
    p.slide < q.slide || (p.slide == q.slide && p.step < q.step)
  }

  /** Slide shown after `slide` is fully revealed: the questions hub
      (index 1) skips the two detour slides and continues at index 4. */
  function NextIndex(slide: int): int {
    if slide == 1 then 4 else slide + 1
  }

  /** Slide shown before `slide`: the mirror image of NextIndex. */
  function PrevIndex(slide: int): int {
    if slide == 4 then 1 else slide - 1
  }

  /** Advance (`nextAction`): reveal one more step, or at the end of a slide
      enter the following slide at step 0; at the very end nothing changes. */
  function Next(p: Position): (r: Position)
    requires InDeck(p)
    ensures InDeck(r)
    ensures r == p <==> p == Last
    ensures r != p ==> Before(p, r)
  {
    if p.step < Slides[p.slide].steps then Position(p.slide, p.step + 1)
    else if p.slide < |Slides| - 1 then Position(NextIndex(p.slide), 0)
    else p
  }

  /** Retreat (`prevAction`): hide one step, or at step 0 enter the previous
      slide fully revealed; at the very start nothing changes. */
  function Prev(p: Position): (r: Position)
    requires InDeck(p)
    ensures InDeck(r)
    ensures r == p <==> p == First
    ensures r != p ==> Before(r, p)
  {
    if p.step > 0 then Position(p.slide, p.step - 1)
    else if p.slide > 0 then
      var j := PrevIndex(p.slide);
      Position(j, Slides[j].steps)
    else p
  }

  /** Jump (`goToSlide`): the target slide with nothing revealed. */
  function GoTo(index: int): (r: Position)
    requires InRange(index)
    ensures InDeck(r) && r.step == 0
  {
    Position(index, 0)
  }

  // ---------------------------------------------------------------------
  // Single transitions

  /** Within a slide, advancing reveals exactly one more step. */
  lemma NextWithinSlide(p: Position)
    requires InDeck(p) && p.step < Slides[p.slide].steps
    ensures Next(p) == Position(p.slide, p.step + 1)
  {
  }

  /** At the end of a slide other than the last, advancing enters the next
      slide at step 0, except that the questions hub continues at index 4. */
  lemma NextAtSlideEnd(p: Position)
    requires InDeck(p) && p.step == Slides[p.slide].steps && p.slide < |Slides| - 1
    ensures Next(p) == Position(if p.slide == 1 then 4 else p.slide + 1, 0)
  {
  }

  /** At the last step of the last slide advancing is a no-op, once or
      twice; `AdvancingAtEndStays` extends this to any number of advances. */
  lemma NextAtEndIdempotent()
    ensures Next(Last) == Last && Next(Next(Last)) == Last
  {
  }

  /** Within a slide, retreating hides exactly one step. */
  lemma PrevWithinSlide(p: Position)
    requires InDeck(p) && p.step > 0
    ensures Prev(p) == Position(p.slide, p.step - 1)
  {
  }

  /** At step 0 of a slide other than the first, retreating enters the
      previous slide fully revealed, except that index 4 returns to the
      questions hub (index 1), whose step count is 3. */
  lemma PrevAtSlideStart(p: Position)
    requires InDeck(p) && p.step == 0 && p.slide > 0
    ensures p.slide == 4 ==> Prev(p) == Position(1, 3)
    ensures p.slide != 4 ==> Prev(p) == Position(p.slide - 1, Slides[p.slide - 1].steps)
  {
  }

  /** At the very start retreating is a no-op. */
  lemma PrevAtStartIdempotent()
    ensures Prev(First) == First && Prev(Prev(First)) == First
  {
  }

  /** A jump lands at step 0 of its target whatever the state before it. */
  lemma GoToIgnoresOrigin(p: Position, index: int)
    requires InDeck(p) && InRange(index)
    ensures Apply(p, Jump(index)) == Position(index, 0)
  {
  }

  // ---------------------------------------------------------------------
  // Undo

  /** Retreating undoes an advance everywhere except at the very end (where
      the advance did nothing) and at the end of slide 3 (the advance goes to
      slide 4, whose retreat goes to the questions hub instead). */
  lemma PrevUndoesNext(p: Position)
    requires InDeck(p)
    ensures Prev(Next(p)) == p <==> p != Last && p != Position(3, 4)
  {
  }

  /** Advancing undoes a retreat everywhere except at the very start (where
      the retreat did nothing) and at step 0 of slide 2 (the retreat goes to
      the questions hub, whose advance skips to slide 4). */
  lemma NextUndoesPrev(p: Position)
    requires InDeck(p)
    ensures Next(Prev(p)) == p <==> p != First && p != Position(2, 0)
  {
  }

  /** The two round trips around the skip: from (4, 0) retreat then
      advance comes back, from (2, 0) it ends at (4, 0) because of the skip. */
  lemma RoundTripsAroundSkip()
    ensures Next(Prev(Position(4, 0))) == Position(4, 0)
    ensures Next(Prev(Position(2, 0))) == Position(4, 0)
  {
  }

  // ---------------------------------------------------------------------
  // Sequences of user actions

  /** One user action: a forward key, space or background click; a backward
      key; or a click on a progress dot or an in-slide link. */
  datatype Action = Forward | Backward | Jump(target: int)

  /** Every jump in `actions` names a slide of the deck. */
  predicate JumpsInRange(actions: seq<Action>) {
    forall i :: 0 <= i < |actions| && actions[i].Jump? ==> InRange(actions[i].target)
  }

  /** No action in `actions` is a jump. */
  predicate Linear(actions: seq<Action>) {
    forall i :: 0 <= i < |actions| ==> !actions[i].Jump?
  }

  function Apply(p: Position, a: Action): (r: Position)
    requires InDeck(p) && (a.Jump? ==> InRange(a.target))
    ensures InDeck(r)
  {
    match a
    case Forward => Next(p)
    case Backward => Prev(p)
    case Jump(k) => GoTo(k)
  }

  /** The state after performing `actions` in order from `p`; the state
      invariant holds after any such sequence. */
  function Run(p: Position, actions: seq<Action>): (r: Position)
    requires InDeck(p) && JumpsInRange(actions)
    ensures InDeck(r)
    decreases |actions|
  {
    if actions == [] then p else Run(Apply(p, actions[0]), actions[1..])
  }

  /** The two detour slides (indices 2 and 3) are never entered by advancing
      and retreating: only a jump reaches them. */
  predicate OffDetour(p: Position) {
    p.slide != 2 && p.slide != 3
  }

  lemma {:induction false} LinearNavigationSkipsDetour(p: Position, actions: seq<Action>)
    requires InDeck(p) && OffDetour(p) && Linear(actions)
    ensures OffDetour(Run(p, actions))
    decreases |actions|
  {
    if actions != [] {
      var q := Apply(p, actions[0]);
      assert OffDetour(q);
      assert Linear(actions[1..]) by {
        forall i | 0 <= i < |actions[1..]| ensures !actions[1..][i].Jump? {
          assert actions[1..][i] == actions[i + 1];
        }
      }
      LinearNavigationSkipsDetour(q, actions[1..]);
    }
  }

  /** Opening walk-through: eight advances from the start reveal the title
      slide (three steps), move to the questions hub, reveal it and then skip
      straight to slide index 4. */
  lemma OpeningWalkThrough()
    ensures Run(First, [Forward, Forward, Forward, Forward]) == Position(1, 0)
    ensures Run(First, [Forward, Forward, Forward, Forward, Forward, Forward, Forward, Forward]) == Position(4, 0)
  {
  }

  /** Performing one more action appends one transition. */
  lemma {:induction false} RunSnoc(p: Position, actions: seq<Action>, a: Action)
    requires InDeck(p) && JumpsInRange(actions + [a])
    ensures JumpsInRange(actions) && (a.Jump? ==> InRange(a.target))
    ensures Run(p, actions + [a]) == Apply(Run(p, actions), a)
    decreases |actions|
  {
    assert JumpsInRange(actions) by {
      forall i | 0 <= i < |actions| && actions[i].Jump? ensures InRange(actions[i].target) {
        assert (actions + [a])[i] == actions[i];
      }
    }
    assert (actions + [a])[|actions|] == a;
    if actions == [] {
      assert [a][1..] == [];
    } else {
      assert (actions + [a])[0] == actions[0];
      assert (actions + [a])[1..] == actions[1..] + [a];
      RunSnoc(Apply(p, actions[0]), actions[1..], a);
    }
  }

  /** Every action in `actions` is an advance. */
  predicate OnlyForward(actions: seq<Action>) {
    forall i :: 0 <= i < |actions| ==> actions[i] == Forward
  }

  /** However many advances follow, the end of the deck stays put. */
  lemma {:induction false} AdvancingAtEndStays(actions: seq<Action>)
    requires OnlyForward(actions)
    ensures JumpsInRange(actions) && Run(Last, actions) == Last
    decreases |actions|
  {
    if actions != [] {
      assert actions[0] == Forward;
      NextAtEndIdempotent();
      assert OnlyForward(actions[1..]) by {
        forall i | 0 <= i < |actions[1..]| ensures actions[1..][i] == Forward {
          assert actions[1..][i] == actions[i + 1];
        }
      }
      AdvancingAtEndStays(actions[1..]);
    }
  }

  // ---------------------------------------------------------------------
  // The mutable state

  /** The component's two state cells, `currentSlide` and `currentStep`. */
  class Presenter {
    var currentSlide: int
    var currentStep: int

    function State(): Position
      reads this
    {
      Position(currentSlide, currentStep)
    }

    ghost predicate Valid()
      reads this
    {
      InDeck(State())
    }

    /** Both cells start at 0. */
    constructor ()
      ensures Valid() && State() == First
    {
      currentSlide := 0;
      currentStep := 0;
    }

    method NextAction()
      requires Valid()
      modifies this
      ensures Valid()
      ensures State() == Next(old(State()))
    {
      var s := Slides[currentSlide];
      if currentStep < s.steps {
        currentStep := currentStep + 1;
      } else if currentSlide < |Slides| - 1 {
        var nextIndex := currentSlide + 1;
        if currentSlide == 1 {
          nextIndex := 4;
        }
        currentSlide := nextIndex;
        currentStep := 0;
      }
    }

    method PrevAction()
      requires Valid()
      modifies this
      ensures Valid()
      ensures State() == Prev(old(State()))
    {
      if currentStep > 0 {
        currentStep := currentStep - 1;
      } else if currentSlide > 0 {
        var prevIndex := currentSlide - 1;
        if currentSlide == 4 {
          prevIndex := 1;
        }
        var prevSlide := Slides[prevIndex];
        currentSlide := prevIndex;
        currentStep := prevSlide.steps;
      }
    }

    /** Jumping needs no prior invariant: both cells are overwritten. */
    method GoToSlide(index: int)
      requires InRange(index)
      modifies this
      ensures Valid()
      ensures currentSlide == index && currentStep == 0
    {
      currentSlide := index;
      currentStep := 0;
    }
  }
}
