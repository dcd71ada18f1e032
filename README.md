# In One Cubic Foot — navigation and highlighting model

This project models the logic of the lesson presentation "In One Cubic Foot",
a single-page slide deck whose content is revealed step by step. The page
(`src/app/page.tsx`) keeps two pieces of state, the current slide index and
the current reveal step. Three handlers change them: `nextAction` (forward
keys, space, background click, the "next" button), `prevAction` (backward
keys, the "prev" button) and `goToSlide` (progress-bar dots, question links,
"Back to Menu"). A helper, `highlightText`, marks vocabulary words in prose.

- `wrappers.dfy` (module `Wrappers`): the `Option` type both other modules use.
- `deck.dfy` (module `Deck`): the constant 25-slide catalogue, reduced to each
  slide's id, step count, question links and `returnTo` target.
- `navigation.dfy` (module `Navigation`): the transitions as functions on a
  `Position` value (`Next`, `Prev`, `GoTo`), their properties, runs of user
  actions, and the class `Presenter`. The class holds `currentSlide` and
  `currentStep` and updates them in place. Each of its methods is proved to
  perform exactly the corresponding transition and to keep the state
  invariant.
- `highlight.dfy` (module `Highlight`): `text.split(/(w1|w2|…)/gi)` as a
  left-to-right scan (`Split`), the `some`-based emphasis marking (`Mark`) and
  `HighlightText`, with the lossless and alternation properties.

Two behaviours of the code are worth stating up front:
- The forward/backward skip (slide index 1 ↔ 4) is hard-coded in the
  handlers, not read from the deck. The model hard-codes it too
  (`NextIndex`, `PrevIndex`).
- `goToSlide` has no bounds check. The model states the range as a
  precondition of `GoTo` and `Presenter.GoToSlide`, and
  `Deck.JumpTargetsInRange` shows that every link and back target stored in
  the deck is in range. The progress-bar dots pass their own index, one dot
  per slide, so they are in range by construction.

## Model

| member | source | states |
|---|---|---|
| Deck.Count | src/app/page.tsx:64-430 | the deck has 25 slides, so the progress bar's 25 dots (lines 833-838, one per slide, each passing its own index) all name slides of the deck |
| Deck.DeckShape | src/app/page.tsx:64-430 | ids are 1..25 in order and every slide has at least one step |
| Deck.JumpTargetsInRange | src/app/page.tsx:76-115 | every question link (lines 80-81) and every `returnTo` target (lines 99, 114) names a slide of the deck |
| Navigation.Next | src/app/page.tsx:466-476 | advancing keeps the state invariant, changes nothing exactly at the last slide's last step, and otherwise moves strictly forward in deck order |
| Navigation.Prev | src/app/page.tsx:478-488 | retreating keeps the state invariant, changes nothing exactly at (0, 0), and otherwise moves strictly backward in deck order |
| Navigation.GoTo | src/app/page.tsx:490-493 | a jump to a slide of the deck lands on a valid state with step 0 |
| Navigation.NextWithinSlide | src/app/page.tsx:468-469 | below a slide's step count, advancing adds one step on the same slide |
| Navigation.NextAtSlideEnd | src/app/page.tsx:470-474 | at a slide's last step (not the last slide), advancing enters the next slide at step 0, and from index 1 it enters index 4 |
| Navigation.NextAtEndIdempotent | src/app/page.tsx:470-475 | at the last slide's last step, advancing once or twice leaves the state unchanged |
| Navigation.PrevWithinSlide | src/app/page.tsx:479-480 | above step 0, retreating removes one step on the same slide |
| Navigation.PrevAtSlideStart | src/app/page.tsx:481-486 | at step 0 (not the first slide), retreating enters the previous slide fully revealed, and from index 4 it enters (1, 3) |
| Navigation.AdvancingAtEndStays | src/app/page.tsx:466-476 | from the last slide's last step, any number of advances leaves the state unchanged |
| Navigation.PrevAtStartIdempotent | src/app/page.tsx:478-488 | at (0, 0), retreating once or twice leaves the state unchanged |
| Navigation.GoToIgnoresOrigin | src/app/page.tsx:490-493 | handling a jump to k from any valid state yields exactly (k, 0) |
| Navigation.PrevUndoesNext | src/app/page.tsx:466-488 | retreat undoes advance exactly when the state is neither the last slide's last step nor (3, 4), whose advance lands on slide 4 |
| Navigation.NextUndoesPrev | src/app/page.tsx:466-488 | advance undoes retreat exactly when the state is neither (0, 0) nor (2, 0), whose retreat lands on the hub that skips to 4 |
| Navigation.RoundTripsAroundSkip | src/app/page.tsx:466-488 | retreat then advance from (4, 0) returns to (4, 0); from (2, 0) it ends at (4, 0) |
| Navigation.Apply | src/app/page.tsx:495-838 | one forward or backward key (lines 495-502) or in-range jump click (question links at 576, back control at 606, progress dots at 838) keeps the state invariant |
| Navigation.Run | src/app/page.tsx:466-493 | the state invariant holds after any sequence of advances, retreats and in-range jumps |
| Navigation.RunSnoc | src/app/page.tsx:466-493 | handling one more event after a sequence applies exactly one more transition to the state the sequence reached |
| Navigation.LinearNavigationSkipsDetour | src/app/page.tsx:470-486 | starting off slides 2 and 3, no sequence of advances and retreats ever enters them; only jumps reach them |
| Navigation.OpeningWalkThrough | src/app/page.tsx:466-476 | from the start, four advances reach (1, 0) and eight reach (4, 0) |
| Navigation.Presenter.constructor | src/app/page.tsx:433-434 | both state cells start at 0 |
| Navigation.Presenter.NextAction | src/app/page.tsx:466-476 | updates the two cells in place to exactly `Next` of the old state and keeps the invariant |
| Navigation.Presenter.PrevAction | src/app/page.tsx:478-488 | updates the two cells in place to exactly `Prev` of the old state and keeps the invariant |
| Navigation.Presenter.GoToSlide | src/app/page.tsx:490-493 | sets the cells to (index, 0) from any prior state, invariant or not |
| Highlight.Lower | src/app/page.tsx:508 | lower-casing keeps the length and lower-cases each ASCII letter in place |
| Highlight.FirstMatch | src/app/page.tsx:506 | the alternation picks the first word in list order that matches, ignoring case, at the current position, or reports that none does |
| Highlight.Split | src/app/page.tsx:506 | the split has an odd number of pieces and its first piece is a prefix of the text |
| Highlight.Mark | src/app/page.tsx:507-511 | marking keeps every piece's text and the order of the pieces, and emphasises a piece exactly when it equals some word ignoring case |
| Highlight.SplitLossless | src/app/page.tsx:506 | joining the pieces gives back the text exactly, original casing included |
| Highlight.SplitPieces | src/app/page.tsx:506 | pieces at odd indices equal a word ignoring case; pieces at even indices contain no word anywhere |
| Highlight.SplitScans | src/app/page.tsx:506 | the split follows the scan at every position: each piece is the text at its offset, a plain piece covers only positions where no word matches, and each match is as long as the first word in list order that matches at its offset (leftmost match first, ties to the earlier word) |
| Highlight.ScannedIsSplit | src/app/page.tsx:506 | any odd number of pieces that join back into the text and are cut as the scan cuts is the split: the scan leaves no choice |
| Highlight.SplitIsTheScan | src/app/page.tsx:506 | pieces are the split of the text exactly when they are odd in number, join back into the text and are cut as the scan cuts |
| Highlight.MarkFollowsMatches | src/app/page.tsx:507-511 | marking pieces that alternate plain and match shows their text unchanged and emphasises a piece exactly when it is a match |
| Highlight.WordFreeIsNoWord | src/app/page.tsx:507-508 | a piece that contains no word fails the `some` equality test |
| Highlight.HighlightText | src/app/page.tsx:504-512 | empty text is returned unchanged; other text becomes the pieces of `Split`, in order, which show it exactly; a part is emphasised exactly when its text equals some word ignoring case, and that happens exactly at the odd indices, where the matches are |
| Highlight.RegionsExample | src/app/page.tsx:58-62 | with the default word list, "regions" splits into "", the match "region" and "s", so matches do not overlap and scanning resumes after a match |
| Highlight.FirstAlternativeWins | src/app/page.tsx:506 | with words [region, regions], "Regions" splits as "", "Region", "s": the earlier word wins and the casing is kept |
| Highlight.LongerAlternativeFirst | src/app/page.tsx:506 | with words [regions, region], "Regions" is matched whole |

## Left out

- Rendering: JSX, framer-motion animations, layout markup and the per-layout reveal gating (`currentStep >= k`). These only present the state.
- `getThemeColors` / `getTheme`: cosmetic maps from theme names to CSS class strings.
- The audio effect: starting and pausing an `HTMLAudioElement` is asynchronous browser I/O whose failures are swallowed.
- Keyboard listener registration, `stopPropagation` and other DOM event wiring. `Navigation.Action` stands for the event a handler receives.
- The progress-bar width: a floating-point percentage with no effect on the state.
- Slide content other than `steps`, question `link` and `returnTo`: text, icons, images and vocabulary.
- Navigation.GoTo: the code does not check the target, so a jump outside the deck would leave an invalid state; the model requires the target to be a slide of the deck. It proves that every link and back target stored in the deck is one. Progress-dot indices are one per slide, so they are in range by construction.
- Highlight.Split: models the JavaScript regular-expression engine only for literal words. It also requires a non-empty list with no empty word. Words containing regular-expression metacharacters are not modelled.
- Highlight.HighlightText: "emphasised exactly when it is a match" holds for the model's single ASCII folding. For non-ASCII text whose two foldings disagree (see the next line), the program can also emphasise a plain part.
- Highlight.Lower: folds ASCII letters only, not full Unicode `toLowerCase` or the regular-expression engine's case folding. This hides a place where the program's two foldings disagree. The `/i` flag never folds a non-ASCII character to an ASCII one, so "brea\u212A down" (with the Kelvin sign) is not a match. `toLowerCase` maps the Kelvin sign to "k", so the `some` test would still emphasise that plain part. The model treats the two as the same folding, so it does not show that a plain part can be emphasised.
- React's batching of `setCurrentSlide`/`setCurrentStep` into one render is modelled as one atomic update per handler call.
