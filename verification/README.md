# Portfolio slideshow controller — a Dafny model

This project models the control logic of the portfolio section of the
project-forge site (`src/components/PortfolioSection.tsx`). The section
shows a fixed catalog of six projects in one of two ways, chosen by the
`useIsMobile` mode signal:

- **mobile**: a single-card slideshow. A `currentIndex` cursor starts at 0.
  An interval registered by a mode-dependent effect advances it with
  `(prev + 1) % projects.length`. One dot button per project sets the cursor
  to the dot's own index. `index === currentIndex` decides both which card is
  visible and which dot is highlighted;
- **otherwise**: a marquee of `[...projects, ...projects]`, keyed by
  `${id}-${index}`.

The model is functional. The component state is an immutable record
`State(cursor, mobile, interval, created)`. Every interval the effect
registers gets a fresh handle, so "the interval was cleared" can be stated
and checked. Events are `Tick(handle)`, `Select(index)` and
`ModeChange(mobile)`. `Enabled` says which events can happen in a state: a
dot click only in mobile mode and only for a catalog index, because the dot
buttons exist only there. `ValidTrace` requires every event of a sequence to
be enabled when it arrives. Pure functions `Fire`, `SelectIndex` and `SetMode`
handle them, and `Run` folds them in arrival order. Rendering is a pure
function from the catalog and the state to a `View`.

Modules:

- `Cursor` (`cursor.dfy`): the advance step, iterated advance, the full
  cycle, and the closed form `(c + k) mod n`.
- `Keys` (`keys.dfy`): decimal rendering of numbers as a template literal
  does, a parser for it with a round-trip proof, and the marquee key
  `${id}-${index}` with a parser that reads both numbers back from it.
- `Catalog` (`catalog.dfy`): the project record, reduced to its id, and the
  six-project catalog.
- `Slideshow` (`slideshow.dfy`): component state, effect, interval, events,
  and invariants over event traces.
- `Portfolio` (`portfolio.dfy`): the rendered views, the active-item
  predicate, the doubled marquee list and key uniqueness.

A mode switch leaves the cursor as it is.

## Model

| member | source | states |
|---|---|---|
| Cursor.Advance | src/components/PortfolioSection.tsx:63 | One advance stays inside the catalog. It moves to the next index, and from the last index it wraps to 0. |
| Cursor.AdvanceN | src/components/PortfolioSection.tsx:62-64 | The cursor after k consecutive interval ticks. It is below n once at least one tick has happened or the start was in range. Its closed forms are the next rows. |
| Cursor.AdvanceNWithinLap | src/components/PortfolioSection.tsx:62-64 | Within one lap (k ≤ n), k advances from c give c + k, wrapped once past n. |
| Cursor.FullCycle | src/components/PortfolioSection.tsx:62-64 | From any valid cursor, n consecutive advances return to the starting index. |
| Cursor.LapVisitsEachIndexOnce | src/components/PortfolioSection.tsx:62-64 | The n cursor values of one lap are pairwise distinct. Every index t is reached after TicksBetween(c, t) < n advances. So each project is shown exactly once per lap. |
| Cursor.AdvanceNIsModularSum | src/components/PortfolioSection.tsx:63 | Reference definition: after any number k of advances from c, the cursor is (c + k) mod n. |
| Cursor.AdvanceNAdditive | src/components/PortfolioSection.tsx:62-64 | a advances followed by b advances equal a + b advances. |
| Keys.Decimal | src/components/PortfolioSection.tsx:150 | How the template literal writes a number: at least one decimal digit, all digits, and a leading 0 only for the number 0. |
| Keys.ParseDecimalOfDecimal | src/components/PortfolioSection.tsx:150 | Reading the decimal text of a number back gives the number (round trip). |
| Keys.DecimalInjective | src/components/PortfolioSection.tsx:150 | Distinct numbers render as distinct decimal strings. |
| Keys.MarqueeKey | src/components/PortfolioSection.tsx:150 | Splitting the key `${id}-${index}` at its first dash and reading both sides as decimal numbers gives back exactly the id and the position. |
| Keys.MarqueeKeyInjective | src/components/PortfolioSection.tsx:150 | Two keys `${id}-${index}` are equal if and only if both the ids and the positions are equal. |
| Catalog.ProjectsShape | src/components/PortfolioSection.tsx:9-52 | The catalog has six projects and position i holds id i + 1. So it is non-empty and its ids are distinct. |
| Catalog.IdDeterminesPosition | src/components/PortfolioSection.tsx:9-52 | With distinct ids, two catalog positions hold the same id if and only if they are the same position. |
| Slideshow.RunEffect | src/components/PortfolioSection.tsx:59-64 | The effect registers an interval exactly in mobile mode. The new handle is fresh. The cursor and mode are untouched. |
| Slideshow.Mount | src/components/PortfolioSection.tsx:55-64 | At mount the cursor is 0, the mode is the signal's value, and the invariant holds for every non-empty catalog. |
| Slideshow.SetMode | src/components/PortfolioSection.tsx:59-67 | A mode change never alters the cursor. An unchanged mode changes nothing, because the effect depends only on the mode. Leaving mobile clears the interval. Entering mobile registers a fresh interval. |
| Slideshow.Fire | src/components/PortfolioSection.tsx:62-64 | A tick of the registered interval advances the cursor with wrap-around. A tick of any other handle changes nothing. The mode and the interval never change. |
| Slideshow.SelectIndex | src/components/PortfolioSection.tsx:127-130 | A dot click sets the cursor to exactly its index. The mode, the interval and the handle counter are unchanged, so the timer is not restarted. |
| Slideshow.Step | src/components/PortfolioSection.tsx:59-130 | One enabled event, handled by `Fire`, `SelectIndex` or `SetMode`. A mode change keeps the cursor and sets the mode. Ticks and clicks keep the mode and the interval. A cursor in range stays in range. |
| Slideshow.Run | src/components/PortfolioSection.tsx:59-130 | Applies a sequence of enabled events with `Step`, first event first. Its properties are `RunPreservesInv`, `TicksAdvance` and `DesktopStateFrozen`. |
| Slideshow.StepPreservesInv | src/components/PortfolioSection.tsx:56-67 | Every event enabled in the current state preserves the invariant: cursor in range, interval present iff mobile, and its handle was issued. |
| Slideshow.RunPreservesInv | src/components/PortfolioSection.tsx:56-67 | Every sequence of enabled events preserves the invariant. |
| Slideshow.CursorAlwaysInRange | src/components/PortfolioSection.tsx:56-64 | From mount, after any sequence of enabled events, the cursor is within [0, n). |
| Slideshow.TicksAdvance | src/components/PortfolioSection.tsx:62-64 | k ticks of the registered interval can always arrive, advance the cursor k times and change nothing else. |
| Slideshow.TicksFullCycle | src/components/PortfolioSection.tsx:62-64 | In mobile mode, n ticks return the whole state to where it started. |
| Slideshow.SelectKeepsTimer | src/components/PortfolioSection.tsx:62-67 | In mobile mode, after a dot click on i, the same interval keeps ticking, and k ticks put the cursor at k advances from i. |
| Slideshow.LeavingMobileStopsTicks | src/components/PortfolioSection.tsx:59-67 | After the mode turns off, no tick of any handle changes the state. |
| Slideshow.ReenteringMobileReplacesInterval | src/components/PortfolioSection.tsx:59-67 | Turning the mode off and on keeps the cursor and replaces the interval. Late ticks of the cleared interval are inert. |
| Slideshow.DesktopStateFrozen | src/components/PortfolioSection.tsx:83-141 | Outside mobile mode there are no dot buttons, because they are rendered only in the mobile branch. There is also no interval (line 60). So while the mode stays off, every enabled event sequence leaves the state, and the cursor, unchanged. |
| Portfolio.IsActive | src/components/PortfolioSection.tsx:90 | The `index === currentIndex` test. The same predicate picks the visible card (line 90) and the highlighted dot (line 132). |
| Portfolio.SlideCards | src/components/PortfolioSection.tsx:86-93 | One card per catalog project, in catalog order, keyed by the project id. A card is visible exactly when `IsActive` holds for its index (see `ExactlyOneActive`). |
| Portfolio.DotButtons | src/components/PortfolioSection.tsx:127-135 | One dot per catalog index. Dot i is keyed i, selects i and is highlighted exactly when `IsActive` holds (see `DotKeysUnique`, `ExactlyOneActive`). |
| Portfolio.Render | src/components/PortfolioSection.tsx:83-150 | The section is the slideshow exactly in mobile mode and the marquee otherwise. The slideshow has one card and one dot per project; the marquee has 2n cards. |
| Portfolio.Doubled | src/components/PortfolioSection.tsx:148 | The marquee list has length 2n, and its element i is catalog[i mod n]. |
| Portfolio.MarqueeCards | src/components/PortfolioSection.tsx:148-150 | The marquee has 2n cards, and card i shows project i mod n. |
| Portfolio.ExactlyOneActive | src/components/PortfolioSection.tsx:86-135 | For a cursor in range, the set of visible cards and the set of highlighted dots are both exactly {cursor}. |
| Portfolio.MobileViewAgreesWithCursor | src/components/PortfolioSection.tsx:83-93 | In every mobile state satisfying the invariant, the rendered slideshow shows one card and highlights one dot, both at the cursor. |
| Portfolio.ClickingDotShowsItsCard | src/components/PortfolioSection.tsx:127-135 | The rendered dot i can be clicked, and clicking it makes card i the only visible card and dot i the only highlighted dot. |
| Portfolio.MarqueeIgnoresCursor | src/components/PortfolioSection.tsx:141-150 | Outside mobile mode the view is the marquee, whatever the cursor is. |
| Portfolio.SlideKeysUnique | src/components/PortfolioSection.tsx:86-88 | Slideshow card keys (the project ids) are pairwise distinct when the catalog's ids are. |
| Portfolio.DotKeysUnique | src/components/PortfolioSection.tsx:127-130 | Dot keys are pairwise distinct, and dot i selects index i. |
| Portfolio.MarqueeKeysUnique | src/components/PortfolioSection.tsx:148-150 | The 2n marquee keys are pairwise distinct, although every project appears twice. |
| Portfolio.MarqueeShowsEachProjectTwice | src/components/PortfolioSection.tsx:148 | With distinct ids, project p appears at marquee position i if and only if i = p or i = p + n. |
| Portfolio.SixProjectTicks | src/components/PortfolioSection.tsx:56-64 | With the six-project catalog, from mount, three ticks give cursor 3, five give 5, and six give 0. |
| Portfolio.SixProjectMarquee | src/components/PortfolioSection.tsx:9-52 | The six-project marquee has 12 cards, and card i shows id (i mod 6) + 1. |

## Left out

- Markup, Tailwind classes, CSS transitions, the `animate-marquee-slow` animation and its hover pause. They are presentation only.
- Project titles, descriptions, images and tags. They are content; a project is reduced to its numeric id.
- The `useIsMobile` hook. It is an external collaborator, and its value arrives as `ModeChange` events.
- The 5000 ms period and the wall-clock behaviour of `setInterval`/`clearInterval`. Time is a discrete `Tick(handle)` event. A cleared interval is modelled as one whose ticks have no effect.
- React's batching and scheduling of state updates and effects. Events are processed one at a time, in order.
- Unmounting. After teardown no events arrive, so there is nothing to model.
- Keys.Decimal: renders every natural number as plain decimal digits. JavaScript switches to exponent notation from 10^21 on; ids and positions here are below 13.
- Portfolio.SlideCards and Portfolio.DotButtons: their own contracts state only the shapes. Which entry is visible or highlighted, and the keys, are stated by `ExactlyOneActive`, `SlideKeysUnique` and `DotKeysUnique`.
- An empty catalog. `projects.length` is the constant 6, so every cursor operation (`Advance`, `AdvanceN`, `Fire`, `Step`, `Run`) requires n ≥ 1. The rendering functions accept any catalog.
