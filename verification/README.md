# folio-site: a Dafny model of the portfolio's logic

folio-site is a four-page React portfolio. The pages are `/`, `/about`, `/projects` and `/contact`.
Most of it is declarative UI. This project models the pieces that carry logic:

- **`lumenColor`.** It lightens or darkens a hex colour. The input is read with `parseInt(_, 16)` and three bytes are shifted out. Each byte moves by `amount` and is clamped to 0..255. The result is printed back with `toString(16)`. Modules `Hex`, `JsNumber` and `Color` cover this.
- **`timeFromDate` and `yearsFromBirthday`.** They split a millisecond difference into 365-day years, days, hours, minutes and seconds. Module `Elapsed` covers them.
- **`fade` and `objectIf`.** Module `Motion` covers these two helpers.
- **The wheel-navigation hook.** Home, About, Contact and each project card carry the same copy of it. Module `ScrollNav` models it once, as one transition function parameterised by the page's two neighbours. Modules `HomePage`, `AboutPage`, `ProjectCard` and `ContactPage` instantiate it for each page. Module `Routes` holds the route cycle / → /about → /projects → /contact → /.
- **The small page state machines.** These are the home page's greeting rotation and delayed hint, the about page's puzzle popup, a project card's hover variant and background, and the contact page's link colours.
- **The palettes, the default theme and the layout identifiers.** Module `Themes` holds these constants.

Time enters the model as integer parameters: the `t` of each event, and `msDiff` for the elapsed-time functions. `navigate` is modelled as returning the route it asks for. React's effects and timers become the events of a state machine. The environment decides when those events happen:

- a mount;
- a wheel event;
- the reset timeout firing;
- the listener effect's cleanup.

The cleanup happens on unmount, and also on the re-render that follows every change of `scrolling`.

## Model

| member | source | states |
|---|---|---|
| Hex.ToHex | src/utils/utils.tsx:65 | `toString(16)` of a non-negative value is a non-empty lower-case hex string without a leading zero that reads back as the value |
| Hex.ToHexOfValue | src/utils/utils.tsx:65 | printing is the inverse of reading on canonical digit strings, so each value has exactly one canonical string |
| Hex.ToHexLength | src/utils/utils.tsx:65 | a value below 16^k prints in at most k digits, so a 24-bit colour prints in at most six |
| Hex.ValueOfBound | src/utils/utils.tsx:60 | k hex digits denote a value below 16^k |
| Hex.CanonicalZero | src/utils/utils.tsx:65 | the only canonical string of zero is "0" |
| Hex.SixDigitValue | src/utils/utils.tsx:60 | six digits denote the sum of each digit times its power of 16 |
| JsNumber.TrimStart | src/utils/utils.tsx:60 | `parseInt` first drops ECMAScript white space: every character dropped is white space, and the suffix left does not start with any |
| JsNumber.AfterSign | src/utils/utils.tsx:60 | a leading '-' or '+' is consumed; any other text is kept whole |
| JsNumber.StripRadixPrefix | src/utils/utils.tsx:60 | with radix 16 a leading "0x" or "0X" is skipped; any other text is kept whole |
| JsNumber.HexDigitPrefix | src/utils/utils.tsx:60 | the digits read are the longest prefix of hex digits: all hex, and the next character is not one |
| JsNumber.HexDigitPrefixStops | src/utils/utils.tsx:60 | reading stops exactly at the first character that is not a hex digit |
| JsNumber.ParseAllHex | src/utils/utils.tsx:60 | a non-empty string of hex digits parses to the number it denotes |
| JsNumber.ParseHexNumber | src/utils/utils.tsx:60 | white space, an optional sign, an optional "0x"/"0X", one or more hex digits and text that does not continue them parse to the digits' value, negated after '-' |
| JsNumber.ParseHexNaN | src/utils/utils.tsx:60 | white space, an optional sign and an optional "0x"/"0X" with no hex digit after them parse to NaN |
| JsNumber.ParseSkipsSpaceSignAndPrefix | src/utils/utils.tsx:60 | a worked instance of the general shape: `parseInt("  -0x1F zz", 16)` is -31 |
| JsNumber.ToInt32 | src/utils/utils.tsx:61-63 | the shift operands are reduced into the signed 32-bit range, congruent modulo 2^32, and unchanged when already in range |
| JsNumber.ToInt32OrZero | src/utils/utils.tsx:61-63 | NaN becomes 0 under the shifts and masks |
| JsNumber.Clamp | src/utils/utils.tsx:61-63 | `clamp(lo, hi, v)` is within [lo, hi], equals v inside the range and the nearer bound outside it |
| Color.Digits | src/utils/utils.tsx:57-58 | with a leading '#' the colour is '#' followed by the digits; otherwise the digits are the whole colour |
| Color.NumericValue | src/utils/utils.tsx:60 | the value the shifts operate on is a signed 32-bit integer |
| Color.High | src/utils/utils.tsx:61 | `h >> 16` of a 32-bit value is a signed 16-bit value, and of a 24-bit value a byte |
| Color.Middle | src/utils/utils.tsx:63 | `(h >> 8) & 0xff` is a byte |
| Color.Low | src/utils/utils.tsx:62 | `h & 0xff` is a byte |
| Color.Adjusted | src/utils/utils.tsx:60-65 | the adjusted value fits in 24 bits |
| Color.AdjustedBytes | src/utils/utils.tsx:61-65 | each byte of the adjusted value is the clamped sum of the same input byte and `amount`, in the same position |
| Color.NumericValueOfDigits | src/utils/utils.tsx:57-60 | a colour of one to six hex digits, with or without '#', has the value its digits denote, at most 0xFFFFFF |
| Color.Pack | src/utils/utils.tsx:65 | packing three bytes gives a 24-bit value from which each byte is recovered in its own position |
| Color.Unpack | src/utils/utils.tsx:61-65 | a 24-bit value is the packing of its own three bytes |
| Color.LumenColor | src/utils/utils.tsx:56-66 | the result has a '#' exactly when the input does; its digits are canonical lower-case hex, at most six; its value is at most 0xFFFFFF; each of its bytes is the clamped sum of the same input byte and `amount` |
| Color.OutputReadsBack | src/utils/utils.tsx:60-65 | feeding the result back through the parse gives exactly the value its digits denote |
| Color.ReadsBack | src/utils/utils.tsx:57-60 | a colour whose digits are the canonical hex of a 24-bit value, with or without '#', parses to that value |
| Color.LumenColorAdjusts | src/utils/utils.tsx:56-66 | the result has the same optional '#' as the input and canonical lowercase digits whose value has each byte of the input moved by `amount` and clamped |
| Color.AdjustedIsLumenColor | src/utils/utils.tsx:56-66 | that description leaves no choice: the only string with the same '#', canonical digits and those bytes is the one lumenColor prints |
| Color.LumenColorMonotone | src/utils/utils.tsx:55-63 | on a 24-bit input, a non-negative amount never lowers a byte, a non-positive one never raises one, and amount 0 keeps the value |
| Color.LumenColorOrdered | src/utils/utils.tsx:61-63 | with 0 ≤ a1 ≤ a2, each byte is ordered from the input through amount a1 to amount a2 |
| Color.ZeroAmountKeepsCanonical | src/utils/utils.tsx:65 | amount 0 returns a canonical colour of at most six digits unchanged, with or without '#' |
| Color.ZeroAmountIdempotent | src/utils/utils.tsx:56-66 | applying amount 0 to any result changes nothing |
| Color.BlackPrintsAsZero | src/utils/utils.tsx:65 | an all-zero colour such as "#000000" with amount 0 comes back as "#0" |
| Color.PrintedAs | src/utils/utils.tsx:60-65 | '#' plus the canonical digits of the packed adjusted bytes is the result |
| Elapsed.FloorDiv | src/utils/utils.tsx:37 | `Math.floor(n / d)` is the q with q·d ≤ n < q·d + d |
| Elapsed.FloorDivUnique | src/utils/utils.tsx:37 | that q is unique |
| Elapsed.TimeFromDate | src/utils/utils.tsx:33-52 | days, hours, minutes and seconds are in range for every difference, including negative ones; the parts recompose to the difference up to the dropped sub-second remainder |
| Elapsed.TimeFromDateUnique | src/utils/utils.tsx:37-51 | any in-range span that recomposes to the difference is the one returned |
| Elapsed.YearsFromBirthday | src/utils/utils.tsx:21-31 | the whole 365-day years elapsed, rounded down |
| Elapsed.YearsAgree | src/utils/utils.tsx:21-37 | `yearsFromBirthday` equals the `years` field of `timeFromDate` for the same difference |
| Elapsed.FourHundredDays | src/utils/utils.tsx:37-51 | 400 days give one year and 35 days |
| Elapsed.OneMillisecondBefore | src/utils/utils.tsx:37-51 | one millisecond before the reference gives -1 years, 364 days, 23:59:59 |
| Motion.Fade | src/utils/utils.tsx:4-15 | disabled gives no props; otherwise the element fades in from opacity 0 to opacity 1 with the caller's transition unchanged |
| Motion.ObjectIf | src/utils/utils.tsx:17-19 | returns the object when the condition holds and the default otherwise |
| Motion.ObjectIfSelects | src/utils/utils.tsx:17-19 | when object and default differ, the result is the object exactly when the condition holds |
| Motion.FadeInjective | src/utils/utils.tsx:4-15 | the props determine the call: whether it was disabled and, if not, the transition given |
| Routes.PathInjective | src/pages/Home.tsx:83-89 | distinct routes navigate to distinct paths |
| Routes.PrevInvertsNext | src/pages/Contact.tsx:47-53 | wheeling up undoes wheeling down and vice versa |
| Routes.NextIsFourCycle | src/pages/About.tsx:54-58 | four downward navigations return to the start, and no fewer do |
| ScrollNav.OnWheel | src/pages/Home.tsx:70-95 | a dropped event changes nothing; an accepted one sets `scrolling`, schedules the reset 1000 ms later, keeps the grace instant, and navigates to `next` downward and `prev` upward |
| ScrollNav.OnReset | src/pages/Home.tsx:92-94 | the reset callback clears `scrolling` and the pending reset once it is due; before then, or with none pending, nothing changes |
| ScrollNav.OnCleanup | src/pages/Home.tsx:97-107 | the cleanup detaches the handler unless it is re-attached and keeps `scrolling`; as written it always cancels the pending reset, and with the corrected policy it keeps the reset when the handler is re-attached |
| ScrollNav.Step | src/pages/Home.tsx:44-108 | only an accepted wheel event navigates, and only a mount moves the grace instant |
| ScrollNav.GracePeriod | src/pages/Home.tsx:46-72 | after a mount at t0, wheel events before t0 + 500 are dropped and one at exactly t0 + 500 is accepted |
| ScrollNav.AcceptedWheel | src/pages/Home.tsx:72-94 | an accepted event replaces any pending reset by one due 1000 ms later and navigates at most once; with deltaY = 0 it navigates nowhere |
| ScrollNav.ScrollingDropsWheel | src/pages/Home.tsx:72 | while `scrolling` is set every wheel event is dropped |
| ScrollNav.CleanupCancelsReset | src/pages/Home.tsx:102-107 | the listener cleanup cancels the pending reset, keeps `scrolling`, and detaches the handler on unmount |
| ScrollNav.StepKeepsValid | src/pages/Home.tsx:72-107 | a reset is pending only while `scrolling` is set and the listener is attached, and every step keeps this |
| ScrollNav.RunKeepsValid | src/pages/Home.tsx:72-107 | the same invariant holds after any run of events |
| ScrollNav.QuietUntilReset | src/pages/Home.tsx:72-94 | while `scrolling` is set and no reset runs before d, nothing navigates and `scrolling` stays set |
| ScrollNav.NoSecondNavigationWithinWindow | src/pages/Home.tsx:72-94 | an accepted event followed by any run without a fresh mount whose reset events all come before the 1000 ms deadline yields at most one navigation |
| ScrollNav.NothingBeforeGraceEnds | src/pages/Home.tsx:46-72 | a run whose wheel events all fall in the grace period navigates nowhere |
| ScrollNav.NothingAfterUnmount | src/pages/Home.tsx:102-107 | a detached hook with no pending reset never navigates or changes |
| ScrollNav.UnmountSilences | src/pages/Home.tsx:97-107 | after the unmount cleanup, no run navigates or changes the hook |
| ScrollNav.ResetReopens | src/pages/Home.tsx:91-94 | once the reset callback has run, the next wheel event navigates again. The run has no cleanup between the events. Under the as-written code a mounted page never produces such a run, because the re-render cleanup always comes between and cancels the reset (see Findings) |
| ScrollNav.StuckWithoutReset | src/pages/Home.tsx:72-107 | with `scrolling` set and no pending reset, no run without a fresh mount navigates, and `scrolling` stays set |
| ScrollNav.RerenderLocksAsWritten | src/pages/Home.tsx:75-108 | as written, an accepted deltaY = 0 event followed by the re-render's cleanup leaves navigation off for every later run |
| ScrollNav.CorrectedReopensAfterRerender | src/pages/Home.tsx:92-106 | if the re-render's cleanup keeps the pending reset, the reset fires and the next wheel event navigates again |
| HomePage.HomeWheel | src/pages/Home.tsx:70-95 | the home page navigates to /about downward and /contact upward, which are its neighbours in the route cycle |
| HomePage.HomeHorizontalWheel | src/pages/Home.tsx:70-108 | a horizontal wheel and its re-render, then the reset's due time, then a downward wheel: as written nothing navigates; with the reset kept, the page goes to /about |
| HomePage.NextGreeting | src/pages/Home.tsx:61-64 | the next greeting index is the following entry, wrapping from the last entry to the first |
| HomePage.TimerStep | src/pages/Home.tsx:50-66 | a tick advances the greeting only while the interval runs and changes nothing once it has stopped; the hint shows once its timeout is due and touches neither the greeting nor the interval; unmount stops the interval, cancels the hint timeout and keeps `showHint` as it was |
| HomePage.GreetingInRange | src/pages/Home.tsx:36-64 | the greeting index always stays inside the 13-entry list |
| HomePage.GreetingAfterTicks | src/pages/Home.tsx:42-66 | k interval ticks after mount show greeting k mod 13 |
| HomePage.TeardownFreezes | src/pages/Home.tsx:52-66 | after unmount clears the hint timeout and the interval, no later event shows the hint or changes the greeting |
| AboutPage.AboutWheel | src/pages/About.tsx:45-62 | the about page navigates to /projects downward, / upward and nowhere for deltaY = 0 |
| AboutPage.PuzzleNameToKey | src/pages/About.tsx:102-106 | a name that is found maps to the puzzle displayed under that name |
| AboutPage.NameKeyRoundTrip | src/pages/About.tsx:102-106 | every puzzle is found from its display name, and a name that is no puzzle's display name is not found |
| AboutPage.MouseEnter | src/pages/About.tsx:109-115 | entering a known puzzle name activates it at the cursor; any other name leaves the state unchanged |
| AboutPage.MouseLeave | src/pages/About.tsx:117-119 | leaving always clears the active puzzle and keeps the position |
| AboutPage.MouseMove | src/pages/About.tsx:121-125 | moving updates the position only while a puzzle is active and never changes which one |
| AboutPage.PopupAt | src/pages/About.tsx:190-203 | the popup is drawn exactly while a puzzle is active, with that puzzle's image size |
| AboutPage.PopupFollowsCursor | src/pages/About.tsx:193-196 | after entering a puzzle and any number of moves, the popup's corner minus the puzzle's offsets is the last cursor position, which is the entry point when there was no move |
| AboutPage.MovesKeepActive | src/pages/About.tsx:121-125 | any number of moves leaves the active puzzle as it was |
| AboutPage.LeaveHidesPopup | src/pages/About.tsx:117-125 | after leaving, no sequence of moves brings the popup back |
| AboutPage.PopupAboveCursor | src/pages/About.tsx:77-99 | every popup sits above and to the left of the cursor, and its image fits between its top and the cursor |
| ProjectCard.CardWheel | src/components/Project.tsx:40-64 | a card navigates to /contact downward and /about upward, the projects page's neighbours |
| ProjectCard.Dispatch | src/pages/Projects.tsx:9-79 | one wheel event reaches every card; each card steps on its own, and every navigation requested is /contact for a downward event and /about for an upward one |
| ProjectCard.AllCardsAgree | src/pages/Projects.tsx:9-79 | when every card accepts a vertical event, each requests one navigation |
| ProjectCard.HoverFollowsLastEvent | src/components/Project.tsx:100-105 | a card is hovered exactly when the last mouse event on it was an enter |
| ProjectCard.VariantOf | src/components/Project.tsx:100 | the variant is "hovered" exactly when the card is hovered |
| ProjectCard.Background | src/components/Project.tsx:80-89 | the plain variant keeps the theme background; the hovered one is that background with 20 added to each byte, clamped, printed as lumenColor prints it |
| ProjectCard.HoverLightens | src/components/Project.tsx:80-89 | on a `#rrggbb` background, no byte of the hovered background is below the plain background's |
| ProjectCard.DarkHoveredBackground | src/components/Project.tsx:80-83 | on the dark palette the hovered background is #141414 |
| ProjectCard.LightHoveredBackground | src/components/Project.tsx:80-83 | on the light palette the hovered background saturates to #ffffff |
| ContactPage.ContactWheel | src/pages/Contact.tsx:33-58 | the contact page navigates to / downward and /projects upward, closing the route cycle |
| ContactPage.ContactLinkStyle | src/pages/Contact.tsx:17-20 | the links are the accent with 32 added to each byte, clamped, printed as lumenColor prints it, at opacity 0.8 |
| ContactPage.LinkLighterThanText | src/pages/Contact.tsx:17-20 | on any accent whose value fits in 24 bits, every byte is ordered: accent ≤ accented text ≤ link colour |
| ContactPage.DefaultLinkColor | src/pages/Contact.tsx:17-20 | with the default accent #6b86f9 the links are #8ba6ff |
| ContactPage.AccentText | src/pages/Contact.tsx:90-98 | accented text is the accent with 25 added to each byte, clamped, printed as lumenColor prints it |
| ContactPage.DefaultAccentText | src/pages/Contact.tsx:90-98 | with the default accent, accented text is #849fff |
| Themes.WithAccent | src/utils/constants.ts:34 | a theme keeps its palette's type, background and text and adds the accent |
| Themes.PalettesDiffer | src/utils/constants.ts:22-32 | the types are "dark" and "light", and the palettes differ in background and text |
| Themes.DefaultIsDark | src/utils/constants.ts:34 | the default theme is the dark palette with accent #6b86f9 |
| Themes.ColorsWellFormed | src/utils/constants.ts:22-34 | every palette colour and the default accent is '#' plus six hex digits |
| Themes.HexColorFits | src/utils/constants.ts:22-34 | such a colour has a 24-bit value, so `lumenColor` adjusts its bytes as they are |
| Themes.LayoutIdsDistinct | src/utils/constants.ts:14-20 | the layout identifiers are pairwise distinct |

## Left out

- `randomColor` (src/utils/utils.tsx:69-74): it depends on `Math.random` and a fractional amount of 0.2.
- `lumenColor` with a fractional `amount`: the amount is an integer here, so the model has no floating-point byte values.
- `parseInt` above 2^53: the parse is exact. JavaScript would round the value to a double before the 32-bit shifts.
- The theme store (`toggleTheme`, `setRandomAccent`): its source is not part of this model. Themes are plain values.
- The header component and the page text, JSX, CSS, asset paths and URLs: they are presentational.
- The projects page's card list: it is static. Only the way it delivers a wheel event to every card is modelled.
- Spring and duration settings of the animations: they are cosmetic floats.
- `Date.now()` and `new Date(...)`: the current instant and the reference dates are integer parameters. The dates in constants.ts are parsed in local time, which is outside the model.
- Elapsed.TimeFromDate: the divisions are exact integer floor divisions. JavaScript divides in doubles and floors, which gives the same parts for any difference far below 2^53 ms.
- The about page's one-second clock interval: it only re-evaluates `timeFromDate`.
- Timer accuracy of `setTimeout`: a hint or a reset is an event that carries its time and takes effect only at or after its due time.
- HomePage.GreetingAfterTicks: the greeting ticks carry no time. The model counts ticks but not the 2000 ms period of `setInterval`, which only decides when the environment delivers them.
- React's stale closures between `setScrolling` and the next render: each event sees the state left by the previous one.
- `addEventListener` mechanics and the router: `navigate` returns the route it asks for.
- `deltaY` is an integer. Fractional wheel deltas only matter through their sign, which is modelled.
- Motion.Fade: both arguments are explicit. The source's defaults (`transition = {}`, `disable = false`) are not modelled; every call site passes both.
- AboutPage.MouseMove: cursor coordinates are integers here. The browser's `clientX`/`clientY` are doubles; the popup offsets only add and subtract, so the properties read the same over the reals.
- `objectIf` truthiness: the condition is a Boolean here. JavaScript would take any value and test its truthiness.
- AboutPage.PuzzleNameToKey: a lookup of a name inherited from the object prototype (such as "constructor") would yield a truthy non-key in JavaScript. The model treats every name other than the three display names as not found.

## Findings

| source | as written | input that shows it | evidently intended | confidence | as-written member | corrected member |
|---|---|---|---|---|---|---|
| src/pages/Home.tsx:92-108 | the listener effect depends on `handleWheel`, which depends on `scrolling`, so the `setScrolling(true)` of an accepted event re-runs the effect; its cleanup clears the reset timeout that was just scheduled, so `scrolling` is never set back to false (the same code is in About.tsx:47-74, Project.tsx:45-78 and Contact.tsx:39-72) | after the grace period, a horizontal wheel (deltaY = 0) accepted at 600 ms, then any later vertical wheel on the same page: nothing navigates until the page is mounted afresh | the reset set by an accepted event fires 1000 ms later, so wheel navigation resumes | medium, not executed | ScrollNav.RerenderLocksAsWritten | ScrollNav.CorrectedReopensAfterRerender |
