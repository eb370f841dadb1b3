# Part highlighter and sticky sidebar, modelled in Dafny

The repository's page scripts do two things once the page is ready.

- **setActivePart(url)** is in `docs/assets/js/main.js` and, identically, in `src/assets/js/_old.js`.
  It splits the page address on `-` and takes the second piece, the token.
  If the token is non-empty and exactly `one`, `two` or `three`, it adds the class `active` to every `h5` whose `data-part` is `1`, `2` or `3`.
- **setSideBarDisplay(obj, top)** is in `src/assets/js/_old.js` only.
  It pins the table-of-contents sidebar: when the scroll position `y` satisfies `y >= top - 51`, it sets `position: fixed`, `top: 45px` and `max-width: 150px`.
  Otherwise it sets `position: static` and `top: 0px`.

The model has four modules, one per concept:

- `Wrappers` (`wrappers.dfy`) holds `Option`, which stands for JavaScript's `undefined`.
- `UrlToken` (`url_token.dfy`) models `String.prototype.split('-')` as `Split`, with its inverse `Join`, and the token `split('-')[1]` as `Token`.
- `ActivePart` (`active_part.dfy`) holds the token-to-part lookup, the page as an `array` of element records (tag, optional `data-part`, class set), and the in-place methods `AddActiveClass` and `SetActivePart`.
  Each method is proved against a function on the page's contents: `Highlighted` and `PageAfter`.
  The two files carry the same setActivePart, so it is modelled once and the table below cites both.
- `Sidebar` (`sidebar.dfy`) holds a `StyledElement` class whose inline style is a map that `Css` updates.
  `SetSideBarDisplay` is proved against the function `DisplayStyle`.

The guard `if (active)` in setActivePart never changes the outcome: an empty token could not equal `one`, `two` or `three` anyway. `TruthinessGuardRedundant` proves this, and the method keeps the guard as the source has it.

For the sidebar, the code decides. With offset 100 and scroll 60 it pins the sidebar, because `60 >= 100 - 51`. The model and `Sidebar.Scenarios` follow the code.

## Model

| member | source | states |
|---|---|---|
| `UrlToken.Split` | docs/assets/js/main.js:15 | `split('-')` always yields at least one piece, and no piece contains a hyphen |
| `UrlToken.SplitJoin` | docs/assets/js/main.js:15 | joining the pieces with hyphens gives back the address, so split loses nothing |
| `UrlToken.JoinSplit` | src/assets/js/_old.js:39 | splitting hyphen-free pieces joined with hyphens gives back those pieces, so Split and Join are inverse |
| `UrlToken.SplitPiece` | src/assets/js/_old.js:39 | a hyphen-free string is one piece, and a hyphen right after it closes exactly that piece |
| `UrlToken.Token` | docs/assets/js/main.js:15 | the token, `split('-')[1]`, is hyphen-free and shorter than the address |
| `UrlToken.TokenAbsentIff` | docs/assets/js/main.js:15-16 | the token is undefined exactly when the address contains no hyphen |
| `UrlToken.TokenOfParts` | src/assets/js/_old.js:39-40 | for any hyphen-free prefix and token, the token of prefix + `-` + token + (nothing, or anything that starts with `-`) is that token; everything after the second hyphen is ignored |
| `UrlToken.TokenLocated` | docs/assets/js/main.js:15 | conversely, a token sits right after the first hyphen and is followed by the end of the address or by the second hyphen |
| `ActivePart.ActivePartOf` | docs/assets/js/main.js:15-25 | the part an address activates: the token, if present and non-empty, looked up; any part it yields is `1`, `2` or `3` and is the lookup of the address's token |
| `ActivePart.Selected` | docs/assets/js/main.js:18 | the selector `h5[data-part="p"]`: the element's tag is `h5` and its `data-part` attribute is present and equal to p |
| `ActivePart.Highlighted` | docs/assets/js/main.js:18 | `.addClass('active')` over that selection, as a function of the page's elements; the page keeps its length |
| `ActivePart.PageAfter` | docs/assets/js/main.js:14-27 | the page after setActivePart(url): the activated part's headings highlighted, or the page unchanged when no part is activated; the page keeps its length |
| `ActivePart.PartOf` | docs/assets/js/main.js:17-25 | the lookup names a part exactly for the tokens `one`, `two` and `three` |
| `ActivePart.PartTokenInverse` | src/assets/js/_old.js:41-49 | token `one`/`two`/`three` and part `1`/`2`/`3` correspond one to one, and no other token or part takes part in the mapping |
| `ActivePart.TruthinessGuardRedundant` | docs/assets/js/main.js:16 | the part activated is the lookup of the token whenever there is one; the truthiness guard changes nothing |
| `ActivePart.ActivePartOfParts` | src/assets/js/_old.js:39-49 | the part activated by prefix + `-` + token + rest is the lookup of that token alone |
| `ActivePart.NoPartWithoutKnownToken` | src/assets/js/_old.js:39-40 | some part is activated if and only if the token exists and is exactly `one`, `two` or `three`; a hyphen-free address activates nothing |
| `ActivePart.HighlightedAt` | docs/assets/js/main.js:18 | `$('h5[data-part="p"]').addClass('active')` adds `active` to each selected element and leaves every other element as it was |
| `ActivePart.PageAfterAt` | docs/assets/js/main.js:17-25 | after setActivePart each element keeps its tag and data-part; its classes gain `active` exactly when it is an `h5` of the activated part; no other class is added or removed |
| `ActivePart.ActiveAfterIff` | docs/assets/js/main.js:16-25 | an element has `active` afterwards if and only if it had it before or is selected; an unselected element is unchanged |
| `ActivePart.OnlyOnePart` | src/assets/js/_old.js:41-49 | an `h5` of part p is changed only if the address activates p, so at most one part is affected per call |
| `ActivePart.HighlightedIdempotent` | docs/assets/js/main.js:18-24 | adding the class to the selected elements a second time changes nothing |
| `ActivePart.PageAfterIdempotent` | src/assets/js/_old.js:38-51 | applying setActivePart twice with the same address leaves the page as applying it once |
| `ActivePart.ScenarioSecondPiece` | docs/assets/js/main.js:15-21 | `…/docs-two-intro` activates part 2 |
| `ActivePart.ScenarioLaterPiecesIgnored` | docs/assets/js/main.js:15-18 | `…/a-one-b-two` activates part 1; the piece after the second hyphen is not looked at |
| `ActivePart.ScenarioNoHyphen` | docs/assets/js/main.js:15-16 | `…/docs` has no token and activates nothing |
| `ActivePart.ScenarioUnknownToken` | docs/assets/js/main.js:17-25 | `…/docs-four-appendix` and `…/a-One` activate nothing; the match is exact and case-sensitive |
| `ActivePart.ScenarioEmptyToken` | src/assets/js/_old.js:40 | `…/a--one` has an empty token and activates nothing |
| `ActivePart.AddActiveClass` | src/assets/js/_old.js:42 | the in-place class addition over the page's array equals `Highlighted` of the old contents |
| `ActivePart.SetActivePart` | docs/assets/js/main.js:14-27 | the in-place update of the page's array equals `PageAfter(old contents, url)` |
| `Sidebar.Pinned` | src/assets/js/_old.js:31 | the threshold test `y >= top - 51` |
| `Sidebar.DisplayStyle` | src/assets/js/_old.js:29-36 | the inline style after setSideBarDisplay: the old properties plus position and top, plus max-width when pinned; every other property keeps its value |
| `Sidebar.StyledElement.Css` | src/assets/js/_old.js:32 | `.css(p, v)` sets property p to v and leaves every other property as it was |
| `Sidebar.SetSideBarDisplay` | src/assets/js/_old.js:29-36 | the element's new inline style is `DisplayStyle(old style, scroll, top)` |
| `Sidebar.PinnedStyle` | src/assets/js/_old.js:31-32 | when `y >= top - 51`, including `y == top - 51`, the style is position fixed, top 45px and max-width 150px |
| `Sidebar.StaticStyle` | src/assets/js/_old.js:33-34 | when `y < top - 51`, the style is position static and top 0px, and max-width keeps its old value or stays absent |
| `Sidebar.OtherPropertiesKept` | src/assets/js/_old.js:31-35 | no property except position, top and max-width changes, and none is removed |
| `Sidebar.WrittenPropertiesDetermined` | src/assets/js/_old.js:29-36 | position and top, and max-width when pinned, depend only on `(y, top)` and not on the old style |
| `Sidebar.DisplayStyleIdempotent` | src/assets/js/_old.js:29-36 | applying the rule a second time with the same inputs changes nothing |
| `Sidebar.Scenarios` | src/assets/js/_old.js:31 | offset 100 pins from scroll 49 on (60 and 49 are fixed, 48 is static); offset 40 with scroll 60 is fixed |

## Left out

- The document-ready wrappers and the jQuery selector engine (docs/assets/js/main.js:1-8, src/assets/js/_old.js:1-23) are left out. The address and the page's elements are explicit parameters. The page is the document's elements in document order, not a tree.
- Reading `window.location.href` is browser I/O, so the address is a parameter.
- `$('.button-collapse').sideNav()` calls a third-party plugin that is not part of this model.
- `$obj.offset().top` and `$(window).scrollTop()` are browser layout reads that can be fractional. They are integer parameters here, with no floating-point semantics.
- If `#toc-block` is missing, `offset()` is undefined and the script fails. The model always has an element to style.
- The commented-out scroll handler (src/assets/js/_old.js:11-13) is dead code and is not modelled.
- CSS values such as `45px` are written as opaque strings. Nothing parses units or renders styles.
- HTML tag-name matching is case-insensitive. The model stores each tag as its lower-case local name and compares it with `h5`.
