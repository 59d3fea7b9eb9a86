# svg-pan-zoom SVG utilities, modelled in Dafny

This project models the bookkeeping core of `src/svg-utilities.js` from
svg-pan-zoom, the helper module the pan/zoom controller calls to prepare an
SVG root and to read its screen transform:

- **getSvgDimensions** (`Dimensions`): a first-match-wins chain over four
  size sources (`svg.clip`, `style.pixelWidth`, `style.width`, the
  `width`/`height` attributes), followed by the falsy and `%` rules for each
  selected value. Modelled as a pure function over the values it reads.
- **getOrCreateViewport** (`Viewport`): returns the `g.viewport` group, or
  creates one and moves every child of the root into it, one `appendChild`
  at a time. Modelled as a method over heap `Element` objects with the
  `do … while` loop and its invariants.
- **setupSvgAttributes** and **setCTM** (`Attributes`): the namespace
  declarations, the conditional `overflow: hidden; ` prefix, and the
  `matrix(a,b,c,d,e,f)` transform text. Methods that update an element's
  attribute map, each specified by a function on maps or strings.
- **getScreenCTMCached** (`CtmCache`): the closure-held dictionary becomes a
  class holding a `map` from key to `{time, ctm}`. The clock value and the
  host's `getScreenCTM()` answer are parameters. A ghost counter records how
  often the host is queried. The pure step function `CacheStep` specifies
  the method, and `Replay` runs a sequence of calls.

`Js` holds the JavaScript semantics the code depends on: number and value
truthiness, `ToString`, `indexOf`, ASCII `toLowerCase`. `Dom` holds the
element class, the matrix and the string key a plain object gives an element.

The model follows the code, including where it differs from or is more
particular than the module's own comments:

- Cache keys are the element's string form (`"[object SVGSVGElement]"`), not
  the element's identity. The cache's doc comment
  (src/svg-utilities.js:102-109) describes a cache of `svg.getScreenCTM()`
  per SVG element, but distinct elements of one interface share an entry.
  See Findings.
- The staleness test is strict (`now - time > 300`): an entry exactly 300 ms
  old is still served.
- The 300 ms window ("the cache expires every 300ms", src/svg-utilities.js:105)
  is measured from the entry's timestamp, not from the previous call. Two calls 1 ms apart can therefore return different
  matrices (`CtmCache.WindowRunsFromEntryTime`).
- Dimensions are not guaranteed non-negative: a value such as `-5` parses to
  a negative number.

## Model

| member | source | states |
|---|---|---|
| `Js.IndexOfSpec` | src/svg-utilities.js:86 | `s.indexOf(t) === -1` holds exactly when `t` does not occur in `s`; otherwise the answer is the first occurrence |
| `Js.IndexOfFrom` | src/svg-utilities.js:33 | the search from a position returns the first occurrence at or after it, or -1 when there is none |
| `Dom.ToKeyCollision` | src/svg-utilities.js:115-125 | two elements get the same dictionary key exactly when they share a DOM interface, whether or not they are the same element |
| `Dimensions.ResolveLength` | src/svg-utilities.js:31-44 | a falsy value resolves to `parseFloat("0")`; a truthy value whose text contains `%` resolves to 0; any other value resolves to `parseFloat` of its text |
| `Dimensions.FalsyLengthIsZero` | src/svg-utilities.js:31-32 | with a parser that reads `"0"` as 0, every falsy selected value becomes 0 |
| `Dimensions.FirstSelecting` | src/svg-utilities.js:14-25 | gives the index of the first probe whose `parseFloat` is truthy; every earlier probe is falsy |
| `Dimensions.DimensionsFollowPriority` | src/svg-utilities.js:14-29 | the width and height come from the first passing source, in the order clip, `style.pixelWidth`, `style.width`, then the attributes |
| `Dimensions.ClipWins` | src/svg-utilities.js:14-17 | a passing clip decides the size whatever the later sources hold, a CSS width included |
| `Dimensions.PixelWidthMirrorsHeight` | src/svg-utilities.js:18-21 | in the `style.pixelWidth` branch the height equals the width |
| `Dimensions.IgnoresBoundingRect` | src/svg-utilities.js:9-11 | the bounding rectangle's width and height never change the result |
| `Viewport.ViewportIndex` | src/svg-utilities.js:60 | gives the position of the first child matching `g.viewport`; no earlier child matches |
| `Viewport.GetOrCreateViewport` | src/svg-utilities.js:59-75 | an existing `g.viewport` is returned and nothing changes. Otherwise a fresh `g` with class `viewport` receives the root's original children in order, each child's parent becomes the group, and the root's child list becomes exactly `[viewport]`. Either way the selector then finds the returned group |
| `Viewport.SecondCallReusesViewport` | src/svg-utilities.js:60-74 | a second call returns the same group as the first |
| `Js.LoweredSearchIgnoresCase` | src/svg-utilities.js:86 | searching `toLowerCase()` of a text for a lower-case word succeeds exactly when the word occurs in the text in any mix of ASCII case |
| `Attributes.DeclaresOverflowIgnoresCase` | src/svg-utilities.js:86 | the style counts as declaring overflow exactly when `overflow` occurs in it in any mix of ASCII case |
| `Attributes.SetupAttributesSpec` | src/svg-utilities.js:77-90 | sets the `xmlns`, `xlink` and `ev` namespace values. An attached root whose style (default `''`) has no case-insensitive `overflow` gets style `"overflow: hidden; " + style`. Otherwise the style is untouched. No other attribute changes |
| `Attributes.PrefixDeclaresOverflow` | src/svg-utilities.js:86-87 | the prefixed style itself contains `overflow` case-insensitively |
| `Attributes.SetupAttributesIdempotent` | src/svg-utilities.js:84-89 | a second setup changes nothing further |
| `Attributes.SetupSvgAttributes` | src/svg-utilities.js:77-90 | the element's attributes become the setup function of the old attributes and of whether the element has a parent |
| `Attributes.SetCtm` | src/svg-utilities.js:97-100 | the `transform` attribute becomes the matrix text and no other attribute changes |
| `Attributes.MatrixTextRoundTrip` | src/svg-utilities.js:98 | the written `matrix(...)` text reads back as the six coefficient texts in order, because numbers print without commas |
| `Attributes.TranslationExample` | src/svg-utilities.js:98 | the matrix (1, 0, 0, 1, 10, 20) is written as `matrix(1,0,0,1,10,20)` |
| `CtmCache.CacheStep` | src/svg-utilities.js:111-129 | the host is queried exactly when the key is missing or its entry is more than 300 ms old. A hit returns the stored matrix and leaves the map unchanged. A miss or expiry returns the fresh matrix and stores `{now, matrix}` under the key |
| `CtmCache.CacheStepInvariant` | src/svg-utilities.js:115-127 | after any call the key has an entry at most 300 ms old, and the call returned that entry's matrix. Every other key keeps its entry |
| `CtmCache.StableWithinWindow` | src/svg-utilities.js:115-122 | while each call for a key comes within 300 ms of its entry's time, every such call returns the stored matrix without a query, whatever other keys do in between |
| `CtmCache.WindowRunsFromEntryTime` | src/svg-utilities.js:117 | an entry exactly 300 ms old is served, and one 301 ms old is refreshed |
| `CtmCache.ScreenCtmCache.constructor` | src/svg-utilities.js:112 | the cache starts with no entries |
| `CtmCache.ScreenCtmCache.GetScreenCtmCached` | src/svg-utilities.js:113-128 | the new map and the returned matrix are those of `CacheStep`, and the query count rises by one exactly when the host was queried |
| `CtmCache.NewScreenCtmCache` | src/svg-utilities.js:111-112 | the cache as written is keyed by the element's string form |
| `CtmCache.SharedStringKeyConflatesElements` | src/svg-utilities.js:115-125 | after one element of an interface is looked up, a distinct element of the same interface is served the first one's matrix without a query |
| `CtmCache.IdentityKeyKeepsElementsApart` | src/svg-utilities.js:115-125 | keyed by identity, a call for one element leaves every other element's entry as it was |
| `CtmCache.NewIdentityKeyedCache` | src/svg-utilities.js:112 | the corrected cache is keyed by the element itself |

## Findings

| source | as written | input that shows it | evidently intended | confidence | as-written member | corrected member |
|---|---|---|---|---|---|---|
| src/svg-utilities.js:115-125 | the cache dictionary is a plain object, so each element is coerced to its string form `"[object SVGSVGElement]"` | two pan/zoom instances on one page, with two `<svg>` roots looked up within 300 ms: the second is served the first one's screen matrix | one entry per SVG element (keyed by identity, e.g. a `Map`) | medium; not executed | `CtmCache.SharedStringKeyConflatesElements` | `CtmCache.IdentityKeyKeepsElementsApart` |

`ScreenCtmCache` takes its key function as a parameter. `NewScreenCtmCache`
builds it as written, with `ToKey`. `NewIdentityKeyedCache` builds the
corrected cache, keyed by the element itself.

## Left out

- `getRelativeMousePoint`, `getEventPoint` and `getSvgCenterPoint`: their
  work is host floating-point linear algebra (`createSVGPoint`, `inverse()`,
  `matrixTransform`), division of bounding-box values, and DOM traversal
  through `ownerSVGElement`/`correspondingElement`.
- `parseFloat` is uninterpreted: it is the `parseFloat` field of `Host`.
  Finite non-zero numbers print through the host's `finiteToString`. The
  language's own texts are used for `NaN`, `Infinity`, `-Infinity` and 0.
- Negative zero is not distinguished from zero.
- `Date.now()` and `svg.getScreenCTM()` are parameters: the `now` clock value
  and the `live` matrix.
- `CtmCache.ScreenCtmCache.GetScreenCtmCached`: `getScreenCTM()` returns
  `null` for an element that is not rendered, and the cache stores and
  returns that `null` like any matrix. `Dom.Matrix` has no null value. The
  cache never looks inside the value, so its behaviour is otherwise the same.
- `Viewport.FindViewport`: `querySelector('g.viewport')` searches all
  descendants in document order. The model searches only the root's direct
  children, so a `g.viewport` nested deeper is not found.
- `Viewport.GetOrCreateViewport`: text and comment nodes are modelled as
  `Element`s like any other child. The element's namespace is not recorded.
  Child lists are plain sequences, not live lists. On a root with no
  children and no viewport group the source throws a TypeError: the loop
  passes `svgChildren[0]`, which is `undefined`, to `appendChild`. The model
  does not model that error; its precondition requires a non-empty child
  list in that case.
- `Attributes.SetupSvgAttributes`: the two `setAttributeNS` writes are
  recorded as plain map updates under their local names `xlink` and `ev`.
  The namespace is dropped.
- `Js.ToLower` lowercases ASCII letters only. No other character lowercases
  to a letter of `overflow`, so the overflow test is exact.
- Reading `svg.clip.width` when `svg.clip` is null or undefined would throw.
  The model instead takes `clipWidth` and `clipHeight` as given. A
  conforming `parseFloat` never lets that branch be chosen for those values.
