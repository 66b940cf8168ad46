# ZTUBE route guard and video card, modelled in Dafny

This project models the two parts of the ZTUBE video manager that hold decision logic:

- **The access-control middleware** (`middleware.ts`). It runs before every page and API route. It either lets the request through or redirects it to the dashboard (`/home`) or to the sign-in page. Here it is a pure function `Middleware.Decide(authenticated, path)`. The authentication provider's session lookup becomes the boolean `authenticated`, and the request URL becomes its `pathname`.
- **The video card** (`components/VideoCard.tsx`). The model covers:
  - the two values the card derives from a video record: the `m:ss` duration label and the compression percentage;
  - its three UI flags (hovered, preview failed, player open);
  - the event handlers that change those flags, and the view the flags select.

The model has three files:

- `js.dfy` (module `Js`) models the JavaScript number and string operations those values use: integral `toString`, `padStart`, `Math.floor`, `Math.round` and `%`. Numbers are exact reals.
- `middleware.dfy` (module `Middleware`) models the route guard.
- `video_card.dfy` (module `VideoCard`) models the card. The flags are fields of the class `Card`, with one method per event handler. Each method's new state is tied to the pure transition function `Step`. Lemmas about `Step` and `Run` (a sequence of events) state what each flag can and cannot be changed by.

Modelling assumptions:

- `createRouteMatcher([...])` is taken to be exact membership in its literal list of paths. The real matcher is foreign code that compiles the patterns with path-to-regexp, and may also accept variants such as a trailing slash.
- `Math.round(x)` is `floor(x + 1/2)`, so a tie rounds towards +Infinity, as in JavaScript.
- `x % 60` is the remainder of a division truncated towards zero, so it has the sign of `x`.
- `Math.floor(seconds / 60)` is the floor of the exact quotient.
- The compression percentage is computed exactly. An original size of 0 is not excluded by a precondition. Instead the model gives the values JavaScript produces: `NaN` when the compressed size is also 0 (0/0), and `-Infinity` otherwise (x/0 with x > 0). The code has no fallback, and the model follows the code.
- Three handlers live on elements that are rendered only in one view, so the methods for them require that view:
  - the preview video's `onError` (only while the preview is shown);
  - the play button over the thumbnail (only while the thumbnail is shown);
  - the modal's close button (only while the player is open).

## Model

| member | source | states |
|---|---|---|
| `Middleware.Decide` | middleware.ts:5-38 | The whole decision table. The result is always `Allow`, a redirect to `/home` or a redirect to `/sign-in`. A signed-in request is sent to `/home` exactly when its path is `/`, `/sign-in` or `/sign-up`. A request without a session is sent to `/sign-in` exactly when its path is neither a public page nor `/api/videos`. Every other request is allowed; in particular a signed-in user is never sent to sign-in, and a visitor without a session is never sent to `/home`. |
| `Middleware.ApiCheckNeverFires` | middleware.ts:22-27 | For any path that gets past the second unauthenticated test, the third test (`isApiRequest && !isPublicApiRoute`) is false, because no public page starts with `/api`. |
| `Middleware.ApiCheckIsDeadCode` | middleware.ts:25-27 | Deleting the API-prefix check leaves every decision, for every session state and path, unchanged. |
| `Middleware.DashboardTestIsRedundant` | middleware.ts:15 | Deleting the `!isAccessingDashboard` conjunct changes no decision, since `/home` is not a public page. |
| `Middleware.NoRedirectLoop` | middleware.ts:8-29 | Re-running the decision on a redirect's target with the same session state yields `Allow`. |
| `Js.NatToString` | components/VideoCard.tsx:65 | The decimal rendering of a natural number is non-empty and made of digits. It starts with `0` only for 0, so it is never padded. It is one character long exactly below 10. |
| `Js.ParseNatToString` | components/VideoCard.tsx:65 | Reading the decimal rendering back gives the number. |
| `Js.NatToStringInjective` | components/VideoCard.tsx:65 | Different numbers render differently. |
| `Js.IntToString` | components/VideoCard.tsx:65 | An integer's rendering starts with `-` exactly when it is negative. Its digits read back as its magnitude, and the first digit is `0` only for 0, so there is no leading zero. |
| `Js.PadStart` | components/VideoCard.tsx:65 | `padStart(width, fill)` gives a string of length max(width, \|s\|) that ends with `s` and has only `fill` before it. |
| `Js.Floor` | components/VideoCard.tsx:63 | `Math.floor(x)` is the integer k with k <= x < k + 1. |
| `Js.Round` | components/VideoCard.tsx:64 | `Math.round(x)` is the integer k with k - 1/2 <= x < k + 1/2, so ties round up. |
| `Js.Trunc` | components/VideoCard.tsx:64 | Truncation moves towards zero and stays within 1 of its argument. |
| `Js.Rem60` | components/VideoCard.tsx:64 | `x % 60` lies in [0, 60) for x >= 0 and in (-60, 0] for x <= 0. Together with 60 times the truncated quotient it gives back x. |
| `VideoCard.MinutesOf` | components/VideoCard.tsx:63 | The whole minutes m satisfy 60m <= seconds < 60m + 60, and m is negative exactly when the duration is. |
| `VideoCard.RemainingSecondsOf` | components/VideoCard.tsx:64 | The rounded remainder lies in [0, 60] for a non-negative duration and in [-60, 0] for a non-positive one. |
| `VideoCard.DurationText` | components/VideoCard.tsx:65 | The label starts with the minutes' rendering followed by `:`. When the seconds value is in [0, 100), the label is exactly three characters longer than the minutes and ends with that value's two decimal digits. |
| `VideoCard.FormatDuration` | components/VideoCard.tsx:62-66 | The label has at least four characters, and it starts with `-` exactly when the duration is negative. |
| `VideoCard.WholeSecondsSplit` | components/VideoCard.tsx:63-64 | For whole seconds, the floored minutes are `s div 60` and the rounded remainder is `s mod 60`. |
| `VideoCard.TwoDigits` | components/VideoCard.tsx:65 | For n < 100, padding the rendering of n to two characters with `0` gives exactly its two decimal digits. |
| `VideoCard.WholeSecondsFormat` | components/VideoCard.tsx:62-66 | For whole seconds s, the label is `s div 60` in decimal, then `:`, then the two digits of `s mod 60`. |
| `VideoCard.WholeSecondsRoundTrip` | components/VideoCard.tsx:62-66 | For whole seconds, the label parses back: the minutes field is the unpadded decimal minutes, and the seconds field is two digits whose value is below 60. 60 times the minutes plus the seconds gives the original s. |
| `VideoCard.NonNegativeFormat` | components/VideoCard.tsx:62-66 | For any non-negative duration, the seconds field is the padded rounded remainder k, with 0 <= k <= 60. k is 60 exactly when the remainder is at least 59.5. |
| `VideoCard.SixtySecondsField` | components/VideoCard.tsx:63-65 | A remainder of at least 59.5 renders as `m:60` with the floored minutes unchanged, because rounding happens after the floor. |
| `VideoCard.DurationJustUnderAMinute` | components/VideoCard.tsx:62-66 | Every duration in [59.5, 60), 59.6 among them, renders as `0:60`. |
| `VideoCard.WholeSecondsUnderAMinute` | components/VideoCard.tsx:62-66 | A whole number of seconds below 60 renders as `0:` followed by its two decimal digits, so 7 renders as `0:07`. |
| `VideoCard.DurationExampleMinutesAndSeconds` | components/VideoCard.tsx:62-66 | 125 seconds renders as `2:05`. |
| `VideoCard.DurationExampleUnderAMinute` | components/VideoCard.tsx:62-66 | 59 seconds renders as `0:59`. |
| `VideoCard.DurationExampleTenMinutes` | components/VideoCard.tsx:62-66 | 600 seconds renders as `10:00`. |
| `VideoCard.CompressionPercentage` | components/VideoCard.tsx:69-71 | The percentage is a finite number exactly when the original size is positive; otherwise it is NaN or -Infinity. |
| `VideoCard.CompressionAsIntegers` | components/VideoCard.tsx:69-71 | For a positive original size o and compressed size c, the percentage equals the integer quotient (200(o - c) + o) div 2o. |
| `VideoCard.CompressionWithinBounds` | components/VideoCard.tsx:69-71 | With 0 < o and c <= o, the percentage lies in [0, 100]. |
| `VideoCard.CompressionNonIncreasing` | components/VideoCard.tsx:69-71 | For a fixed positive original size, a larger compressed size never gives a larger percentage. |
| `VideoCard.CompressionOfGrowth` | components/VideoCard.tsx:69-71 | When the compressed file is larger than the original, the percentage is at most 0. It is negative exactly when 200(c - o) > o; a smaller growth rounds to 0. |
| `VideoCard.CompressionExamples` | components/VideoCard.tsx:69-71 | (1000, 250) gives 75; equal sizes give 0; an empty compressed file gives 100. |
| `VideoCard.CompressionLabel` | components/VideoCard.tsx:147 | The text after "Compression:" ends in `%`. Before it comes the integer's decimal rendering for a finite percentage, and `NaN` or `-Infinity` for the two non-finite ones. |
| `VideoCard.CompressionLabelExamples` | components/VideoCard.tsx:147 | (1000, 250) shows as `75%`. Two empty sizes show as `NaN%`. An empty original with a non-empty compressed file shows as `-Infinity%`. |
| `VideoCard.Render` | components/VideoCard.tsx:81-195 | Exactly one figure view is shown: the thumbnail with the play overlay when not hovered, "Preview not available" when hovered with a preview error, and the preview video when hovered without one. The player modal is open exactly when `showPlayer` is set. |
| `VideoCard.Step` | components/VideoCard.tsx:18-181 | Only the mouse events change the hover flag. Only a preview load failure changes the error flag, and an error flag once set stays set. Only the two play buttons and the close button change the player flag. |
| `VideoCard.Run` | components/VideoCard.tsx:18-181 | Running the handlers for a sequence of events in order never clears a preview error that was already set. |
| `VideoCard.PreviewErrorSetOnlyByLoadFailure` | components/VideoCard.tsx:19-24 | After any sequence of events the error flag is set exactly when it was set before or a preview load failure occurred; it is never reset. |
| `VideoCard.PlayerUnaffectedByOtherEvents` | components/VideoCard.tsx:77-78 | Events other than play and close leave the player's visibility as it was. |
| `VideoCard.FigureUnaffectedByPlayerEvents` | components/VideoCard.tsx:106-109 | Opening and closing the player leave the hover and error flags, and so the figure view, as they were. |
| `VideoCard.Card.constructor` | components/VideoCard.tsx:18-20 | A new card starts with all three flags false, so it shows the thumbnail and no player. |
| `VideoCard.Card.OnMouseEnter` | components/VideoCard.tsx:77 | Entering sets the hover flag and changes nothing else. The figure becomes the preview, or "Preview not available" if the preview has already failed. |
| `VideoCard.Card.OnMouseLeave` | components/VideoCard.tsx:78 | Leaving clears the hover flag and changes nothing else. The thumbnail is shown again. |
| `VideoCard.Card.OnPreviewError` | components/VideoCard.tsx:22-24 | A preview load failure sets the error flag, which was clear while the preview was shown, and changes nothing else. The figure becomes "Preview not available". |
| `VideoCard.Card.OnOverlayPlayClick` | components/VideoCard.tsx:106-109 | The overlay play button opens the player and changes nothing else. |
| `VideoCard.Card.OnPlayButtonClick` | components/VideoCard.tsx:152 | The action-row play button opens the player; the figure view is unchanged. |
| `VideoCard.Card.OnCloseClick` | components/VideoCard.tsx:181 | Closing hides the player; the figure view is unchanged. |
| `VideoCard.Card.OnDeleteClick` | components/VideoCard.tsx:167 | The delete callback is called, with this card's own video, exactly when it was supplied. |
| `VideoCard.Card.OnDownloadClick` | components/VideoCard.tsx:159-161 | The download callback gets this card's public id (from which the full-resolution URL is built) and its title. |

## Left out

- app/api/videos/route.ts: listing and deleting videos go through the database client, whose ordering and delete semantics are not visible here. Its only local branch, the 400 response for a missing id, is not modelled.
- prisma/prisma.config.ts: configuration only; there is no logic to model.
- The `config.matcher` pattern (middleware.ts:43) is a routing concern of the web framework, so it is not modelled. The model assumes the middleware runs for every path it is given.
- The authentication provider's session lookup and the `URL` parsing are outside the model; they become the inputs `authenticated` and `path`. The construction of the `NextResponse` objects becomes the `Decision` value.
- The media URL builders (components/VideoCard.tsx:26-56), `filesize` (58-60) and the relative upload date (127) come from foreign libraries; the last also depends on the clock. A download request carries the public id instead of the built URL.
- JSX markup, styling, icons and React's rendering and batching of state updates are outside the model. One handler call is one atomic state change.
- IEEE-754 doubles: arithmetic is exact. Near exact .5 boundaries the browser's rounded quotient can round differently from the model.
- `Number.prototype.toString` switches to exponential notation at 10^21; the model always renders plain decimal digits.
- Non-finite durations (NaN, Infinity) are not inputs of `FormatDuration`; the duration is a real number of any sign.
- `Js.Rem60`: models `%` only for the divisor 60, the one the card uses, rather than for any divisor.
