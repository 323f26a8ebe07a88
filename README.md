# Embedded server views of the Rocket.Chat desktop shell

This project models the controller that the Rocket.Chat Electron shell uses
to manage its embedded `<webview>` elements, one per chat server. It is
written in Dafny. The controller keeps the views as children of the document
body. Each view is bound to a server URL through its `data-server` attribute.
It carries an `active` class and a `ready` class, and a `src` attribute.

The model has four parts:

- `Views` (views.dfy): a view is a record `View(server, active, ready, src)`,
  and the parent element is a sequence of views in document order.
  - `querySelector` is a search for the first match, used with the
    controller's three selectors. On it the module builds `get`,
    `getActive` and `isActive`.
  - There is one function for the state after each operation: `Added`,
    `Removed`, `Deactivated`, `Activated` and `Readied`.
  - Lemmas prove what each operation promises. They also prove that each
    operation keeps the two registry invariants: one view per server URL,
    and at most one active view.
- `Registry` (registry.dfy): the class `WebViews`. Its methods `Add`,
  `Remove`, `DeactiveAll`, `SetActive` and `HandleDomReady` update the view
  list in place. Each method is proved against its function from `Views`.
  `DeactiveAll` keeps the source's `while` loop. The loop terminates because
  the number of active views drops by one on each iteration.
- `Handlers` (handlers.dfy): the pure decisions of the event listeners.
  - A `did-navigate-in-page` event is reported exactly when the server URL
    is a prefix of the new URL. The source tests `indexOf === 0`, and
    `indexOf` is modelled as a search for the first occurrence.
  - The error page is loaded for a main-frame load failure, and for a
    main-frame response with status 500 or higher.
  - `message.match(/%c/g)` is modelled as a left-to-right scan. Because `%c`
    cannot overlap itself, the scan counts every `%c` in the message. So the
    listener passes one empty style argument per `%c` in the message.
- `Wrappers` (wrappers.dfy): `Option`. It stands for a query that finds
  nothing, a missing `lastPath`, or a listener that emits nothing.

Events the controller emits are returned as values of type `Emitted`.
The listeners' `loadURL` of the error page is returned as the `Effect` value
`LoadErrorPage`. Focusing the active view is returned as the focused view's
server URL.

## Model

| member | source | states |
|---|---|---|
| `Views.QuerySelector` | src/scripts/webviews.js:10-16 | The result is the position of the first view, in document order, that the selector matches. It is `None` only when no view matches. |
| `Views.Get` | src/scripts/webviews.js:10 | `get(url)` finds a view bound to `url`. It finds nothing exactly when no view is bound to `url`. |
| `Views.GetActive` | src/scripts/webviews.js:12 | `getActive()` finds an active view. It finds nothing exactly when no view is active. |
| `Views.IsActive` | src/scripts/webviews.js:15-17 | `isActive(url)` holds exactly when some view bound to `url` is active. |
| `Views.GetUnique` | src/scripts/webviews.js:10 | When server URLs are distinct, `get(url)` returns position `i` exactly when view `i` is bound to `url`. |
| `Views.GetActiveUnique` | src/scripts/webviews.js:12 | When at most one view is active, `getActive()` returns position `i` exactly when view `i` is active. |
| `Views.ActiveCountZero` | src/scripts/webviews.js:21 | The active count is zero exactly when `getActive()` finds nothing. This is where the loop of `deactiveAll` stops. |
| `Views.ClearActiveCount` | src/scripts/webviews.js:21-22 | Clearing the `active` class of an active view lowers the active count by exactly one. This is the termination measure of `deactiveAll`. |
| `Views.AddedShape` | src/scripts/webviews.js:112-134 | If a view for `server.url` exists, `add` leaves the list unchanged. Otherwise it appends exactly one view at the end. That view is bound to `server.url`, is neither active nor ready, and has `src` set to `lastPath` when that is non-empty, else to `url`. |
| `Views.AddedIdempotent` | src/scripts/webviews.js:112-116 | Adding the same server twice gives the same list as adding it once. |
| `Views.AddedConsistent` | src/scripts/webviews.js:112-134 | `add` keeps server URLs distinct and keeps at most one view active. |
| `Views.AddedThenRemoved` | src/scripts/webviews.js:112-142 | Adding a server that has no view, then removing its URL, gives back the original list. |
| `Views.WithoutAbsent` | src/scripts/webviews.js:137-142 | When no view is bound to `url`, the reference removal leaves the list unchanged. This is the no-op case of `remove`. |
| `Views.RemovedIsWithout` | src/scripts/webviews.js:137-142 | When server URLs are distinct, `remove(url)` returns exactly the views not bound to `url`, in their original order and with their fields unchanged. With no such view, it is a no-op. |
| `Views.RemovedConsistent` | src/scripts/webviews.js:137-142 | `remove` keeps both registry invariants. Afterwards no view is bound to `url`. |
| `Views.DeactivatedSpec` | src/scripts/webviews.js:19-23 | After `deactiveAll`, no view is active. Server, `ready` and `src` of every view are unchanged. Both invariants still hold. |
| `Views.DeactivatedClear` | src/scripts/webviews.js:22 | One iteration of the loop does not change what `deactiveAll` ends with. |
| `Views.DeactivatedNoneActive` | src/scripts/webviews.js:21 | When the loop exits with no active view, the list is already the result of `deactiveAll`. |
| `Views.ActivatedExact` | src/scripts/webviews.js:27-37 | After `setActive(url)`, a view is active exactly when it is bound to `url`. So either the view for `url` is the only active view, or no view is active. Only `active` classes change. |
| `Views.ActivatedConsistent` | src/scripts/webviews.js:27-37 | `setActive` keeps both registry invariants. |
| `Views.ActivatedIdempotent` | src/scripts/webviews.js:28-30 | A second `setActive(url)` right after the first changes nothing. |
| `Views.ReadiedSpec` | src/scripts/webviews.js:95-97 | The `dom-ready` listener sets `ready` on the view bound to `url` and leaves every other view and field unchanged. It keeps both invariants. |
| `Registry.WebViews.Mount` | src/scripts/webviews.js:6-8 | After mounting, the view list is empty and the invariants hold. |
| `Registry.WebViews.DeactiveAll` | src/scripts/webviews.js:19-23 | The loop leaves no view active and changes only `active` classes. It terminates, with the active count as its measure. |
| `Registry.WebViews.SetActive` | src/scripts/webviews.js:27-38 | If the view for `url` is already active, nothing changes and nothing is focused. Otherwise exactly the view for `url` is left active, or none is, and that view, if any, is focused. The invariants hold afterwards. |
| `Registry.WebViews.FocusActive` | src/scripts/webviews.js:40-45 | The view that `getActive()` finds gets focus. Nothing gets focus when no view is active. |
| `Registry.WebViews.Add` | src/scripts/webviews.js:112-135 | The list is either unchanged or extended by exactly the new view. Afterwards a view for `server.url` exists and the invariants hold. |
| `Registry.WebViews.Remove` | src/scripts/webviews.js:137-142 | The list becomes the views not bound to `url`, in order. The invariants hold. |
| `Registry.WebViews.HandleDomReady` | src/scripts/webviews.js:95-98 | The view for `url` is marked ready, the invariants hold, and `dom-ready` is emitted for `url`. |
| `Handlers.IndexOfFrom` | src/scripts/webviews.js:74 | The result is the first position at or after `from` where the searched string occurs, or -1 when there is none. |
| `Handlers.IndexOf` | src/scripts/webviews.js:74 | `indexOf` returns the first position where the searched string occurs, or -1 when it does not occur. |
| `Handlers.HandleDidNavigateInPage` | src/scripts/webviews.js:73-77 | `did-navigate` is emitted, carrying the server URL and the new URL, exactly when the server URL is a prefix of the new URL. |
| `Handlers.FailLoadErrorPage` | src/scripts/webviews.js:100-104 | A failed load brings up the error page exactly when it is a main-frame load. |
| `Handlers.ResponseErrorPage` | src/scripts/webviews.js:106-110 | A response brings up the error page only for the main frame and only with status 500 or higher. Sub-resources and lower statuses never do. A status of 500 does, and so does any status above one that does. |
| `Handlers.MatchAllIsOccurrences` | src/scripts/webviews.js:86 | The non-overlapping scan of `/%c/g` finds every position where `%c` starts, and each match is `%c`. |
| `Handlers.DanglingFormatting` | src/scripts/webviews.js:86 | `danglingFormatting` has one empty string per `%c` in the message. When nothing matches (`null`), it is empty. |
| `Handlers.OccurrencesAppend` | src/scripts/webviews.js:87 | The `%c` count of a concatenation is the sum of the parts' counts, unless a `%` ending the first part meets a `c` starting the second. |
| `Handlers.NoPercentNoOccurrences` | src/scripts/webviews.js:87 | A string with no `%` has no `%c`. |
| `Handlers.Decimal` | src/scripts/webviews.js:87 | A line number is rendered using only decimal digits. |
| `Handlers.ConsoleFormatDirectives` | src/scripts/webviews.js:86-88 | The format string passed to `console.log` contains the listener's two `%c`, the message's, and any inside the server URL or the source identifier. The style arguments match the directives exactly when those two contain no `%c`. |

## Left out

- DOM and Electron calls are replaced by updates of the view sequence. This covers `querySelector` strings (and how a URL containing a quote would break them), `classList`, `createElement`, and the `preload`, `allowpopups` and `disablewebsecurity` attributes.
- Listener wiring with `addEventListener` is left out. Each listener is a function or method taking the event's fields.
- Element identity is not modelled. Views are identified by their server URL. A listener is bound to the element that `add` created. If that element was removed and a new view was added for the same URL, a late `dom-ready` from the old element would mark the detached element in the source, but the new view in this model.
- `goBack` and `goForward` are left out because their webview effects are opaque. In the source they throw when no view is active, because they call a method on `getActive()`'s `null`.
- `setSidebarPaddingEnabled` is left out. It depends on the platform and only injects CSS into ready views.
- `handleIpcMessage` is left out. It only re-emits on an `ipc-message-<channel>` name, and emitter dispatch is not modelled.
- From `console.log`, only the format string and the number of style arguments are modelled. The output itself, the level colours (undefined for an unknown level) and the bold style text are left out.
- The `.landing-page` element hidden by `deactiveAll` is left out, and so is the `__dirname` path of the error page. The error page is the single value `LoadErrorPage`.
- `Registry.WebViews.Add` is one atomic step. In the source the element is appended first and its `src` is set right after; no other code runs between the two.
- JavaScript strings are modelled as sequences of characters, so `indexOf` and the regular expression work on those characters.
