# skinbeauti page script, modelled in Dafny

The skinbeauti site is a set of static pages that share one script,
`script.js`. The script has no server side. This project models the logic
inside it, with the page replaced by plain values:

- **Navigation highlighting** (module `Nav`). The current document is the
  last `/`-separated segment of the location's path, or `index.html` when
  that segment is empty. A navigation link's file is its `href` up to the
  first `#`. A link gains the class `active` when its file is the current
  document, or when its file is empty and the current document is
  `index.html`.
- **The contact form** (module `ContactForm`). Submitting it never sends
  anything. It trims `name`, `email` and `message`. When one of them is
  empty it shows a warning and keeps the form. Otherwise it shows a thank-you
  note and resets the form.
- **Booking buttons and the booking prefill** (module `Booking`). A click on
  a button with a `data-book` service:
  - writes `I would like to book <service>.` into the page's message field;
  - rewrites a link that mentions `contact.html` so that it carries
    `?service=<service>` and opens at `#booking`.

  On load, a `service` query parameter fills an empty message field with the
  same text.
- **The privacy/terms dialogs** (module `Modals`). The state is:
  - which dialogs are open and which are `aria-hidden`;
  - the per-dialog focus-trap listeners;
  - one shared `lastFocused` slot;
  - the body's `no-scroll` class;
  - the focused element.

  Openers open `#modal-<name>`. Tab and Shift+Tab wrap around the dialog's
  non-inert focusable elements. A backdrop click or a `data-modal-close`
  control closes a dialog, and Escape closes them all.

Two shared modules hold the runtime pieces the script relies on:
- `Optional` is a value that may be missing: a `null` DOM lookup, an absent
  attribute or a missing parameter.
- `Strings` holds JavaScript's `trim`, `split` with `pop` and `[0]`, and the
  case-insensitive test of a literal regular expression.

Each stateful part keeps the script's own shape:
- The navigation links, the form, the booking button, the message field and
  the dialog controller are classes with mutable fields. The form and the
  dialog controller update them through their own methods. The module-level
  methods `Nav.HighlightNav`, `Booking.OnBookClick` and
  `Booking.PrefillFromQuery` update the links, the message field and the
  button's `href`.
- Each method is proved against a pure function of the old state, and the
  properties are lemmas about those functions.

Things the browser supplies are parameters:
- the path;
- the parsing of a link against the current location (`resolve`, `None` when
  `new URL` would throw) and the writing of a URL back as text (`serialize`);
- the parsed query of the current page;
- the ancestor chain of a click's target;
- which dialog a key press happens in.

Three details of the code decide edge cases:
- **Home-link rule.** The current path is never empty. So a link with no
  file is active exactly when the path is `index.html`, which includes every
  directory URL (`Nav.HomeLinksActiveAtDirectory`).
- **Prefill on an "empty" field.** The prefill fills a field whose trimmed
  value is empty, so a field holding only white space is overwritten too
  (`Booking.PrefillValue`).
- **Form reset.** `form.reset()` restores each control's default value. It
  does not clear the control (`ContactForm.Form.Submit`).

The model records two consequences of the modal code as lemmas:
- There is only one `lastFocused` slot. Opening a dialog from inside another
  and then closing both leaves focus inside the first dialog
  (`Modals.NestedOpenForgetsOrigin`).
- Closing any dialog switches scrolling back on, even while another dialog
  stays open (`Modals.CloseIgnoresOtherOpenDialogs`).

`URLSearchParams` `get` and `set` follow the URLSearchParams section of the
WHATWG URL Standard:
- `get` returns the first pair with the name.
- `set` gives the first such pair the new value and removes the others, or
  appends a pair when there is none.

## Model

| member | source | states |
|---|---|---|
| Strings.Trim | script.js:42-44 | `trim` gives a slice of the input with only ECMAScript white space and line terminators before and after it; the result is empty exactly when the input is all such characters, and otherwise it starts and ends with a non-space character |
| Strings.TrimIdempotent | script.js:42-44 | trimming a trimmed value changes nothing |
| Strings.Split | script.js:3 | `split` on one character yields at least one piece and no piece contains the separator |
| Strings.JoinSplit | script.js:3 | joining the pieces of `split` with the separator gives the string back |
| Strings.BeforeFirst | script.js:8 | the text before the first separator is a prefix without the separator that ends at a separator or at the end |
| Strings.AfterLast | script.js:3 | the text after the last separator is a suffix of the string without the separator |
| Strings.AfterLastFollowsSep | script.js:3 | that suffix is the whole string or follows a separator |
| Strings.AfterLastUnique | script.js:3 | a suffix with those properties can only be the text after the last separator |
| Strings.SplitFirst | script.js:8 | `split(sep)[0]` is the text before the first separator |
| Strings.SplitSingle | script.js:8 | `split` yields a single piece exactly when the separator does not occur |
| Strings.SplitLast | script.js:3 | `split(sep).pop()` is the text after the last separator |
| Strings.ContainsIgnoringCase | script.js:77 | a regular expression of literal ASCII characters with the `i` flag matches exactly when the pattern occurs somewhere, letters A-Z compared without case |
| Nav.CurrentPathAsWritten | script.js:3-4 | the current path is the last segment of the path split on `/`, or `index.html` when that segment is empty |
| Nav.CurrentPathIsFileName | script.js:3-4 | the current path is never empty and never contains `/` |
| Nav.CurrentPathAtDirectory | script.js:3-4 | an empty path, or one ending in `/`, yields `index.html` |
| Nav.CurrentPathIsFinalSegment | script.js:3-4 | any other path yields its final segment: a suffix that is the whole path or follows a `/` |
| Nav.LinkFileAsWritten | script.js:7-8 | a link's file is its `href` (empty when absent) up to the first `#`, as the script computes it with `includes` and `split` |
| Nav.FragmentIgnored | script.js:8-9 | a link `f#x` is active exactly where `f` is |
| Nav.NestedLinkNeverActive | script.js:3-9 | a link whose file contains `/` is never active |
| Nav.HomeLinksActive | script.js:7-9 | on `index.html`, links to `index.html`, pure-fragment links and links without `href` are active |
| Nav.HomeLinksActiveAtDirectory | script.js:3-9 | on a directory URL the same links are active |
| Nav.HighlightNav | script.js:6-12 | every link that passes the active test gains `active`, and every other link keeps its classes |
| ContactForm.Entry | script.js:42-44 | a field's trimmed value is empty exactly when the form lacks the field or its value is all white space |
| ContactForm.Judge | script.js:42-46 | a submission is accepted exactly when name, email and message are all filled in |
| ContactForm.PaddingIgnored | script.js:42-46 | white space before or after a value, in any amount and on either side, never changes the verdict |
| ContactForm.Form.Submit | script.js:39-59 | default submission is always suppressed; an incomplete form keeps its values and shows the warning; an accepted one shows the thank-you note and is reset to its defaults; without a note element nothing is shown |
| Booking.NamedServiceOfMessage | script.js:72 | the booking request for a service reads back as that service |
| Booking.MessageOfNamedService | script.js:72 | a message that reads as a service is that service's request, so the template is one-to-one |
| Booking.MessageNeverBlank | script.js:72 | a booking request never trims to the empty string |
| Booking.GetParam | script.js:100 | `get` returns `None` exactly when no pair has the name, and otherwise the value of a pair with that name |
| Booking.GetParamIsFirst | script.js:100 | when pairs without the name come before a pair with it, `get` returns that pair's value |
| Booking.SetParam | script.js:80 | after `set` the pair is present, no two pairs share the name, and the pairs of other names are unchanged |
| Booking.SetParamReplacesFirst | script.js:80 | `set` puts the new pair in place of the first pair with the name, keeps the pairs before it, and drops every later pair with the name |
| Booking.SetParamAppends | script.js:80 | when no pair has the name, `set` appends the new pair at the end |
| Booking.SetParamKeepsOthers | script.js:80 | removing the name from the result of `set` gives the input without the name: the other pairs keep their order |
| Booking.GetAfterSet | script.js:80 | after `set`, `get` of that name returns the new value and `get` of any other name is unchanged |
| Booking.SetParamIdempotent | script.js:80 | setting the same pair twice is setting it once |
| Booking.RetargetSpec | script.js:79-83 | the rewritten URL keeps everything but its query and fragment, opens at `#booking`, has `service` equal to the service when it is not empty and unchanged otherwise, and keeps every other parameter |
| Booking.RetargetIdempotent | script.js:80-81 | rewriting an already rewritten URL for the same service changes nothing |
| Booking.ContactLinkRecognised | script.js:77 | every link containing `contact.html` takes the cross-page branch |
| Booking.ContactLinkCaseBlind | script.js:77 | links that differ only in the case of A-Z take the same branch |
| Booking.OnBookClick | script.js:64-91 | a non-empty trimmed service overwrites an existing message field with its request, and an empty one leaves it alone; a non-empty link mentioning the contact page is rewritten when it parses and navigation is allowed; any other link is kept and the default action is suppressed exactly when the link is `#` |
| Booking.PrefillValue | script.js:100-106 | without a non-empty `service` parameter, or when the field holds non-space text, the field is unchanged; otherwise it becomes the request for the parameter as written |
| Booking.PrefillIdempotent | script.js:100-106 | running the prefill twice is running it once |
| Booking.PrefillKeepsClickedMessage | script.js:104-105 | a request written by a click is never replaced by the prefill |
| Booking.CrossPageAgrees | script.js:99-105 | arriving through a rewritten link writes into an empty field the request the click would have written on the same page, and keeps a field with content |
| Booking.PrefillFromQuery | script.js:97-106 | the message field, when the page has one, becomes the prefill value for the page's `service` parameter |
| Modals.Focusables | script.js:131-135 | the focusable elements are exactly the non-inert candidates, and there are no more of them than candidates |
| Modals.FirstFocusable | script.js:131-135 | the first focusable element is the first non-inert candidate in document order |
| Modals.LastFocusable | script.js:131-135 | the last focusable element is the last non-inert candidate in document order |
| Modals.FocusablesAppend | script.js:131-135 | the filter keeps document order: the focusable elements of two runs of candidates are those of the first followed by those of the second |
| Modals.Lookup | script.js:138 | the lookup finds the first dialog with the id, or `None` exactly when no dialog has it |
| Modals.WrapTarget | script.js:155-164 | the trap acts exactly when the list is not empty and focus is on the first element (Shift+Tab) or the last (Tab), and then sends focus to the last or first element respectively |
| Modals.TrapTwiceIsOnce | script.js:150-166 | a second trap listener on the same dialog leaves focus where the first put it and prevents nothing the first did not |
| Modals.TrapStaysInDialog | script.js:156-164 | the trap only moves focus to a non-inert element of the dialog |
| Modals.TrapEffectSpec | script.js:150-165 | the trap never opens, closes or hides a dialog; it changes focus or suppresses the default action only for Tab in an open dialog, by the wrap rule |
| Modals.ClosedTrapRemovesItself | script.js:151-154 | in a closed dialog the first key press removes the trap listeners, and a later one does nothing |
| Modals.OpenedSpec | script.js:137-167 | an unknown name changes nothing; otherwise the focused element is remembered, the dialog is open and not hidden, scrolling is off, one more trap listener is on the dialog, and focus moves to the dialog's first focusable element when there is one and stays where it was otherwise |
| Modals.OpenedFocusesFirstCandidate | script.js:146-147 | opening a dialog with a non-inert candidate focuses the first non-inert candidate in document order |
| Modals.OpenThenCloseRestoresFocus | script.js:137-177 | opening and then closing a dialog returns focus to where it was, leaves the dialog closed and hidden, and scrolling on |
| Modals.NestedOpenForgetsOrigin | script.js:141-176 | with one shared slot, closing a dialog opened from inside another, and then the other, leaves focus inside the first dialog |
| Modals.CloseIgnoresOtherOpenDialogs | script.js:173 | closing one of two open dialogs turns scrolling back on while the other stays open |
| Modals.OpenInOrder | script.js:205 | the open dialogs in increasing document order, each exactly once |
| Modals.CloseEachSpec | script.js:169-177 | closing a list of dialogs closes and hides exactly those, switches scrolling on, and restores focus unless the list is empty |
| Modals.EscapeClosesAll | script.js:203-206 | after Escape no dialog is open, the formerly open ones are hidden, scrolling is on if any was open, and with none open nothing changes |
| Modals.ClosedByClick | script.js:188-200 | a backdrop click closes that dialog; otherwise a dialog closes exactly when some dialog lies around the nearest close control, and it is the nearest such dialog; with no close control on the chain nothing closes |
| Modals.BackdropClickCloses | script.js:188-192 | a click on an open dialog's backdrop closes that dialog |
| Modals.CloserClosesEnclosingDialog | script.js:193-198 | otherwise a click under a close control closes the nearest dialog around the nearest close control |
| Modals.ClickWithoutCloserKeepsDialogs | script.js:188-200 | a click that is neither on a backdrop nor inside a close control changes nothing |
| Modals.EscapeKeyClosesAll | script.js:203-206 | Escape pressed anywhere leaves no dialog open and suppresses no default action |
| Modals.CoherentPreserved | script.js:142-172 | no handler leaves a dialog both open and `aria-hidden` |
| Modals.ModalController.OpenModal | script.js:137-167 | opening changes the controller's state as `Opened` says |
| Modals.ModalController.OpenerClick | script.js:180-185 | a click on an opener always suppresses the default action and opens the named dialog |
| Modals.ModalController.CloseModal | script.js:169-177 | closing changes the state as `Closed` says, and closing no dialog does nothing |
| Modals.ModalController.DocumentClick | script.js:188-200 | the document click handler closes the dialog `ClosedByClick` picks |
| Modals.ModalController.Trap | script.js:150-165 | a dialog's trap listeners act as `TrapEffect` says |
| Modals.ModalController.CloseAllOnEscape | script.js:203-206 | Escape closes, one after another in document order, the dialogs open when it was pressed |
| Modals.ModalController.KeyDown | script.js:150-207 | a key press runs the trap of the dialog it happens in, then the Escape handler |

## Left out

- The footer year (script.js:14-15) reads the clock, so it is not modelled.
- The in-page anchor scroller (script.js:18-32) is not modelled. It skips opener links and a bare `#`; for any other fragment link whose target exists it suppresses the default jump and scrolls smoothly to the target. Scrolling is outside the model, and so is every other `scrollIntoView` call (script.js:87, 109-110).
- Note text and colours are not modelled (script.js:48-49, 55-56). The model shows only which of the two notes is visible.
- Link resolution by `new URL` and URL serialization are parameters of `Booking.OnBookClick`. The parsing of `window.location.search` is not modelled; `Booking.PrefillFromQuery` receives the parsed pairs. `Booking.CrossPageAgrees` is stated over the URL record. It assumes that parsing the serialized URL gives the record back.
- The `try`/`catch`, `console.warn` and the `DOMContentLoaded` deferral around the prefill (script.js:98, 111-120) are event-loop plumbing. The prefill is modelled as one call.
- DOM queries, CSS selector matching and listener registration are not modelled. The inputs abstract them:
  - the dialogs in document order;
  - the candidates that match the focusable selector, each with its own `inert` flag;
  - the ancestor chain of a click's target.
- Each dialog's candidates are fixed for the page's lifetime. `getFocusable` queries the dialog again on each call (script.js:146, 156), so the model does not capture elements that are added, removed or made inert while the page is open.
- `Modals.ModalController.OpenModal`: an element with id `modal-<name>` is assumed to be one of the page's dialogs.
- `Modals.ModalController.CloseModal`: `focus()` is assumed always to move focus to the remembered element. The model does not check whether that element can take focus.
- `Modals.ModalController.OpenModal`, `Modals.ModalController.Trap` (and `Modals.Opened`, `Modals.TrapEffect`): every non-inert candidate is assumed able to take focus. The focusable selector (script.js:133) excludes only disabled buttons, so it also matches disabled `input`, `textarea` and `select` elements and hidden inputs. `focus()` on those does nothing (script.js:147, 161, 163), and the page then keeps focus where it was, while the model moves focus to them.
- `Modals.ModalController.KeyDown` and `DocumentClick` are separate handlers. A click on an opener runs `OpenerClick` and then `DocumentClick` on the same chain, as the browser does when the event bubbles. The model does not combine them.
- Sequential focus navigation by the browser, when the trap does not act, is not modelled. The model says only that focus is left to the browser in that case.
- `Booking.OnBookClick`: the page's `#message` field is a `MessageField` of its own. The model does not identify it with the contact form's `message` control in `ContactForm.Form`.
