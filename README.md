# A verified model of the portfolio page's behaviour script

The page script `script.js` wires up a personal portfolio page. This project models
its parts that have exactly statable behaviour, and proves properties of them:

- **Contact form** (`Email`, `ContactForm`). `isValidEmail` is the anchored pattern
  `^[^\s@]+@[^\s@]+\.[^\s@]+$`. It is modelled as "the string splits as run, `@`,
  run, `.`, run", where a run is one or more characters outside JavaScript's `\s`
  class and other than `@`. It is proved equal to a structural description: no white
  space, exactly one `@`, a non-empty part before it, and a `.` strictly inside the
  part after it. The submit handler's decision is the function `Validate`. It checks
  first for an empty input, then the address. The lemmas state which toast each case
  shows and when the form is cleared.
- **Toast notifications** (`Notifications`). The list of `.notification` nodes in the
  body, in document order. `showNotification` removes the first node and appends a
  new one. Its two timers start the slide-out and then remove their own node, if it
  is still there.
- **Projects grid** (`Projects`). A repository record with optional fields becomes a
  card record (`createProjectCard`). The result of the repository fetch determines
  the grid's children: the cards, or one notice card.
- **Navigation** (`Navigation`). The two `active` flags of the mobile menu, and the
  navbar background, which is a threshold function of `scrollY`.
- **Typing animation** (`Typewriter`). The `typeWriter` callback appends one
  character per firing.
- **The page** (`PortfolioPage.Page`). This class holds the state the script changes
  in place. Its fields are the form inputs, the toast list, the menu flags, the navbar
  style, the grid and activity container, and the hero name with the typing counter.
  Each event handler or timer callback is a method, and each method's `ensures` ties
  its new state to the pure functions above. Frames are per field (`this`field`), so a
  method changes only what it names.

The network result is an input (`RepoResponse`). So are the scroll offset and the
hero name's original text. Each firing of a timer is an explicit method call.

Three behaviours of the code that a reader might not expect:
- The handler tests `!value` on each input without trimming (script.js:408), so an
  input of blanks counts as filled (`ContactForm.BlankFieldsAccepted`).
- Whether the grid shows "No repositories found" or "Unable to load repositories"
  depends on where the code stops, not on the HTTP status (script.js:262-279). A
  non-null body on which `repos.length > 0` is false, such as GitHub's
  `{"message": ...}` error object, gives "No repositories found" (script.js:266, 274;
  `RepoResponse.ObjectBody`). Every outcome that throws gives "Unable to load
  repositories" (script.js:276-279; `RepoResponse.Failed`). These are a rejected
  `fetch`, a body that is not JSON, a `null` body, a non-empty string, an object with
  a positive `length`, and an array holding `null`. An array whose elements are not
  repository objects is a third case, which is not modelled (see "## Left out").
- After a failed repository fetch, `showGitHubError` puts a notice in the activity
  container. `initGitHubIntegration` then still runs `fetchGitHubActivity`, which
  replaces that notice with the calendar placeholder
  (`PortfolioPage.Page.InitGitHubIntegration`).

## Model

| member | source | states |
|---|---|---|
| `Email.IsValidEmail` | script.js:425-428 | the pattern `^[^\s@]+@[^\s@]+\.[^\s@]+$` as a split of the whole string into a run, `@`, a run, `.`, a run, where a run is one or more characters other than `@` and JavaScript's `\s`; an accepted string has at least five characters and begins and ends with such a character |
| `Email.ValidEmailIffWellFormed` | script.js:425-428 | the e-mail pattern accepts a string exactly when it has no white space, exactly one `@`, a non-empty part before it, and a `.` that is neither first nor last in the part after it (both directions) |
| `Email.ValidIsWellFormed` | script.js:425-428 | every string the pattern accepts is a well-formed address |
| `Email.WellFormedIsValid` | script.js:425-428 | every well-formed address is accepted by the pattern |
| `Email.SampleAddressValid` | script.js:425-428 | `a@b.co` is accepted |
| `ContactForm.Validate` | script.js:408-420 | the checks in the handler's order: "missing field" exactly when some input is empty; otherwise "invalid e-mail" or "accepted" exactly as the pattern rejects or accepts the address |
| `ContactForm.FeedbackMessage` | script.js:409-419 | the three toast texts, one per verdict; they differ, so each text identifies its verdict |
| `ContactForm.ValidateMeaning` | script.js:408-420 | the verdict is "missing field" exactly when some input is empty; otherwise it is "accepted" exactly when the address is well formed, and "invalid e-mail" exactly when it is not |
| `ContactForm.FeedbackKind` | script.js:409-419 | the toast is a success toast exactly when the submission was accepted |
| `ContactForm.FieldsAfter` | script.js:408-420 | `form.reset()` clears the inputs only when every input is filled and the pattern accepts the address; an empty input or a rejected address keeps what was typed |
| `ContactForm.EmptyFieldRejected` | script.js:408-411 | any empty input gives the error toast "Please fill in all fields" and keeps the inputs |
| `ContactForm.EmptyEmailNotReportedInvalid` | script.js:408-416 | the empty-field check runs first, so an empty address never gets the invalid-address message, although the pattern rejects it |
| `ContactForm.OnlyEmailDecides` | script.js:413-420 | once all four inputs are non-empty, two forms with the same address get the same verdict |
| `ContactForm.FilledFormOutcome` | script.js:413-420 | with all inputs filled, an invalid address gives the error toast "Please enter a valid email address" and keeps the inputs; a valid one gives the success toast and clears them |
| `ContactForm.BlankFieldsAccepted` | script.js:402-420 | an input made only of white space counts as filled, because nothing is trimmed: with the other inputs filled and an accepted address, the submission is accepted |
| `ContactForm.BlankEmailInvalid` | script.js:408-415 | an address of white space only, with the other inputs filled, passes the empty check and is then rejected as invalid (the browser's own handling of a `type="email"` value before the handler runs is outside the model) |
| `ContactForm.SampleSubmissionAccepted` | script.js:397-420 | name "A", e-mail "a@b.co", subject "S", message "M" is accepted and the form is cleared |
| `Notifications.Show` | script.js:430-461 | after showing, the new toast, not yet leaving, is the last node, and the other nodes are those that were there minus the first |
| `Notifications.StartLeaving` | script.js:464-465 | the 5000 ms timer marks only the toast with its own id as leaving; the ids and order of the nodes are unchanged |
| `Notifications.Remove` | script.js:466-469 | after the removal step, no node with that id is in the page |
| `Notifications.ShowKeepsAtMostOne` | script.js:432-461 | starting from at most one toast, showing leaves exactly one toast, which carries the new message and kind |
| `Notifications.RemoveAbsent` | script.js:466-469 | the removal step for a node that is no longer in the page changes nothing |
| `Notifications.RemoveOnlyOwn` | script.js:466-469 | the removal step deletes only its own node and keeps the others, in order |
| `Notifications.ReplacedToastRemovalIsNoop` | script.js:430-471 | when a toast was replaced by a newer one, the old toast's removal step leaves the newer toast in place |
| `Notifications.OwnRemovalEmpties` | script.js:466-469 | a toast's removal step while it is still shown empties the page of toasts |
| `Projects.CardOf` | script.js:282-309 | the card has the repository's name and source URL and the formatted update date; the description is the repository's, or "No description available" when it is absent or empty; the language is the repository's, or "Code"; a "Live Demo" link with the homepage is present exactly when the homepage is non-empty |
| `Projects.CardsOf` | script.js:269-272 | exactly one card per repository, the k-th card being the k-th repository's |
| `Projects.GridFor` | script.js:262-279 | the grid after the fetch: the cards of a non-empty array, "No repositories found" when `length > 0` is false, "Unable to load repositories" when something threw; never empty, and never cards mixed with a notice |
| `Projects.GridOfListing` | script.js:266-272 | a non-empty listing fills the grid with exactly one card per repository, in input order, and no notice card |
| `Projects.GridCount` | script.js:266-275 | a listing of n repositories gives n grid children, except that an empty listing gives exactly the single "No repositories found" notice |
| `Projects.GridOfFailures` | script.js:273-279 | a failed fetch gives exactly the "Unable to load repositories" notice; a body on which `repos.length > 0` is false without throwing gives the "No repositories found" notice |
| `Projects.CardsIffNonEmptyArray` | script.js:258-280 | the grid holds a repository card exactly when the response is a non-empty array |
| `Navigation.ToggleMenu` | script.js:20-23 | a hamburger click flips both `active` flags, so the two flags agree afterwards exactly when they agreed before |
| `Navigation.CloseMenu` | script.js:26-31 | a nav-link click leaves both flags cleared, whatever they were |
| `Navigation.ToggleTwiceRestores` | script.js:20-23 | a hamburger click flips both flags; two clicks restore them |
| `Navigation.CloseIdempotent` | script.js:26-31 | a nav-link click clears both flags, and a second click changes nothing |
| `Navigation.HandlersKeepInSync` | script.js:20-31 | both handlers keep the button's flag and the menu's flag equal |
| `Navigation.NavbarBackground` | script.js:50-57 | the navbar background is one of the two fixed colours |
| `Navigation.NavbarThreshold` | script.js:52-56 | the more opaque background is chosen exactly when `scrollY` exceeds 100, and the other exactly when it does not |
| `Navigation.NavbarMonotone` | script.js:52-56 | scrolling further down never brings back the translucent background |
| `Typewriter.Tick` | script.js:554-560 | one firing advances the counter by at most one and only appends to the shown text, at most one character; it changes nothing exactly when the counter has reached the text's length |
| `Typewriter.TickKeepsTyped` | script.js:554-560 | one firing keeps the counter within the text and the shown text equal to the text before the counter; while not done, it advances the counter by one |
| `Typewriter.RunShowsPrefix` | script.js:547-562 | after k firings the counter is min(k, length) and the shown text is the first min(k, length) characters of the original |
| `Typewriter.RunStops` | script.js:555-559 | after as many firings as characters, the whole name is shown and further firings change nothing |
| `PortfolioPage.Page.constructor` | script.js:2-11 | the page as loaded: empty inputs, no toast, menu closed, no inline navbar style, the hero name in full |
| `PortfolioPage.Page.ShowNotification` | script.js:430-461 | the body afterwards is the pure `Show` of the body before; exactly one toast remains, the new one, whose fresh id is returned for its timers |
| `PortfolioPage.Page.ToastTimeout` | script.js:464-465 | the toast list becomes `StartLeaving` of the old list |
| `PortfolioPage.Page.ToastRemovalTimeout` | script.js:466-470 | the toast list becomes `Remove` of the old list: unchanged if the node is gone, otherwise empty |
| `PortfolioPage.Page.Submit` | script.js:397-421 | the only toast is the verdict's message and kind; the inputs become `FieldsAfter` of the old inputs (cleared only when accepted); nothing else changes |
| `PortfolioPage.Page.ClickHamburger` | script.js:20-23 | the menu flags become `ToggleMenu` of the old flags and stay equal |
| `PortfolioPage.Page.ClickNavLink` | script.js:26-31 | the menu flags become `CloseMenu` of the old flags |
| `PortfolioPage.Page.Scroll` | script.js:50-57 | the navbar style becomes `NavbarBackground(scrollY)` |
| `PortfolioPage.Page.ShowNoRepositories` | script.js:380-390 | the grid holds just the "No repositories found" notice |
| `PortfolioPage.Page.ShowGitHubError` | script.js:354-378 | the grid holds just the "Unable to load repositories" notice, and the activity container holds its notice |
| `PortfolioPage.Page.FetchUserRepositories` | script.js:258-280 | the grid becomes `GridFor(response)`, built by clearing it and appending card after card; the activity container changes only on failure |
| `PortfolioPage.Page.FetchGitHubActivity` | script.js:345-346 | the activity container holds the calendar placeholder |
| `PortfolioPage.Page.InitGitHubIntegration` | script.js:245-256 | the grid is `GridFor(response)` and the activity container ends with the calendar placeholder, even after a failure |
| `PortfolioPage.Page.StartTyping` | script.js:547-553 | the original name is captured, the element is emptied and the counter is zero |
| `PortfolioPage.Page.TypeWriterTick` | script.js:554-560 | the counter and the shown text become `Tick` of the old ones, and the prefix invariant is kept |
| `PortfolioPage.Page.TypeUntilDone` | script.js:554-562 | when the callback stops scheduling itself, the element shows the original name again |

## Left out

- The network: `fetch` and `response.json()` of the repository listing are not modelled. Their outcome is the input `RepoResponse`. So are any overlapping or repeated fetches.
- `console.error` logging.
- `RepoResponse.ArrayBody` covers only arrays of well-formed repository objects. An array whose elements are not repository objects (numbers, strings, nested arrays, objects without the fields) renders one card per element, with `undefined` in place of the missing fields and "Invalid Date" as the date; this is not modelled. Neither is a repository field of an unexpected JSON type (a number as `name`, say), which is interpolated into the card's HTML as text.
- The partly filled grid that exists while an array holding `null` is being processed is not modelled: `Failed` gives only the final grid, after `showGitHubError` has replaced the cards.
- `ContactForm.Fields` holds the values the submit handler receives. What the browser does before the handler runs is not modelled: its cleaning of a `type="email"` value (line feed and carriage return removed everywhere, other ASCII white space stripped from both ends), and its own `type="email"` check, which stops the submit event for a value that is not an HTML e-mail address unless the form has `novalidate`.
- `initGitHubIntegration`'s own `catch` is not modelled, because the two steps it wraps catch their own errors in this model. The model assumes that every element the script looks up exists, so neither step can throw.
- Missing elements are not modelled. The script's behaviour when `querySelector` returns `null` (a missing form, grid, activity container, name element or navbar) is outside this model.
- The contribution-calendar widget is not modelled: the loading of its script and stylesheet, its `onload` call, and its failure. Only its placeholder in the activity container is modelled, as `CalendarEmbed`.
- The particle background, its resize re-initialisation, and its configuration are not modelled. They configure a third-party library.
- The intersection observers are not modelled: the fade-in sections, the skill-bar widths and the counter animation. They depend on browser geometry, and the counter steps by floating-point increments.
- Smooth scrolling, the load-time animation delays and the injected notification stylesheet are not modelled. They are presentation only.
- The toast's icon, colours and inline styles are not modelled. `Kind` stands for them.
- `toLocaleDateString` is not modelled, because its text depends on the locale. The card keeps the timestamp as `LocaleDateOf(timestamp)`.
- The HTML templates and the unescaped interpolation into `innerHTML` are not modelled. Cards are records.
- Timer delays (5000 ms, 300 ms, 100 ms, 1000 ms, 500 ms) are not modelled. Each firing is a method call, and the model does not force the order in which a caller makes them.
- Strings are sequences of Unicode scalar values, not JavaScript's UTF-16 code units. This matters only outside the Basic Multilingual Plane; every `\s` character lies inside it.
- `form.reset()` is modelled as setting the four inputs to the empty string. The inputs' default values are not part of this model.
- The `FormData` object that the submit handler builds is not modelled, because the handler never uses it.
