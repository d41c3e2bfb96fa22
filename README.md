# Portfolio contact form and header, modelled in Dafny

This project models the two pieces of logic in a single-page portfolio site
that do more than render markup:

- **The contact form** (`src/components/Contact.jsx`):
  - `validateForm` checks the four fields (name, email, subject, message).
  - `handleInputChange` updates a field and blanks that field's error.
  - `handleSubmit` either shows the validation errors or sends the browser to a
    `mailto:` link. It then reports success or error, empties the form, and
    schedules the status to be cleared.
- **The header** (`src/components/Header.jsx`):
  - the scroll handler sets the scrolled flag and finds the active section by
    scanning the sections in reverse;
  - `scrollToSection` scrolls to a section;
  - the mobile-menu button opens and closes the menu.

The JavaScript building blocks the form relies on are modelled exactly:

- `String.prototype.trim` over ECMAScript whitespace (`text.dfy`);
- `.length` as a count of UTF-16 code units (`text.dfy`);
- the email regular expression `^[^\s@]+@[^\s@]+\.[^\s@]+$`. Its language is
  written out, a one-pass matcher decides it, and a lemma proves the two agree
  (`email_pattern.dfy`);
- `encodeURIComponent`: UTF-8 bytes, uppercase `%XY` escapes, and ECMAScript's
  unescaped set. A reference decoder proves that encoding loses nothing
  (`uri_encoding.dfy`).

State that React keeps for a component becomes a Dafny `class`:

- `Contact.ContactForm` holds the form's state;
- `Header.HeaderState` holds the header's state.

For the form, the state between events is also described as a value
(`Contact.Snapshot`), with pure transitions `Edit`, `Submit` and `Timeout`.
Each handler is proved to perform its transition and to keep the invariant
`Consistent`: nothing is submitting, and every error on display is the
message its field's rule gives for the field's current value.

The browser is represented by parameters and recorded outputs:

- the document is a map from element id to `offsetTop`;
- `window.scrollY` is a parameter;
- whether the navigation throws is a parameter;
- links assigned to `window.location.href` are recorded in a sequence;
- ids passed to `scrollIntoView` are recorded in a sequence;
- status-clearing timeouts are a count of timers scheduled and not yet fired.

### Behaviour worth knowing

- **Earlier timeouts are not cancelled.** Every submit that passes
  validation schedules its own 5-second `setTimeout` (a submit that fails
  validation returns before scheduling one), and nothing cancels an earlier
  one, so the first
  submit's timer clears the status a later submit set
  (`Contact.EarlierTimeoutClearsLaterStatus`).
- **The active section comes from a reverse scan over `offsetTop`.** The
  last section, in navigation order, whose element exists and whose top is
  at most 100 pixels below the top of the viewport is chosen; when none
  qualifies the previous one is kept. When every section is present and
  their tops increase, `Header.ActiveBetweenOffsets` proves that a section
  is chosen exactly when its top is at or above that position and the next
  section's top is below it. This treats each section as reaching down to
  the top of the next one, so it matches a reading by top and bottom edges
  only when consecutive sections touch.
- **No scan happens on mount.** The scan runs only on scroll events, so the
  initial active section is always `hero`.
- **Errors are blanked, not removed.** Editing a field whose error is shown
  sets that error to the empty string. The key stays in the map.
- **The email test sees the stored value untrimmed.** `validateForm` tests
  the pattern against `formData.email` as stored, not the trimmed value, so
  a non-blank value with leading or trailing whitespace is refused as
  invalid (`Contact.EmailWithSurroundingSpace`). The email field is an
  `<input type="email">`, whose value the browser already strips of line
  breaks and surrounding ASCII whitespace, so through the page's input only
  other Unicode whitespace (U+00A0 or U+3000, for example) reaches this
  case.

## Model

| member | source | states |
|---|---|---|
| Text.IsSpace | src/components/Contact.jsx:32-40 | the whitespace that `trim` removes and `\s` matches; on ASCII it is exactly tab, line feed, vertical tab, form feed, carriage return and space, and it never includes `@` |
| Text.Trim | src/components/Contact.jsx:32-34 | the trimmed text is no longer than the input, is empty exactly when the input is all whitespace, and neither starts nor ends with whitespace |
| Text.TrimCore | src/components/Contact.jsx:32-34 | trimming whitespace + trimmed core + whitespace gives back exactly the core |
| Text.TrimIdempotent | src/components/Contact.jsx:32-34 | trimming twice is trimming once |
| Text.TrimNoSpace | src/components/Contact.jsx:32-34 | text without whitespace is its own trim |
| Text.Utf16Length | src/components/Contact.jsx:34 | `.length` lies between the number of characters and twice that, and equals it when every character is in the Basic Multilingual Plane |
| EmailPattern.Matches | src/components/Contact.jsx:40 | the one-pass matcher accepts a string exactly when it is in the language of the expression |
| EmailPattern.MatchesIffPattern | src/components/Contact.jsx:40 | the matcher's automaton accepts exactly local part, `@`, domain part, `.`, last part, each non-empty and free of whitespace and `@` |
| EmailPattern.RunLang | src/components/Contact.jsx:40 | from every matcher state, running to Accept is the same as the rest of the input being in that state's language |
| EmailPattern.PatternNoSpace | src/components/Contact.jsx:40 | a matching address is non-empty and contains no whitespace |
| EmailPattern.PatternNotBlank | src/components/Contact.jsx:38-40 | a matching address is never blank, so the required check never hides a match |
| UriEncoding.Utf8 | src/components/Contact.jsx:89-91 | each character becomes the shortest UTF-8 form, 1 byte below U+0080, 2 below U+0800, 3 below U+10000 and 4 above: a lead byte announcing the length, continuation bytes after it, and the character's code point as their value |
| UriEncoding.EncodeURIComponent | src/components/Contact.jsx:89-91 | the encoding is at least as long as the text and consists only of unescaped characters and `%` |
| UriEncoding.DecodeEncode | src/components/Contact.jsx:89-91 | decoding the encoding gives the original text back |
| UriEncoding.EncodeInjective | src/components/Contact.jsx:89-91 | two texts with the same encoding are equal |
| UriEncoding.EncodeUnescaped | src/components/Contact.jsx:89-91 | text made only of unescaped characters is left as it is |
| UriEncoding.PercentBytesOfEncode | src/components/Contact.jsx:89-91 | every `%XY` escape reads back as the byte it encodes |
| Contact.FormData.With | src/components/Contact.jsx:61-64 | setting a field gives that field the new value and leaves the other three as they were |
| Contact.NameError | src/components/Contact.jsx:32-36 | "Name is required" exactly when the name is blank; "Name must be at least 2 characters" exactly when it is not blank and its trimmed length is under 2; no error exactly when the trimmed length is at least 2 |
| Contact.EmailError | src/components/Contact.jsx:38-42 | "Email is required" exactly when the value is blank; "Please enter a valid email address" exactly when it is not blank and the untrimmed value does not match the pattern; no error exactly when it matches |
| Contact.SubjectError | src/components/Contact.jsx:44-48 | "Subject is required" exactly when blank; "Subject must be at least 5 characters" exactly when not blank and the trimmed length is under 5; no error exactly when it is at least 5 |
| Contact.MessageError | src/components/Contact.jsx:50-54 | "Message is required" exactly when blank; "Message must be at least 10 characters" exactly when not blank and the trimmed length is under 10; no error exactly when it is at least 10 |
| Contact.ValidateForm | src/components/Contact.jsx:29-57 | the result has a key exactly for each failing field, and that key holds the field's rule message |
| Contact.ValidateFormEmpty | src/components/Contact.jsx:29-57 | validation reports no error exactly when every field is valid |
| Contact.BoundaryFormValid | src/components/Contact.jsx:29-57 | name "Al", email "a@b.co", subject "Hello there" and message "1234567890" pass every rule |
| Contact.FailingFields | src/components/Contact.jsx:29-57 | a blank name and the other three fields failing their second check yields all four keys, each with its rule's message |
| Contact.FailingFormMessages | src/components/Contact.jsx:29-57 | name "", email "bad", subject "hi" and message "short" get "Name is required", "Please enter a valid email address", "Subject must be at least 5 characters" and "Message must be at least 10 characters" |
| Contact.EmailWithSurroundingSpace | src/components/Contact.jsx:38-42 | a non-blank address that starts or ends with whitespace is refused as invalid, because the pattern sees the untrimmed value |
| Contact.MessageBody | src/components/Contact.jsx:90 | the body starts with `Name: `, ends with the message, and is the three values plus 25 label characters long |
| Contact.MailtoLink | src/components/Contact.jsx:89-91 | the link starts with `mailto:V8236014408@gmail.com?subject=` and is at least as long as the prefix, the subject, `&body=` and the body together |
| Contact.IndexOf | src/components/Contact.jsx:89-91 | in the reader that parses the link back (`ParseMailto`, used by `MailtoRoundTrip`), the index found for `&` holds that character and no earlier index does; None when it is absent |
| Contact.MailtoLinkShape | src/components/Contact.jsx:89-91 | the link starts with `mailto:V8236014408@gmail.com?subject=` and, after that, holds only unescaped characters, `%`, `&` and `=` |
| Contact.MailtoRoundTrip | src/components/Contact.jsx:89-91 | a mail client reading the link gets back exactly the subject and the body `Name: …\nEmail: …\n\nMessage:\n…` |
| Contact.QueryParses | src/components/Contact.jsx:89-91 | a subject with no `&` is read up to `&body=`, and both parts are decoded |
| Contact.ClearError | src/components/Contact.jsx:67-72 | the keys stay the same, the edited field's entry is blank, and every other entry is unchanged |
| Contact.EditKeepsErrorsCurrent | src/components/Contact.jsx:59-73 | after an edit every error still on display is the current message for its field |
| Contact.FieldErrorOfValue | src/components/Contact.jsx:29-57 | a field's error depends only on that field's value |
| Contact.ValidationErrorsCurrent | src/components/Contact.jsx:80-83 | the errors validation stores are current for the form validated |
| Contact.ValidFormShowsNoErrors | src/components/Contact.jsx:80-85 | when every field passes, no error message is on display |
| Contact.NoErrorShownIsCurrent | src/components/Contact.jsx:98-103 | with no message on display, the errors are current for any form, including the emptied one |
| Contact.Edit | src/components/Contact.jsx:59-73 | an edit sets the edited field, keeps the other three fields and the set of error keys, and leaves submitting, the status, the pending timeouts and the navigations as they were |
| Contact.Submit | src/components/Contact.jsx:75-117 | a submit ends with nothing submitting, schedules at most one timeout, navigates at most once and only to the form's `mailto:` link (then with success and an emptied form), and leaves the status unset exactly when validation fails |
| Contact.Timeout | src/components/Contact.jsx:106-113 | a firing timeout clears the status, leaves one fewer pending, changes nothing else and keeps the state consistent |
| Contact.EditSpec | src/components/Contact.jsx:59-73 | an edit changes only the edited field, blanks only that field's error, leaves the status and the navigations alone, and keeps the state consistent |
| Contact.SubmitRejects | src/components/Contact.jsx:75-85 | with a failing field, the errors become the validation result (non-empty), what was typed stays, the status is cleared, nothing is sent and no timeout is scheduled |
| Contact.SubmitDelivers | src/components/Contact.jsx:87-106 | with every field valid, the browser is sent to the form's `mailto:` link, the status is success, the form is emptied, one timeout is scheduled and no error is shown |
| Contact.SubmitFails | src/components/Contact.jsx:108-113 | when the navigation throws, the status is error, nothing is recorded as sent, the form keeps its values and a timeout is still scheduled |
| Contact.SubmitValid | src/components/Contact.jsx:87-116 | the two outcomes of a submit on a valid form, field by field, with submitting ended |
| Contact.SubmitConsistent | src/components/Contact.jsx:75-117 | every submit leaves nothing submitting and every message current |
| Contact.ContactForm.constructor | src/components/Contact.jsx:19-27 | empty fields, no errors, not submitting, no status |
| Contact.ContactForm.HandleInputChange | src/components/Contact.jsx:59-73 | the new state is the edit of the old one, and the invariant holds |
| Contact.ContactForm.HandleSubmit | src/components/Contact.jsx:75-117 | the new state is the submit transition of the old one, and the invariant holds |
| Contact.ContactForm.StatusTimeout | src/components/Contact.jsx:106 | a firing timeout clears the status and leaves one fewer timeout pending |
| Contact.ContactForm.Fill | src/components/Contact.jsx:59-73 | typing each field of a form leaves exactly that form, with the status and the history unchanged |
| Contact.EarlierTimeoutClearsLaterStatus | src/components/Contact.jsx:97-116 | after two valid submits, the first submit's timeout already clears the status while the second's timeout is still pending |
| Header.Hrefs | src/components/Header.jsx:26 | mapping the navigation items to their hrefs keeps their number and order |
| Header.SectionsAreHrefs | src/components/Header.jsx:12-26 | the href list of the six navigation items is `hero, about, experience, projects, skills, contact`, in that order |
| Header.LastQualifying | src/components/Header.jsx:29-35 | the index found belongs to a section whose element exists and starts at or above the position, and no later section qualifies; None exactly when no section qualifies |
| Header.Active | src/components/Header.jsx:29-35 | the new active section is the previous one or a section whose element exists and starts at or above `scrollY + 100`, and it stays among the six sections |
| Header.ScanSections | src/components/Header.jsx:27-35 | the reverse loop with `break` stops at the last qualifying section, or finds none when none qualifies |
| Header.ActiveIsSection | src/components/Header.jsx:9-32 | the active section is always one of the six navigation hrefs |
| Header.ActiveKeepsOrFinds | src/components/Header.jsx:29-35 | when no section qualifies the previous active section is kept; otherwise the new one has an element in the document |
| Header.LastQualifyingMonotone | src/components/Header.jsx:27-34 | a later scroll position finds a qualifying section at the same index or a later one |
| Header.ActiveMonotone | src/components/Header.jsx:27-34 | with offsets fixed, scrolling further never makes an earlier section active once one qualifies |
| Header.SectionsDistinct | src/components/Header.jsx:12-19 | the six section ids are pairwise distinct |
| Header.ActiveBetweenOffsets | src/components/Header.jsx:27-34 | with all sections present and increasing tops, a section is chosen exactly when its top is at or above the position and the next section's top is below it |
| Header.OffsetsIncrease | src/components/Header.jsx:27-34 | tops that increase between neighbours increase along the whole list |
| Header.HeaderState.constructor | src/components/Header.jsx:7-9 | not scrolled, menu closed, `hero` active |
| Header.HeaderState.HandleScroll | src/components/Header.jsx:22-36 | the scrolled flag is `scrollY > 50`, the active section is recomputed 100 pixels below `scrollY` and kept when none qualifies, and the menu is untouched |
| Header.HeaderState.ScrollToSection | src/components/Header.jsx:42-48 | with an element for the id the page scrolls to it and the menu closes; without one nothing changes |
| Header.HeaderState.ToggleMobileMenu | src/components/Header.jsx:130 | the menu flag is negated and nothing else changes |

## Left out

- Rendering, animation (framer-motion), icons, the contact-info and social
  links, and the theme toggle: they are markup and not logic.
- The `handleViewDetails` and `handleViewCode` wrappers in
  `src/components/Projects.jsx`: each is a one-branch call to a browser API,
  with no logic of its own.
- Registering and removing the scroll listener (`src/components/Header.jsx:38-39`).
  The model calls `HandleScroll` directly for each scroll event.
- Timer durations and order. Pending status-clearing timeouts are only
  counted (`pendingClears`), and `StatusTimeout` lets any one of them fire at
  any time while the count is positive. This over-approximates the 5-second
  delay: the model does not capture when a timeout fires, only that each one
  that fires clears the status.
- Input value sanitization. `handleInputChange` is modelled as receiving
  any string. The browser already removes line breaks from the text inputs
  and line breaks and surrounding ASCII whitespace from the email input;
  every property is proved for all strings, so it holds for those values
  too.
- React's batching of state updates. Each handler is modelled as running to
  completion, with its state updates applied in program order. `isSubmitting`
  is therefore false between events. The disabled state of the submit button
  while submitting is not modelled.
- Browser floating point. `window.scrollY` is a real number, and
  `scrollY + 100` and the comparisons are exact. The model does not capture
  rounding of fractional scroll offsets.
- Lone surrogates. Dafny characters are Unicode scalar values, so the
  `URIError` that `encodeURIComponent` throws on a lone surrogate cannot
  arise. An exception anywhere in the `try` block is represented by the
  `navigationThrows` parameter, which leads to the same error outcome.
- `console.error` logging in the `catch` branch.
- UriEncoding.Decode: the reference decoder accepts any well-formed-length
  UTF-8 sequence whose value is a scalar value, without refusing overlong
  forms. It is used only to prove that encoding loses nothing, and that
  proof needs no such check.
- Header.HeaderState.ScrollToSection: the smooth scrolling itself is not
  modelled. It records only the id passed to `scrollIntoView`.
