# Security-services site script: a Dafny model

The site's single browser script, `script.js`, holds a little logic: the contact form, the modal
dialogs, the mobile menu and two scroll listeners. This project models that logic in Dafny and
proves properties of it:

- **Contact form** (`contact_form.dfy`, module `ContactForm`):
  - `validateForm` and its error notice;
  - the message `createWhatsAppMessage` builds;
  - the submit handler that runs one after the other.
- **E-mail check** (`email.dfy`, module `Email`): `isValidEmail`, that is, the regular expression
  `^[^\s@]+@[^\s@]+\.[^\s@]+$`. It is written as a six-phase automaton and proved to accept exactly
  the language of the expression. A second lemma restates that language in plain words.
- **Service names** (`service_names.dfy`, module `ServiceNames`): the `serviceNames` table and the
  expression `serviceNames[service] || service`, both as written and as evidently intended (see
  Findings).
- **String primitives** (`text.dfy`, module `Text`): the JavaScript string operations the form
  relies on, with ECMAScript semantics:
  - `trim` and the `\s` class (one whitespace set);
  - `.length` in UTF-16 code units;
  - `join` on a one-character separator.

  The script never calls `split`. `Text.Split` serves only to state that the notice and the message
  split back into their lines.
- **Overlays** (`overlays.dfy`, module `Overlays`): `openModal`, `closeModal`, the backdrop click, the
  Escape handler and the mobile menu, as a state machine. Its state is each modal's displayed flag,
  the menu state and the body's `overflow` style (the scroll lock).
- **Scroll listeners** (`scroll.dfy`, module `Scroll`): the header's look, which depends on the
  current offset and on `lastScrollTop`, and the scroll-to-top button's threshold.

The Escape listener (script.js:32-42) touches only the modals; the menu folds only on its toggle,
a link click or an outside click.

Inputs that the browser supplies become parameters:

- the form values, as `Field` values (a string, or `null` when the field is missing);
- the scroll offsets, as integers;
- the modals present on the page, as the key set of a map;
- `encodeURIComponent`, as a function parameter of `ContactForm.Submit`.

## Model

| member | source | states |
|---|---|---|
| Text.Trim | script.js:214 | the result is the input with all leading and all trailing whitespace removed, and neither of its ends is whitespace |
| Text.TrimUnique | script.js:214 | only one string is the input without its surrounding whitespace, so the characterisation fixes `trim` completely |
| Text.TrimIdempotent | script.js:226 | trimming an already trimmed value changes nothing |
| Text.TrimEmptyIff | script.js:214 | a value trims to nothing exactly when it is all whitespace |
| Text.Utf16Length | script.js:214 | `.length` is between the number of characters and twice that |
| Text.Utf16LengthBmp | script.js:226 | on text inside the Basic Multilingual Plane, `.length` is the number of characters |
| Text.SplitJoin | script.js:231 | joining lines that contain no line break and splitting at line breaks gives the lines back |
| Text.JoinSplit | script.js:231 | splitting at a separator and joining with it restores the string |
| Text.JoinLength | script.js:231 | joining no parts gives the empty string; otherwise the result is as long as the parts together plus one separator between each two |
| Email.Run | script.js:239-240 | the automaton, run from a phase, accepts exactly the suffixes in that phase's part of the regular language |
| Email.IsValidEmail | script.js:238-241 | accepts exactly the strings matching `^[^\s@]+@[^\s@]+\.[^\s@]+$`: a local part, '@', a host part, '.', a suffix, each non-empty and free of whitespace and '@' |
| Email.EmailShape | script.js:239 | an address is accepted iff it has exactly one '@', a non-empty local part without whitespace, and a domain without whitespace that holds a '.' that is neither its first nor its last character |
| Email.AcceptsPlainAddress | script.js:238-241 | `ana@mail.cl` is accepted |
| Email.RejectsDomainWithoutDot | script.js:238-241 | `ana@mail` is refused |
| Email.RejectsSpaceInLocalPart | script.js:238-241 | `a b@c.d` is refused |
| ServiceNames.DisplayService | script.js:262 | a known code shows its own label from the table, never empty; any other code shows itself |
| ServiceNames.LookupAsWritten | script.js:244-262 | the object lookup `serviceNames[service]` as the engine performs it: a code of the table yields its label string, an inherited property name yields a function or the prototype object, and any other code yields `undefined` |
| ServiceNames.DisplayServiceAsWritten | script.js:262 | `serviceNames[service] \|\| service` as written: a code of the table shows its own label, and any code that is neither in the table nor an inherited property name shows itself |
| ServiceNames.LabelsTruthy | script.js:244-252 | the table has seven codes and every label is non-empty, so `\|\| service` never replaces a label |
| ServiceNames.AgreeOffPrototype | script.js:262 | on every code that is not an inherited property name, the lookup as written shows the same text as the intended own-entries lookup |
| ServiceNames.PrototypeNamesNotCodes | script.js:244-252 | none of the seven codes is an inherited property name |
| ServiceNames.ToStringLeaks | script.js:262 | as written, the code `toString` is shown as a function's source text, not as `toString` |
| ServiceNames.ProtoLeaks | script.js:262 | as written, the code `__proto__` is shown as `[object Object]` |
| ServiceNames.NoFallbackForPrototypeNames | script.js:262 | as written, no inherited property name falls back to being shown as itself |
| ServiceNames.FallbackToCode | script.js:262 | with the intended lookup, every code outside the table is shown as itself |
| ServiceNames.DisplayExamples | script.js:243-262 | `consultoria` shows as "Consultoría en Seguridad"; an unknown code shows itself |
| ContactForm.Violated | script.js:212-228 | the rules checked that a submission breaks: each broken one, none other, kept in checking order |
| ContactForm.EveryRuleChecked | script.js:214-228 | every one of the four rules is checked, in a strict order |
| ContactForm.Errors | script.js:212-228 | the error list holds exactly the broken rules, each once, in the order name, email, service, message |
| ContactForm.ErrorTexts | script.js:215-227 | one notice line per error, each being that rule's message |
| ContactForm.ValidateForm | script.js:211-236 | accepts exactly the submissions whose name is present with trimmed length at least 2, whose email is present and matches the expression, whose service is non-empty and whose message is present with trimmed length at least 10; a rejection's notice splits at line breaks into the broken rules' messages, in order |
| ContactForm.NoErrorsIffAcceptable | script.js:230-235 | the error list is empty exactly when the submission is acceptable |
| ContactForm.NoticeRoundTrip | script.js:231 | the joined notice splits back into the error messages |
| ContactForm.AcceptableIffAllSatisfied | script.js:214-228 | a submission is acceptable exactly when it meets all four rules |
| ContactForm.NameRuleMeaning | script.js:214 | the name rule holds iff the name is present and its trimmed `.length` is at least 2 |
| ContactForm.EmailRuleMeaning | script.js:218 | the email rule holds iff the email is present and matches the expression |
| ContactForm.MessageRuleMeaning | script.js:226 | the message rule holds iff the message is present and its trimmed `.length` is at least 10 |
| ContactForm.NoNewlineInErrorText | script.js:215-227 | no error message contains a line break, so the joined notice has one line per error |
| ContactForm.MessageLines | script.js:254-264 | the line list has 11 entries with a phone and 10 without |
| ContactForm.BuildMessage | script.js:243-267 | the message opens with the header, a blank line, the name line and the email line, and closes with a blank line and the opening hours |
| ContactForm.Assemble | script.js:254-264 | the concatenated template pieces start with the header, a blank line, the name and email lines, end with a blank line and the footer, and add exactly nine line breaks to the pieces, plus the phone line and its break when a phone is given |
| ContactForm.ServiceShownAsWritten | script.js:262 | for every code that is not an inherited property name, the service text the model shows is the text the source's own lookup shows |
| ContactForm.MessageLayout | script.js:254-266 | the built message is exactly its lines joined with line breaks: header, blank, name, email, the optional phone line, service, blank, message heading, message, blank, opening hours |
| ContactForm.LayoutOfPieces | script.js:254-264 | the layout holds whatever the lines contain |
| ContactForm.MessageSplitsIntoLines | script.js:254-264 | when no field holds a line break, splitting the message at line breaks gives back exactly its lines |
| ContactForm.PhoneLineIffPhone | script.js:258-260 | the fifth line is the phone line exactly when a phone was given, and then it carries the phone, whatever the service and the message hold |
| ContactForm.FifthLineOfMessage | script.js:255-262 | the fifth line starts the phone line when a phone was given, and the service line otherwise |
| ContactForm.Submit | script.js:179-207 | a rejected submission shows its notice and does nothing else; an accepted one opens the chat link carrying the encoded message, then shows success and resets the form |
| Overlays.OpenModal | script.js:3-13 | an existing modal is shown and the background locked, and no other modal or the menu changes; an unknown id changes nothing |
| Overlays.CloseModal | script.js:15-21 | an existing modal is hidden and overflow set to 'auto', even while another modal is shown; an unknown id changes nothing |
| Overlays.EscapeAll | script.js:32-42 | after Escape no modal is shown and the menu is untouched; overflow becomes 'auto' iff some modal was shown, and is unchanged otherwise |
| Overlays.PressEscape | script.js:32-42 | the handler's loop over the modals in document order ends in the state `EscapeAll` describes |
| Overlays.ToggleMenu | script.js:69-74 | the toggle flips the menu and locks the background exactly while it is unfolded; without menu elements nothing happens |
| Overlays.FoldMenu | script.js:78-92 | a link click or a click outside folds the menu and clears the overflow style |
| Overlays.BackdropClick | script.js:24-29 | a click on a modal's backdrop hides that modal only, sets 'auto', and, through the document's listener, folds the menu |
| Overlays.Step | script.js:3-94 | one dispatched event never adds or removes a modal; Open shows its modal and locks, Close and a backdrop click hide theirs and set 'auto', Escape leaves no modal shown, and the menu events leave every modal as it was |
| Overlays.ReplayKeepsModals | script.js:3-42 | no sequence of events adds or removes a modal |
| Overlays.StepKeepsLockJustified | script.js:3-94 | every event keeps the invariant that a locked background has a shown modal or the unfolded menu behind it |
| Overlays.ReplayKeepsLockJustified | script.js:3-94 | the invariant holds after any sequence of events |
| Overlays.ReachableLockJustified | script.js:3-94 | from the page as loaded, the background is never locked without a shown modal or the unfolded menu |
| Overlays.EscapeIdempotent | script.js:32-42 | pressing Escape twice has the effect of pressing it once |
| Overlays.OpenThenClose | script.js:3-21 | opening then closing a modal leaves it hidden, the background unlocked and the menu as it was |
| Overlays.CloseUnlocksDespiteOtherModal | script.js:15-21 | with two modals opened, closing the first unlocks the background while the second stays shown |
| Overlays.MenuLinkUnlocksOpenModal | script.js:78-82 | a menu-link click after opening a modal unlocks the background while the modal stays shown |
| Scroll.HeaderStep | script.js:151-171 | the header is translucent iff the offset is above 100; it is hidden iff the offset is above both the previous offset and 200; the new offset replaces the previous one |
| Scroll.HiddenIsTranslucent | script.js:155-168 | a hidden header is always translucent |
| Scroll.NotDownShows | script.js:164-168 | an event that does not scroll down always shows the header |
| Scroll.LastOffsetIsLatest | script.js:149-170 | after any scroll events, `lastScrollTop` is the latest offset, or its initial value when there were none |
| Scroll.HeaderDependsOnLastTwo | script.js:149-171 | the header's look after any events depends only on the last two offsets, taking 0 before the first |
| Scroll.ButtonStep | script.js:335-341 | the button is shown iff the offset is above 300, whatever it showed before; so it is hidden at offset 0 |
| Scroll.ButtonIgnoresHistory | script.js:335-341 | after any non-empty sequence of scroll events, the button reflects the latest offset alone |
| Scroll.ButtonIdempotent | script.js:336-340 | a repeated event at the same offset changes nothing |
| Scroll.ButtonFlipsOnCrossing | script.js:336-340 | the button's state changes between two events exactly when they lie on opposite sides of the threshold |

## Left out

- Reading the form (`FormData`), querying elements and registering listeners. These are browser
  plumbing: the values are parameters.
- `window.open`, `window.scrollTo` and the smooth scrolling, and the analytics calls. These are
  external effects: `ContactForm.Submit` names the link it opens as an effect instead.
- `encodeURIComponent`. It is a parameter of `ContactForm.Submit`, so the model states that the link
  carries the encoded message without modelling the percent-encoding.
- The notices' markup (`innerHTML`) and their removal after five seconds. These are timers and
  rendering, not logic.
- The details of `contactForm.reset()`.
- The scroll-reveal and lazy-loading observers, the service buttons' timed press effect, and the
  other cosmetic timers. These are foreign callbacks and timers.
- A `FormData.get` result that is a `File` rather than a string. The form has no file inputs.
- Strings are sequences of Unicode scalar values, so lone surrogates cannot be represented.
  `.length` is still counted in UTF-16 code units.
- Fractional scroll offsets (`pageYOffset` is a double). Offsets are whole pixels, and the fallback
  `|| document.documentElement.scrollTop` is taken to give the same offset.
- `openModal` on an id whose element is not a modal. Modals are identified with the ids in the
  page's map, and the Escape handler's `.modal` query is taken to return exactly those elements.
- How a click propagates, except for the backdrop click. A click on a modal's content, or on a
  modal's close button, also reaches the menu's outside-click listener after its own handler. The
  model keeps these as separate events (`Close` followed by `Outside`) instead of one composite
  event. `Overlays.BackdropClick` is the one click modelled with its propagation. `Open` stands for
  `openModal` called with its click event, which it stops; a call without the event is `Open`
  followed by `Outside`.
- ContactForm.BuildMessage: shows the service through the corrected lookup
  `ServiceNames.DisplayService`, not the as-written one. The two differ only on inherited property
  names (see Findings), and `ContactForm.ServiceShownAsWritten` proves they agree everywhere else.
- ServiceNames.DisplayExamples: its contract is two concrete evaluations, not a general property.

## Findings

| source | as written | input that shows it | evidently intended | confidence | as-written member | corrected member |
|---|---|---|---|---|---|---|
| script.js:262 | `serviceNames[service] \|\| service` reads a property of a plain object literal, so it also finds the members inherited from Object.prototype | service code `toString` (or `__proto__`, `constructor`, `valueOf`, …) is shown as `function toString() { [native code] }` (or `[object Object]`, …) instead of the code itself | look up the table's own seven entries only, and show any other code unchanged | not executed; the form's selector offers only the seven codes, so the input has to come from an edited request | ServiceNames.DisplayServiceAsWritten, ServiceNames.ToStringLeaks, ServiceNames.ProtoLeaks, ServiceNames.NoFallbackForPrototypeNames | ServiceNames.DisplayService, ServiceNames.FallbackToCode, ServiceNames.AgreeOffPrototype |
