# Portfolio contact-form rules and active navigation, in Dafny

A model of the rule-bearing part of `script.js`, the client script of a
personal portfolio site:

- **Contact-form validation.** `validateContactForm` checks the fields name,
  email, subject and message in that order. For each field it checks, in
  turn, that the value is present and non-empty, that it meets a minimum
  length (2, 5, 10), and that the e-mail matches
  `^[^\s@]+@[^\s@]+\.[^\s@]+$`. It returns the first failure, or
  `{isValid: true, message: 'Valid'}`. `validateField` applies its own copy
  of the rule table to one trimmed field value. It accepts unknown field
  names, and it checks the minimum length before the pattern.
- **Active navigation.** On scroll, the handler takes the id of the last
  section whose extent `[offsetTop, offsetTop + clientHeight)` contains
  `scrollY + 200`. It then sets the `active` class on exactly the links
  whose `href` is `#` followed by that id.

Modules:

- `Text` (text.dfy): ECMAScript white space, shared by `trim` and `\s`.
  Also `trim`, and `length` counted in UTF-16 code units.
- `EmailPattern` (email_pattern.dfy): a literal reading of the regular
  expression, plus an equivalent check written out as conditions.
- `ContactForm` (contact_form.dfy): the two rule tables,
  `ValidateContactForm`, `ValidateField`, and the data object the submit
  handler builds.
- `ActiveNavigation` (active_navigation.dfy): the section search as a
  method with a loop. The links are objects whose `active` flag the second
  loop updates in place.
- `Wrappers` (wrappers.dfy): `Option`.

Form data is a `map<string, string>`. A field that is not a key stands for
the `undefined` that `formData.get(f)?.trim()` gives for a field the form
lacks. Both that and `''` are falsy at script.js:305.

Notes on the code's behaviour:

- `validateField` does not check for an empty value first. A blank value
  fails the length rule, or, for the e-mail, the pattern. Its callers only
  call it on values that do not trim to empty.
- `validateField` returns a boolean, not a result record. Its model returns
  the verdict together with the message it passes to `showFieldError`
  (`''` when valid).
- There is no submit state machine and no re-entry guard. The handler
  disables the button before validating (script.js:234-250).

## Model

| member | source | states |
|---|---|---|
| Text.IsSpace | script.js:322 | The white space of `trim` and of `\s`, the ECMAScript WhiteSpace and LineTerminator code points: none is a visible ASCII character (so not `@` or `.`), and each is one UTF-16 code unit. `TrimEmptyIffBlank` and the pattern lemmas rely on this one set. |
| Text.Utf16Length | script.js:309 | `value.length` counts UTF-16 code units. It is between the number of characters and twice that. It equals the number of characters when every character is in the Basic Multilingual Plane, and is larger otherwise. |
| Text.Trim | script.js:322 | The result of `trim` neither starts nor ends with white space. |
| Text.TrimIsSlice | script.js:322 | `trim` returns a slice of its input, and only white space lies before and after the slice. |
| Text.TrimEmptyIffBlank | script.js:243-246 | A value trims to `''` exactly when it is all white space. |
| Text.TrimIdempotent | script.js:322 | Trimming an already trimmed value changes nothing. |
| EmailPattern.MatchesEmailRegex | script.js:297 | The literal reading of `^[^\s@]+@[^\s@]+\.[^\s@]+$`: a run of characters that are not white space and not `@`, then `@`, a run, a literal `.`, and a run. A match has at least five characters and holds an `@` and a `.`. |
| EmailPattern.IsValidEmail | script.js:313 | `pattern.test(s)`, computed as conditions (no white space, exactly one `@` with text before it, and a `.` in the domain with text on both sides), accepts exactly the strings the literal reading matches. The example lemmas below and `EmailRuleIffRegex` use it. |
| EmailPattern.EmailExampleAccepted | script.js:297 | The pattern matches `a@b.co`. |
| EmailPattern.EmailExampleNoDot | script.js:297 | The pattern rejects `a@b`, which has no dot in its domain. |
| EmailPattern.EmailExampleSpace | script.js:297 | The pattern rejects `a b@c.com`, which contains a space. |
| ContactForm.CheckRule | script.js:303-315 | One rule passes exactly when the value is present, non-empty, at least the minimum length in code units and, for the e-mail, matches the pattern. A failure carries `Please enter your ${field}.` when the value is missing or empty, and the rule's own message otherwise. `MissingFieldMessage`, `MinLengthBoundary` and `EmailRuleIffRegex` build on it. |
| ContactForm.CheckRules | script.js:302-318 | The loop over the rules gives a valid result exactly when every rule passes, and then the message is `Valid`. Otherwise it returns the message of a failing rule before which every rule passed. |
| ContactForm.ValidateContactForm | script.js:294-319 | `isValid` holds exactly when the message is `Valid`. An invalid result carries the missing-field message or the rule message of one of the four fields. `ValidExactlyWhenComplete`, `FirstFailureWins` and `NameErrorReportedFirst` state its verdict. |
| ContactForm.FieldOutcome | script.js:295-315 | Each rule passes exactly when its field is present and long enough (name 2, subject 5, message 10 code units) or, for the e-mail, matches the pattern. A failing rule's message is never `Valid`. |
| ContactForm.ValidExactlyWhenComplete | script.js:295-318 | `validateContactForm` is valid exactly when all four fields are present and pass, using a definition that does not go through the rule table. |
| ContactForm.FieldOrder | script.js:295-300 | The rules are checked in the order name, email, subject, message. |
| ContactForm.RuleTablesAgree | script.js:325-330 | The lookup table of `validateField` holds the same four field names and the same rules as the ordered table of `validateContactForm`. |
| ContactForm.FirstFailureWins | script.js:302-316 | When rule `i` is the first to fail, the result is invalid with rule `i`'s message, whatever the later fields hold. |
| ContactForm.NameErrorReportedFirst | script.js:295-310 | Name `A` together with e-mail `a@b` reports the name error. |
| ContactForm.MissingFieldMessage | script.js:303-307 | A missing or empty field, after fields that pass, yields `Please enter your ${field}.`. This message comes before any length or pattern message. |
| ContactForm.MinLengthBoundary | script.js:309-311 | Take a non-empty value and a rule with a minimum length. The rule fails with its own message exactly when the value is shorter than the minimum, and passes otherwise. |
| ContactForm.LengthBoundaryExamples | script.js:296-299 | Name `A` fails and `Al` passes. A subject of 4 characters of the Basic Multilingual Plane (4 UTF-16 code units) fails and one of 5 passes. A message of 9 such characters fails and one of 10 passes. |
| ContactForm.EmailRuleIffRegex | script.js:313-315 | A non-empty e-mail passes exactly when it matches the pattern. Otherwise it fails with `Please enter a valid email address.`. |
| ContactForm.EmailRuleExamples | script.js:297 | Through the rule, `a@b.co` passes, while `a@b` and `a b@c.com` fail with the e-mail message. |
| ContactForm.ValidateField | script.js:321-354 | For a field with a rule, the trimmed value is accepted exactly when it is at least the minimum length in code units and, for the e-mail, matches the pattern. A rejection carries that rule's message, and an acceptance the empty message. `ValidateFieldUnknown`, `ValidateFieldMinFirst` and `ValidateFieldAgreesWithForm` build on it. |
| ContactForm.ValidateFieldUnknown | script.js:332-333 | `validateField` accepts every field name that has no rule. |
| ContactForm.ValidateFieldMinFirst | script.js:338-344 | In `validateField`, a value that is too short fails with the rule's message before the pattern is consulted. |
| ContactForm.ValidateFieldAgreesWithForm | script.js:321-344 | For a value that is not all white space (so it does not trim to empty), `validateField` gives the same verdict and message as the per-field step of `validateContactForm` on the trimmed value. |
| ContactForm.PrepareData | script.js:241-247 | The data object holds exactly the fields name, email, subject and message that the form holds, and nothing else. Each value is the form's value trimmed. `BlankFieldIsMissing` uses it. |
| ContactForm.BlankFieldIsMissing | script.js:242-250 | In the submit handler, a field holding only white space is trimmed to `''`. When the fields before it pass, it is reported as `Please enter your ${field}.`. |
| ActiveNavigation.LastContaining | script.js:400-407 | The section search finds nothing exactly when no section contains the position. Otherwise it finds a section that contains the position and after which no section does. |
| ActiveNavigation.FindCurrentSection | script.js:397-407 | The `forEach` loop leaves `current` equal to the id of the last section that contains `scrollY + 200`, or `''`. |
| ActiveNavigation.CurrentId | script.js:397-407 | With no section containing `scrollY + 200`, the id is `''`. Otherwise it is the id of the last section that contains it. `FindCurrentSection` computes it and `MarkActiveLinks` uses it. |
| ActiveNavigation.MarkActiveLinks | script.js:409-414 | After the loop, each link is `active` exactly when its `href` is `#` + `current`. This also holds when a link appears more than once. |
| ActiveNavigation.UpdateActiveNavigation | script.js:396-415 | After one handler run, exactly the links pointing at the chosen section carry `active`. |

## Left out

- DOM decoration: `showFieldError`, `showFieldSuccess`, `clearFieldError`, class-list and style changes, and reading `FormData`. These are browser side effects. The model keeps only the values they are given.
- The submit handler's control flow (script.js:230-267): the button label swap in `resetSubmitButton`, the 2-second simulated submission, notifications and analytics. These are timers and UI. Only the handler's data preparation and its call to the validator are modelled (`PrepareData`). As written, `originalText` is declared with `const` inside the `if (submitButton)` block (script.js:235). It is then read outside that block (script.js:254 and 262), where it is not in scope. Evaluated, that reference would throw, and the button would stay disabled. The part of the file after script.js:429 is not part of this model, so this was not confirmed against a possible later global.
- The 500 ms debounce and the blur listener (script.js:269-290), `throttle`, and the other modules of the script (menu, scroll animations, skill bars, smooth scrolling, parallax, typing effect, lazy loading, analytics, notifications). These are event wiring, timers and browser APIs.
- ValidateField: the model returns the bool together with the message passed to `showFieldError`, and leaves out the field decoration.
- Scroll positions: `window.scrollY` is a floating-point value in browsers. The model uses integer pixel positions.
- Text.Utf16Length: strings are sequences of Unicode scalar values. A lone surrogate, which a JavaScript string may hold, cannot be represented.
- The rule table's truthiness tests: `rule.min` and `rule.pattern` are modelled as a number that is 0 when absent and a flag. This is exact for the two tables in the source, which hold no other values.
