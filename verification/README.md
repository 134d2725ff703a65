# E-mail composer: address check and submit rule

This project models the submit-time validation of the chat assistant's e-mail
composer (`components/custom/email-form.tsx`). The component holds four text
fields (`to`, `cc`, `subject`, `body`) and an error record with optional `to`
and `subject` messages. On submit it does three things:

- It recomputes the error record from scratch. The `to` field gets a "required" message when empty, or else an "invalid" message when it fails `validateEmail`. The `subject` field gets a "required" message when empty.
- It replaces the shown errors with that record.
- It calls `onSubmit` with the four field values only when the record has no keys.

`validateEmail` tests the regular expression `^[^\s@]+@[^\s@]+\.[^\s@]+$`.

The model has two modules:

- `EmailAddress` (`email_address.dfy`) models the pattern twice:
  - as the finite automaton a regular-expression engine runs (`Step`, `Accepts`, `ValidateEmail`);
  - as a declarative description (`IsLocalPart`, `IsDomain`, `IsAddress`).

  Lemmas prove that the two agree on every string. JavaScript's `\s` is written out as the ECMAScript WhiteSpace and LineTerminator code points (`IsWhitespace`).
- `Composer` (`email_form.dfy`) has three parts:
  - The error record is a `map<Field, string>` holding the component's own Portuguese messages. "No keys" is the empty map.
  - `SubmitErrors` is the record a submit computes.
  - The class `EmailForm` holds the fields and the errors. It also has a ghost log, `submitted`, of every payload handed to `onSubmit`. `HandleSubmit` is the imperative handler. Its invariant `Valid()` says that every logged payload had a valid address and a non-empty subject.

`SubmitTwice` is a caller's-eye example. The empty form shows both "required" messages and sends nothing. After the fields are filled in, the old messages are gone and the exact field values are sent.

## Model

| member | source | states |
|---|---|---|
| `EmailAddress.ValidateEmail` | components/custom/email-form.tsx:30-33 | the regex test accepts a string exactly when it is a local part, one `@` and a domain (`IsAddress`) |
| `EmailAddress.FromDone` | components/custom/email-form.tsx:31 | once the whole pattern is matched, the anchored match succeeds exactly when only `[^\s@]` characters follow |
| `EmailAddress.FromDot` | components/custom/email-form.tsx:31 | after the separating `.`, the rest must be a non-empty run of `[^\s@]` (the final `[^\s@]+$`) |
| `EmailAddress.FromDomain` | components/custom/email-form.tsx:31 | after the first domain character, the rest matches exactly when it is `[^\s@]` characters with a `.` before its last character |
| `EmailAddress.FromAtSign` | components/custom/email-form.tsx:31 | after the `@`, the rest matches exactly when it is a domain: `[^\s@]` characters with a `.` that is neither first nor last |
| `EmailAddress.FromLocal` | components/custom/email-form.tsx:31 | once the local part has begun, the rest matches exactly when it splits at an `@` into more local characters and a domain |
| `EmailAddress.FromStart` | components/custom/email-form.tsx:31 | the automaton run from its start state accepts exactly the strings described by `IsAddress` |
| `EmailAddress.SplitAtSign` | components/custom/email-form.tsx:31 | for any split `l + "@" + d`, the whole is accepted if and only if `l` is a non-empty run without whitespace or `@` and `d` is a domain |
| `EmailAddress.AcceptedShape` | components/custom/email-form.tsx:31 | every accepted address has exactly one `@`, no whitespace character and at least five characters, so the empty string is rejected |
| `EmailAddress.PatternPieces` | components/custom/email-form.tsx:31 | any three non-empty `[^\s@]` runs `a`, `b`, `c` joined as `a@b.c` are accepted |
| `EmailAddress.AcceptedExamples` | components/custom/email-form.tsx:31 | `ana@exemplo.com` and `a.b@c.d.e` are accepted |
| `Composer.SubmitErrors` | components/custom/email-form.tsx:38-50 | `to` has an error exactly when it is not a valid address. That error is the "required" message exactly when `to` is empty, and the "invalid" message exactly when it is non-empty, so the two exclude each other. `subject` has the "required" error exactly when it is empty, whatever `to` is. The record is empty exactly when `to` is valid and `subject` is non-empty |
| `Composer.WhitespaceToIsInvalid` | components/custom/email-form.tsx:41-45 | a non-empty `to` made only of whitespace passes the required check and gets the "invalid" message |
| `Composer.EmailForm.constructor` | components/custom/email-form.tsx:21-28 | the form starts with all four fields empty, no errors and nothing submitted |
| `Composer.EmailForm.SetTo` | components/custom/email-form.tsx:79 | editing the `to` input sets that field and no other |
| `Composer.EmailForm.SetCc` | components/custom/email-form.tsx:93 | editing the `cc` input sets that field and no other |
| `Composer.EmailForm.SetSubject` | components/custom/email-form.tsx:107 | editing the `subject` input sets that field and no other |
| `Composer.EmailForm.SetBody` | components/custom/email-form.tsx:117 | editing the body text area sets that field and no other |
| `Composer.EmailForm.HandleSubmit` | components/custom/email-form.tsx:35-58 | leaves the four fields unchanged. Replaces `errors` with the freshly computed `SubmitErrors`, so no earlier error persists. Logs exactly one payload, `{to, cc, subject, body}` unaltered, when `to` is a valid address and `subject` is non-empty, and logs nothing otherwise. Keeps the invariant that every logged payload was valid |

## Left out

- The JSX and styling (components/custom/email-form.tsx:60-134): the animation, the markup, the error paragraphs and the button bindings. Only the four `onChange` bindings are modelled, as the `Set…` methods.
- `e.preventDefault()` (line 36): it is a browser event call with no effect on the form state.
- `onCancel` and the effects of the `onSubmit` callback: they belong to the caller. `onSubmit` is modelled as an append to the ghost log `submitted`.
- React's asynchronous state scheduling: `setErrors` is modelled as a direct assignment.
- Browser behaviour of `<input type="email">`. A browser trims and strips line breaks from its value, and can block the submit through native constraint validation before the handler runs. The model takes the field values as the handler sees them.
- Code units: JavaScript matches the pattern on UTF-16 code units, and the model matches it on Unicode scalar values. No surrogate is whitespace or `@`, so both give the same verdict.
- `IsWhitespace` follows the current Unicode space-separator set (U+180E is not in it).
- components/custom/history.tsx, components/custom/weather.tsx and components/custom/email.tsx. These are data fetching, network calls, floating-point display arithmetic and markup selection, not part of the composer's rule.
- app/(chat)/api/chat/route.ts (the tool-orchestration route) is not part of this model.
