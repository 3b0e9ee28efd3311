# Mailbox provisioning service, modelled in Dafny

The service has one HTTP endpoint, `POST /create-mailbox`. It takes a first
name, a last name and a requester. It then drives the hosting provider's web
console through a headless browser to create an e-mail mailbox, and answers
with the new address and its password.

This project models the parts of `createMailbox.js` that are plain logic rather than browser calls:

- **`Text`** (`text.dfy`): the string operations the code relies on, and one the proofs need.
  - `String.prototype.includes` (lines 106 and 117).
  - `toLowerCase`, restricted to ASCII letters (line 132).
  - Searching a string for a character. The source never does this; the model uses it only to build the inverses `SplitAddress` and `ParseDescription`, and the witness in `EveryLayoutIsGenerated`.
- **`Password`** (`password.dfy`): `generatePassword`.
  - It is an imperative method with the source's `while` loop.
  - Randomness comes from an explicit oracle, `Draws`.
  - It is proved equal to the specification function `PasswordFrom`.
  - Layout, composition-policy and surjectivity lemmas are proved about `PasswordFrom`.
- **`Identity`** (`identity.dfy`): the mailbox local part, the e-mail address and the description typed into the form.
  - The address and the description each come with an inverse (`SplitAddress`, `ParseDescription`) and a round-trip lemma.
  - The local part has no inverse. Its partner is `LocalPartEqualIff`, which says exactly when two name pairs give the same local part.
- **`Navigation`** (`navigation.dfy`): the click on the mailbox entry and the bounded retry loop.
  - The loop is a method over an abstract page: `answers[k]` is where click `k` settles and whether the entry is there again.
  - The method is proved equal to the recursive specification `Navigate`.
  - When the mailbox link is found, `Navigate` is proved equal to an independent account, `FirstStop`, which reads the clicks until the first one that is not a miss. When the link is not found, `Navigate` fails at once with no click.
  - The properties are proved from `FirstStop`.
- **`Provisioning`** (`provisioning.dfy`): the request handler and the `createMailbox` workflow.
  - Every browser step other than the retry loop is an abstract outcome inside a `Console` value: it completes or throws a message.
  - The two checks the source makes itself are booleans: the e-mail menu entry (line 90) and the mailbox link (line 98).

The managed domain is a parameter; in the source it comes from the environment. A few behaviours of the code are easy to misread, and the model follows the code in each:

- **The navigation error message.** The message is "Still not on Mailboxes page after retries" (line 118).
- **How retries are counted.** A retry click is issued only when the mailbox entry is present, but the counter advances on every iteration (lines 105-115). So "up to two retries" means up to two iterations, not two clicks.
- **What happens after Save.** The workflow returns right after clicking Save (lines 140-145). Nothing reads or classifies a confirmation text.

## Model

| member | source | states |
|---|---|---|
| Text.Contains | createMailbox.js:106 | `String.prototype.includes`: `sub` occurs in `s` as a contiguous block at some position. It is a predicate with no contract of its own; `OnList` uses it for both URL checks (lines 106 and 117). |
| Text.LowerChar | createMailbox.js:132 | ASCII lower-casing of one character. The result is never a capital. Non-capitals are unchanged. A capital moves to its lower-case letter. |
| Text.ToLower | createMailbox.js:132 | `toLowerCase` keeps the length and lowers every character in place. |
| Text.ToLowerConcat | createMailbox.js:132 | Lower-casing distributes over concatenation. |
| Text.ToLowerIdempotent | createMailbox.js:132 | Lowering twice equals lowering once. |
| Text.ToLowerFixedPoint | createMailbox.js:132 | A string is its own lower-case form if and only if it has no ASCII capital. |
| Password.ClassesSpelledOut | createMailbox.js:149-151 | The lower-case, upper-case and digit classes are exactly the source's strings. |
| Password.AlphabetSize | createMailbox.js:149-153 | The classes have 26, 26, 10 and 18 characters. `all` has 80. A character is in `all` if and only if it is in one of the four classes. |
| Password.PasswordFrom | createMailbox.js:148-160 | The password the source returns for the draws `d`: the three seeded characters followed by the padding from the first nine padding draws. It always has exactly 12 characters. |
| Password.Padding | createMailbox.js:158 | The padding holds one character of `all` per draw, at the drawn index. |
| Password.GeneratePassword | createMailbox.js:148-160 | The loop builds exactly `PasswordFrom(d)`: three seeded characters, then padding up to length 12. Character 0 is lower-case, 1 is upper-case, 2 comes from the class the coin chose, and the rest come from `all`. |
| Password.GeneratedLayout | createMailbox.js:154-158 | For every oracle the password has 12 characters. They are a lower-case letter, an upper-case letter, a character of the coin's class, then characters of `all`. |
| Password.LayoutMeetsPolicy | createMailbox.js:155-158 | The layout implies the composition policy. The password has at least 12 characters, including a lower-case letter, an upper-case letter and a digit or special. It has nothing outside the alphabet. |
| Password.GeneratedMeetsPolicy | createMailbox.js:148-160 | Every oracle yields a password meeting the composition policy. |
| Password.EveryLayoutIsGenerated | createMailbox.js:154-158 | Every string with the layout is produced by some well-formed oracle. So the layout describes exactly the possible results. |
| Identity.LocalPart | createMailbox.js:132 | The mailbox name: the lowered first character of the first name, a dot, then the lowered last name. It has two more characters than the last name. |
| Identity.Address | createMailbox.js:143 | `local@domain`. The result is the local part, then `@` right after it, then the domain. |
| Identity.Description | createMailbox.js:138 | The fixed-format description `erstellt: <createdBy>, request: <requestedBy>, freelancer: <firstName> <lastName>`. It has no contract of its own; `DescriptionRoundTrip` states what it preserves. |
| Identity.SplitAddress | createMailbox.js:143 | Splitting at the last `@` fails exactly when there is no `@`. Otherwise it gives a local part and an `@`-free domain that join back into the address. |
| Identity.AddressRoundTrip | createMailbox.js:143 | `local@domain` splits back into `local` and `domain` whenever the domain has no `@`. |
| Identity.LocalPartIsLowerCase | createMailbox.js:132 | The local part holds no ASCII capital and is its own lower-case form. |
| Identity.LocalPartIgnoresCase | createMailbox.js:132 | The local part does not depend on how the names are capitalised. |
| Identity.LocalPartEqualIff | createMailbox.js:132 | Two name pairs give the same local part if and only if their lowered initials and lowered last names agree. |
| Identity.LocalPartJaneDoe | createMailbox.js:132 | ("Jane", "Doe") gives "j.doe". |
| Identity.LocalPartSmithJones | createMailbox.js:132 | ("A", "Smith-Jones") gives "a.smith-jones". |
| Identity.LocalPartMustermann | createMailbox.js:132 | ("Max", "Mustermann") gives "m.mustermann". |
| Identity.DescriptionRoundTrip | createMailbox.js:138 | The description reads back into the creator, the requester and the full name whenever neither the creator nor the requester holds a comma. |
| Navigation.Retry | createMailbox.js:105-119 | The retry loop from the page at `url` with `budget` iterations left. It adds at most `budget` clicks, and it goes on only from a URL on the mailbox list. |
| Navigation.Navigate | createMailbox.js:97-119 | The whole step: fail with "Mailboxes link not found" and no click when the link is missing, otherwise click once and run the loop with two iterations. It has no contract of its own; `ClicksBound`, `ReachedIff`, `FailureMessages` and the other lemmas below state its properties. |
| Navigation.NavigateToMailboxList | createMailbox.js:97-119 | The loop computes exactly the specification `Navigate`. It fails at once when the link is missing. It clicks once, then iterates at most twice: it clicks again only when the entry is present and advances the counter either way. It then fails unless the URL holds `/mailbox/list`. |
| Navigation.RetryWithoutLink | createMailbox.js:105-119 | With the entry absent the loop issues no click. It only spends its budget, then settles on the current page. |
| Navigation.RetryIsFirstStop | createMailbox.js:105-119 | After a missed click the loop agrees with the independent first-stop account. |
| Navigation.NavigateIsFirstStop | createMailbox.js:97-119 | With the link found, the whole step agrees with the first-stop account. |
| Navigation.FirstStopSkipsMisses | createMailbox.js:106-115 | Missed clicks are skipped over in the first-stop account. |
| Navigation.FirstStopDecidedAt | createMailbox.js:106-119 | Some click `m <= 2` decides the outcome. All clicks before it missed, `m + 1` clicks were issued, and going on means click `m` landed on the list at that URL. |
| Navigation.ClicksBound | createMailbox.js:97-115 | At most 3 clicks in all: 1 initial and at most 2 retries. No click at all exactly when the link is not found. |
| Navigation.ReachedOnlyOnList | createMailbox.js:117-119 | The workflow passes this step only from a URL containing `/mailbox/list`. |
| Navigation.ReachedAtFirstOnList | createMailbox.js:100-119 | If click `k` is the first to land on the list, the step goes on from that page after `k + 1` clicks. For example, two misses then success gives three clicks. |
| Navigation.ReachedIff | createMailbox.js:100-119 | The step goes on if and only if one of the three clicks lands on the list after only misses. |
| Navigation.FirstClickOnList | createMailbox.js:100-106 | A first click that lands on the list issues no retry click. |
| Navigation.AlwaysMissing | createMailbox.js:100-119 | A page that misses on every click fails with "Still not on Mailboxes page after retries" after exactly 3 clicks. |
| Navigation.EntryGoneFails | createMailbox.js:106-119 | A click that lands off the list with the entry gone leads to no more clicks, and the step fails. |
| Navigation.FailureMessages | createMailbox.js:98-119 | The step fails only with one of its two own messages, or else with the message of the last click it issued, which threw. |
| Provisioning.ValidateRequest | createMailbox.js:23-35 | A record is built if and only if all three fields are present and non-empty. It carries the body's fields and `createdBy` "Elunic". |
| Provisioning.HandleCreateMailbox | createMailbox.js:21-43 | The handler answers 200, 400 or 500. It answers 400 exactly when the body is incomplete, and exactly then it starts no run. It answers 200 exactly when the run created the mailbox. |
| Provisioning.CreateMailbox | createMailbox.js:51-146 | The workflow over the console: sign-in, the e-mail menu check, the mailbox entry, the navigation step, the form, and then the credentials. It issues at most 3 clicks, and a created mailbox has a 12-character password. |
| Provisioning.IncompleteRejected | createMailbox.js:26-28 | An incomplete body gets 400 `{error: "Missing required fields"}` and no workflow runs. |
| Provisioning.CompleteRunsWorkflow | createMailbox.js:30-38 | A complete body runs the workflow on the record with creator "Elunic". The answer is 200 or 500. |
| Provisioning.SuccessReply | createMailbox.js:36-38 | A 200 answer comes from a complete body and a run that reached the list. It carries the derived address and a password meeting the policy, the same one typed into both password fields. |
| Provisioning.CreatedRun | createMailbox.js:117-145 | A run that created the mailbox reached the list. It used the derived local part, address, generated password and description. |
| Provisioning.FailureReply | createMailbox.js:39-42 | For a complete body, any answer other than 200 is 500 `{error: "Mailbox creation failed"}` with the aborting step's message as detail. |
| Provisioning.NavigationFailureAborts | createMailbox.js:117-119 | A navigation failure aborts the workflow before the form, with the navigation's own message and click count. |
| Provisioning.FormMatchesCredentials | createMailbox.js:132-143 | The form matches the returned credentials. The password is typed twice and is the one returned. When the domain has no `@`, the returned address splits into the typed local part and the domain. When neither the creator nor the requester holds a comma, the description reads back into the creator, the requester and the full name. |
| Provisioning.CooperativeRun | createMailbox.js:51-146 | Against a console where every step completes and the first click lands on the list, the workflow creates the derived mailbox after one click. |
| Provisioning.CooperativeReply | createMailbox.js:20-38 | A complete request against such a console is answered with 200, the derived address and the generated password. |
| Provisioning.MaxMustermann | createMailbox.js:20-145 | Max Mustermann, requested by hr-team, gets 200 with `m.mustermann@<domain>` and a password meeting the policy, after one click. |
| Provisioning.NeverOnListFails | createMailbox.js:100-119 | A complete request whose every click misses gets 500 with "Still not on Mailboxes page after retries", after exactly 3 clicks. |

## Left out

- **HTTP server.** Express setup, CORS, body parsing and `app.listen` (lines 12-18, 46-48) are HTTP plumbing. The handler is a function of the decoded body.
- **Non-string JSON values.** Request fields are `Option<string>`, where `None` stands for absent or null. Numbers, booleans and objects in the body are not modelled, nor is their JavaScript truthiness.
- **Browser calls.** Puppeteer launch, viewport, `goto`, `type`, `click`, the `waitForSelector`/`waitForFunction` timeouts and the in-page `evaluate` code (lines 52-96, 121-140) are foreign calls. Each is an abstract step in `Console` that completes or throws a message. The e-mail menu check and the mailbox-link check are booleans.
- **Timing and concurrency.** The 3-second `setTimeout` (line 79) and the `Promise.all` pairing of a click with its navigation are not modelled. A click and its navigation form one answer in `Click`.
- **Randomness.** `Math.random` is replaced by the `Draws` oracle. Uniformity and probability are not reasoned about.
- **Environment and logging.** `dotenv`, `process.env` credentials and `console` logging are out. The domain is a parameter.
- **Browser cleanup.** The code never closes the browser, so no session lifecycle is modelled.
- Text.ToLower: lower-cases ASCII letters only. Unicode case mapping of `toLowerCase` is not modelled.
- Identity.LocalPart: `firstName[0]` is the first Unicode scalar value of the name. In JavaScript it is the first UTF-16 code unit, so for a first name that starts with a character outside the Basic Multilingual Plane the source types a lone surrogate where the model types the whole character.
- Navigation.Retry: the page changes only on a click. An iteration that issues no click keeps the last landing's URL and entry presence, whereas the source reads the URL and queries the entry again on every iteration. A navigation that completes late, or an entry that renders only by the next iteration, is not modelled.
- **The third password character.** The coin `Math.random() < 0.5` is a boolean in `Draws`, with no threshold.
- **What the console does after Save.** The workflow is taken to succeed as soon as the form step completes, as the source returns right after the click.
