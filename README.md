# OneLogin password manager core, modelled in Dafny

This project models the logic of a browser-extension password manager. It has three parts.

- **Vault** (`src/utils/storage.ts`). Credentials are kept in the browser's key-value store under three keys: a credentials blob, the settings, and the master-password hash.
  - The blob is the JSON text of the credential list. Each code unit is XORed with the passphrase, repeating, and the result is base64-encoded with `btoa`.
  - Saving replaces the entry with the same id and appends the new one. Deleting removes by id. A lookup by URL filters on hostname.
  - The settings fall back to defaults. The master record holds the lower-case hexadecimal SHA-256 digest of the passphrase.
  - A password generator builds a character set from the enabled classes, clamps the length to 8..64 and draws characters with `Math.random`.
- **Autofill** (`src/utils/autofill.ts`).
  - A keyword and type heuristic marks input fields as username-like and password-like.
  - Form detection runs in three phases: forms matching the login selectors; otherwise every form; otherwise one virtual form per password input, built around its nearest `div`/`section`/`main` container.
  - The submit button is chosen by first match.
  - Filling writes values and dispatches `input` and `change` events. Submitting clicks the button or submits the form.
- **Search** (`src/components/SiteList.tsx`). A case-insensitive substring filter over name, URL and username, and the message shown for an empty result.

## Modules

| file | module | models |
|---|---|---|
| `wrappers.dfy` | `Wrappers` | `Option` |
| `seqs.dfy` | `Seqs` | `filter` and `find` on sequences; subsequences |
| `text.dfy` | `Text` | `toLowerCase` (ASCII), `includes`, `trim` (ECMAScript white space), class-list tokens |
| `code_units.dfy` | `CodeUnits` | JavaScript strings as UTF-16 code units (`bv16`); Latin-1 strings as bytes |
| `base64.dfy` | `Base64` | `btoa`: the base64 encoding of section 4 of RFC 4648. `atob`: the WHATWG forgiving-base64 decode, which accepts missing padding and ASCII white space |
| `cipher.dfy` | `Cipher` | `encrypt`, `decrypt` |
| `master_key.dfy` | `MasterKey` | `hashPassword` hex encoding, `verifyPassword` |
| `records.dfy` | `Records` | `LoginCredential`, `AppSettings`, `DEFAULT_SETTINGS` |
| `vault.dfy` | `Vault` | the `storage` object as a class over an in-memory backend map |
| `generator.dfy` | `Generator` | `generatePassword` as a method with a loop |
| `dom.dfy` | `Dom` | the document as a sequence of elements in document order; `querySelectorAll`, `closest`, the `type` property |
| `autofill.dfy` | `Autofill` | `detectForms` and its classifier; `fillForm` and `submitForm` as methods of a `Page` class holding the elements and an event log |
| `site_list.dfy` | `SiteList` | the search filter and the empty-state message |

### Abstractions

- **Foreign functions become parameters.** `Vault.Platform` holds four functions the vault calls:
  - `JSON.stringify` and `JSON.parse`, with `None` where `JSON.parse` throws;
  - SHA-256;
  - the `hostname` of `new URL(...)`, with `None` where the constructor throws.
- **What is assumed of JSON.** The vault relies on one property, `JsonRoundTrips`: the text of a list is non-empty and parses back to the same list. It is part of the class invariant.
- **`Math.random` is an oracle.** `random(i)` is the value of the i-th call, with every value in [0, 1).
- **Storage calls are atomic.** Each asynchronous vault operation is modelled as one atomic step on the backend map.

### Behaviour worth noting

The model keeps these behaviours of the code as they are.

- Both form phases yield one detected form per form, including forms without a password field.
- One field may be both username-like and password-like.
- There is no "first non-password field" fallback for the username.
- `fillForm` returns true when either field was written.
- A credential URL that does not parse matches by substring.
- The submit button is the first button-like element that passes the test, in document order.
- `saveCredential` under a passphrase whose decryption of the blob does not parse reads an empty collection, so it overwrites the vault with the one new entry. A different passphrase that gives the same keystream ("abab" for "ab") reads the real collection.

## Model

| member | source | states |
|---|---|---|
| `Base64.Encode` | src/utils/storage.ts:44-51 | `btoa` of n bytes is 4·⌈n/3⌉ characters |
| `Base64.DecodeEncode` | src/utils/storage.ts:44-57 | `atob(btoa(b)) == b` for every byte string |
| `Base64.Decode` | src/utils/storage.ts:57 | `atob` as a definition, without a contract of its own: white space removed, one or two trailing `=` dropped from a length that is a multiple of four, `None` for a remaining length of 1 modulo 4 or a character outside the alphabet; `Base64.DecodeEncode` is its round trip |
| `Cipher.KeyAt` | src/utils/storage.ts:48 | the key unit is 0 for the empty passphrase (`^ NaN`) and otherwise a unit of the passphrase |
| `Cipher.XorStream` | src/utils/storage.ts:45-50 | the result has the text's length, and each result unit XORed with the text unit gives back the key unit at that position |
| `Cipher.Encrypt` | src/utils/storage.ts:42-52 | `encrypt` succeeds exactly when every XORed unit is at most 255, the condition under which `btoa` does not throw; the ciphertext length is 4·⌈n/3⌉ |
| `Cipher.Decrypt` | src/utils/storage.ts:54-67 | `decrypt` never throws: `""` when `atob` rejects the input, otherwise one unit per decoded byte |
| `Cipher.XorStreamInvolutive` | src/utils/storage.ts:45-62 | the repeating-key XOR applied twice gives back the text |
| `Cipher.DecryptEncrypt` | src/utils/storage.ts:42-62 | `decrypt(encrypt(s, p), p) == s` whenever `encrypt` does not throw, for every passphrase including the empty one |
| `Cipher.EncryptLatin1` | src/utils/storage.ts:42-52 | text and passphrase of units below 256 never make `encrypt` throw |
| `Cipher.EncryptNonEmpty` | src/utils/storage.ts:42-52 | non-empty text has a non-empty ciphertext, so the stored blob is never read as missing |
| `Cipher.NonLatin1PassphraseThrows` | src/utils/storage.ts:48 | a passphrase unit above 255 can make `encrypt` throw |
| `MasterKey.HexByteDigits` | src/utils/storage.ts:162 | `b.toString(16).padStart(2, '0')` is exactly two digits, high nibble first |
| `MasterKey.HexEncode` | src/utils/storage.ts:161-163 | two lower-case hex digits per byte |
| `MasterKey.HexDecodeEncode` | src/utils/storage.ts:161-163 | the hex text decodes back to the digest bytes |
| `MasterKey.HexEncodeInjective` | src/utils/storage.ts:161-163 | distinct digests give distinct hex texts |
| `MasterKey.HashPassword` | src/utils/storage.ts:157-164 | the stored hash is 64 lower-case hex digits |
| `MasterKey.VerifyPassword` | src/utils/storage.ts:166-169 | only a stored text of 64 hexadecimal digits can verify |
| `MasterKey.VerifyIffSameDigest` | src/utils/storage.ts:166-169 | a candidate verifies against the hash of `p` exactly when its SHA-256 digest equals that of `p` |
| `Vault.WithoutId` | src/utils/storage.ts:99 | the result is no longer than the input, and each of its entries is an input entry with another id |
| `Vault.Upsert` | src/utils/storage.ts:74 | the result is non-empty, at most one longer than the input, and ends with the saved credential |
| `Vault.WithoutIdSpec` | src/utils/storage.ts:99 | delete keeps exactly the entries with another id, in order, each as often as it occurs (equal multiset counts); deleting an absent id changes nothing |
| `Vault.UpsertSpec` | src/utils/storage.ts:74 | after a save the new credential is last and is the only entry with its id; the rest are the old entries with other ids, in order |
| `Vault.UpsertIdempotent` | src/utils/storage.ts:72-77 | saving the same credential twice equals saving it once |
| `Vault.StoredCollectionRoundTrip` | src/utils/storage.ts:76-89 | a written blob is non-empty and decrypts and parses back to the written list |
| `Vault.MatchesDomain` | src/utils/storage.ts:110-117 | the domain test as a definition, without a contract of its own: hostname equality when the credential's url parses, substring containment of the query hostname in the raw url when it does not; `FindCredentialsForUrl` states what it selects |
| `Vault.Storage.HasMasterPassword` | src/utils/storage.ts:131-134 | a truthy value is stored under the master key; a definition without a contract of its own, whose changes `SetMasterPassword`, `VerifyMasterPassword` and `ClearAllData` state |
| `Vault.Storage.GetCredentials` | src/utils/storage.ts:81-94 | `[]` when no truthy blob is stored (`if (!encrypted) return []`), when decryption gives `""` or when parsing throws; otherwise exactly the parsed list, and any non-empty result is that parse |
| `Vault.Storage.SaveCredential` | src/utils/storage.ts:72-78 | succeeds exactly when `encrypt` does not throw; then only the credentials key changes, and reading back with the same passphrase gives the upsert of the old collection |
| `Vault.Storage.DeleteCredential` | src/utils/storage.ts:97-103 | the same, with the old collection minus that id |
| `Vault.Storage.FindCredentialsForUrl` | src/utils/storage.ts:106-118 | absent when the query URL does not parse; otherwise exactly the stored credentials matching its hostname, in stored order, each as often as it is stored |
| `Vault.Storage.GetSettings` | src/utils/storage.ts:121-124 | the defaults until settings are saved, the saved settings afterwards |
| `Vault.Storage.SaveSettings` | src/utils/storage.ts:126-128 | only the settings key changes, and `getSettings` then returns the saved value |
| `Vault.Storage.SetMasterPassword` | src/utils/storage.ts:131-140 | afterwards `hasMasterPassword()` holds, `verifyMasterPassword(p)` holds, and any candidate verifies exactly when its digest equals that of `p` |
| `Vault.Storage.VerifyMasterPassword` | src/utils/storage.ts:142-149 | false with no stored hash; true exactly when the stored value is the candidate's hash |
| `Vault.Storage.ClearAllData` | src/utils/storage.ts:151-153 | all three records become absent: `hasMasterPassword()` is false, the settings are the defaults, no credentials under any passphrase |
| `Generator.WithDefaults` | src/utils/storage.ts:173 | a missing option takes its default (length 16, every class on); a given option wins |
| `Generator.Charset` | src/utils/storage.ts:174-180 | the character set is never empty |
| `Generator.CharsetMembers` | src/utils/storage.ts:175-181 | a character is in the set exactly when its class is enabled, or it is lower case and nothing is enabled; the set is never empty |
| `Generator.NoClassMeansLowercase` | src/utils/storage.ts:175-181 | with no class enabled the set is the lower-case alphabet; otherwise its size is the sum of the enabled classes' sizes |
| `Generator.ClampLength` | src/utils/storage.ts:184 | the length is the requested one clamped to 8..64 |
| `Generator.DrawIndex` | src/utils/storage.ts:187 | `Math.floor(Math.random() * n)` is an index in `[0, n)` |
| `Generator.BuildCharset` | src/utils/storage.ts:174-180 | appending each enabled class in turn, with lower case for an empty result, yields exactly `Charset` of the settings |
| `Generator.GeneratePassword` | src/utils/storage.ts:172-192 | the length is the clamped setting; character i is the charset entry chosen by the i-th draw, so every character is in the charset |
| `Dom.Closest` | src/utils/autofill.ts:69 | the nearest proper ancestor matching the selector, with none between; absent when no ancestor matches |
| `Dom.QueryAll` | src/utils/autofill.ts:55 | every matching node of the scope, each once, in document order |
| `Dom.FirstMatch` | src/utils/autofill.ts:80-90 | the first node of the scope in document order that passes the test; absent when none does |
| `Dom.TypeOf` | src/utils/autofill.ts:143 | the `type` property is lower case, and for an input it is one of the known keywords |
| `Dom.TypeOfInput` | src/utils/autofill.ts:64 | for a known input type other than "text", the `type` property and the `[type=...]` selector agree |
| `Autofill.Classify` | src/utils/autofill.ts:142-174 | the field record copies the control's type, id, name and class |
| `Autofill.PasswordTypeIsPassword` | src/utils/autofill.ts:158-163 | a control of type "password" is password-like whatever its id, name or placeholder |
| `Autofill.EmailTypeIsUsername` | src/utils/autofill.ts:151-155 | a control of type "email" is username-like whatever its id, name or placeholder |
| `Autofill.ClassifyIgnoresCase` | src/utils/autofill.ts:146-163 | controls of one type whose id, name and placeholder agree after lower-casing get the same two flags |
| `Autofill.NoPasswordKeywordNotPassword` | src/utils/autofill.ts:158-163 | a control not of type "password" whose lower-cased id, name and placeholder contain none of "pass", "pwd", "secret" is not password-like |
| `Autofill.PasswordKeywordIsPassword` | src/utils/autofill.ts:158-163 | a control whose lower-cased id, name or placeholder contains "pass", "pwd" or "secret" is password-like, whatever its type |
| `Autofill.UsernameKeywordIsUsername` | src/utils/autofill.ts:151-155 | a control whose lower-cased id, name or placeholder contains a username keyword is username-like, whatever its type |
| `Autofill.NoUsernameKeywordNotUsername` | src/utils/autofill.ts:151-155 | a control not of type "email" whose lower-cased id, name and placeholder contain no username keyword is not username-like |
| `Autofill.UpperCaseKeywordIsPassword` | src/utils/autofill.ts:146-163 | the keyword test sees lower-cased attributes: a text input with id "PWD" is password-like |
| `Autofill.BothFlagsMayHold` | src/utils/autofill.ts:151-163 | a password input whose id mentions "user" is both password-like and username-like |
| `Autofill.FallbackAgreesWithClassify` | src/utils/autofill.ts:80-90 | on an input, the fallback phase's username test equals the form phase's |
| `Autofill.Fields` | src/utils/autofill.ts:140-174 | the fields are exactly the enabled, non-hidden controls inside the form, each classified, in document order |
| `Autofill.FirstUsername` | src/utils/autofill.ts:177 | `usernameField` is the first field with `isUsername`, and absent when no field has it |
| `Autofill.FirstPassword` | src/utils/autofill.ts:178 | `passwordField` is the first field with `isPassword`, and absent when no field has it |
| `Autofill.SubmitButton` | src/utils/autofill.ts:181-190 | the first button-like descendant, in document order, whose text mentions sign in, login, log in, enter or submit or whose type attribute is "submit"; absent when none qualifies |
| `Autofill.ProcessForm` | src/utils/autofill.ts:139-199 | the detected form's node, fields and button are those of the form, and its username and password fields are the first fields with the respective flag |
| `Autofill.ContainerOf` | src/utils/autofill.ts:69 | when the password input has a `div`/`section`/`main` ancestor, the result is the nearest such ancestor; when it has none, the body |
| `Autofill.FallbackUsername` | src/utils/autofill.ts:72-90 | the first container input, other than the password input, that is enabled, not hidden, not a checkbox and not a radio button, and looks like a username |
| `Autofill.Fallback` | src/utils/autofill.ts:64-135 | the virtual form is built around the container, carries the password input as a password-only field, has no fields, and has a username field exactly when `FallbackUsername` finds one, which it then is, as a username-only field record copying that input's type, id, name and class |
| `Autofill.IsLoginForm` | src/utils/autofill.ts:33-48 | the login selector list as a definition, without a contract of its own: a form whose action, id, class or name attribute contains one of the listed words, or whose class list holds one of the listed tokens |
| `Autofill.LoginSelectorSubstring` | src/utils/autofill.ts:37 | the selectors match substrings: a form posting to "/oauth" is a login form |
| `Autofill.DetectForms` | src/utils/autofill.ts:53-200 | `detectForms()` returns nothing exactly when the page has neither a form nor a password input |
| `Autofill.FormsToProcess` | src/utils/autofill.ts:55-60 | the login-selector forms if there is one, else every form; empty exactly when the page has no form |
| `Autofill.LoginPhase` | src/utils/autofill.ts:55-58 | with a login-selector form present, exactly those forms are processed, once each, in document order |
| `Autofill.FormPhase` | src/utils/autofill.ts:58-60 | otherwise every form is processed, once each, in document order |
| `Autofill.FallbackPhase` | src/utils/autofill.ts:63-67 | with no form, one virtual form per password input, in document order, each with that input as its password field |
| `Autofill.DetectedRefsValid` | src/utils/autofill.ts:53-200 | every node a detected form names exists |
| `Autofill.FilledNode` | src/utils/autofill.ts:205-225 | filling changes no property of a node other than its value |
| `Autofill.Page.Detect` | src/utils/autofill.ts:53 | `detectForms()` on the page is `DetectForms` of its current nodes, and every returned form refers only to nodes that exist |
| `Autofill.Page.FillForm` | src/utils/autofill.ts:205-225 | writes the username and password only when the field exists and the value is non-empty, password last; logs `input` then `change` per write; returns true exactly when a write happened; no other node changes |
| `Autofill.Page.SubmitForm` | src/utils/autofill.ts:230-239 | clicks the submit button if there is one; else submits the container if it is a form; else returns false and logs nothing; the nodes never change |
| `SiteList.FilterCredentials` | src/components/SiteList.tsx:18-31 | the shown list is no longer than the credentials and holds only credentials |
| `SiteList.FilterSpec` | src/components/SiteList.tsx:18-31 | a blank query shows every credential; otherwise exactly the credentials whose lower-cased name, url or username contains the lower-cased query, each as often as it occurs; the result is an ordered subsequence |
| `SiteList.CaseInsensitive` | src/components/SiteList.tsx:19-27 | queries equal after lower-casing give the same list |
| `SiteList.UntrimmedQuery` | src/components/SiteList.tsx:19-27 | the query is matched untrimmed: "ab " misses a credential that "ab" finds |
| `SiteList.FilteredEmpty` | src/components/SiteList.tsx:18-31 | the filtered list is empty exactly when there are no credentials or a non-blank query matches none of them |
| `SiteList.EmptyStateMessage` | src/components/SiteList.tsx:45-62 | the empty-state text as a definition, without a contract of its own: none for a non-empty list, else "No saved passwords yet" or "No matches found"; `EmptyStateSpec` characterises both |
| `SiteList.EmptyStateSpec` | src/components/SiteList.tsx:45-62 | "No saved passwords yet" exactly when there are no credentials; "No matches found" exactly when a non-blank query matches none of them |

## Left out

- The interleaving of concurrent asynchronous vault calls, such as two overlapping `saveCredential` calls where the last write wins. Each operation is one atomic step.
- Failures of `chrome.storage.sync` itself. The backend is a map that always answers.
- The internals of `JSON.stringify` and `JSON.parse`. So is a parse result that is not an array: `Platform.parse` yields a credential list or nothing.
- The internals of SHA-256, `TextEncoder` and the WHATWG URL parser. They are function parameters.
- `generateId` (`Date.now` and `Math.random`), because it depends on the clock.
- `console.error` logging.
- A `Partial<AppSettings>` option given explicitly as `undefined`, which overrides the default in a spread. A non-integer or `NaN` password length. Options are present or absent, and lengths are integers.
- Unicode case mapping. `toLowerCase` is modelled on ASCII letters only, so the keyword and search matching are exact only for ASCII text.
- Element values of `<select>` and `<textarea>`, beyond the stored `value` string.
- CSS selector matching in general. Each selector the code uses is written out as a predicate.
- `textContent` is kept as a stored string instead of being computed from child nodes.
- Event bubbling, page event handlers and the effects of `click()` and `submit()`. They are recorded as entries of an event log.
- `Autofill.Page.SubmitForm`: the form's named-property lookup is not modelled. A form control whose `name` or `id` is "submit" hides the form's own `submit` method, so when no submit button was chosen the code's `form.element.submit()` throws a TypeError. The model submits the form and returns true there. Likewise, a control named or id'd "tagName" hides `tagName`, and the code then returns false where the model submits.
- Assigning the three functions onto `window`, which is plumbing.
- `Generator.DrawIndex`: `Math.floor(Math.random() * n)` is computed on exact reals, not IEEE doubles. The rounding of the double product is not modelled, so for a given draw the model's index can be one lower than the code's when the rounded product reaches the next integer.
- `Autofill.Page.FillForm`: the assignment `element.value = ...` stores the string unchanged. The browser's value sanitisation (an email input trims white space, line breaks are stripped from single-line inputs, a number input drops non-numeric text) and the exception a file input throws on a non-empty value are not modelled.
- Credential fields and DOM strings are Dafny `string`, whose characters cannot be lone UTF-16 surrogates; the vault's blob text is modelled as `bv16` code units and has no such gap.
- `Vault.Storage.GetSettings`: a truthy non-object value stored under the settings key would be returned as is by the code. The model returns the defaults there, and the class invariant rules such a value out.
