# Verified model of vaultwarden-api

vaultwarden-api is a caching bridge in front of a Vaultwarden server: it logs in, fetches and
decrypts the vault, keeps the result in memory, and serves secrets by name to API keys that may be
restricted to organizations or collections. This project models its five hard parts in Dafny and
proves what they promise.

Run `dafny verify dfyconfig.toml` in this directory.

## The parts

* **Credentials.** `Credentials.dfy` has the class `APIClient`, whose methods overwrite the four
  credential fields, each method specified by a function of the old state. `Renewal.dfy` runs any
  number of `Sync` calls side by side: a step is one critical section or one network answer, and
  between steps anything may happen. `RenewalTheorems.dfy` holds the theorems about every reachable
  state and ties the two together: every publication in a concurrent run is one whole sequential
  renewal. `RenewalAlone.dfy` shows that a call run alone ends as the methods of `APIClient` do.
* **Cipher strings.** `Base64.dfy`, `CipherStrings.dfy`, `SealedStrings.dfy` and `CanonicalStrings.dfy` have
  base64 (section 4 of RFC 4648), the parser, CBC (section 6.2 of NIST SP 800-38A), PKCS#7 padding
  (section 6.3 of RFC 5652), the MAC gate and key unwrapping, with the printer and the encryptor as their
  inverses. The block cipher, HMAC, HKDF, RSA and PKCS#8 parsing are function parameters; `Primitives.Lawful` says
  what is assumed of them: encryption and decryption of a block are inverse, and outputs have their
  fixed lengths.
* **The cache.** `VaultItems.dfy` decrypts a payload, `Names.dfy` builds the name maps, `Reconcile.dfy`
  says what a history of payloads makes of the cache, `SyncGuard.dfy` when an unreadable payload
  replaces it, `VaultClient.dfy` has the class `Client` whose invariant is that its cache is that
  function of its history, `SyncOrder.dfy` runs sync cycles concurrently against a vault that keeps changing, `LockOrder.dfy` excludes deadlock and
  `Background.dfy` is the loop of background ticks.
* **Lookups.** `Lookup.dfy` says which item a name stands for, what a miss reports and what a listing
  shows; `PathParam.dfy` decodes the name in a request path; `Scope.dfy` resolves query filters and key
  scopes and states what a request is shown.
* **Client addresses.** `Headers.dfy` parses a raw header block with folded lines, `RealIp.dfy` walks the
  forwarded chain and reads edge headers.

`GoStrings.dfy`, `Sorting.dfy` and `Wrappers.dfy` hold the library functions used throughout. A Go string is
a sequence of bytes, so a `char` stands for one byte. Case folding is a parameter (`Casing`) of
which only equivalence, idempotence and "only the empty string folds to the empty string" are assumed.

What the network, the clock and library code answer are parameters of the methods and steps, over
which every theorem quantifies.

## Where the code says less than its comments

* After a retried request is rejected the expiry is zeroed, which the comment at
  `internal/vaultwarden/api_client.go:515-522` calls forcing re-authentication. The next attempt renews
  (`RenewalTheorems.ZeroedExpiryForcesRenewal`), but tries the refresh grant first:
  `Credentials.ForcedRenewalCanRefresh` is an input on which it does not log in,
  `Credentials.ForcedRenewalIff` says exactly when it does, and `Credentials.RefreshingNeverLogsIn` shows
  that any number of rejected cycles can pass without a login.
* Without strict matching, `lookupFailure` counts a hidden item only if it matches by lowercase
  containment, not if it matches by folding alone. `Lookup.LooseDiagnosisCanBeWrong` gives an input on
  which the diagnosis is then wrong, and which the handler accepts: the name "s" and a hidden item named
  with the long s. `Lookup.LooseDiagnosisIff` says exactly when the diagnosis is right, and
  `Lookup.StrictDiagnosisIsRight` needs no condition.
* A failed background tick leaves the count of partial successes alone, so "in a row" in
  the log at `internal/vaultwarden/client.go:558-560` means "since the last clean success":
  `Background.NotInARow` is an input on which the two differ, `Background.InARowIff` says exactly when they
  do not.
* The encryption type of a cipher string is read by a function that accepts a sign and leading zeros,
  and the base64 decoder skips line breaks and ignores the unused bits of a padded quantum, so different
  strings parse alike (`SealedStrings.ParseIsNotInjective`, `CanonicalStrings.ParseIgnoresBreaks`,
  `CanonicalStrings.ParseIgnoresSpareBits`). Parsing after printing is the identity; printing after
  parsing is so exactly on the canonical strings (`CanonicalStrings.PrintParseIff`).
* A payload whose only live ciphers fail to decrypt and carry no id reports no failure, so it counts as
  a success and empties the cache, although the guard at `internal/vaultwarden/api_client.go:587-593`
  is there to keep a broken key from doing that. `SyncGuard.GuardCanBePassed` is such an input, and
  `SyncGuard.GuardIff` says exactly which payloads get past the guard.

## Model

| member | source | states |
|---|---|---|
| Credentials.APIClient.constructor | internal/vaultwarden/api_client.go:149-161 | a new client has no tokens, no key and an expiry that is always past |
| Credentials.APIClient.Authenticate | internal/vaultwarden/api_client.go:166-223 | succeeds exactly when every step of the login does; publishes tokens and expiry of the answer together with the key it carries or, if it carries none, the key of the profile, opened with the master key; or changes none of the four fields |
| Credentials.APIClient.RefreshAccessToken | internal/vaultwarden/api_client.go:226-272 | succeeds exactly with a refresh token and a non-empty access token in the answer; keeps the key, and the refresh token when no new one comes; a failure changes nothing |
| Credentials.APIClient.RefreshOrReauthenticate | internal/vaultwarden/api_client.go:277-299 | does nothing when the stale token is no longer current; else takes the token of a usable refresh answer and keeps the key; else logs in, which is then the outcome; a login is attempted exactly in the last case |
| Credentials.APIClient.EnsureValidToken | internal/vaultwarden/api_client.go:302-315 | with a minute or more of validity left changes nothing, and otherwise does one renewal; attempts a login exactly if it renews and there is no refresh token or the refresh brings no token |
| Credentials.APIClient.Fetch | internal/vaultwarden/api_client.go:462-530 | new credentials, the fetched response with its key and the number of logins attempted, over every outcome of every request, as `FetchYieldsIff` and `FetchLeaves` spell out |
| Credentials.FetchYieldsIff | internal/vaultwarden/api_client.go:462-530 | a fetch yields a body with a key exactly if the renewals it enters succeed, the last reply it hears, the first one unless that was a 401, is a 200 with that body, and the key is the one current afterwards |
| Credentials.FetchLeaves | internal/vaultwarden/api_client.go:462-523 | the credentials a fetch leaves: those of the last renewal it entered, with the expiry zeroed exactly if the retry was rejected, too |
| Credentials.LoginWithIsSound | internal/vaultwarden/api_client.go:194-211 | every session a login opens has a non-empty token and a key with two 32-byte halves |
| Credentials.RenewalIsAllOrNothing | internal/vaultwarden/api_client.go:277-299 | a failed renewal changes nothing; a changed state means the stale token was replaced; a new key only comes with a new login; the access token never becomes empty |
| Credentials.FetchKeepsCredentials | internal/vaultwarden/api_client.go:462-525 | a response always comes with the key that is current after the fetch, a full one; the access token is never lost; two rejections yield no response |
| Credentials.ForcedRenewalIff | internal/vaultwarden/api_client.go:289-299 | after the expiry was zeroed the next fetch renews first, and that renewal is a login exactly if there is no refresh token or the refresh brings no token |
| Credentials.RejectedWithoutLoginIff | internal/vaultwarden/api_client.go:512-523 | a fetch that starts with a zeroed expiry and is rejected twice passes without a login exactly if both of its renewals can refresh |
| Credentials.RefreshingNeverLogsIn | internal/vaultwarden/api_client.go:512-523 | while the refresh grant keeps answering, any number of fetches in a row can be rejected twice without one login |
| Credentials.ForcedRenewalCanRefresh | internal/vaultwarden/api_client.go:514-522 | an instance: after two rejections the next fetch is served after a refresh alone, under the key of the old login |
| Renewal.StepKeeps | internal/vaultwarden/api_client.go:226-299 | every step of every call keeps the invariant that ties tokens, key, lock holder and each call's stale token together |
| Renewal.ReachableInv | internal/vaultwarden/api_client.go:137-145 | the invariant holds in every reachable state of any number of calls |
| RenewalTheorems.CredentialsMatch | internal/vaultwarden/api_client.go:213-219 | access token, any refresh token and key stem from one login in every reachable state, and so does every (token, key) pair a call sends or returns |
| RenewalTheorems.ReplacedOnce | internal/vaultwarden/api_client.go:274-287 | if the server never reissues a token, each token is replaced by at most one renewal |
| RenewalTheorems.LateCallsSkip | internal/vaultwarden/api_client.go:277-287 | token requests are made by one call at a time, for the current token only; a call whose token is already replaced succeeds without one |
| RenewalTheorems.RetryUsesAnotherToken | internal/vaultwarden/api_client.go:483-505 | at most two sync requests per call, the second never with the rejected token; a renewal that returns success has left another token |
| RenewalTheorems.RefreshIsAtomic | internal/vaultwarden/api_client.go:226-268 | a concurrent refresh publishes what one sequential renewal of the credentials it finds would |
| RenewalTheorems.LoginIsAtomic | internal/vaultwarden/api_client.go:289-299 | so does a full login |
| RenewalTheorems.OnlyPublicationsChange | internal/vaultwarden/api_client.go:252-268 | failed refreshes and failed logins leave all four fields alone in every interleaving |
| RenewalTheorems.ZeroedExpiryForcesRenewal | internal/vaultwarden/api_client.go:302-315 | once the expiry is zeroed, every later call enters renewal until some renewal publishes |
| RenewalTheorems.NeverStuck | internal/vaultwarden/api_client.go:274-299 | while a call is unfinished, some call can step |
| RenewalTheorems.RunsAreBounded | internal/vaultwarden/api_client.go:462-525 | the steps of all calls together are bounded by a measure of the starting state |
| RenewalTheorems.WithoutLockLoginsMix | internal/vaultwarden/api_client.go:137-140 | without the renewal lock two calls can pair a token of one login with the key of another |
| RenewalAlone.CallAlone | internal/vaultwarden/api_client.go:462-530 | from every state with a free lock and for every answer the server and clock may give, a call run alone reaches the credentials and the result of `APIClient.Fetch`; its first request carries the token that is current after the renewal |
| RenewalAlone.EnsureAlone | internal/vaultwarden/api_client.go:302-315 | its first part reaches those of `EnsureValidToken` |
| RenewalAlone.RenewAlone | internal/vaultwarden/api_client.go:277-299 | and each of its renewals those of `RefreshOrReauthenticate` |
| RenewalAlone.RetryAlone | internal/vaultwarden/api_client.go:483-523 | after a rejected first request it renews, asks once more with the new token, and zeroes the expiry if that is rejected, too |
| Base64.DecodeEncode | internal/vaultwarden/crypto.go:112-131 | decoding inverts encoding on all byte strings |
| Base64.DigitsAreTheAlphabet | internal/vaultwarden/crypto.go:112-131 | the 64 digits are capital letters, small letters, decimal digits, plus and slash, in this order (table 1 of RFC 4648) |
| Base64.OctetsAreTheNumber | internal/vaultwarden/crypto.go:112-131 | four sextets and the three octets they decode to are one 24-bit number, most significant part first (section 4 of RFC 4648) |
| CipherStrings.UnpadIffPad | internal/vaultwarden/crypto.go:396-416 | unpadding succeeds with m exactly on the padding of m |
| CipherStrings.Pkcs7Unpad | internal/vaultwarden/crypto.go:396-416 | the loop computes the unpadding that `UnpadIffPad` characterises |
| CipherStrings.CbcInverse | internal/vaultwarden/crypto.go:184-186 | CBC decryption inverts CBC encryption for every key, IV and block-aligned plaintext |
| CipherStrings.XorAt | internal/vaultwarden/crypto.go:184-186 | a bit of an exclusive or is set exactly if the bits of its operands differ |
| CipherStrings.CbcBit | internal/vaultwarden/crypto.go:184-186 | a decrypted byte differs from the byte of the deciphered block exactly in the bits set in the byte of the ciphertext block before it, or of the IV for the first block |
| CipherStrings.PaddingIs | internal/vaultwarden/crypto.go:396-416 | padding adds up to a whole block, at least one byte, each byte holding how many there are |
| CipherStrings.CryptBlocks | internal/vaultwarden/crypto.go:184-186 | filling the buffer block by block gives the CBC decryption |
| CipherStrings.Decrypt | internal/vaultwarden/crypto.go:148-195 | result and error of decryption, with every check in the order of the code; `DecryptedIff` says what they amount to |
| CipherStrings.DecryptedIff | internal/vaultwarden/crypto.go:148-195 | which cipher strings decrypt to a plaintext, under any key: the IV is one block, the ciphertext whole blocks, type 0 has no MAC key, type 2 has one under which the HMAC of IV and ciphertext is its MAC, the key is an AES key, and CBC decryption gives the padded plaintext |
| SealedStrings.ParsePrint | internal/vaultwarden/crypto.go:89-145 | parsing inverts printing for all four supported types |
| SealedStrings.WrittenFormats | internal/vaultwarden/crypto.go:89-145 | the four formats character by character: type, dot, and base64 of IV, ciphertext and MAC between bars |
| SealedStrings.OneDigitTypes | internal/vaultwarden/crypto.go:103-145 | what follows the dot of an RSA string is base64 as a whole, and types other than 0, 2, 3 and 4 are unsupported |
| SealedStrings.ParseIsNotInjective | internal/vaultwarden/crypto.go:99-102 | two strings that parse alike because a sign and a leading zero are accepted |
| CanonicalStrings.EncodeDecodeIff | internal/vaultwarden/crypto.go:112-131 | encoding what was decoded gives back exactly the canonical encodings: whole quanta, no line breaks, unused bits zero (section 3.5 of RFC 4648) |
| CanonicalStrings.DecodesIff | internal/vaultwarden/crypto.go:133-138 | a string decodes exactly if without its line breaks it is made of whole quanta, of which only the last may be padded |
| CanonicalStrings.PrintParseIff | internal/vaultwarden/crypto.go:89-145 | printing what was parsed gives back exactly the strings with a one-digit type and canonical encodings |
| CanonicalStrings.ParseIgnoresBreaks | internal/vaultwarden/crypto.go:133-138 | two strings that parse alike because a line break is skipped |
| CanonicalStrings.ParseIgnoresSpareBits | internal/vaultwarden/crypto.go:133-138 | two strings that parse alike because unused bits are ignored |
| SealedStrings.DecryptedSealed | internal/vaultwarden/crypto.go:148-195 | decrypting what was padded, encrypted and MACed gives the plaintext, for every plaintext, IV and key |
| SealedStrings.DecryptStrRoundTrip | internal/vaultwarden/crypto.go:207-216 | the same from the printed string to the plaintext text |
| SealedStrings.DecryptionAuthenticates | internal/vaultwarden/crypto.go:156-176 | what decrypts under a key with a MAC half is type 2 and its MAC is the HMAC of IV and ciphertext |
| SealedStrings.DecryptsIff | internal/vaultwarden/crypto.go:148-195 | exactly which strings decrypt under a full key, and to what |
| VaultKeys.SymmetricKeyPaths | internal/vaultwarden/crypto.go:291-322 | a wrapped user key opens exactly if it is a type 2 string that decrypts under the pair of HKDF outputs for "enc" and "mac", in this order, or a type 0 string that decrypts under the bare master key, to two 32-byte halves |
| VaultKeys.StretchedPathAuthenticates | internal/vaultwarden/crypto.go:297-311 | the MAC of a type 2 user key was checked under the HKDF output for "mac" |
| VaultKeys.OrgKeyIsFull | internal/vaultwarden/crypto.go:370-393 | an organization key has two 32-byte halves and came from an RSA type |
| VaultKeys.OrgKeyIff | internal/vaultwarden/crypto.go:370-393 | an organization key opens exactly if it is an RSA string that the private key opens to its two halves |
| VaultKeys.PrivateKeyIff | internal/vaultwarden/crypto.go:340-366 | the private key is what the decrypted string holds, parsed |
| VaultKeys.UnwrapWrapped | internal/vaultwarden/crypto.go:291-322 | unwrapping inverts wrapping on both the stretched and the legacy path |
| VaultItems.FieldMapNames | internal/vaultwarden/api_client.go:670-687 | the item has exactly the field names that some field sets |
| VaultItems.LastFieldWins | internal/vaultwarden/api_client.go:684-686 | the last field that sets a name gives its value |
| VaultItems.DecryptCipher | internal/vaultwarden/api_client.go:625-700 | fails exactly if a value that can be served does not decrypt, and otherwise gives the item of the cipher |
| VaultItems.DecryptableIff | internal/vaultwarden/api_client.go:625-687 | a cipher decrypts exactly if its name and whichever it has of notes, password and values of unlinked fields do |
| VaultItems.ItemHolds | internal/vaultwarden/api_client.go:625-700 | every member of the item of a cipher in the cipher's own fields: the decrypted values, location from the first of the two places that has one, and the trimmed organization and folder, the collections |
| VaultItems.FieldHolds | internal/vaultwarden/api_client.go:670-687 | the decrypted name of an unlinked field leads to its decrypted value unless a later field has the name |
| VaultItems.StringsDecrypt | internal/vaultwarden/crypto.go:207-216 | a string decrypts to what the cipher string it spells does, byte for byte, and the empty one to itself |
| VaultItems.DecryptedItemIsAuthentic | internal/vaultwarden/api_client.go:625-700 | under a full key every non-empty value of an item is the decryption of a string of the cipher whose MAC was checked |
| VaultItems.OrgKeyMapIsFull | internal/vaultwarden/api_client.go:532-550 | every organization key that was opened is full |
| VaultItems.OrgKeyMapIds | internal/vaultwarden/api_client.go:539-547 | there is a key for exactly the ids of organizations one of whose keys opens |
| VaultItems.LastOrgKeyWins | internal/vaultwarden/api_client.go:539-547 | the last key that opens for an id is its key |
| VaultItems.OrgKeysAre | internal/vaultwarden/api_client.go:532-550 | a payload gives an organization a key exactly if its private key opens and with it one of the keys under that id |
| VaultItems.DecryptOrgKeys | internal/vaultwarden/api_client.go:532-550 | the loop collects the keys that open, and none when the private key does not |
| VaultItems.DecryptOne | internal/vaultwarden/api_client.go:555-584 | a cipher is skipped if trashed, read if its key is known and it decrypts, and otherwise reported as a failure with its current placement if it has an id |
| VaultItems.KeyOfIs | internal/vaultwarden/api_client.go:560-574 | a cipher of no organization has the user key, any other one the key of its organization, if there is one |
| VaultItems.ReadsAndFails | internal/vaultwarden/api_client.go:555-584 | a cipher is read exactly if it is not trashed, its key is known and it decrypts, and a failure exactly if it is not trashed, has an id, and is not read |
| VaultItems.DecryptAll | internal/vaultwarden/api_client.go:552-585 | the items and the failures of a payload, in order |
| Names.DecryptVaultLabel | internal/vaultwarden/api_client.go:335-357 | the label under the first key that yields one, else the raw text unless it is a cipher string |
| Names.LabelIs | internal/vaultwarden/api_client.go:340-350 | the first usable key under which the label decrypts to something decides |
| Names.LabelFallsBack | internal/vaultwarden/api_client.go:351-356 | without one the trimmed text is shown unless it is a cipher string |
| Names.LabelsAreDecrypted | internal/vaultwarden/api_client.go:340-356 | ciphertext is never shown as a name: what labels a cipher string, some key decrypted |
| Names.BuildSyncNameMaps | internal/vaultwarden/api_client.go:362-414 | the three name maps of a payload, as maps of (id, label) lists that `NamedIff` and `LastNameWins` characterise; organization names are tried with the user key first, collections without a known organization key get no label |
| Names.OrganizationName | internal/vaultwarden/api_client.go:365-379 | the name of an organization is its label under the user key or else its own |
| Names.FolderName | internal/vaultwarden/api_client.go:381-391 | that of a folder its label under the user key |
| Names.CollectionName | internal/vaultwarden/api_client.go:393-411 | that of a collection its label under the key of its organization |
| Names.NamedIff | internal/vaultwarden/api_client.go:365-411 | an id has a name exactly if it is not empty and some entry gives it a non-empty label |
| Names.LastNameWins | internal/vaultwarden/api_client.go:365-411 | its name is the label of the last such entry |
| Names.NamesAreClean | internal/vaultwarden/api_client.go:365-411 | no name map holds an empty id or an empty name |
| Reconcile.LastReadIsLast | internal/vaultwarden/client.go:489-495 | of several decrypted ciphers with one id the last is the one in the cache |
| Reconcile.FirstFailIsFirst | internal/vaultwarden/client.go:446-456 | of several failures with one id the first gives the placement |
| Reconcile.ApplyAt | internal/vaultwarden/client.go:464-504 | what one payload does to each id: decrypted now, carried over with its new placement if live but undecryptable, else gone |
| Reconcile.CacheIsHistory | internal/vaultwarden/client.go:444-513 | over any history an id is cached with content v exactly if some payload decrypted it to v and every later one found it live but undecryptable; a cycle without payload changes nothing |
| Reconcile.CacheIsCurrent | internal/vaultwarden/client.go:442-504 | every cached entry is stored under its own non-empty id, and an untrashed cipher of the latest payload has that id, and its trimmed organization and folder and its collections are those of the entry |
| Reconcile.CachedValuesWereAuthenticated | internal/vaultwarden/api_client.go:533-576 | if every payload came with a full key, every cached entry is, placement aside, the item that the cycle it is held since decrypted from a cipher of its id with that payload's key for it, a full one, and every non-empty value passed its MAC check in that cycle |
| SyncGuard.GuardIff | internal/vaultwarden/api_client.go:587-593 | a payload of which nothing can be read gets past the guard exactly if every cipher is trashed or carries no id |
| SyncGuard.PassingEmptiesCache | internal/vaultwarden/client.go:489-504 | such a payload then empties the cache |
| SyncGuard.ReadingSyncs | internal/vaultwarden/api_client.go:587-593 | a payload of which anything can be read counts as a success, whatever else fails |
| SyncGuard.GuardCanBePassed | internal/vaultwarden/api_client.go:587-593 | an instance: a live cipher that cannot be read and carries no id empties a cache with an item in it |
| VaultClient.RetainFailedCiphers | internal/vaultwarden/client.go:444-460 | the reconciled cache, and the number of entries it gained |
| VaultClient.CarriedOver | internal/vaultwarden/client.go:497-503 | that number counts exactly the cached ids the payload did not decrypt |
| VaultClient.Sync | internal/vaultwarden/api_client.go:462-607 | the outcome of one sync: unreachable, nothing decrypted, or a decrypted vault |
| VaultClient.Client.constructor | internal/vaultwarden/client.go:73-88 | a new client has an empty cache and an empty history |
| VaultClient.Client.Initialize | internal/vaultwarden/client.go:91-104 | a failed login changes nothing; after a successful one history, cache, name maps, retained count and credentials are those of a first sync cycle with the new credentials |
| VaultClient.Client.Adopt | internal/vaultwarden/client.go:469-504 | what a cycle makes of each of its three outcomes: cache, name maps and retained count; keeps the invariant |
| VaultClient.Client.SyncVault | internal/vaultwarden/client.go:464-513 | one more cycle of history, cache, name maps, retained count and credentials; if no reply has status 200, cache, name maps and count stay as they were; keeps the invariant that the cache is a function of the history |
| VaultClient.Client.CacheIsAuthentic | internal/vaultwarden/client.go:464-513 | every entry the client can serve is, placement aside, the item that the cycle it is held since decrypted from a cipher of its id with that payload's full key, all its values MAC-checked under that key |
| VaultClient.SelectMatch | internal/vaultwarden/client.go:162-183 | the first candidate that satisfies the predicate, if one does |
| VaultClient.ExtractSecret | internal/vaultwarden/client.go:576-606 | password, else priority field, else notes, else the non-empty field of least name, for every order of the field map |
| Lookup.PasswordFirst | internal/vaultwarden/client.go:577-579 | what is served is the password, |
| Lookup.PriorityFieldNext | internal/vaultwarden/client.go:581-588 | or else the first of the five priority fields, by name, that has a value, |
| Lookup.NotesThenFields | internal/vaultwarden/client.go:590-605 | or else the notes, or else the field with a value that has the least name |
| VaultClient.Client.GetSecret | internal/vaultwarden/client.go:256-292 | the secret of the visible item of least id that folds to the name; if none does and matching is not strict, that of the visible item of least id that contains it in lowercase; else the counts that explain the miss; for every order of the item map |
| VaultClient.Client.ListSecrets | internal/vaultwarden/client.go:367-412 | each visible item once, described without its values, by name and then by id |
| Lookup.ListedUnder | internal/vaultwarden/client.go:380-400 | an item is listed under the names of its organization, its folder and its collections, in order, each where it is known |
| VaultClient.ExplainMiss | internal/vaultwarden/client.go:303-343 | each count is the size of the set of items it is about |
| Lookup.DiagnosisIs | internal/vaultwarden/client.go:224-244 | what the log says of a miss: an empty cache, matching items hidden by the filter, visible ones refused by strict matching, nothing visible, or no such item, with their numbers |
| Lookup.MatchesIff | internal/vaultwarden/client.go:140-157 | a visible item belongs, up to case, to whatever the filter names in each of its five parts |
| Lookup.ExactWins | internal/vaultwarden/client.go:274-280 | a visible item that folds to the name is chosen if none with a lesser id does, whatever else matches |
| Lookup.PartialWins | internal/vaultwarden/client.go:281-287 | if none folds to the name and matching is not strict, the containing one of least id is |
| Lookup.EmptySecretIff | internal/vaultwarden/client.go:576-606 | the empty string is served exactly for an item that holds nothing to serve |
| Lookup.WinnerIff | internal/vaultwarden/client.go:274-291 | a lookup hits exactly if some visible item matches under the rule in force, and then serves a visible match |
| Lookup.HitIffListed | internal/vaultwarden/client.go:367-412 | a lookup hits exactly if the listing under the same filter shows a matching name |
| Lookup.HiddenItemsDoNotMatter | internal/vaultwarden/client.go:185-220 | what a client is told, the value or the text of the error, depends only on the visible items |
| Lookup.ListingIsDetermined | internal/vaultwarden/client.go:362-412 | the visible items determine the listing, for every order of the item map |
| Lookup.StrictDiagnosisIsRight | internal/vaultwarden/client.go:224-244 | under strict matching a miss blames the scope exactly if the name hits without the filter |
| Lookup.LooseDiagnosisIff | internal/vaultwarden/client.go:329-339 | without strict matching the diagnosis is right exactly unless a hidden item matches by folding and none by containment; no visible item matches partially |
| Lookup.LooseDiagnosisIsRight | internal/vaultwarden/client.go:329-339 | it is right for every name whose folded equals contain it in lowercase |
| Lookup.LooseDiagnosisCanBeWrong | internal/vaultwarden/client.go:311-336 | a cache, a filter and a name for which it is wrong |
| SyncOrder.StepKeeps | internal/vaultwarden/client.go:464-513 | every step of every concurrent cycle keeps the order of published versions |
| SyncOrder.CacheNeverGoesBack | internal/vaultwarden/client.go:26-30 | published versions never decrease, and a finished call leaves the cache at least as new as the vault was when it was made |
| SyncOrder.CacheShowsNewestPublished | internal/vaultwarden/client.go:462-466 | in every interleaving every cached entry is live in the newest version ever published |
| SyncOrder.WithoutLockCacheGoesBack | internal/vaultwarden/client.go:26-30 | without the sync lock an older version can replace a newer one |
| LockOrder.ProgramIsDisciplined | internal/vaultwarden/client.go:415-419 | every task takes its locks in ascending order and gives all of them back |
| LockOrder.LongestCycle | internal/vaultwarden/api_client.go:274-299 | the locks of the longest cycle, written out one by one: a refresh before the first request, a login after its rejection, and a second rejection |
| LockOrder.CycleHoldsSyncMu | internal/vaultwarden/client.go:464-513 | a cycle takes the sync lock before its fetch and gives it back after it has published |
| LockOrder.NoDeadlock | internal/vaultwarden/api_client.go:137-140 | in every state of every interleaving of any number of goroutines, while one is unfinished some goroutine can go on, even if waiting writers keep readers out |
| Background.Cycle | internal/vaultwarden/client.go:540-555 | how one tick went, as a function of the client's history |
| Background.BackgroundSync | internal/vaultwarden/client.go:532-572 | every tick is one more cycle and logs what the ticks up to it call for |
| Background.TrailingFailuresAre | internal/vaultwarden/client.go:541-549 | the failure counter is the length of the maximal run of failures at the end |
| Background.StaleErrorIff | internal/vaultwarden/client.go:524-547 | a stale cache is an error exactly if the last three ticks failed |
| Background.PartialsAreRecent | internal/vaultwarden/client.go:555-564 | the other counter counts the partial successes since the last clean one, failed ticks ignored |
| Background.PartialErrorIff | internal/vaultwarden/client.go:555-561 | a half-readable vault is an error exactly at a partial success that is at least the third since the last clean one |
| Background.InARowIff | internal/vaultwarden/client.go:555-564 | the number that error reports is the length of the run of partial successes at the end exactly if no tick failed after one that counts |
| Background.NotInARow | internal/vaultwarden/client.go:555-561 | an instance: partial, failed, partial, failed, partial is reported as three in a row |
| PathParam.DecodeSecretPathParam | internal/handlers/handlers.go:43-60 | the loop decides what at most four passes over the trimmed input decide |
| PathParam.DecodedIff | internal/handlers/handlers.go:48-58 | decoding succeeds with a name exactly if fewer than four unescapes reach it and it has no percent sign |
| PathParam.MalformedIff | internal/handlers/handlers.go:50-59 | exactly when decoding reports a malformed escape, and when too deep a nesting |
| PathParam.DecodedIsStable | internal/handlers/handlers.go:54-56 | a decoded name is a fixpoint of unescaping and no longer than the input |
| PathParam.UnescapeIffEncodes | internal/handlers/handlers.go:50-53 | unescaping inverts every percent-encoding (section 2.1 of RFC 3986) and accepts nothing else |
| PathParam.DecodeInverts | internal/handlers/handlers.go:39-42 | decoding inverts up to three layers of any percent-encoding |
| PathParam.EscapeEncodes | internal/handlers/handlers.go:39-42 | an encoder that escapes percent signs and any bytes it likes produces such an encoding |
| Scope.LookupIdByName | internal/vaultwarden/api_client.go:416-432 | the least id whose trimmed name folds to the trimmed target, for every order of the map |
| Scope.IdByNameIff | internal/vaultwarden/api_client.go:416-432 | a name stands for an id exactly if the id's trimmed name folds to the trimmed name, which is not blank, and no lesser id's does |
| Scope.ResolveRef | internal/handlers/handlers.go:235-244 | a UUID stands for itself, anything else for the id it names |
| Scope.RefIdIs | internal/handlers/handlers.go:235-244 | a blank reference resolves to nothing, a UUID to itself, and anything else to the id it names |
| Scope.ResolveScopeRefs | internal/handlers/handlers.go:248-256 | the ids the references resolve to, in order |
| Scope.RefIdsAre | internal/handlers/handlers.go:248-256 | they are exactly the ids some reference resolves to |
| Scope.ParseUuidQuery | internal/handlers/handlers.go:203-213 | an id parameter is refused exactly if it is there and is no UUID |
| Scope.ResolveDim | internal/handlers/handlers.go:219-231 | the name decides if there is one, then the id; an unknown name leaves the target alone |
| Scope.ParseSecretFilters | internal/handlers/handlers.go:349-403 | a query is refused exactly if it has a fault, with an error that is one of its faults; otherwise each dimension asks for the parsed id it gives, or the id its name stands for, or nothing, and the parts that hold a key's scope are empty |
| Scope.RefusedIff | internal/handlers/handlers.go:349-403 | the faults: in some dimension an id that is no UUID, an id beside a name, a malformed name, or a name nothing is called by |
| Scope.ShownMeetsQuery | internal/handlers/handlers.go:349-403 | what a request sees has the organization, the collection and the folder its query names by id |
| Scope.ApplyKeyScope | internal/handlers/handlers.go:305-344 | denied exactly without a scope or if none of the references the key has in a dimension resolves; otherwise the filter is restricted to the scope and its query part is untouched |
| Scope.ScopeIsABoundary | internal/handlers/handlers.go:258-344 | an item passes the restricted filter exactly if it passes the query and belongs, in every dimension the key names, to an id one of its references resolves to |
| Scope.OrgScopeHidesPersonalItems | internal/handlers/handlers.go:316-328 | a key scoped to organizations never sees an item without one |
| Scope.CollectionScopeHidesLooseItems | internal/handlers/handlers.go:330-341 | a key scoped to collections never sees an item in none |
| Scope.GetSecret | internal/handlers/handlers.go:71-128 | the response to a request: a value, or one of three fixed refusals |
| Scope.ListSecrets | internal/handlers/handlers.go:136-162 | an admitted request gets the listing under its filter, any other one the same refusal |
| Scope.VisibleIff | internal/handlers/handlers.go:305-344 | a request sees exactly the items in scope that its query asks for |
| Scope.QueriesOnlyNarrow | internal/vaultwarden/client.go:108-112 | whatever the query, the request sees no more than the key sees without one |
| Scope.ServedFromScope | internal/handlers/handlers.go:106-127 | a secret that is served belongs to an item in the scope of the key |
| Scope.ServedFromCipher | internal/vaultwarden/client.go:442-504 | the boundary in the terms of the vault: a secret that is served comes from an untrashed cipher of the latest payload whose own trimmed organization, if the key names any, folds to an id one of its references resolves to, and so does one of its collections, if the key names any |
| Scope.OutOfScopeIsUnobservable | internal/handlers/handlers.go:164-175 | caches that agree on the items in scope give the same response to every lookup |
| Scope.OutOfScopeIsUnlisted | internal/handlers/handlers.go:129-162 | and, under the same name maps, the same response to every listing, for every order of either item map |
| Headers.RawHeaderValues | internal/realip/realip.go:369-402 | the scan returns, for each line with this name, its value extended by the maximal run of continuation lines below it |
| Headers.HeaderValuesDistribute | internal/realip/realip.go:369-402 | the values of a block followed by text that does not continue it are those of both in turn |
| Headers.FoldingIsTransparent | internal/realip/realip.go:363-384 | a block and the block with every fold unfolded (section 5.2 of RFC 9112) give the same values, and the latter has no folds left |
| Headers.UnfoldedValues | internal/realip/realip.go:373-399 | the same for any list of lines, orphaned continuation lines included |
| Headers.WrittenFold | internal/realip/realip.go:373-384 | a line that begins with a blank or a tab extends the value above it by a blank and its own trimmed text |
| Headers.UnfoldedChain | internal/realip/realip.go:351-384 | hence both spell the same chain |
| Headers.ForwardedFor | internal/realip/realip.go:351-361 | the loops compute the chain the header values spell |
| Headers.WrittenAddress | internal/realip/realip.go:406-418 | what follows the colon of an ordinary line, a blank and an address with or without a port, parses to the address, |
| Headers.WrittenJunk | internal/realip/realip.go:406-418 | and what is neither is dropped |
| Headers.RepeatedLinesJoin | internal/realip/realip.go:340-342 | repeated lines and their comma-joined value (section 5.2 of RFC 9110) give the same chain |
| Headers.AddedLineAppends | internal/realip/realip.go:340-361 | a proxy that adds its own line appends exactly its address at the right end |
| Headers.ExtendedLineAppends | internal/realip/realip.go:351-361 | so does a proxy that extends the last line |
| RealIp.IsTrustedProxy | internal/realip/realip.go:118-128 | some configured range contains the address; no address is not trusted |
| RealIp.EdgeFor | internal/realip/realip.go:304-316 | the first provider with a range that contains the address |
| RealIp.EdgeOfIff | internal/realip/realip.go:304-316 | there is one exactly if some provider's ranges contain the address |
| RealIp.FirstEdgeWins | internal/realip/realip.go:304-316 | of several providers whose ranges contain the address the first one is meant |
| RealIp.EdgeClientIp | internal/realip/realip.go:324-334 | the address of the only line with this header, if it holds one |
| RealIp.HeaderCache.constructor | internal/realip/realip.go:219-222 | a new memo has read nothing |
| RealIp.HeaderCache.ClientIp | internal/realip/realip.go:292-301 | what reading the header gives, with a scan of the block only for a header not read before |
| RealIp.ApplyEdge | internal/realip/realip.go:267-277 | client and provider from a usable edge header, else the provider recorded as missing, else nothing |
| RealIp.Resolve | internal/realip/realip.go:214-260 | the resolution equals its specification, with at most one scan per distinct edge header whatever the chain |
| RealIp.StopIsRightmost | internal/realip/realip.go:235-252 | the specification's entry is the rightmost that is untrusted or whose edge answers |
| RealIp.WalkedIsResolved | internal/realip/realip.go:235-260 | walking entry by entry with early exits gives the specified resolution, the reported missing header included |
| RealIp.PrefixIsIrrelevant | internal/realip/realip.go:196-201 | whatever a client prepends to a suffix that ends the walk changes nothing but the reported chain |
| RealIp.UntrustedPeerIgnoresChain | internal/realip/realip.go:224-233 | for an untrusted peer the chain is irrelevant |
| RealIp.EdgeHeaderIsIrrelevant | internal/realip/realip.go:238-246 | if no scanned entry lies in an edge range, no edge header matters |
| RealIp.ClientOrigin | internal/realip/realip.go:196-213 | for a trusted peer an entry answers, for itself if untrusted or through the header of its edge, only if every entry to its right is trusted, and the peer or its edge only if every entry is; for any other peer only the peer or its edge answers |
| RealIp.ProxyLineDecides | internal/realip/realip.go:340-350 | with a trusted peer, the address in the line of the last proxy is the client whatever the block above it says |
| RealIp.ProxyAddressDecides | internal/realip/realip.go:340-361 | the same from the bytes of the line: "X-Forwarded-For: " and an address, with or without a port, that is neither trusted nor in an edge's ranges |
| RealIp.EdgeAddressIsUsable | internal/realip/realip.go:318-334 | a block with exactly one line of an edge's header, written like that, yields its address |
| RealIp.EdgeAddressDecides | internal/realip/realip.go:224-258 | and makes it the client, with the edge's name, for an edge that connects directly or is the rightmost entry not merely trusted |
| RealIp.EntryAnswers | internal/realip/realip.go:235-252 | an untrusted entry with only trusted ones to its right, and no usable edge header from there on, is the client |
| RealIp.TrustedChainFallsBack | internal/realip/realip.go:235-260 | a chain of trusted entries without usable edge headers makes the peer, or its edge, answer |
| RealIp.EntryReportsMissing | internal/realip/realip.go:235-252 | the missing header reported then comes from the entries the walk has read, |
| RealIp.MissingIs | internal/realip/realip.go:267-277 | and is that of the leftmost of them whose edge has no usable header |
| RealIp.SecondLineDisables | internal/realip/realip.go:318-328 | a second line with an edge's header makes it unusable |

## Left out

- HTTP transport, JSON decoding, the web framework, logging text, process start and stop.
- The insides of AES, HMAC, HKDF, RSA and PKCS#8: parameters with the stated assumptions.
- Key derivation from the password (PBKDF2, Argon2 and their range checks): the master key of a login is a parameter, absent when derivation fails.
- Parsing of IP addresses, host and port, and address ranges, and membership in a range: parameters.
- Unicode case folding and lowercasing: parameters, apart from the one concrete casing of the counterexample.
- The two regular-expression validators and UUID parsing: parameters; only "the printed form of a UUID is not empty" is assumed.
- The IP allow list, the key store and its middleware, configuration, provider presets: membership tests and environment parsing.
- Rendering of a resolution and of a denial for the log, and the warning about ambiguous matches.
- Preloading a client with ready-made items and name maps, which the service itself does not do.
- Overflow of expiry times: times are unbounded.
- Timing: constant-time comparison, the duration of lookups, and the clock beyond never running backwards.
- Scope.GetSecret: the source reads the name maps twice and then the items, each under its own lock, so a request takes the name maps it read as inputs of their own, and nothing is claimed about the steps being atomic together.
- The client lock of the cache is a critical section in the lock-order model and a single step of a method elsewhere; fairness of the locks is not modelled.
- A sync answer is taken to be a state the vault had between the request and the answer.
