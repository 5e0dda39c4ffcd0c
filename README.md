# Tinylock discovery core, in Dafny

This project models the core of the Tinylock web library. The library finds
Algorand accounts that hold time-locked tokens of a given asset, and the
Tinyman liquidity pool of two assets. The model has three parts.

- **Pool signature** (`PoolBinary`, `TinymanSignature`, `TinymanPool`).
  The Tinyman V1.1 pool program is a fixed binary of 881 bytes. It has three
  10-byte placeholder regions: asset id 2 at offset 5, asset id 1 at offset
  15, and the validator application id at offset 74. The generator:
  - refuses a null validator id;
  - refuses null asset ids;
  - orders the two asset ids so the larger comes first;
  - walks the placeholder table, splicing in the variable-length encoding of
    each value and correcting each offset by the running size change.

  The model proves three things. The loop gives the program with exactly the
  three regions replaced. The length follows from the encoding lengths. The
  program determines its three parameters.
- **Lock signature** (`Text`, `TinylockSignature`). `sendToCompile` does four
  things:
  - refuses falsy parameters;
  - looks the request up in a memo whose key is JavaScript's `+` of the three
    ids and the address;
  - on a miss, replaces the four `TMPL_` markers in the lock program text;
  - sends the text to the compiler and stores what comes back.

  The memo is a class field. Its invariant says every entry is the compile
  result of the program for parameters with that key. Text replacement is
  proved equal to split-and-join, and the model states when no marker is
  left.
- **Discovery** (`JsNumber`, `Notes`, `Discovery`, `PoolAsa`).
  - A lock transaction's note is either a 58-character account address or
    the target asset id.
  - The older revision (`src/index.ts`) reads the id from the note's bytes as
    hexadecimal. The newer one (`dist/index.js`, `parseNote`) tries the note's
    text as decimal first.
  - Each account is looked at once per transaction list. Its lock
    signature's account decides what is reported: the lock's end, whether it
    is unlocked, the asset, and its share in percent.
  - `searchPoolAsa` finds the pool account for two assets, its pool token,
    and the issued pool tokens.
  - JavaScript's `parseInt`, `Buffer.toString('hex')` and BigInt division are
    modelled explicitly. `parseInt` follows section 19.2.5 of ECMA-262.

Both revisions of the discovery code are modelled side by side under
`Version = Src | Dist`. The outside world is a parameter (`Discovery.World`):
- UTF-8 decoding;
- compiling a lock signature and fetching its account;
- asset parameters;
- the clock.

Assumption: the `bin-protocol` package that encodes the pool program's
integers is not part of this model. Its `UVarint` is taken to be unsigned
LEB128: 7 bits per byte, least significant group first, high bit set on
every byte but the last. This is the encoding Algorand programs use for
integer constants.

The model follows the code where the two revisions differ:
- the empty-balance entry of `src`;
- the decimal fallback of `dist`;
- the separate lock ids per transaction source in `dist`.

## Model

| member | source | states |
|---|---|---|
| Varint.UVarint | src/tinyman_signature.ts:84-85 | the encoding is never empty, and it is one byte exactly for values below 128 |
| Varint.UVarintShape | src/tinyman_signature.ts:84 | every byte but the last has its continuation bit set and the last has it clear, so the encoding is self-delimiting |
| Varint.DecodeEncode | src/tinyman_signature.ts:84 | reading a varint back from the encoding followed by anything gives the value and the encoding's length (round trip) |
| Varint.EncodingInjective | src/tinyman_signature.ts:84 | two encodings followed by arbitrary bytes are equal only for equal values and equal remainders (prefix-free) |
| Varint.UVarintLengthBound | src/tinyman_signature.ts:84-87 | a value below 128^k takes at most k bytes |
| Varint.UVarintFits64 | src/tinyman_signature.ts:84-87 | any 64-bit value takes between 1 and 10 bytes, so it fits the 10-byte placeholder |
| PoolBinary.PoolTemplateLength | src/tinyman_signature.ts:33 | the decoded pool program is 881 bytes long |
| TinymanSignature.SliceInsert | src/tinyman_signature.ts:35-40 | for in-range positions, the result is the part before `start`, then the inserted bytes, then the part from `end` on; its length changes by the inserted length less the removed length |
| TinymanSignature.TemplateTableWellFormed | src/tinyman_signature.ts:12-31 | the three placeholder regions are ascending, disjoint and fit any template of at least 84 bytes |
| TinymanSignature.PatchStep | src/tinyman_signature.ts:78-91 | one loop step: splicing encoding k at its index less the running offset turns the buffer patched for k regions into the one patched for k + 1, and the offset grows by the region length less the encoding length |
| TinymanSignature.PatchedLength | src/tinyman_signature.ts:76-91 | the patched template is the template's length less the final offset |
| TinymanSignature.PatchTemplate | src/tinyman_signature.ts:74-91 | the loop yields the template with every region replaced by the encoding of its value, and its length is the template's less the total drift |
| TinymanSignature.PoolEncodings | src/tinyman_signature.ts:68-72 | for the pool's value lookup every placeholder of the table has a value, and the encodings in table order are the varints of asset 2, asset 1 and the validator application id |
| TinymanSignature.NewTinyman | src/tinyman_signature.ts:44-50 | construction fails with "Tinyman ID not set!" exactly when the validator id is null, and otherwise keeps the id |
| TinymanSignature.ThreeRegionLayout | src/tinyman_signature.ts:76-91 | a three-region patch is the template outside the regions, in order, with each region replaced by its encoding |
| TinymanSignature.PoolProgramLayout | src/tinyman_signature.ts:12-31 | only the reserved regions change: bytes 0-4, 25-73 and 84 onward keep the template's bytes, around the encodings of asset 2, asset 1 and the validator id |
| TinymanSignature.PoolProgramInjective | src/tinyman_signature.ts:52-98 | equal pool programs come from equal asset ids and validator id, so distinct pools get distinct programs |
| TinymanPool.GetPoolSignatureBytes | src/tinyman_signature.ts:52-91 | fails with "Parameters not set!" exactly when an asset id is null; otherwise patches the pool program with the larger id as asset 1, whatever the argument order |
| TinymanPool.PoolProgramLength | src/tinyman_signature.ts:74-91 | for 64-bit ids the program is 851 bytes plus the three encoding lengths, between 854 and 881 bytes |
| Text.Split | src/tinylock_signature.ts:72-75 | splitting at a non-empty marker yields at least one piece |
| Text.ReplaceAllIsJoin | src/tinylock_signature.ts:72-75 | replacing every occurrence, left to right, is the same as splitting at the marker and joining with the replacement |
| Text.SplitJoin | src/tinylock_signature.ts:72-75 | joining the pieces with the marker itself gives back the text |
| Text.ReplaceBySelf | src/tinylock_signature.ts:72-75 | replacing a marker by itself changes nothing |
| Text.ReplaceAbsent | src/tinylock_signature.ts:72-75 | a text without the marker is unchanged by the replacement |
| Text.SplitPiecesFree | src/tinylock_signature.ts:72-75 | no piece of a split contains the marker |
| Text.SplitKeepsAbsent | src/tinylock_signature.ts:72-75 | a string absent from the text is absent from every piece |
| Text.JoinFree | src/tinylock_signature.ts:72-75 | joining marker-free pieces with a non-empty separator that shares no character with the marker gives a marker-free text |
| Text.ReplaceAllRemoves | src/tinylock_signature.ts:72-75 | after replacing a marker by a non-empty text that shares no character with it, the marker no longer occurs |
| Text.ReplaceAllKeepsAbsent | src/tinylock_signature.ts:72-75 | replacing a marker by a non-empty text that shares no character with another string leaves that string absent if it was absent before |
| Text.JoinBordered | src/tinylock_signature.ts:75 | joining marker-free pieces with a marker-free separator creates no marker when the separator touches only pieces whose bordering characters are outside the marker's alphabet |
| Text.SplitPlain | src/tinylock_signature.ts:75 | text before the first character of the separator stays at the front of the first piece |
| Text.NatToDecimal | src/tinylock_signature.ts:72-74 | the decimal text of a number is all digits, not empty, and has no leading zero |
| Text.DecimalRoundTrip | src/tinylock_signature.ts:72-74 | reading the decimal text back gives the number |
| Text.IntToDecimalInjective | src/tinylock_signature.ts:66 | different numbers have different decimal texts |
| Text.DecimalSign | src/tinylock_signature.ts:72-74 | the text starts with '-' exactly for negative numbers |
| Text.NegativeDigits | src/tinylock_signature.ts:72-74 | a negative number's text is '-' followed by the digits of its magnitude |
| Text.DecimalDisjoint | src/tinylock_signature.ts:72-74 | a decimal text shares no character with a text that has no digit and no '-' |
| TinylockSignature.MemoKeySharedBySum | src/tinylock_signature.ts:66 | parameter tuples with the same id sum and address get the same memo key |
| TinylockSignature.MemoKeyCollides | src/tinylock_signature.ts:66-70 | two different parameter tuples (1, 2, 3) and (2, 2, 2) share a memo key, so the second is answered from the first's entry |
| TinylockSignature.MemoKeyDeterminesSum | src/tinylock_signature.ts:66 | for addresses of equal length, equal keys mean equal id sums and equal addresses |
| TinylockSignature.MarkersHaveNoNumberChar | src/tinylock_signature.ts:72-75 | the four markers contain no digit and no '-' |
| TinylockSignature.FillIdsRemovesMarkers | src/tinylock_signature.ts:72-74 | after the three id replacements no id marker is left, whatever the template |
| TinylockSignature.SubstituteRemovesMarkersBordered | src/tinylock_signature.ts:72-75 | for an address without `_`, when every `TMPL_LOCKER_ADDRESS` left after the id replacements sits between characters outside the markers' alphabet (or at an end of the text), the filled program contains none of the four markers |
| TinylockSignature.LockLineBordered | src/tinylock_signature.ts:72-75 | a program line `addr TMPL_LOCKER_ADDRESS` followed by a newline meets that bordering condition; the lock program itself is a constructor parameter, so for a whole program the condition stays a premise |
| TinylockSignature.SubstituteRemovesMarkers | src/tinylock_signature.ts:72-75 | for a non-empty address that shares no character with any marker, the filled program contains none of the four markers, whatever the template and ids |
| TinylockSignature.AddressMayFormMarker | src/tinylock_signature.ts:72-75 | an address containing no marker can still create one: the address "TMPL_ASSET" put in front of "_ID" forms TMPL_ASSET_ID |
| TinylockSignature.SubstituteKeepsText | src/tinylock_signature.ts:72-75 | the address replacement is split-and-join of the id-filled text, and joining with the marker gives that text back |
| TinylockSignature.SubstituteWithoutMarkers | src/tinylock_signature.ts:72-75 | a template without markers is sent unchanged |
| TinylockSignature.Tinylock.constructor | src/tinylock_signature.ts:45-54 | the memo starts empty and keeps the program text and the compiler |
| TinylockSignature.Tinylock.SendToCompile | src/tinylock_signature.ts:56-88 | falsy parameters fail with "Parameters not set!" and change nothing; a memo hit returns the entry without a request; a miss sends the filled program and, on success, stores the result under the key and leaves every other entry; any success is the compile result of the program for parameters sharing the key |
| JsNumber.TrimStart | dist/index.js:236 | the result is a suffix that does not start with white space, and everything dropped is white space |
| JsNumber.DigitRun | dist/index.js:236-238 | the run is all digits of the radix and stops at the first non-digit |
| JsNumber.ReadDigits | dist/index.js:236-238 | there is no number exactly when the text is empty or does not start with a digit |
| JsNumber.ParseIntSkipsSpace | dist/index.js:236 | leading white space does not change what `parseInt` reads |
| JsNumber.ParseIntBlank | dist/index.js:236-239 | a blank text parses to NaN |
| JsNumber.DigitRunOfDigits | dist/index.js:236 | the run of a digit string followed by a non-digit is the whole digit string |
| JsNumber.DecimalDigitsValue | dist/index.js:236 | the radix-10 digit value agrees with the decimal value |
| JsNumber.ParseUnsigned | dist/index.js:236-238 | text starting with a digit (and no 0x prefix) parses to the value of its leading digit run |
| JsNumber.ParseNegated | dist/index.js:236 | a '-' before such text gives the negated value |
| JsNumber.ParseDecimal | dist/index.js:236-237 | the decimal text of any integer, followed by any text starting with a non-digit, parses back to that integer |
| JsNumber.ParseIntToDecimal | dist/index.js:236-237 | the decimal text of any integer parses back to it (round trip) |
| JsNumber.HexDigit | src/index.ts:256 | each of the 16 lowercase hex digits reads back as its value |
| JsNumber.HexOf | src/index.ts:256 | the hex text has two characters per byte |
| JsNumber.HexOfValue | src/index.ts:256-257 | the hex text is all hex digits and its value is the big-endian value of the bytes |
| JsNumber.ParseHexOf | src/index.ts:256-257 | `parseInt` of a non-empty byte string's hex text is the big-endian value of the bytes (round trip) |
| JsNumber.ParseHexOfEmpty | src/index.ts:256-257 | the hex text of no bytes parses to NaN |
| JsNumber.TruncDivRemainder | src/index.ts:316-321 | BigInt division leaves a remainder smaller than the divisor with the sign of the dividend (truncation toward zero) |
| Notes.ParseNote | dist/index.js:223-246 | at most one flag is set; the address flag is set exactly for 58-character texts and carries the text; a number matches a truthy target; an unrecognised note carries null |
| Notes.NumberFallback | dist/index.js:236-245 | a kept decimal reading wins; otherwise the note is a number exactly when the target is falsy or equals the big-endian value of the note's bytes, and then it is that value |
| Notes.DecimalNoteMatches | dist/index.js:236-237 | a note whose text spells a truthy target in decimal, followed by a non-digit, is that number |
| Notes.BinaryNoteMatches | dist/index.js:238-241 | a non-address note whose bytes are the target's big-endian form is that number |
| Notes.Unrecognised | dist/index.js:237-240 | with a truthy target, a rejected note is no address, its text does not parse to the target and its bytes do not spell it |
| Discovery.Classify | src/index.ts:244-265 | a recognised transaction has a note; a migrated one names the 58-character note text and compiles for the target; otherwise the lock is the sender's; the signature asset is the target unless the newer revision ran with a falsy target |
| Discovery.MigrationRecognised | src/index.ts:249-253 | in either revision, a note whose text has 58 characters is always recognised, as a migrated lock named by that text and compiled for the target |
| Discovery.DistRecognises | dist/index.js:110-123 | the newer revision recognises a transaction exactly when it has a note that parses as an address or a number; a number note names the sender's lock with the parsed value as signature asset |
| Discovery.SrcMatchesBytes | src/index.ts:255-264 | the older revision accepts a non-address note exactly when its bytes spell the target |
| Discovery.SrcRecognisedByDist | dist/index.js:110-123 | with a truthy target, everything the older revision recognises the newer one recognises the same way |
| Discovery.DistAlsoReadsDecimal | dist/index.js:236-237 | a note whose text is the target's decimal form is the sender's lock in the newer revision and is ignored by the older one |
| Discovery.Evaluate | src/index.ts:292-323 | an emitted entry is for the candidate's account and carries its migration flag |
| Discovery.FullEntry | src/index.ts:294-321 | a full entry comes from a positive first balance; it names the first holding's asset and its name; its lock time is the first local-state slot; it is unlocked exactly when that time in milliseconds is not after now; its amount is the truncated percentage of the balance in the non-zero divisor |
| Discovery.EmitsFull | src/index.ts:294-321 | a found account with a positive first balance, a known asset, a local-state slot and a non-zero divisor is reported with exactly those fields |
| Discovery.DropsExactly | dist/index.js:136-161 | a candidate is dropped exactly when the account has no holding, when the newer revision sees an empty balance, or when a positive balance comes without a local-state slot, without asset details or with a zero divisor |
| Discovery.AmountRule | dist/index.js:140-143 | for an empty balance the older revision reports the account alone and the newer one drops it; for a positive balance both report the same |
| Discovery.ZeroIssuedIsAbsent | src/index.ts:316-321 | an `issuedLiquidityTokens` of 0 is falsy: the share is taken of the total supply, as if no argument were given |
| Discovery.SharePercent | src/index.ts:316-321 | for a positive balance and divisor the share is the floor of 100 times balance over divisor, and at most 100 when the balance is at most the divisor |
| Discovery.NegativeDivisor | src/index.ts:316-321 | a negative divisor gives a share of at most zero |
| Discovery.UnlockedStays | src/index.ts:300-305 | a later clock changes only the unlocked flag, and an unlocked lock stays unlocked |
| Discovery.Report | src/index.ts:278-336 | an admitted candidate yields at most one entry, for its own account |
| Discovery.ReportsNothing | src/index.ts:278-339 | a candidate yields no entry exactly when its lock account is not found (`catchError` gives `null`, which `filter` removes) or evaluates to nothing |
| Discovery.ReportsEmitted | src/index.ts:278-336 | a candidate whose account is found and evaluates to an entry is reported as exactly that entry |
| Discovery.MatchTransactions | src/index.ts:233-341 | the loop over one transaction list yields exactly what the specification run over the list yields: nothing exactly when some transaction names, for the first time, a lock whose parameters are unset, else the entries in order |
| Discovery.AbortPersists | src/index.ts:278-283 | once a signature request with unset parameters has failed the search, later transactions do not revive it |
| Discovery.DedupElements | src/index.ts:267-276 | the deduplicated list has the same elements |
| Discovery.DedupDistinct | src/index.ts:267-276 | the deduplicated list has no repeats |
| Discovery.StepShape | src/index.ts:244-283 | an unrecognised or already listed account leaves the state unchanged; a new one is appended to `asaSeen[asa]`, fails the search exactly when its lock parameters are unset, and adds at most one entry, for that account, after the earlier ones |
| Discovery.SeenKeys | src/index.ts:233-276 | `asaSeen` only ever has the target asset as a key |
| Discovery.SeenIsDedup | src/index.ts:267-276 | `asaSeen[asa]` is the recognised accounts in order of first appearance |
| Discovery.EntriesSeen | src/index.ts:267-283 | every reported account is listed in `asaSeen[asa]` |
| Discovery.EntriesDistinct | src/index.ts:267-276 | no account is reported twice from one transaction list |
| Discovery.EntriesRecognised | src/index.ts:244-283 | every reported account is one that a transaction's note named as a lock of the target |
| Discovery.RunReportsFirstSeen | src/index.ts:233-341 | a list that does not fail reports, in order, what each account recognised for the first time yields |
| Discovery.FirstSeenAccounts | src/index.ts:244-276 | every first-seen candidate names an account of a recognised transaction |
| Discovery.FirstSeenDistinct | src/index.ts:267-276 | the first-seen candidates name each account once |
| Discovery.FirstSeenDropped | src/index.ts:330-339 | an account named for the first time whose lock account is not found or yields nothing has no entry among the results |
| Discovery.FirstSeenReported | src/index.ts:237-339 | a transaction recognised for an account not seen before in the list, whose report is an entry, has that entry among the results |
| Discovery.AbortsOnUnset | src/index.ts:278-283 | a transaction that names, for the first time, a lock with unset parameters fails the search |
| Discovery.AbortHasCause | src/tinylock_signature.ts:63-64 | a failed search has such a transaction: the only failure is the "Parameters not set!" throw |
| Discovery.AbortsExactly | src/index.ts:278-283 | the search fails if and only if some transaction names, for the first time, a lock with unset parameters |
| Discovery.NeverAborts | src/index.ts:278-283 | with a truthy target, truthy lock ids and non-empty senders, the search never fails |
| Discovery.SearchToken | dist/index.js:94-167 | the results of all transaction lists, each from a fresh `asaSeen`, are concatenated in list order; one failing list fails the whole search |
| Discovery.SearchFailsExactly | dist/index.js:94-167 | the whole search fails if and only if one of its transaction lists fails |
| Discovery.SearchFailsOnUnset | dist/index.js:94-167 | the whole search fails if and only if some transaction of some list names, for the first time in that list, a lock with unset parameters |
| Discovery.SearchFailurePersists | dist/index.js:94-167 | a failure in one transaction list fails the whole search |
| PoolAsa.FirstIlt | src/index.ts:366-377 | there is no value exactly when no slot is keyed `ilt`; otherwise it is the value of the first such slot |
| PoolAsa.PoolInfoOf | src/index.ts:360-384 | success means the account was found, has a created asset, which becomes the pool token, and has a local state whose first `ilt` value is the issued pool tokens plus 1000; a failed lookup is `LookupFailed`; any missing field is `MissingField` |
| PoolAsa.SearchPoolAsa | src/index.ts:348-387 | a null id is refused with "Parameters not set!"; otherwise, for the two ids in either order, the query reads the account behind the pool program of the larger then the smaller id, and reports what that account yields |

## Left out

- Algorand program hashing and addresses (`LogicSigAccount`, `signature.address()`) are not modelled. The pool query maps program bytes to an account through a function parameter, and discovery maps lock parameters to an account.
- Network and indexer calls are parameters of the model: transaction search, account and asset lookups, and the compile request. They are total functions, and `None` stands for a failed request. The API rate limiter and the asset cache are left out.
- The `bin-protocol` `UVarint` encoder is not part of this model; it is taken to be unsigned LEB128.
- Base64 decoding is left out. The pool program is given as its decoded 881 bytes, and the lock program text is a constructor parameter. An empty decoded note from a non-empty base64 string is treated as having no note.
- UTF-8 decoding is a parameter. The 58-character test counts Dafny characters where JavaScript counts UTF-16 code units; the two agree for addresses.
- The rxjs scheduling is not modelled: the order in which `mergeMap` finishes inner requests, concurrency, and `merge`/`switchMap` cancelling an older transaction list in `src/index.ts`. Results keep transaction order, and the older revision is modelled one transaction list at a time.
- An empty transaction list adds nothing to the result. In `src/index.ts` such a list emits no array at all, which the per-list model does not distinguish from an empty array.
- The date text (`new Date(time).toDateString()`) is left out; the entry keeps the lock's end in seconds.
- `parseInt` is modelled for radix 10 and 16 to the exact integer. Floating-point rounding above 2^53 and `Number` comparison of large values are not modelled. Ids are unbounded integers.
- JavaScript `replace` patterns (`$&`, `$1`) in a replacement string are not modelled; the address is inserted literally.
- On a memo hit, `sendToCompile` returns the stored compile result rather than a `LogicSigAccount` (src/tinylock_signature.ts:68-70). Calling `signature.address()` on it then throws, and `catchError` drops the candidate (src/index.ts:286, 330-335). A hit happens on a second search with the same object, and in the newer revision when the migration list and the V1 list use the same lock ids (dist/index.js:95-99), depending on which request finishes first. The model reports these candidates as if the compile had been repeated, and discovery does not thread the memo into its account lookup.
- `undefined`, `NaN` and non-integer ids are not modelled. Falsy ids are 0 and a falsy address is the empty string. Null pool ids are `None` in `SearchPoolAsa`; the lock ids in discovery have no null.
- Logging (`console.debug`, `this.log`) is left out.
- TinylockSignature.SubstituteRemovesMarkers: it requires an address that shares no character with any marker. No unconditional "no marker is left" holds, because an address can form a marker together with the template text around it (`AddressMayFormMarker`). `SubstituteRemovesMarkersBordered` states the same result under conditions real programs meet: an address without `_`, and address slots bordered by characters outside the markers' alphabet.
- The network constants (`src/constants.ts`) are not part of this model. Lock application and asset ids are parameters: one pair per transaction list in the newer revision.
