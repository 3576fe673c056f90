# Gift-stock ledger of the baby-shower invitation

This model covers the gift ledger of the invitation app. Guests check in and each guest
picks diaper packs in four sizes, "Fralda RN", "Fralda P", "Fralda M" and "Fralda G".
The sizes start at 10, 20, 30 and 30 packs. The store has three nodes:

- `estoque` or `totals`: a map from size to count.
- `reservas`: a map from guest to size to record.
- `guests`: a map from id to guest.

An empty map stands for a node that does not exist.

Five server variants read and update the store. Each one is modelled as it is written, flaws included:

- `Reservar`, for `api/reservar.js`: a sequential check-and-decrement over the selected sizes. The reservation records are written only after the loop has finished.
- `Estoque`, for `api/estoque.js`: reads the stock and seeds the defaults when the node is absent.
- `ApiServer`, for `api/server.js`: records which sizes a guest chose and never touches the stock.
- `AppServer`, for `app.js`: stores the guest, then lowers each selected size whose total is still positive.
- `TotalsServer`, for `server.js`: recomputes the totals from the maximum counts for each posted guest.

The client rules of `src/App.jsx` are in `AppJsx`. They count how many guests on the list hold each size and block a size once that count reaches the reported stock. They also cover the toggle the blocking rule guards, guest edits, removal and addition, and the validation of the list. The confirmation loop sends one reservation per guest, in list order, to the `Reservar` handler and stops at the first refusal.

The older client `src/App.js` is in `AppJs`. Its edits post to `AppServer`. Rules both clients share are in `Checkin`. The countdown arithmetic of both clients is in `Countdown`.

Shared definitions:

- `JsObject` models JavaScript objects read for their truthiness.
- `Catalog` holds the sizes, their maximum counts and the stock fallback.
- `Text` models `trim`, `parseInt` and `replace`.

Each HTTP request is a method call on a class that holds the store. Storage faults, timestamps and fresh ids are parameters. A confirmation's requests each carry their own timestamp, one per guest position.

## Model

| member | source | states |
|---|---|---|
| `JsObject.Put` | src/App.jsx:566 | `{ ...o, [k]: v }` keeps every key and adds `k`; `k` reads `v` and every other key reads as before; an existing key keeps its place and a new one goes last |
| `Catalog.StoredOrDefault` | api/server.js:45 | the stock readers' fallback: the stored map when the node exists, the maximum counts exactly when it is absent, so the result is never empty |
| `Catalog.NoGifts` | src/App.jsx:433 | a new guest's gifts object has the four sizes as keys and none selected |
| `Text.TrimStart` | src/App.jsx:169 | the result is a suffix of the input; everything dropped is white space; the result does not start with white space |
| `Text.TrimEnd` | src/App.jsx:169 | the result is a prefix of the input; everything dropped is white space; the result does not end with white space |
| `Text.Trim` | src/App.jsx:169 | definition of `trim()`: the leading white space is dropped, then the trailing; its properties are the three rows below |
| `Text.TrimBlank` | src/App.jsx:169 | `trim()` gives the empty string exactly when every character is white space |
| `Text.TrimTrims` | src/App.jsx:514 | a trimmed string neither starts nor ends with white space |
| `Text.TrimIdempotent` | src/App.jsx:514 | trimming a trimmed name changes nothing |
| `Text.DigitPrefix` | src/App.jsx:136 | the longest run of leading digits: all of it is digits and the next character is not |
| `Text.ParseInt` | src/App.jsx:175 | `parseInt` skips leading white space first; it yields a number only when the input contains a digit |
| `Text.ParseSigned` | src/App.jsx:175 | after the white space: one optional sign, then the longest digit run; a result is only possible when a digit is there |
| `Text.ParseIntReads` | src/App.jsx:136 | for white space, an optional `-` or `+`, a non-empty digit run and anything not starting with a digit, `parseInt` is the value of the run, negated after `-`; the rest is ignored |
| `Text.ParseIntNaN` | src/App.jsx:175 | when no digit follows the white space and the optional sign, `parseInt` is `NaN`, so an age such as "abc", "-" or "+x" is neither adult nor out of range |
| `Text.ParseDigits` | src/App.jsx:405 | an age made only of digits parses to its decimal value, a natural number |
| `Text.DigitsArePrefix` | src/App.jsx:540 | a string made only of digits is its own leading digit run |
| `Text.ReplaceFirstSpace` | api/server.js:87 | `replace(' ', '_')` changes only the first space, and the length is kept |
| `Text.ReplaceAtFirstSpace` | api/server.js:87 | in `a + " " + b` where `a` has no space, exactly that space becomes `_` |
| `Text.ReplaceWithoutSpace` | api/server.js:87 | a string without a space is left unchanged |
| `Reservar.WriteRecords` | api/reservar.js:72-75 | the final `update` writes nothing when there are no records; otherwise this guest's sizes become the old ones plus the written ones, each written size holds its new record, and every other guest's records are left alone (the rest of the frame is `WriteRecordsFrame`) |
| `Reservar.WriteRecordsFrame` | api/reservar.js:72-75 | the multi-path `update` adds no guest but this one, and only when there are records; this guest's records for sizes not written keep their values |
| `Reservar.RunEntries` | api/reservar.js:46-66 | the loop, one entry at a time: it skips unselected entries, stops for good on a missing or non-positive stock, otherwise takes one and records it; no stock key appears or disappears |
| `Reservar.StoppedStays` | api/reservar.js:54-56 | once the loop has thrown, the later entries change nothing |
| `Reservar.RunEntriesEffect` | api/reservar.js:46-66 | no stock key appears or disappears. Each recorded size had positive stock and lost exactly one; every other size is unchanged. Records are `reservado: true, quantidade: 1` for selected sizes only. A run that completes records every selected size. A run that stops names a selected, out-of-stock size, and the sizes recorded are the selected ones before it |
| `Reservar.SucceedsIffAllInStock` | api/reservar.js:46-59 | a call goes through exactly when every selected size is in stock with a positive count |
| `Reservar.NeverBelowZero` | api/reservar.js:54-59 | one call never takes a non-negative stock below zero |
| `Reservar.PartialFailureLosesStock` | api/reservar.js:46-88 | with one RN and no P left, asking for both takes the last RN and then fails, and no record accounts for it |
| `Reservar.Database.Handle` | api/reservar.js:19-90 | OPTIONS gives 200 and any other non-POST method gives 405, both with no change. A missing gifts object or name gives 400 with no change. A POST runs the loop: on a stop, 500 with "Estoque insuficiente para <size>", the decrements kept and no records. On success, 200 with the records written and the name echoed. Stock keys are kept and a non-negative stock never goes negative |
| `Reservar.Database.Walk` | api/reservar.js:46-70 | the `for` loop leaves the stock, the collected records and the stop point exactly as the one-entry-at-a-time specification says |
| `Estoque.Store.Handle` | api/estoque.js:19-56 | a non-GET method gives 405 with no change. A storage failure gives 500 "Falha ao buscar estoque" with its details and no write. Otherwise the reply is 200 with the stored stock or the defaults, and the defaults are written only when the node was absent; an existing node is never rewritten |
| `Estoque.SecondReadChangesNothing` | api/estoque.js:39-46 | after one successful read the node exists, and a second read returns the same map and writes nothing |
| `ApiServer.Flags` | api/server.js:69-91 | definition of the `updates` object: one `true` per selected size, under the renamed key; its properties are stated by `FlagsRecordSelection` |
| `ApiServer.FlagsRecordSelection` | api/server.js:73-91 | every selected catalogue size is recorded as "Fralda_" plus its suffix; every key recorded is the renaming of some selected key and holds `true`; nothing is recorded exactly when nothing was selected |
| `ApiServer.PresentKey` | api/server.js:87 | `tamanho.replace(' ', '_')` has the length of the size, and the only character that can differ is a space that became `_` |
| `ApiServer.GuestKey` | api/server.js:88 | definition of the path segment under `reservas`: the name, or "undefined" when the body has none |
| `ApiServer.FraldaKey` | api/server.js:87 | "Fralda x" is recorded under "Fralda_x" |
| `ApiServer.CatalogPresentKey` | api/server.js:87 | each of the four sizes is recorded under "Fralda_" plus its suffix |
| `ApiServer.CollectFlags` | api/server.js:69-91 | the loop builds exactly the flags of the selected sizes, and `isUpdated` holds exactly when something was selected |
| `ApiServer.Backend.GetEstoque` | api/server.js:40-51 | returns the stored stock or the defaults, never writes, and a storage failure gives 500 |
| `ApiServer.Backend.Reservar` | api/server.js:57-104 | a missing gifts object gives 400 and a storage failure 500, both with no write. Otherwise the reply is 200. The guest's flags are merged in only when a size was selected, and the stock is outside the frame, so it cannot change |
| `AppServer.DecrementsStep` | app.js:62-67 | walking one more key adds it to `updates` exactly when it is selected and its current total is positive |
| `AppServer.Decrements` | app.js:61-67 | every key of `updates` is a selected size with a positive current total, mapped to one less; and every such size is a key |
| `AppServer.Written` | app.js:58-75 | an existing totals node keeps exactly its keys; an absent one is created holding only selected sizes, each one below its maximum |
| `AppServer.CollectDecrements` | app.js:61-67 | `updates` holds exactly the selected sizes with a positive current total, each one lower, and `hasUpdate` holds exactly when it is non-empty |
| `AppServer.WrittenEffect` | app.js:58-75 | a selected size with a positive current total goes down by exactly one; every other stored size keeps its total; no unselected key appears; non-negative totals stay non-negative |
| `AppServer.UnseededPostLeavesOneSize` | app.js:59-70 | with `totals` absent, a post selecting P writes only P, so the node then lacks the other sizes |
| `AppServer.Server.Init` | app.js:19-24 | the maximum counts are written only when `totals` is absent; existing totals are untouched |
| `AppServer.Server.GetData` | app.js:32-43 | returns the stored guests and the stored totals, or the maximum counts when none are stored |
| `AppServer.Server.PostGuest` | app.js:46-84 | always stores the guest under the fresh id. Missing or empty gifts leave the totals alone and reply "Convidado adicionado". Otherwise the decrements are applied, and nothing is written when none qualify; each case has its own reply text |
| `TotalsServer.TotalGifts` | server.js:17-18 | `TOTAL_GIFTS` is the sum of the maximum counts, 90 |
| `TotalsServer.NewTotals` | server.js:37-41 | definition of `newTotals`: the maximum counts with each selected size one lower; its properties are stated by `NewTotalsBounds` and `ComputeTotals` |
| `TotalsServer.ComputeTotals` | server.js:37-41 | the loop gives a `NaN` exactly when a selected key is not one of the four sizes; otherwise it gives the maximum counts, one lower for each selected size |
| `TotalsServer.NewTotalsBounds` | server.js:38-41 | every size is written; a size is one below its maximum exactly when selected, and otherwise at its maximum |
| `TotalsServer.PostForgetsHistory` | server.js:37-43 | the totals after a post do not depend on the totals before it, and repeating the post changes nothing more |
| `TotalsServer.SecondGuestRestoresFirstGift` | server.js:37-43 | after one guest takes RN and a second takes P, the stored RN total is back at its maximum |
| `TotalsServer.Server.OnTotals` | server.js:21-27 | the listener writes the maximum counts whenever `totals` is empty, and otherwise changes nothing |
| `TotalsServer.Server.GetData` | server.js:51-63 | returns the stored guests and the stored totals, or the maximum counts when none are stored |
| `TotalsServer.Server.PostGuest` | server.js:30-48 | a selected key outside the catalogue throws and nothing is written. Otherwise the recomputed totals overwrite the stored ones (only when gifts is present), the guest is stored and the reply is "Convidado adicionado" |
| `Countdown.SecondsLeft` | src/App.jsx:897-898 | the whole seconds of `max(0, target - current)`: zero for a past target, and otherwise the floor of the difference over 1000 |
| `Countdown.Split` | src/App.jsx:899-902 | the days, hours, minutes and seconds of a number of seconds are within the clock bounds and add back up to it |
| `Countdown.GetDiff` | src/App.jsx:895-908 | all fields are non-negative, with hours < 24 and minutes and seconds < 60; days·86400 + hours·3600 + minutes·60 + seconds is the number of seconds left; all fields are zero once the target has passed |
| `Countdown.SplitUnique` | src/App.js:375-384 | any countdown within the clock bounds that adds up to the seconds left is the one `getDiff` returns |
| `Checkin.SomeBlank` | src/App.jsx:169 | definition: some name is blank after trimming; `Validate` states what it decides |
| `Checkin.SomeAdultWithoutGift` | src/App.jsx:175 | definition: some guest with a parsed age of 18 or more has no selected gift; `Validate` states what it decides |
| `Checkin.Validate` | src/App.jsx:163-179 | an empty list is refused first, then a blank name, then an adult without a gift; the list passes exactly when none of these holds |
| `Checkin.ValidNamesAreNonEmpty` | src/App.jsx:169-196 | on a list that passes, every name sent as `convidado` is non-empty |
| `Checkin.DropIndex` | src/App.jsx:147-149 | the filter removes exactly element `i` and keeps the rest in order; an index out of range changes nothing |
| `Checkin.MergeLaws` | src/App.jsx:142 | spreading is last-wins: an empty patch changes nothing; for each of name, age, gifts and mimo, a patch that has the field sets it and one that lacks it keeps the guest's; two patches in a row act as one combined patch |
| `Checkin.Merge` | src/App.jsx:142 | definition of `{ ...g, ...patch }` on a guest of the list; `MergeLaws` states its laws |
| `Checkin.MergeBody` | src/App.js:30 | definition of `{ ...g, ...patch }` on a guest the server sent back, whose `gifts` may be absent; `MergeBodyLaws` states its laws |
| `Checkin.MergeBodyLaws` | src/App.js:30 | the same laws for such a guest: a patch with `gifts` sets them, and one without keeps the guest's, even when it has none |
| `AppJsx.UsedCount` | src/App.jsx:70-81 | the count of a size is between 0 and the number of guests |
| `AppJsx.UsedCountIsHolders` | src/App.jsx:70-81 | the count of a size is the number of guests whose gifts select it |
| `AppJsx.UsedCountConcat` | src/App.jsx:72-78 | the count for a list made of two lists is the sum of their counts |
| `AppJsx.UsedCountReplace` | src/App.jsx:140-143 | replacing one guest changes each count by what that guest gave up and took |
| `AppJsx.CountGuest` | src/App.jsx:74-76 | the inner loop adds one to exactly the sizes the guest selects and leaves the rest |
| `AppJsx.TotalsUsed` | src/App.jsx:70-81 | `used` has exactly the four sizes, each mapped to the number of guests selecting it, between 0 and the list length |
| `AppJsx.IsBlockedFor` | src/App.jsx:121-133 | an out-of-range index is blocked and a guest holding the size never is. For a catalogue size, blocked means the stock (missing counts as 0) is at most the number of holders and the guest does not hold it. A key outside the sizes is never blocked |
| `AppJsx.AvailableGifts` | src/App.jsx:258-263 | per size, the stock minus the number of holders, or NaN when the stock lacks the size |
| `AppJsx.BlockedIffNoneAvailable` | src/App.jsx:599-615 | for a guest who does not hold the size, the box is blocked exactly when the counter beside it shows NaN or a number that is not positive |
| `AppJsx.AgeRejected` | src/App.jsx:136 | definition of the age guard of `updateGuest`: a non-empty age that parses to above 120 or below 0; `TypedAgeRejected` states it for typed ages |
| `AppJsx.TypedAgeRejected` | src/App.jsx:136 | an age typed in the age box (digits only) is refused exactly when it is above 120 |
| `AppJsx.HandleAdd` | src/App.jsx:505-518 | refused exactly when the name is blank or the age is out of range. Otherwise the new guest has the trimmed, non-blank name, the trimmed age, the four sizes unselected and no mimo |
| `AppJsx.AddKeepsWithinStock` | src/App.jsx:430-435 | adding a guest never lets any size's holders exceed the stock |
| `AppJsx.RemoveKeepsWithinStock` | src/App.jsx:147-149 | removing a guest never lets any size's holders exceed the stock |
| `AppJsx.Toggled` | src/App.jsx:564-568 | toggling a blocked size is a no-op. Otherwise exactly that flag flips, every other flag and field of the guest is kept, and the other guests are untouched |
| `AppJsx.ToggleKeepsWithinStock` | src/App.jsx:564-568 | if no size had more holders than the stock before the toggle, none does after it |
| `AppJsx.RequestIndices` | src/App.jsx:187-188 | definition of the positions a confirmation sends requests for: those of the guests with a selected gift, in list order; `RequestIndicesSpec` states it |
| `AppJsx.RequestIndicesSpec` | src/App.jsx:187-188 | requests go out in increasing list position, one for each guest with a selected gift and for no one else |
| `AppJsx.Sends` | src/App.jsx:187-213 | definition of a confirmation against the reservation handler, guest by guest: no gift skips; an empty name is a 400; otherwise the handler's walk runs on the stock the previous requests left, with that request's own timestamp, a stop being a 500 that keeps its decrements, and a success writing the records; nothing is sent after the first refusal |
| `AppJsx.FailedStays` | src/App.jsx:203-209 | once a request has been refused, the later guests change nothing |
| `AppJsx.SendsEnds` | src/App.jsx:187-213 | a confirmation ends `Sent` after one request per guest with a gift, or `Failed` at a position where the guests before it ended `Sent` and the guests after it changed nothing |
| `AppJsx.SendsOrder` | src/App.jsx:187-213 | the first refused request ends it: its guest has a gift, it is the last one sent, the requests before it are exactly those of the earlier guests with a gift and all were accepted; the refusal is a 400 exactly when the name is empty, and a 500 otherwise |
| `AppJsx.SendsKeepsRecords` | api/reservar.js:72-75 | no request takes a record away: every guest recorded before keeps every size it had |
| `AppJsx.SendsRecordsAccepted` | src/App.jsx:187-213 | every guest whose request was accepted has each size it picked recorded under its name, so earlier guests stay reserved when a later one fails |
| `AppJsx.SendsKeepsStock` | api/reservar.js:46-66 | a confirmation keeps every stock key and never takes a non-negative stock below zero |
| `AppJsx.SendAll` | src/App.jsx:187-213 | each request is handled at its own time; the loop leaves the handler's stock and records, the positions sent and the outcome exactly as `Sends` describes for the whole list |
| `AppJsx.Invitation.UpdateGuest` | src/App.jsx:135-145 | a patch age above 120 or below 0 leaves the list unchanged; otherwise only entry `index` changes, with the patch fields overriding |
| `AppJsx.Invitation.RemoveGuest` | src/App.jsx:147-149 | removes exactly element `i` and keeps the order of the rest |
| `AppJsx.Invitation.AddGuest` | src/App.jsx:430-435 | appends the guest `handleAdd` accepts, and nothing when it refuses |
| `AppJsx.Invitation.Toggle` | src/App.jsx:564-568 | the list becomes the toggled list |
| `AppJsx.Invitation.ConfirmAllAndSend` | src/App.jsx:163-256 | a list that fails validation is refused with its reason and nothing is sent or changed. Otherwise the stock, records, positions sent and outcome are those of `Sends`, and a refused request is always a 500. The list is cleared exactly when every request was accepted |
| `AppJs.ConfirmChecks` | src/App.js:58-74 | the same three checks in the same order, where a missing gifts object counts as no gift |
| `AppJs.Invitation.UpdateGuest` | src/App.js:28-39 | the patch is spread over entry `index` with no age check, and the edited guest is posted to app.js as a new guest, with app.js's effect on the totals |
| `AppJs.Invitation.RemoveGuest` | src/App.js:41-45 | removes exactly element `i`, keeps the order of the rest and sends nothing |
| `AppJs.Invitation.Toggle` | src/App.js:298-301 | flips exactly the chosen flag with no stock check, keeps the other flags and guests, and posts the guest, so the totals become app.js's write for the new gifts. A guest without gifts throws and nothing changes, the totals included |
| `AppJs.EditAfterPickTakesTwo` | src/App.js:28-39 | a guest holding RN is posted again by a later edit; whenever at least two RN are left (stored, or the maximum when `totals` is absent), the two posts take two RN |

## Left out

- The Firebase SDK, Express, Vercel routing and CORS headers. The store is held in maps and each request is one method call. `api/health.js` and `vite.config.js` are not part of this model.
- Concurrency. Each request is one atomic step, so there are no interleavings across `await`s or callbacks. The order in which server.js's two GET listeners fire is not modelled either.
- Storage failures in api/reservar.js, app.js and server.js. The model assumes every store call succeeds, so app.js's "Erro ao ..." replies and the rejected `set` in server.js are not modelled. Storage failures are modelled only for api/estoque.js and api/server.js, as parameters.
- Non-integer values in the store. Stock and totals are integers; a string or object stored there is not modelled.
- Flags in gifts objects. They are reduced to their truthiness.
- A body field missing from the request. `gifts` being absent stands for `null` in app.js and server.js, and for any falsy value in the reservation handlers; the SDK's refusal of `undefined` values is not modelled.
- Names containing `/` or `.`, and the empty name. A guest name is one key. The database splits a path on `/` and drops empty segments: api/server.js would write an empty `convidado` as `reservas//Fralda_P`, that is `reservas/Fralda_P`, while the model writes under the key "". This path handling is not modelled.
- Key order of gifts objects. `Object.entries` and `Object.keys` list integer-like keys first, in ascending order, and then the others in insertion order. The model walks gifts in insertion order. The two differ only for a key such as "7", and the four sizes are not integer-like.
- `Text.ParseInt`: does not read the `0x` hexadecimal prefix that `parseInt` without a radix accepts. The ages the app's inputs produce are digits only.
- `Text.ParseIntReads`: for the same reason it states `ParseInt("0x1A") == Some(0)` (with `d` = "0" and `rest` = "x1A"), where JavaScript gives 26.
- `AppJsx.Invitation.UpdateGuest`, `AppJsx.Toggled`, `AppJsx.Invitation.Toggle`, `AppJs.Invitation.UpdateGuest` and `AppJs.Invitation.Toggle`: these require an index inside the list. Every caller passes the index of a rendered row; JavaScript would extend the array for any other index.
- `AppJsx.Invitation.ConfirmAllAndSend`: clears the list at once rather than one second later. It does not model the WhatsApp message and URL, alerts, `isSending` or the error banner.
- Polling of the stock. Polling every 8 s and its fallback to the defaults on a failed fetch are not modelled; `totals` is set when the `Invitation` is built.
- `localStorage` persistence, rendering, styles, `formatDate`/`formatTime`, and the helpers `openGiftsFor`, `clearGuestList` and `onMimoChange`.
- src/App.js's `handleAdd` and the initial fetch of `/api/data`.
- The `try`/`catch` of `getDiff`, which cannot be reached with integer millisecond instants.
