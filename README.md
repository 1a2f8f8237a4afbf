# Bookmark app: client-side state, modelled in Dafny

The application lets a signed-in user keep a list of URL bookmarks in a hosted
table. Two client components hold state of their own, and this project models
them:

- **The bookmark list** (`components/BookmarkList.tsx`). It keeps a local copy
  of the user's bookmarks. The copy starts as the snapshot the dashboard fetched
  from the server. It is then patched by realtime change events: an INSERT
  prepends the new row, a DELETE filters out every row with the deleted
  identifier, and any other event type is ignored. The delete button only sends
  a remove-by-id request. The row leaves the list only when the DELETE event
  comes back.
- **The bookmark form** (`components/BookmarkForm.tsx`). Its state is the URL
  field, the title field and a loading flag. Submitting does nothing while a
  field is empty. Otherwise it sets the loading flag and sends one insert of
  `{user_id, url, title}`. It clears both fields only if the insert succeeds,
  and it always resets the loading flag.

Layout:

- `bookmark.dfy`, module `Bookmarks`: the bookmark row, a count of rows that
  carry a given identifier, and the subsequence relation.
- `bookmark_list.dfy`, module `BookmarkList`: the change events. It also holds
  the pure updaters `Prepend` and `RemoveId`, the handler `Apply`, the fold
  `ApplyAll` over an event sequence, and the rendering `Render`. The lemmas
  about these functions come next, then the class `Reconciler`. That class
  holds the component's `bookmarks` state and the delete requests it has sent.
- `bookmark_form.dfy`, module `BookmarkForm`: the form state as a value. The
  submit handler is specified by three functions. `Begin` covers the part up
  to the `await`, `Finish` the part after it, and `Submitted` their
  composition. Then come the button's disabled flag and label, and the class
  `Form`. Its fields are the component's three state variables plus the
  insert requests it has sent. Its methods are proved against those functions.

The answer to a remote request is a parameter (`Outcome = Success | Error`).
Each request a component sends is recorded in a `seq` field of its class.

## Model

| member | source | states |
|---|---|---|
| `BookmarkList.Reconciler.constructor` | components/BookmarkList.tsx:21 | the local list starts as exactly the server snapshot, and no delete has been requested |
| `BookmarkList.Prepend` | components/BookmarkList.tsx:40-43 | INSERT gives a list one longer whose head is the new row and whose tail is the old list unchanged; the new row's identifier occurs once more than before |
| `BookmarkList.RemoveId` | components/BookmarkList.tsx:45-50 | after DELETE of `d` no row carries `d`; a row is in the result exactly when it was in the list and its identifier is not `d`; the list never grows |
| `BookmarkList.Apply` | components/BookmarkList.tsx:37-51 | INSERT prepends, DELETE keeps exactly the rows with another identifier, any other event type leaves the list unchanged |
| `BookmarkList.ApplyAll` | components/BookmarkList.tsx:37-51 | the list after the events the channel delivers, handled one at a time: every row in it was in the snapshot or was carried by an INSERT event; events of other types leave the list unchanged; without an INSERT the list can only shrink |
| `BookmarkList.Render` | components/BookmarkList.tsx:78-88 | the empty-state message is shown exactly when the list is empty; otherwise one row per bookmark in list order, keyed by its identifier and showing its title and URL |
| `BookmarkList.RemoveIdMultiplicity` | components/BookmarkList.tsx:47-49 | exact removal: every copy of a row with identifier `d` goes, and every other row keeps its multiplicity |
| `BookmarkList.RemoveIdLength` | components/BookmarkList.tsx:47-49 | DELETE shortens the list by exactly the number of rows that carry `d` |
| `BookmarkList.RemoveIdSubsequence` | components/BookmarkList.tsx:47-49 | the rows kept by DELETE stay in their original relative order (the result is a subsequence of the input) |
| `BookmarkList.RemoveIdConcat` | components/BookmarkList.tsx:47-49 | filtering a concatenation filters each part and keeps the parts in order |
| `BookmarkList.RemoveIdAbsent` | components/BookmarkList.tsx:47-49 | DELETE leaves the list unchanged if and only if no row carries the deleted identifier |
| `BookmarkList.RemoveIdIdempotent` | components/BookmarkList.tsx:45-50 | applying the same DELETE twice is the same as applying it once |
| `BookmarkList.RemoveIdCommutes` | components/BookmarkList.tsx:45-50 | two DELETE events give the same list whichever arrives first |
| `BookmarkList.InsertKeepsDuplicates` | components/BookmarkList.tsx:42 | INSERT does not de-duplicate: if a row with the new row's identifier is present, the identifier occurs at least twice afterwards |
| `BookmarkList.InsertThenDelete` | components/BookmarkList.tsx:40-50 | an INSERT followed by the DELETE of its identifier leaves the old list with that identifier filtered out |
| `BookmarkList.ApplyAllConcat` | components/BookmarkList.tsx:37-51 | handling two batches of events one after the other is the same as handling their concatenation |
| `BookmarkList.AbsentStaysAbsent` | components/BookmarkList.tsx:37-51 | an identifier absent from the list stays absent through any events except an INSERT of a row with that identifier |
| `BookmarkList.DeleteIsFinal` | components/BookmarkList.tsx:45-50 | after a DELETE of `d`, no row carries `d` until an INSERT brings one back |
| `BookmarkList.Reconciler.OnChange` | components/BookmarkList.tsx:37-51 | one realtime event replaces the local list by its update and sends no request |
| `BookmarkList.Reconciler.HandleDelete` | components/BookmarkList.tsx:63-76 | the delete button records one remove-by-id request for that identifier and leaves the local list unchanged |
| `BookmarkList.Reconciler.CurrentView` | components/BookmarkList.tsx:78-84 | the component shows the empty-state message exactly when its list is empty |
| `BookmarkForm.Ready` | components/BookmarkForm.tsx:15 | the handler's guard (return when either field is falsy) passes exactly when both fields are non-empty (the empty string is the only falsy string); a form in its initial state, or as a successful submission leaves it, never passes it |
| `BookmarkForm.Begin` | components/BookmarkForm.tsx:15-27 | with an empty field the handler returns with no request and no state change; otherwise it sets loading, keeps both fields, and sends one row with the form's user and the current URL and title |
| `BookmarkForm.Finish` | components/BookmarkForm.tsx:29-36 | after the answer loading is false; on success both fields are empty, on error both keep their values |
| `BookmarkForm.Submitted` | components/BookmarkForm.tsx:12-37 | a request is sent if and only if both fields are non-empty, carrying exactly them and the user; with an empty field nothing changes; on success the form is back to its initial state, on error only loading changes |
| `BookmarkForm.ButtonDisabled` | components/BookmarkForm.tsx:73 | the submit button is disabled exactly while `loading` is true, and exactly when its label is the busy text |
| `BookmarkForm.ButtonLabel` | components/BookmarkForm.tsx:76 | the label is one of "Adding..." and "Add Bookmark", and it is "Adding..." exactly while `loading` is true |
| `BookmarkForm.ButtonDuringAndAfterSubmit` | components/BookmarkForm.tsx:73-76 | the button is disabled and reads "Adding..." while the request is in flight, and is enabled and reads "Add Bookmark" once the handler has finished, whatever the outcome |
| `BookmarkForm.SuccessThenResubmit` | components/BookmarkForm.tsx:15-34 | after a successful submission, submitting again sends nothing and leaves the initial state |
| `BookmarkForm.ErrorThenResubmit` | components/BookmarkForm.tsx:15-30 | after a failed submission the fields are kept, so submitting again sends the same row |
| `BookmarkForm.Form.constructor` | components/BookmarkForm.tsx:7-9 | the form starts with an empty URL, an empty title, loading false and no requests sent |
| `BookmarkForm.Form.SetTitle` | components/BookmarkForm.tsx:49 | typing in the title field replaces the title and nothing else |
| `BookmarkForm.Form.SetUrl` | components/BookmarkForm.tsx:64 | typing in the URL field replaces the URL and nothing else |
| `BookmarkForm.Form.BeginSubmit` | components/BookmarkForm.tsx:12-27 | the handler up to its `await` does what `Begin` says; when it sends the request, loading is true and exactly that one row is appended to the sent requests |
| `BookmarkForm.Form.FinishSubmit` | components/BookmarkForm.tsx:29-36 | the handler after its `await` does what `Finish` says to the state current at that moment |
| `BookmarkForm.Form.Submit` | components/BookmarkForm.tsx:12-37 | the whole handler does what `Submitted` says, and the sent requests grow by exactly the request it returns, if any |

## Left out

- The backend client itself is not modelled: its construction, the table calls (`insert`, `delete`, `select`) and authentication (`getUser`, `signOut`, OAuth sign-in). A remote call is a recorded request plus an `Outcome` parameter.
- The realtime subscription is not modelled: its setup and teardown, its channel status, and its server-side `user_id` filter. Events are the sequence the channel delivers. The list component's `userId` prop serves only that filter, so it does not appear.
- The dashboard and landing pages are not part of this model. That covers redirects, the OAuth flow, server rendering, and the newest-first order of the snapshot, which the database query produces.
- Asynchronous interleaving is not modelled. Events and user actions are applied one at a time. `BeginSubmit` and `FinishSubmit` let a caller interleave field edits or list events between the two halves of the handler. `Submit` and `Submitted` describe only the case where nothing happens in between.
- The answer to a delete request is not modelled. Both branches of the source only log, so the answer changes no state.
- The browser's own form validation is not modelled. The `required` attributes on both inputs and the URL input's `type="url"` mean the browser fires the submit event only when both fields are filled and the URL parses as an absolute URL. The model's handler can be called in any state, so its empty-field guard is the only check it captures.
- An insert that never answers is not a separate case. It is `BeginSubmit` with no `FinishSubmit` after it, which leaves `loading` true and the button disabled for good. "Whatever the outcome" in the contracts means either answer, `Success` or `Error`, not a missing one.
- What appears on screen when two rows share an identifier is not modelled. INSERT does not de-duplicate, and then the rendered rows carry the same key. `Render` describes the element list the component returns. How React displays children with duplicate keys is undefined, so the screen may not match that list.
- Logging (`console.log`, `console.error`), JSX markup and CSS classes are not modelled. The form's `preventDefault` call is left out as well.
