# User management dashboard — Dafny model

A model of the logic of a browser dashboard that loads user records from a
remote endpoint once, shows them as cards, and lets the viewer edit, delete
and "like" them locally (nothing is written back). The model covers:

- the `useUsers` store (`use_users.dfy`, module `UseUsers`): the state
  `(users, loading, error)`, the load as a transition whose network outcome
  is an input, and the pure updaters `updateUser`, `deleteUser` and
  `toggleLike` over the record sequence;
- the edit modal (`edit_user_modal.dfy`, module `EditUserModal`): flattening a
  record into the ten form fields, the validation gate, and merging the fields
  back into a nested record;
- the user card (`user_card.dfy`, module `UserCard`, with the JavaScript
  string operations in `text.dfy`, module `Text`): avatar initials, the
  one-line address, the like label, and what each card button asks for;
- the list page (`user_list.dfy`, module `UserList`): the render priority
  (spinner, error, empty, grid) and the page state — the record being edited,
  whether the modal is open, the form, the delete confirmation — driven one
  event at a time, with an invariant kept by every event.

The record type (`user_record.dfy`, module `UserRecord`) is rebuilt from the
fields the code reads; `src/types/User` is not part of this model. The nested
keys the upstream data carries but the form does not show (`address.geo`,
`company.catchPhrase`, `company.bs`) are optional fields, so that the edit
merge visibly drops them. `likeCount` is optional because the code reads it as
`likeCount || 0`. The email-format rule of the form library is a parameter
`validEmail: string -> bool`; `Math.random()` draws are a parameter sequence of
reals in [0, 1).

Notes on what the code does that a reader might not expect:

- on a failed load the code sets the error and leaves `users` as they were (on
  the first load they are still empty); it does not clear them;
- `deleteUser` removes every record with the id; a delete shortens the list by
  one only when ids are unique (`DeleteRemovesOne`);
- the error view is chosen by JavaScript truthiness, so a failure whose
  message is empty shows the empty view, not the error (`FirstLoadView`);
- nothing ever resets `error`, so once set it stays set (`ErrorIsSticky`).

## Model

| member | source | states |
|---|---|---|
| UseUsers.InitialStore | src/hooks/useUsers.ts:5-7 | the store starts with no users, loading, and no error |
| UseUsers.UpdateUser | src/hooks/useUsers.ts:37-43 | same length; each record with the updated id becomes the updated record, every other record is kept in place |
| UseUsers.UpdateAbsentIsNoop | src/hooks/useUsers.ts:39-41 | when no record has the updated id the list is unchanged |
| UseUsers.UpdateKeepsIds | src/hooks/useUsers.ts:39-41 | the id column is unchanged, so unique ids stay unique |
| UseUsers.UpdateThenFind | src/hooks/useUsers.ts:37-43 | after an update of a present id, looking that id up yields the updated record |
| UseUsers.UpdateWithStoredRecordIsNoop | src/hooks/useUsers.ts:39-41 | with unique ids, writing back a stored record changes nothing |
| UseUsers.DeleteUser | src/hooks/useUsers.ts:45-47 | no kept record has the id; a record is kept iff it was present with another id; length drops by the number of matches; the result is an order-preserving subsequence |
| UseUsers.DeleteAbsentIsNoop | src/hooks/useUsers.ts:46 | deleting an absent id is a no-op |
| UseUsers.DeleteIdempotent | src/hooks/useUsers.ts:46 | deleting the same id twice equals deleting it once |
| UseUsers.DeleteRemovesOne | src/hooks/useUsers.ts:46 | with unique ids, deleting a present id shortens the list by exactly one |
| UseUsers.Toggled | src/hooks/useUsers.ts:53-57 | the flag flips, the count (absent read as 0) moves by +1 when it becomes liked and -1 when it becomes unliked, every other field is kept |
| UseUsers.ToggleLike | src/hooks/useUsers.ts:49-61 | same length; records with the id are toggled, the others are kept in place |
| UseUsers.ToggleLikeFrame | src/hooks/useUsers.ts:49-60 | ids and order are kept and only `liked` and `likeCount` of any record can differ |
| UseUsers.ToggleTwice | src/hooks/useUsers.ts:55-56 | toggling twice restores every flag and numeric count, and the whole list when every count was present |
| UseUsers.ToggleKeepsValidLikes | src/hooks/useUsers.ts:55-56 | toggling keeps count >= 0 and liked implies count >= 1 on every record |
| UseUsers.ToggleAbsentIsNoop | src/hooks/useUsers.ts:51-58 | toggling an absent id changes nothing |
| UseUsers.ErrorMessage | src/hooks/useUsers.ts:31 | an Error's own message, otherwise 'An error occurred' |
| UseUsers.FailureMessage | src/hooks/useUsers.ts:17-31 | a non-ok response gives 'Failed to fetch users'; a rejected fetch or body read gives the thrown Error's message, or 'An error occurred' when the thrown value is not an Error |
| UseUsers.InitialLikeCount | src/hooks/useUsers.ts:26 | the floor of a draw in [0,1) times 100 lies in [0,100) |
| UseUsers.WithLikes | src/hooks/useUsers.ts:23-27 | one record per received record, each unliked with a present count in [0,100) and otherwise as received |
| UseUsers.FreshRecordsAreValid | src/hooks/useUsers.ts:23-27 | freshly loaded records satisfy the like invariant |
| UseUsers.StartLoad | src/hooks/useUsers.ts:15 | loading becomes true, users and error are kept |
| UseUsers.SettleLoad | src/hooks/useUsers.ts:16-34 | loading ends false; success replaces the users by fresh copies of the received ones and keeps the error; failure keeps the users and sets the failure message |
| UseUsers.FetchUsers | src/hooks/useUsers.ts:13-35 | loading ends false; success keeps the error and replaces the users by the received records in order, each unliked with a count in [0,100) and otherwise as received, satisfying the like invariant; failure keeps the users and sets the failure message; a set error stays set |
| UseUsers.ErrorIsSticky | src/hooks/useUsers.ts:13-35 | neither the start nor the end of a load turns a set error back into none |
| UseUsers.FirstLoad | src/hooks/useUsers.ts:5-35 | from the initial state a failure leaves no users and the failure message; a success leaves one valid record per received one and no error |
| UserRecord.LikeCount | src/components/UserCard.tsx:63 | an absent count reads as 0, a present one as itself |
| UserRecord.Find | src/components/UserList.tsx:23 | finds a record iff one has the id; the found record has the id and no earlier record does |
| UserRecord.FindUnique | src/components/UserList.tsx:23 | with unique ids, the lookup returns the one record with that id |
| Text.Split | src/components/UserCard.tsx:34 | at least one piece, no piece contains the separator, joining the pieces with it gives the input back |
| Text.CharAt0 | src/components/UserCard.tsx:35 | the first character, or "" for an empty piece |
| Text.ToUpper | src/components/UserCard.tsx:37 | same length, each character upper-cased (ASCII) |
| Text.Prefix | src/components/UserCard.tsx:38 | a prefix of the input of length min(n, length) |
| Text.FirstCharsOfSplit | src/components/UserCard.tsx:33-36 | first characters of the space-separated pieces equal the first characters of the words |
| Text.FirstCharsOfSplitTail | src/components/UserCard.tsx:33-36 | the pieces after the first contribute the starts of the words after the first word |
| Text.WordStartsDoubledSpace | src/components/UserCard.tsx:34-35 | doubling a space does not change the word starts |
| Text.WordStartsTrailingSpace | src/components/UserCard.tsx:34-35 | a trailing space does not change the word starts |
| UserCard.Initials | src/components/UserCard.tsx:32-39 | at most two characters: the first two upper-cased word starts of the name |
| UserCard.InitialsOfEmptyName | src/components/UserCard.tsx:33-38 | an empty name gives "" |
| UserCard.InitialsOfOneWord | src/components/UserCard.tsx:33-38 | a one-word name gives its upper-cased first character |
| UserCard.InitialsOfTwoOrMoreWords | src/components/UserCard.tsx:38 | two or more words give the first characters of the first two words only |
| UserCard.InitialsIgnoreExtraSpaces | src/components/UserCard.tsx:34-35 | doubled, leading and trailing spaces add no characters |
| UserCard.InitialsExample | src/components/UserCard.tsx:32-39 | 'Ann  Lee' gives 'AL' |
| UserCard.AddressLine | src/components/UserCard.tsx:130 | the line is the four fields plus seven separator characters, starting with the suite and ending with the zip code |
| UserCard.AddressLineRoundTrip | src/components/UserCard.tsx:130 | the line `suite, street, city - zipcode` reads back to the four fields when suite and street have no comma and the city no hyphen |
| UserCard.LikeLabel | src/components/UserCard.tsx:63 | the label is the count or 0 when absent; under the like invariant it is never negative and at least 1 when liked |
| UserCard.LikeLabelFollowsToggles | src/components/UserCard.tsx:57-63 | each click on the like button moves the label by one in the direction of the new flag, two clicks restore it, and a freshly loaded card shows a label in [0,100) |
| UserCard.CardIntent | src/components/UserCard.tsx:52-83 | like and delete pass the card's own id, edit passes the card's own record |
| EditUserModal.BlankForm | src/components/EditUserModal.tsx:67-70 | the reset form fails the required-field check |
| EditUserModal.Populate | src/components/EditUserModal.tsx:20-35 | the form is filled from the record only when a record is given and the modal is visible, otherwise left as it was |
| EditUserModal.Merge | src/components/EditUserModal.tsx:41-57 | id, liked and likeCount come from the original; reading the ten fields back gives the form values; the hidden nested keys are dropped |
| EditUserModal.MergeKeepsOnlyIdAndLikes | src/components/EditUserModal.tsx:41-57 | originals agreeing on id and like state give the same saved record |
| EditUserModal.UneditedRoundTrip | src/components/EditUserModal.tsx:22-57 | saving an unedited form keeps the ten fields; the whole record comes back iff it has no hidden nested keys |
| EditUserModal.Validate | src/components/EditUserModal.tsx:100-210 | no errors iff all ten fields are non-empty and the email passes the format rule; every empty field reports its own required message, and a non-empty malformed email reports 'Please enter a valid email' |
| EditUserModal.FromUser | src/components/EditUserModal.tsx:22-33 | the populated form passes the required check iff the record's ten shown fields are all non-empty |
| EditUserModal.AllPresentByField | src/components/EditUserModal.tsx:100-210 | the required check passes iff each of the ten fields is non-empty |
| EditUserModal.RequiredMessage | src/components/EditUserModal.tsx:103-207 | every required-rule message starts with 'Please enter ' and differs from the email-format message |
| EditUserModal.FieldErrors | src/components/EditUserModal.tsx:100-210 | at most one error per field; none iff the field is non-empty and, for the email, well formed; an empty field reports its required message; only the email can report the format message |
| EditUserModal.HandleSave | src/components/EditUserModal.tsx:37-65 | a record is saved iff there is a record and the form validates, and it is the merge; an invalid form gives 'Please fill in all required fields' |
| EditUserModal.SaveUnedited | src/components/EditUserModal.tsx:20-61 | populating from a record and saving at once saves its ten fields, id and like state unchanged |
| UserList.RenderView | src/components/UserList.tsx:54-123 | spinner iff loading; else error iff the error is truthy; else empty iff no users; else one card per user in store order |
| UserList.Truthy | src/components/UserList.tsx:67 | the error is truthy iff it is present with a non-empty message |
| UserList.InitialPage | src/components/UserList.tsx:13-15 | the page mounts with the store's initial state (no users, loading, no error), nothing edited, the modal and dialog closed, a form that fails validation, and the spinner showing |
| UserList.HandleEdit | src/components/UserList.tsx:17-20 | the record is set, the modal opens, and the form is filled from the record |
| UserList.CloseModal | src/components/UserList.tsx:49-52 | no record is edited and the modal is closed, nothing else changes |
| UserList.HandleDelete | src/components/UserList.tsx:22-43 | the dialog opens for the given id and shows the name of a record with that id, or no name iff none has it; nothing else changes |
| UserList.Step | src/components/UserList.tsx:13-130 | only the load changes loading or error, and a set error stays set |
| UserList.InitialPageInv | src/components/UserList.tsx:13-15 | the initial page satisfies the page invariant |
| UserList.StepKeepsInv | src/components/UserList.tsx:14-52 | every enabled event keeps: modal open iff a record is edited, like invariant on all and on the edited record, unique ids, nothing stored or open while loading |
| UseUsers.DeleteKeepsUniqueIds | src/hooks/useUsers.ts:46 | deleting keeps ids unique |
| UseUsers.FreshLoadKeepsIds | src/hooks/useUsers.ts:23-27 | the loaded records keep the received ids in order |
| UserList.LikeButtonToggles | src/components/UserList.tsx:118 | the like button toggles the card's own id and changes nothing else on the page |
| UserList.EditButtonOpensEditor | src/components/UserList.tsx:116 | the edit button opens the editor on the card's own record, fills the form from it, and leaves the store alone |
| UserList.DeleteButtonOnlyAsks | src/components/UserList.tsx:22-43 | the delete button opens the dialog for the card's id and changes no record |
| UserList.ConfirmDeletes | src/components/UserList.tsx:39-41 | OK deletes exactly the dialog's id, closes the dialog, leaves the modal state alone |
| UserList.DismissChangesNothing | src/components/UserList.tsx:25-42 | dismissing the dialog only closes it |
| UserList.RecordsShrinkOnlyOnConfirm | src/components/UserList.tsx:22-47 | under the invariant, only the dialog's OK can remove records |
| UserList.SaveForwardsMergedRecord | src/components/UserList.tsx:45-47 | a valid save passes the merged record to the update unchanged and closes the modal; an invalid save changes nothing |
| UserList.CancelChangesNoRecord | src/components/EditUserModal.tsx:67-70 | cancel resets the form and closes the modal without changing any record |
| UserList.EditThenSaveUnchanged | src/components/EditUserModal.tsx:20-61 | opening a valid record without hidden nested keys and saving at once leaves the store unchanged |
| UserList.FirstLoadView | src/components/UserList.tsx:54-86 | after the first load: grid of all loaded records, empty view for none, the error text for a failure with a message, the empty view for one without |

## Left out

- Network I/O: the request, its fixed URL, the status check and JSON parsing are an input `FetchResult` (response with `ok` and a body that is a user array or unreadable, or a rejection).
- `Math.random()`: draws are reals in [0, 1) and `Math.floor` is the real floor; IEEE floating point is not modelled.
- React scheduling: `useState`, `useEffect`, async/await and updater batching; every event is one sequential step on an explicit state, and the edit effect runs in the same step as `handleEdit`.
- `refetch`: the hook exposes it but the list page never calls it, so the page model has exactly one load; `StartLoad`/`SettleLoad` describe a repeated load at store level.
- Form library internals: the exact email pattern (a parameter), toast messages (only the rejection toast 'Please fill in all required fields' is returned; the success toast 'User updated successfully!' is not modelled), that a field without a value is `undefined` rather than "" (both fail the required rule), and what `destroyOnClose` does to the form's values (the form is left as it was after a save).
- Modal masking and dialog stacking: card buttons are taken to be unreachable while the edit modal or the confirm dialog is open, so one confirm dialog at a time is modelled.
- `Enabled` assumes a successful response carries unique ids; the code does not check this.
- `toUpperCase` beyond ASCII: other characters are left as they are (JavaScript would upper-case them, sometimes into two characters), and strings are sequences of characters, not UTF-16 code units.
- A `likeCount` that is not a number (`NaN`, a string) is not modelled; `|| 0` treats a count of 0 like an absent one, which gives the same value.
- Styling, layout, icons, tooltips and `src/App.tsx` (theme only).
